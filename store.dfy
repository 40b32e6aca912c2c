/**
 * The log object: a file name that writes append to, reads scan, and rotation renames.
 * The host's file system is an object holding a map from paths to contents.
 */
module Store {
  import opened Bytes
  import opened Zlib
  import opened Framing
  import opened Naming

  /** The files of the host, by path. */
  class FileSystem {
    var files: map<string, seq<byte>>

    constructor (initial: map<string, seq<byte>>)
      ensures files == initial
    {
      files := initial;
    }
  }

  /** What `open(path, "ab")` finds: the file's bytes, or nothing for a file it creates. */
  function Contents(files: map<string, seq<byte>>, path: string): seq<byte>
  {
    if path in files then files[path] else []
  }

  /** `os.rename(from, to)` after `from` was opened for appending: `to` takes its bytes, `from` is gone. */
  function Renamed(files: map<string, seq<byte>>, from: string, to: string): (r: map<string, seq<byte>>)
    requires from != to
    ensures from !in r && to in r && r[to] == Contents(files, from)
    ensures forall p | p != from && p != to :: (p in r <==> p in files) && (p in r ==> r[p] == files[p])
  {
    (files - {from})[to := Contents(files, from)]
  }

  /** Creating `from` (if need be) before renaming it changes nothing about the rename. */
  lemma RenameOpened(files: map<string, seq<byte>>, from: string, to: string)
    requires from != to
    ensures Renamed(files[from := Contents(files, from)], from, to) == Renamed(files, from, to)
  {
  }

  class GZLog {
    /** The path of the current file: the live log, or its archive after `Rotate`. */
    var name: string

    constructor (fn: string)
      ensures name == fn
    {
      name := fn;
    }

    /**
     * `write`: compress the record at level 2, frame it, and append the frame to the
     * current file (creating it). A compressed record of 2^32 bytes or more makes the
     * packing fail before the file is opened, so nothing changes.
     */
    method Write(fs: FileSystem, zlib: Codec, record: seq<byte>) returns (r: Result<()>)
      modifies fs
      ensures var z := zlib.compress(record, Level);
              if |z| < U32Limit then
                r == Ok(()) &&
                fs.files == old(fs.files)[name := Contents(old(fs.files), name) + FrameBytes(Canonical(z))]
              else
                r == Err(StructError) && fs.files == old(fs.files)
    {
      var z := zlib.compress(record, Level);
      var framed := Encode(z);
      if framed.Err? {
        return Err(framed.error);
      }
      fs.files := fs.files[name := Contents(fs.files, name) + framed.value];
      r := Ok(());
    }

    /**
     * `read(skip)`: walk the current file with a cursor, yielding each record's
     * decompressed payload after the first `skip`. Opening a missing file fails.
     */
    method Read(fs: FileSystem, zlib: Codec, skip: int) returns (r: Result<seq<seq<byte>>>)
      ensures name !in fs.files ==> r == Err(NoSuchFile)
      ensures name in fs.files ==> r == Ok(ReadLog(zlib, fs.files[name], skip))
    {
      if name !in fs.files {
        return Err(NoSuchFile);
      }
      var data := fs.files[name];
      var out: seq<seq<byte>> := [];
      var pos: nat := 0;
      var idx: nat := 0;
      ghost var toSkip: nat := if skip > 0 then skip else 0;
      while true
        invariant toSkip == if idx < skip then skip - idx else 0
        invariant out + Scan(zlib, data, pos, toSkip) == ReadLog(zlib, data, skip)
        decreases |data| - pos
      {
        ghost var start := pos;
        var lenBytes := ReadAt(data, pos, 4);
        pos := pos + |lenBytes|;
        if |lenBytes| < 4 {
          assert Scan(zlib, data, start, toSkip) == [] by {
            ScanStopped(zlib, data, start, toSkip);
          }
          assert out + [] == out;
          return Ok(out);
        }
        var len := Unpack(lenBytes);
        ghost var next := start + 4 + 1 + len + 5;
        pos := pos + 1;
        if idx < skip {
          assert Scan(zlib, data, start, toSkip) == Scan(zlib, data, next, toSkip - 1) by {
            ScanSkipped(zlib, data, start, len, next, toSkip);
          }
          pos := pos + len;
          toSkip := toSkip - 1;
        } else {
          var z := ReadAt(data, pos, len);
          pos := pos + |z|;
          if |z| != len {
            assert Scan(zlib, data, start, 0) == [] by {
              ScanCutShort(zlib, data, start, len);
            }
            assert out + [] == out;
            return Ok(out);
          }
          ghost var later := Scan(zlib, data, next, 0);
          assert Scan(zlib, data, start, 0) == [zlib.decompress(z)] + later by {
            ScanYielded(zlib, data, start, len, next, z);
          }
          assert (out + [zlib.decompress(z)]) + later == out + ([zlib.decompress(z)] + later);
          out := out + [zlib.decompress(z)];
        }
        pos := pos + 5;
        assert pos == next;
        idx := idx + 1;
      }
    }

    /**
     * `rotate`: unless the name is itself `.` and digits, create the file if need be,
     * rename it to the next numbered archive name among `listing` (the paths the
     * sibling glob sees), and make that the current name.
     */
    method Rotate(fs: FileSystem, listing: seq<string>)
      modifies this, fs
      ensures ArchivedName(old(name)) ==> name == old(name) && fs.files == old(fs.files)
      ensures !ArchivedName(old(name)) ==>
                name == NextName(old(name), listing) && name !in listing &&
                fs.files == Renamed(old(fs.files), old(name), name)
    {
      if ArchivedName(name) {
        return;
      }
      var created := fs.files[name := Contents(fs.files, name)];
      assert Contents(created, name) == Contents(fs.files, name);
      fs.files := created;
      var nextId := NextId(name, listing);
      var nextName := Archive(name, Pad3(nextId));
      NextNameFresh(name, listing);
      RenameOpened(old(fs.files), name, nextName);
      fs.files := Renamed(created, name, nextName);
      name := nextName;
    }
  }
}
