/**
 * The two usage scenarios the package's unit tests exercise, stated as methods that drive the model:
 * ten writes of one record, then reading, skipping and rotating.
 */
module Scenarios {
  import opened Bytes
  import opened Zlib
  import opened Framing
  import opened Naming
  import opened Store

  /** `n` copies of the record `t`. */
  function Copies(t: seq<byte>, n: nat): (rs: seq<seq<byte>>)
    ensures |rs| == n && forall i | 0 <= i < n :: rs[i] == t
  {
    seq(n, _ => t)
  }

  /** Ten writes of `t` into the file `fn`, which starts out empty: afterwards it holds the log of ten copies. */
  method WriteTen(fs: FileSystem, log: GZLog, zlib: Codec, t: seq<byte>)
    requires |zlib.compress(t, Level)| < U32Limit
    requires fs.files == map[log.name := []]
    modifies fs
    ensures Fits(zlib, Copies(t, 10))
    ensures fs.files == map[log.name := Log(zlib, Copies(t, 10))]
  {
    var i := 0;
    assert Log(zlib, Copies(t, 0)) == [];
    while i < 10
      invariant 0 <= i <= 10
      invariant fs.files == map[log.name := Log(zlib, Copies(t, i))]
    {
      var r := log.Write(fs, zlib, t);
      assert Copies(t, i + 1) == Copies(t, i) + [t];
      LogAppend(zlib, Copies(t, i), t);
      i := i + 1;
    }
  }

  /** Ten writes, then `read()` gives the ten records and `read(5)` the last five. */
  method WriteThenRead(zlib: Codec, fn: string, t: seq<byte>)
      returns (all: Result<seq<seq<byte>>>, rest: Result<seq<seq<byte>>>)
    requires Lossless(zlib) && |zlib.compress(t, Level)| < U32Limit
    ensures all.Ok? && |all.value| == 10 && forall i | 0 <= i < 10 :: all.value[i] == t
    ensures rest.Ok? && |rest.value| == 5 && forall i | 0 <= i < 5 :: rest.value[i] == t
  {
    var fs := new FileSystem(map[fn := []]);
    var log := new GZLog(fn);
    WriteTen(fs, log, zlib, t);
    all := log.Read(fs, zlib, 0);
    ReadLogRoundTrip(zlib, Copies(t, 10), 0);
    rest := log.Read(fs, zlib, 5);
    ReadLogRoundTrip(zlib, Copies(t, 10), 5);
  }

  /**
   * Ten writes, then `rotate()` with no numbered siblings: the log is now `fn.001`,
   * that file exists, and reading it gives the ten records.
   */
  method WriteThenRotate(zlib: Codec, fn: string, t: seq<byte>)
      returns (rotated: string, present: bool, all: Result<seq<seq<byte>>>)
    requires Lossless(zlib) && |zlib.compress(t, Level)| < U32Limit
    requires !ArchivedName(fn)
    ensures rotated == Archive(fn, "001") && present
    ensures all.Ok? && |all.value| == 10 && forall i | 0 <= i < 10 :: all.value[i] == t
  {
    var fs := new FileSystem(map[fn := []]);
    var log := new GZLog(fn);
    WriteTen(fs, log, zlib, t);
    log.Rotate(fs, []);
    FirstArchive(fn);
    rotated := log.name;
    present := rotated in fs.files;
    all := log.Read(fs, zlib, 0);
    ReadLogRoundTrip(zlib, Copies(t, 10), 0);
  }
}
