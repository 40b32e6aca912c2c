/**
 * The on-disk frame of one record and the reader's view of a log file.
 *
 * A frame is `LEN ++ SEP ++ PAYLOAD ++ TRAILER`: a 4-byte network-order length of the
 * compressed payload, one separator byte, the payload, and five trailing bytes. `write`
 * puts a NUL in the separator and `LEN ++ NUL` in the trailer; the reader looks at
 * neither, so the layout below leaves both free.
 */
module Framing {
  import opened Bytes
  import opened Zlib

  /** `s` without its first `n` elements; empty once `n` runs past the end. */
  function Tail<T>(s: seq<T>, n: int): seq<T>
  {
    if n <= 0 then s else if n >= |s| then [] else s[n..]
  }

  /**
   * `f.read(n)` with the file cursor at `pos`: the next `n` bytes, fewer near the end of
   * the file, none once the cursor has been moved past the end.
   */
  function ReadAt(data: seq<byte>, pos: nat, n: nat): (r: seq<byte>)
    ensures |r| <= n
    ensures pos + n <= |data| ==> r == data[pos..pos + n]
    ensures |r| == n ==> n == 0 || pos + n <= |data|
  {
    if pos >= |data| then [] else if pos + n <= |data| then data[pos..pos + n] else data[pos..]
  }

  datatype Frame = Frame(len: seq<byte>, sep: byte, payload: seq<byte>, trailer: seq<byte>)

  /** The payload length fits the length field, and the trailer is five bytes long. */
  predicate WellFormed(f: Frame)
  {
    |f.len| == 4 && Unpack(f.len) == |f.payload| && |f.trailer| == 5
  }

  predicate AllWellFormed(fs: seq<Frame>)
  {
    forall i | 0 <= i < |fs| :: WellFormed(fs[i])
  }

  function FrameBytes(f: Frame): (b: seq<byte>)
    requires WellFormed(f)
    ensures |b| == |f.payload| + 10
  {
    f.len + [f.sep] + f.payload + f.trailer
  }

  /** The frame `write` produces for the compressed record `z`. */
  function Canonical(z: seq<byte>): (f: Frame)
    requires |z| < U32Limit
    ensures WellFormed(f)
  {
    UnpackPack(|z|);
    Frame(Be32(|z|), 0, z, Be32(|z|) + [0])
  }

  /**
   * The frame construction of `write`: pack the length (which fails past 32 bits),
   * then `length NUL payload length NUL`.
   */
  function Encode(z: seq<byte>): (r: Result<seq<byte>>)
    ensures r.Err? <==> |z| >= U32Limit
    ensures r.Err? ==> r.error == StructError
    ensures r.Ok? ==> r.value == FrameBytes(Canonical(z)) && |r.value| == |z| + 10
    ensures r.Ok? ==> r.value[..4] == r.value[|z| + 5..|z| + 9] && r.value[4] == r.value[|z| + 9] == 0
  {
    match Pack(|z|)
    case Err(e) => Err(e)
    case Ok(len) => Ok(len + [0] + z + len + [0])
  }

  /** A file made of the frames `fs`, one after the other. */
  function Layout(fs: seq<Frame>): seq<byte>
    requires AllWellFormed(fs)
  {
    if fs == [] then [] else FrameBytes(fs[0]) + Layout(fs[1..])
  }

  /** What the reader yields for each frame: its payload, decompressed. */
  function Decoded(z: Codec, fs: seq<Frame>): seq<seq<byte>>
  {
    seq(|fs|, i requires 0 <= i < |fs| => z.decompress(fs[i].payload))
  }

  /**
   * The records `read` yields from `data` with the cursor at `pos`, when `toSkip` more
   * records are to be skipped. A short length field ends the scan; the separator is
   * jumped; a skipped record is jumped over by its declared length without being looked
   * at; a short payload ends the scan; then the 5 trailing bytes are jumped.
   */
  function Scan(z: Codec, data: seq<byte>, pos: nat, toSkip: nat): seq<seq<byte>>
    decreases |data| - pos
  {
    var lenBytes := ReadAt(data, pos, 4);
    if |lenBytes| < 4 then []
    else
      var len := Unpack(lenBytes);
      if toSkip > 0 then Scan(z, data, pos + 4 + 1 + len + 5, toSkip - 1)
      else
        var payload := ReadAt(data, pos + 4 + 1, len);
        if |payload| != len then []
        else [z.decompress(payload)] + Scan(z, data, pos + 4 + 1 + len + 5, 0)
  }

  /** `read(skip)` over a whole file; a skip of zero or less skips nothing. */
  function ReadLog(z: Codec, data: seq<byte>, skip: int): seq<seq<byte>>
  {
    Scan(z, data, 0, if skip > 0 then skip else 0)
  }

  /** Fewer than four bytes at the cursor: the reader stops. */
  lemma ScanStopped(z: Codec, data: seq<byte>, pos: nat, toSkip: nat)
    requires |data| < pos + 4
    ensures Scan(z, data, pos, toSkip) == []
  {
  }

  /** A record at the cursor whose payload is cut short: the reader stops. */
  lemma ScanCutShort(z: Codec, data: seq<byte>, pos: nat, n: nat)
    requires |ReadAt(data, pos, 4)| == 4 && Unpack(ReadAt(data, pos, 4)) == n
    requires |ReadAt(data, pos + 4 + 1, n)| != n
    ensures Scan(z, data, pos, 0) == []
  {
  }

  /** A record at the cursor that is skipped: the cursor jumps past it. */
  lemma ScanSkipped(z: Codec, data: seq<byte>, pos: nat, n: nat, next: nat, toSkip: nat)
    requires |ReadAt(data, pos, 4)| == 4 && Unpack(ReadAt(data, pos, 4)) == n && toSkip > 0
    requires next == pos + 4 + 1 + n + 5
    ensures Scan(z, data, pos, toSkip) == Scan(z, data, next, toSkip - 1)
  {
  }

  /** A record at the cursor whose payload is all there: it is yielded and the cursor jumps past it. */
  lemma ScanYielded(z: Codec, data: seq<byte>, pos: nat, n: nat, next: nat, payload: seq<byte>)
    requires |ReadAt(data, pos, 4)| == 4 && Unpack(ReadAt(data, pos, 4)) == n
    requires ReadAt(data, pos + 4 + 1, n) == payload && |payload| == n
    requires next == pos + 4 + 1 + n + 5
    ensures Scan(z, data, pos, 0) == [z.decompress(payload)] + Scan(z, data, next, 0)
  {
  }

  /** How the reader sees a frame that starts at `|pre|` and is followed by `post`. */
  lemma FrameAt(pre: seq<byte>, f: Frame, post: seq<byte>)
    requires WellFormed(f)
    ensures var data := pre + FrameBytes(f) + post;
            var n := |f.payload|;
            Unpack(ReadAt(data, |pre|, 4)) == n && ReadAt(data, |pre| + 5, n) == f.payload
  {
    var data := pre + FrameBytes(f) + post;
    var n := |f.payload|;
    assert data[|pre|..|pre| + 4] == f.len;
    assert data[|pre| + 5..|pre| + 5 + n] == f.payload;
  }

  /**
   * The reader on a whole frame at `|pre|`, where `next` is the file up to the end of
   * that frame: it yields the payload unless skipping, then moves on to `|next|`.
   */
  lemma ScanWholeFrame(z: Codec, pre: seq<byte>, f: Frame, next: seq<byte>, post: seq<byte>, k: nat)
    requires WellFormed(f) && next == pre + FrameBytes(f)
    ensures Scan(z, next + post, |pre|, k) ==
              if k > 0 then Scan(z, next + post, |next|, k - 1)
              else [z.decompress(f.payload)] + Scan(z, next + post, |next|, 0)
  {
    FrameAt(pre, f, post);
    var data := next + post;
    assert data == pre + FrameBytes(f) + post;
    if k > 0 {
      ScanSkipped(z, data, |pre|, |f.payload|, |next|, k);
    } else {
      ScanYielded(z, data, |pre|, |f.payload|, |next|, f.payload);
    }
  }

  /** One step of the reader, yielding `x` unless skipping, followed by bytes that read as `later`. */
  lemma ScanThen(z: Codec, data: seq<byte>, pos: nat, next: nat, k: nat, k1: nat, x: seq<byte>,
                 later: seq<seq<byte>>)
    requires k1 == if k > 0 then k - 1 else 0
    requires Scan(z, data, pos, k) == if k > 0 then Scan(z, data, next, k - 1) else [x] + Scan(z, data, next, 0)
    requires Scan(z, data, next, k1) == Tail(later, k1)
    ensures Scan(z, data, pos, k) == Tail([x] + later, k)
  {
    TailCons(x, later, k);
    if k == 0 {
      assert Tail(later, 0) == later;
    }
  }

  /** Appending a frame to a file appends its bytes. */
  lemma {:induction false} LayoutAppend(fs: seq<Frame>, f: Frame)
    requires AllWellFormed(fs) && WellFormed(f)
    ensures AllWellFormed(fs + [f])
    ensures Layout(fs + [f]) == Layout(fs) + FrameBytes(f)
  {
    if fs != [] {
      assert (fs + [f])[1..] == fs[1..] + [f];
      LayoutAppend(fs[1..], f);
    }
  }

  lemma DecodedCons(z: Codec, fs: seq<Frame>)
    requires fs != []
    ensures Decoded(z, fs) == [z.decompress(fs[0].payload)] + Decoded(z, fs[1..])
  {
  }

  lemma TailCons<T>(x: T, s: seq<T>, k: int)
    ensures Tail([x] + s, k) == if k > 0 then Tail(s, k - 1) else [x] + s
  {
    if k > 0 && k < |s| + 1 {
      assert ([x] + s)[k..] == s[k - 1..];
    }
  }

  lemma {:induction false} ScanLayoutAt(z: Codec, pre: seq<byte>, fs: seq<Frame>, k: nat)
    requires AllWellFormed(fs)
    ensures Scan(z, pre + Layout(fs), |pre|, k) == Tail(Decoded(z, fs), k)
    decreases |fs|
  {
    if fs == [] {
      assert pre + Layout(fs) == pre;
    } else {
      var f := fs[0];
      var n := |f.payload|;
      var next := pre + FrameBytes(f);
      var k1 := if k > 0 then k - 1 else 0;
      assert pre + Layout(fs) == next + Layout(fs[1..]);
      ScanLayoutAt(z, next, fs[1..], k1);
      ScanWholeFrame(z, pre, f, next, Layout(fs[1..]), k);
      ScanThen(z, next + Layout(fs[1..]), |pre|, |next|, k, k1, z.decompress(f.payload), Decoded(z, fs[1..]));
      DecodedCons(z, fs);
    }
  }

  /**
   * Reading a file of whole frames yields every frame's decompressed payload, in order,
   * with the first `k` left out.
   */
  lemma ScanLayout(z: Codec, fs: seq<Frame>, k: nat)
    requires AllWellFormed(fs)
    ensures Scan(z, Layout(fs), 0, k) == Tail(Decoded(z, fs), k)
  {
    ScanLayoutAt(z, [], fs, k);
    assert [] + Layout(fs) == Layout(fs);
  }

  /** Reading from a cut-off copy of the file: the bytes it gets are a prefix of the whole file's, and all of them when there are enough. */
  lemma ReadAtCut(data: seq<byte>, m: nat, pos: nat, n: nat)
    requires m <= |data|
    ensures var got := ReadAt(data[..m], pos, n);
            var all := ReadAt(data, pos, n);
            |got| <= |all| && got == all[..|got|] && (|got| == n ==> got == all)
  {
  }

  /**
   * Truncation: whatever the bytes, reading a cut-off copy of a file yields a prefix
   * of what reading the whole file yields.
   */
  lemma {:induction false} ScanPrefix(z: Codec, data: seq<byte>, m: nat, pos: nat, k: nat)
    requires m <= |data|
    ensures var got := Scan(z, data[..m], pos, k);
            var all := Scan(z, data, pos, k);
            |got| <= |all| && got == all[..|got|]
    decreases |data| - pos
  {
    var cut := data[..m];
    var lenBytes := ReadAt(cut, pos, 4);
    ReadAtCut(data, m, pos, 4);
    if |lenBytes| < 4 {
      assert Scan(z, cut, pos, k) == [];
    } else {
      var n := Unpack(lenBytes);
      var next := pos + 4 + 1 + n + 5;
      if k > 0 {
        ScanSkipped(z, cut, pos, n, next, k);
        ScanSkipped(z, data, pos, n, next, k);
        ScanPrefix(z, data, m, next, k - 1);
      } else {
        var payload := ReadAt(cut, pos + 4 + 1, n);
        ReadAtCut(data, m, pos + 4 + 1, n);
        if |payload| != n {
          ScanCutShort(z, cut, pos, n);
        } else {
          ScanYielded(z, cut, pos, n, next, payload);
          ScanYielded(z, data, pos, n, next, payload);
          ScanPrefix(z, data, m, next, 0);
          var x := z.decompress(payload);
          var got := Scan(z, cut, next, 0);
          var all := Scan(z, data, next, 0);
          assert ([x] + all)[..1 + |got|] == [x] + all[..|got|];
        }
      }
    }
  }

  /** A cut-off file yields a prefix of what the whole file yields. */
  lemma TruncatedIsPrefix(z: Codec, data: seq<byte>, m: nat, skip: int)
    requires m <= |data|
    ensures var got := ReadLog(z, data[..m], skip);
            var all := ReadLog(z, data, skip);
            |got| <= |all| && got == all[..|got|]
  {
    ScanPrefix(z, data, m, 0, if skip > 0 then skip else 0);
  }

  /** Reading from the start of whole frames followed by any bytes: the frames' records, then whatever follows. */
  lemma {:induction false} ScanLayoutThen(z: Codec, pre: seq<byte>, fs: seq<Frame>, post: seq<byte>)
    requires AllWellFormed(fs)
    ensures Scan(z, pre + Layout(fs) + post, |pre|, 0) ==
              Decoded(z, fs) + Scan(z, pre + Layout(fs) + post, |pre + Layout(fs)|, 0)
    decreases |fs|
  {
    var data := pre + Layout(fs) + post;
    if fs == [] {
      assert pre + Layout(fs) == pre;
    } else {
      var f := fs[0];
      var next := pre + FrameBytes(f);
      assert pre + Layout(fs) == next + Layout(fs[1..]);
      assert data == next + (Layout(fs[1..]) + post);
      assert data == next + Layout(fs[1..]) + post;
      ScanWholeFrame(z, pre, f, next, Layout(fs[1..]) + post, 0);
      ScanLayoutThen(z, next, fs[1..], post);
      DecodedCons(z, fs);
    }
  }

  /** A slice of the part after `pre` is the same slice of that part. */
  lemma SliceAfter<T>(pre: seq<T>, s: seq<T>, i: nat, j: nat)
    requires i <= j <= |s|
    ensures (pre + s)[|pre| + i..|pre| + j] == s[i..j]
  {
  }

  /** How the reader sees a last frame at `|pre|` that keeps its length, separator and payload but loses part of its trailer. */
  lemma TrailerCutAt(pre: seq<byte>, f: Frame, c: nat)
    requires WellFormed(f) && |f.payload| + 5 <= c <= |FrameBytes(f)|
    ensures var data := pre + FrameBytes(f)[..c];
            ReadAt(data, |pre|, 4) == f.len && ReadAt(data, |pre| + 5, |f.payload|) == f.payload &&
            |data| < |pre| + |f.payload| + 10 + 4
  {
    var b := FrameBytes(f);
    var cut := b[..c];
    var n := |f.payload|;
    assert cut[..4] == b[..4] == f.len;
    SliceAfter(pre, cut, 0, 4);
    assert cut[5..5 + n] == b[5..5 + n] == f.payload;
    SliceAfter(pre, cut, 5, 5 + n);
  }

  /** A last frame whose payload is all there yields its record even when its trailing bytes are cut off. */
  lemma ScanTrailerCut(z: Codec, pre: seq<byte>, f: Frame, c: nat)
    requires WellFormed(f) && |f.payload| + 5 <= c <= |FrameBytes(f)|
    ensures Scan(z, pre + FrameBytes(f)[..c], |pre|, 0) == [z.decompress(f.payload)]
  {
    var data := pre + FrameBytes(f)[..c];
    var n := |f.payload|;
    var next := |pre| + n + 10;
    TrailerCutAt(pre, f, c);
    ScanYielded(z, data, |pre|, n, next, f.payload);
    ScanStopped(z, data, next, 0);
    assert [z.decompress(f.payload)] + [] == [z.decompress(f.payload)];
  }

  /** A file of frames is the frames before `j` followed by the frames from `j` on. */
  lemma {:induction false} LayoutSplit(fs: seq<Frame>, j: nat)
    requires AllWellFormed(fs) && j <= |fs|
    ensures Layout(fs) == Layout(fs[..j]) + Layout(fs[j..])
  {
    if j > 0 {
      assert fs[..j][1..] == fs[1..][..j - 1];
      assert fs[j..] == fs[1..][j - 1..];
      LayoutSplit(fs[1..], j - 1);
    } else {
      assert fs[j..] == fs;
    }
  }

  /** The separators and trailers are never inspected: only the payloads decide what is read. */
  lemma SeparatorsIgnored(z: Codec, fs: seq<Frame>, gs: seq<Frame>, k: nat)
    requires AllWellFormed(fs) && AllWellFormed(gs) && |fs| == |gs|
    requires forall i | 0 <= i < |fs| :: fs[i].payload == gs[i].payload
    ensures Scan(z, Layout(fs), 0, k) == Scan(z, Layout(gs), 0, k)
  {
    ScanLayout(z, fs, k);
    ScanLayout(z, gs, k);
    assert Decoded(z, fs) == Decoded(z, gs);
  }

  /**
   * Skipped records are jumped over, never decompressed: what the first `k` frames
   * carry, and even how long they are, does not change what `read(k)` yields.
   */
  lemma SkippedPayloadsIgnored(z: Codec, fs: seq<Frame>, gs: seq<Frame>, k: nat)
    requires AllWellFormed(fs) && AllWellFormed(gs) && |fs| == |gs|
    requires forall i | k <= i < |fs| :: fs[i].payload == gs[i].payload
    ensures Scan(z, Layout(fs), 0, k) == Scan(z, Layout(gs), 0, k)
  {
    ScanLayout(z, fs, k);
    ScanLayout(z, gs, k);
    if k < |fs| {
      assert Decoded(z, fs)[k..] == Decoded(z, gs)[k..];
    }
  }

  /** Every record compresses to fewer than 2^32 bytes, so each can be written. */
  predicate Fits(z: Codec, records: seq<seq<byte>>)
  {
    forall i | 0 <= i < |records| :: |z.compress(records[i], Level)| < U32Limit
  }

  /** The frames `write` appends for `records`, in order. */
  function Frames(z: Codec, records: seq<seq<byte>>): (fs: seq<Frame>)
    requires Fits(z, records)
    ensures |fs| == |records| && AllWellFormed(fs)
  {
    seq(|records|, i requires 0 <= i < |records| => Canonical(z.compress(records[i], Level)))
  }

  /** The file that writing `records` one by one into an empty file leaves. */
  function Log(z: Codec, records: seq<seq<byte>>): seq<byte>
    requires Fits(z, records)
  {
    Layout(Frames(z, records))
  }

  /** Writing one more record leaves the log of all records: old bytes first, then the new frame. */
  lemma LogAppend(z: Codec, records: seq<seq<byte>>, r: seq<byte>)
    requires Fits(z, records + [r])
    ensures Fits(z, records)
    ensures Encode(z.compress(r, Level)).Ok?
    ensures Log(z, records + [r]) == Log(z, records) + Encode(z.compress(r, Level)).value
  {
    assert forall i | 0 <= i < |records| :: records[i] == (records + [r])[i];
    assert (records + [r])[|records|] == r;
    var f := Canonical(z.compress(r, Level));
    assert Frames(z, records + [r]) == Frames(z, records) + [f];
    LayoutAppend(Frames(z, records), f);
  }

  /** Round trip and order: `read(skip)` on a log gives back the records written, minus the first `skip`. */
  lemma ReadLogRoundTrip(z: Codec, records: seq<seq<byte>>, skip: int)
    requires Lossless(z) && Fits(z, records)
    ensures ReadLog(z, Log(z, records), skip) == Tail(records, skip)
  {
    var k := if skip > 0 then skip else 0;
    ScanLayout(z, Frames(z, records), k);
    assert Decoded(z, Frames(z, records)) == records;
  }

  /** On any cut-off log, `read(skip)` gives a prefix of the records written, minus the first `skip`. */
  lemma ReadLogTruncated(z: Codec, records: seq<seq<byte>>, m: nat, skip: int)
    requires Lossless(z) && Fits(z, records) && m <= |Log(z, records)|
    ensures var got := ReadLog(z, Log(z, records)[..m], skip);
            |got| <= |Tail(records, skip)| && got == Tail(records, skip)[..|got|]
  {
    TruncatedIsPrefix(z, Log(z, records), m, skip);
    ReadLogRoundTrip(z, records, skip);
  }

  /** The log of some records starts with the log of the first `j` of them. */
  lemma LogSplit(z: Codec, records: seq<seq<byte>>, j: nat)
    requires Fits(z, records) && j <= |records|
    ensures Fits(z, records[..j]) && Fits(z, records[j..])
    ensures Log(z, records) == Log(z, records[..j]) + Log(z, records[j..])
  {
    var fs := Frames(z, records);
    assert Fits(z, records[..j]) by {
      assert forall i | 0 <= i < j :: records[..j][i] == records[i];
    }
    assert Fits(z, records[j..]) by {
      assert forall i | 0 <= i < |records| - j :: records[j..][i] == records[j + i];
    }
    assert Frames(z, records[..j]) == fs[..j];
    assert Frames(z, records[j..]) == fs[j..];
    LayoutSplit(fs, j);
  }

  /** A log cut where a frame ends reads back as exactly the records written before the cut. */
  lemma ReadLogAtBoundary(z: Codec, records: seq<seq<byte>>, j: nat, skip: int)
    requires Lossless(z) && Fits(z, records) && j <= |records|
    ensures Fits(z, records[..j]) && |Log(z, records[..j])| <= |Log(z, records)|
    ensures ReadLog(z, Log(z, records)[..|Log(z, records[..j])|], skip) == Tail(records[..j], skip)
  {
    LogSplit(z, records, j);
    assert Log(z, records)[..|Log(z, records[..j])|] == Log(z, records[..j]);
    ReadLogRoundTrip(z, records[..j], skip);
  }

  lemma DecodedSnoc(z: Codec, fs: seq<Frame>)
    requires fs != []
    ensures Decoded(z, fs) == Decoded(z, fs[..|fs| - 1]) + [z.decompress(fs[|fs| - 1].payload)]
  {
  }

  /** A file of frames is the frames but the last, followed by the last. */
  lemma LayoutSnoc(fs: seq<Frame>)
    requires AllWellFormed(fs) && fs != []
    ensures Layout(fs) == Layout(fs[..|fs| - 1]) + FrameBytes(fs[|fs| - 1])
  {
    var j := |fs| - 1;
    assert AllWellFormed(fs[..j]) by {
      assert forall i | 0 <= i < j :: fs[..j][i] == fs[i];
    }
    LayoutAppend(fs[..j], fs[j]);
    LastSplit(fs);
  }

  lemma LastSplit<T>(s: seq<T>)
    requires s != []
    ensures s[..|s| - 1] + [s[|s| - 1]] == s
  {
  }

  lemma PrefixOfAppend<T>(a: seq<T>, b: seq<T>, m: nat)
    requires |a| <= m <= |a| + |b|
    ensures (a + b)[..m] == [] + a + b[..m - |a|]
  {
  }

  /** A file of whole frames whose last trailer is cut short still yields every frame's record. */
  lemma ScanLastTrailerCut(z: Codec, fs: seq<Frame>, m: nat)
    requires AllWellFormed(fs) && fs != [] && |Layout(fs)| - 5 <= m <= |Layout(fs)|
    ensures Scan(z, Layout(fs)[..m], 0, 0) == Decoded(z, fs)
  {
    var j := |fs| - 1;
    var f := fs[j];
    var rest := fs[..j];
    assert AllWellFormed(rest) && WellFormed(f) by {
      assert forall i | 0 <= i < j :: rest[i] == fs[i];
    }
    var init := Layout(rest);
    assert Layout(fs) == init + FrameBytes(f) by {
      LayoutSnoc(fs);
    }
    var c := m - |init|;
    var cut := FrameBytes(f)[..c];
    var data := [] + init + cut;
    assert Layout(fs)[..m] == data by {
      PrefixOfAppend(init, FrameBytes(f), m);
    }
    assert Scan(z, data, 0, 0) == Decoded(z, rest) + Scan(z, data, |init|, 0) by {
      ScanLayoutThen(z, [], rest, cut);
      assert [] + init == init;
    }
    assert Scan(z, data, |init|, 0) == [z.decompress(f.payload)] by {
      assert data == init + cut;
      ScanTrailerCut(z, init, f, c);
    }
    DecodedSnoc(z, fs);
  }

  /** Cutting off some or all of the last frame's five trailing bytes loses no record: the reader never looks at them. */
  lemma ReadLogTrailerCut(z: Codec, records: seq<seq<byte>>, m: nat)
    requires Lossless(z) && Fits(z, records) && records != []
    requires |Log(z, records)| - 5 <= m <= |Log(z, records)|
    ensures ReadLog(z, Log(z, records)[..m], 0) == records
  {
    ScanLastTrailerCut(z, Frames(z, records), m);
    assert Decoded(z, Frames(z, records)) == records;
  }

  /**
   * A frame with a non-empty payload, cut inside its length field, separator or payload:
   * the reader yields nothing from it and stops.
   */
  lemma ScanMidFrameCut(z: Codec, pre: seq<byte>, f: Frame, post: seq<byte>, c: nat)
    requires WellFormed(f) && |f.payload| > 0 && c < 5 + |f.payload|
    ensures Scan(z, pre + (FrameBytes(f) + post)[..c], |pre|, 0) == []
  {
    var b := FrameBytes(f) + post;
    var cut := b[..c];
    var data := pre + cut;
    if c < 4 {
      ScanStopped(z, data, |pre|, 0);
    } else {
      assert ReadAt(data, |pre|, 4) == f.len by {
        assert cut[..4] == b[..4] == f.len;
        SliceAfter(pre, cut, 0, 4);
      }
      ScanCutShort(z, data, |pre|, |f.payload|);
    }
  }

  /**
   * A file of frames cut inside the length field, separator or (non-empty) payload of
   * frame `j` yields exactly the records of the frames before it.
   */
  lemma ScanLayoutMidFrameCut(z: Codec, fs: seq<Frame>, j: nat, m: nat)
    requires AllWellFormed(fs) && j < |fs| && |fs[j].payload| > 0
    requires AllWellFormed(fs[..j])
    requires |Layout(fs[..j])| <= m < |Layout(fs[..j])| + 5 + |fs[j].payload|
    ensures m <= |Layout(fs)|
    ensures Scan(z, Layout(fs)[..m], 0, 0) == Decoded(z, fs[..j])
  {
    var f := fs[j];
    var init := Layout(fs[..j]);
    var later := fs[j..];
    assert AllWellFormed(later) by {
      assert forall i | 0 <= i < |later| :: later[i] == fs[j + i];
    }
    var post := Layout(later[1..]);
    assert Layout(fs) == init + (FrameBytes(f) + post) by {
      LayoutSplit(fs, j);
      assert later[0] == f;
    }
    var c := m - |init|;
    var cut := (FrameBytes(f) + post)[..c];
    var data := init + cut;
    assert Layout(fs)[..m] == data by {
      PrefixOfAppend(init, FrameBytes(f) + post, m);
      assert [] + init + cut == data;
    }
    assert Scan(z, data, 0, 0) == Decoded(z, fs[..j]) + Scan(z, data, |init|, 0) by {
      ScanLayoutThen(z, [], fs[..j], cut);
      assert [] + init + cut == data && [] + init == init;
    }
    assert Scan(z, data, |init|, 0) == [] by {
      ScanMidFrameCut(z, init, f, post, c);
    }
    assert Decoded(z, fs[..j]) + [] == Decoded(z, fs[..j]);
  }

  /**
   * A log cut inside the length field, separator or payload of record `j` reads back as
   * exactly the records before it. (An empty compressed payload would still be read,
   * since `f.read(0)` returns nothing and so is never short; zlib never produces one.)
   */
  lemma ReadLogMidFrameCut(z: Codec, records: seq<seq<byte>>, j: nat, m: nat)
    requires Lossless(z) && Fits(z, records) && j < |records| && Fits(z, records[..j])
    requires |z.compress(records[j], Level)| > 0
    requires |Log(z, records[..j])| <= m < |Log(z, records[..j])| + 5 + |z.compress(records[j], Level)|
    ensures m <= |Log(z, records)|
    ensures ReadLog(z, Log(z, records)[..m], 0) == records[..j]
  {
    var fs := Frames(z, records);
    assert Frames(z, records[..j]) == fs[..j];
    ScanLayoutMidFrameCut(z, fs, j, m);
    assert Decoded(z, fs[..j]) == records[..j];
  }
}
