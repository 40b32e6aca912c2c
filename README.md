# gzlog in Dafny

A model of `gzlog`, a binary-safe, record-structured log file. The source is one Python
class, `GZLog`, and the model covers all of it.

- **Write.** `write` compresses a record at level 2. It frames the result as
  `LEN NUL PAYLOAD LEN NUL`, where `LEN` is the 4-byte network-order length of the
  payload, and appends the frame to the current file.
- **Read.** `read(skip)` walks the file with a cursor. It jumps over the first `skip`
  records without decompressing them and yields the rest. It stops silently at a short
  length field or a short payload.
- **Rotate.** `rotate` renames the current file to the next numbered archive
  `name.NNN`, then makes that archive the current name.

Modules, one file each:

- `Bytes` (`bytes.dfy`): bytes, the error kinds, and `struct.pack("!I")` /
  `struct.unpack("!I")` as `Pack` / `Unpack`.
- `Zlib` (`zlib.dfy`): the compression library as an abstract `Codec` value, with the
  level constant. `Lossless(z)` states zlib's promise that decompressing a compressed
  record gives it back. Lemmas that need the round trip take it as a precondition.
- `Framing` (`framing.dfy`): the on-disk format.
  - The frame layout and `Encode`, the frame `write` builds.
  - `Scan` / `ReadLog`, the records `read` yields from a byte string, written as a
    recursive reference definition of the cursor loop.
  - The lemmas about logs written record by record.
- `Naming` (`naming.dfy`): the names `rotate` works with.
  - The `re.match` guard (`ArchivedName`) and the glob filter (`GlobMatch`).
  - The `\.(\d+)$` search (`ExtSearch`), `max` with its `ValueError` fallback, and
    `"%03d"` (`Pad3`).
- `Store` (`store.dfy`): the objects.
  - `FileSystem` holds a mutable map from paths to contents.
  - `GZLog` holds the mutable `name`.
  - `Write`, `Read` (a `while` loop over a cursor, proved against `ReadLog`) and
    `Rotate` are methods that change them.
- `Scenarios` (`scenarios.dfy`): the two usage scenarios of the package's unit tests, as
  methods that drive the model.

The following are parameters of the model, not modelled in it:
- the directory listing that `glob.glob("%s.*[0-9]" % name)` returns, given to `Rotate`
  as `listing`;
- the codec.

## Behaviour worth knowing

- **Second rotate.** The "already rotated" guard uses `re.match`, which anchors at the
  first character. It fires only when the whole name is `.` followed by digits. So
  `x.001` is rotated again to `x.001.001`, not left alone (`Naming.GuardAfterRotate`).
- **Suffix parsing.** `rotate` counts any glob match whose last dotted part is digits,
  so `name.x.7` counts as 7 (`Naming.DottedSuffix`, `Naming.DottedSiblingCounts`).
- **Trailing newline.** Python's `$` also matches before a final newline. The guard
  therefore also fires on `.7\n` (`Naming.ArchivedName`).
- **Empty payload.** A length field of zero followed by nothing is still read as an
  empty payload and decompressed, because `f.read(0)` returns the empty string. For the
  same reason a cut inside a frame loses that frame only when its payload is non-empty
  (`Framing.ReadLogMidFrameCut`).

## Model

| member | source | states |
|---|---|---|
| Bytes.Pack | gzlog/__init__.py:16-17 | `_z_pack` succeeds exactly for lengths below 2^32, and otherwise fails with `struct.error` |
| Bytes.Be32 | gzlog/__init__.py:16 | definition: the four bytes of a length below 2^32, most significant first, as `"!I"` lays them out |
| Bytes.Unpack | gzlog/__init__.py:16-18 | `_z_unpack` of four bytes is a length below 2^32 |
| Bytes.UnpackPack | gzlog/__init__.py:44 | packing a length below 2^32 succeeds, and unpacking the packed bytes gives the length back |
| Bytes.PackUnpack | gzlog/__init__.py:67 | any four bytes are the packing of the length they unpack to |
| Framing.ReadAt | gzlog/__init__.py:63 | `f.read(n)` at a cursor gives at most `n` bytes, exactly the next `n` when they are there, and `n` of them only when they are there |
| Framing.FrameBytes | gzlog/__init__.py:48 | a frame is 10 bytes longer than its payload |
| Framing.Canonical | gzlog/__init__.py:43-48 | the frame `write` builds has a length field that unpacks to the payload length and a 5-byte trailer |
| Framing.Encode | gzlog/__init__.py:43-48 | framing fails exactly when the payload is 2^32 bytes or longer, with `struct.error`; otherwise the frame is `|z| + 10` bytes, and its two length copies and two NULs agree |
| Framing.Scan | gzlog/__init__.py:60-80 | definition: the reference for the cursor loop of `read` — stop at a short length field, jump the separator, jump a skipped record by its declared length, stop at a short payload, yield the decompressed payload, jump the 5 trailing bytes |
| Framing.ReadLog | gzlog/__init__.py:55-80 | definition: `read(skip)` over a whole file is `Scan` from offset 0, a skip of zero or less skipping nothing |
| Framing.ScanStopped | gzlog/__init__.py:63-65 | one-step unfolding of `Scan`: fewer than four bytes at the cursor end the read |
| Framing.ScanCutShort | gzlog/__init__.py:72-74 | one-step unfolding of `Scan`: a payload shorter than its declared length ends the read |
| Framing.ScanSkipped | gzlog/__init__.py:67-70 | one-step unfolding of `Scan`: a skipped record moves the cursor past length, separator, declared payload and trailer, and yields nothing |
| Framing.ScanYielded | gzlog/__init__.py:72-79 | one-step unfolding of `Scan`: a complete payload is decompressed and yielded, and the cursor moves past the trailer |
| Framing.FrameAt | gzlog/__init__.py:63-72 | at the start of a well-formed frame, the reader unpacks the payload length and reads exactly the payload |
| Framing.ScanWholeFrame | gzlog/__init__.py:63-80 | on a whole frame, the reader yields its payload unless skipping, and moves on to the end of the frame |
| Framing.ScanThen | gzlog/__init__.py:69-80 | one reader step followed by the rest gives the records with the remaining skip applied |
| Framing.LayoutAppend | gzlog/__init__.py:50-52 | appending a frame to a file of frames appends its bytes |
| Framing.ScanLayoutAt | gzlog/__init__.py:60-80 | from the start of any run of frames, the reader yields their decompressed payloads in order, minus the first `k` |
| Framing.ScanLayout | gzlog/__init__.py:60-80 | reading a file of frames yields every payload decompressed, in order, minus the first `k` |
| Framing.ReadAtCut | gzlog/__init__.py:63 | reading a cut-off copy of a file gives a prefix of what the whole file gives, and the same bytes when all are there |
| Framing.ScanPrefix | gzlog/__init__.py:63-80 | whatever the bytes, reading a cut-off copy of a file yields a prefix of what reading the whole file yields |
| Framing.TruncatedIsPrefix | gzlog/__init__.py:55-80 | `read(skip)` on any truncation of any file is a prefix of `read(skip)` on the whole file |
| Framing.ScanLayoutThen | gzlog/__init__.py:60-80 | reading frames followed by any bytes yields the frames' records, then whatever the following bytes yield |
| Framing.TrailerCutAt | gzlog/__init__.py:63-72 | a last frame whose trailer is cut still has its length and whole payload where the reader looks for them |
| Framing.ScanTrailerCut | gzlog/__init__.py:72-79 | a last frame with a whole payload but a cut trailer still yields its record, and then the read ends |
| Framing.LayoutSplit | gzlog/__init__.py:50-52 | a file of frames is the frames before `j` followed by the frames from `j` on |
| Framing.LayoutSnoc | gzlog/__init__.py:50-52 | a file of frames is the frames but the last, followed by the last |
| Framing.SeparatorsIgnored | gzlog/__init__.py:68 | two files whose frames carry the same payloads read the same, whatever their separators and trailers |
| Framing.SkippedPayloadsIgnored | gzlog/__init__.py:69-70 | the skipped frames' payloads, and even their lengths, do not change what `read(k)` yields |
| Framing.Frames | gzlog/__init__.py:43-48 | writing `n` records produces `n` well-formed frames |
| Framing.Log | gzlog/__init__.py:39-53 | definition: the file left by writing the records one by one into an empty file, the concatenation of their frames (tied to `Write` by `LogAppend` and `Scenarios.WriteTen`) |
| Framing.LogAppend | gzlog/__init__.py:50-52 | writing one more record leaves the earlier log unchanged and appends that record's frame |
| Framing.ReadLogRoundTrip | gzlog/__init__.py:55-80 | round trip and order: `read(skip)` on the log of some records gives those records in write order, minus the first `skip` (none when `skip` is zero or less) |
| Framing.ReadLogTruncated | gzlog/__init__.py:63-74 | `read(skip)` on any truncation of a log gives a prefix of the records written, minus the first `skip`, without error |
| Framing.LogSplit | gzlog/__init__.py:50-52 | the log of some records is the log of the first `j` records followed by the log of the rest |
| Framing.ReadLogAtBoundary | gzlog/__init__.py:55-80 | a log cut where a frame ends reads back as exactly the records written before the cut |
| Framing.ScanLastTrailerCut | gzlog/__init__.py:72-79 | a file of frames whose last trailer is cut short still yields every record |
| Framing.ReadLogTrailerCut | gzlog/__init__.py:79 | cutting some or all of the last frame's 5 trailing bytes loses no record |
| Framing.ScanMidFrameCut | gzlog/__init__.py:63-74 | a frame with a non-empty payload, cut inside its length field, separator or payload, yields nothing and ends the read |
| Framing.ScanLayoutMidFrameCut | gzlog/__init__.py:60-80 | a file of frames cut inside the length field, separator or non-empty payload of frame `j` yields exactly the records of the frames before it |
| Framing.ReadLogMidFrameCut | gzlog/__init__.py:63-74 | a log cut inside the length field, separator or non-empty compressed payload of record `j` reads back as exactly the records before `j` |
| Naming.Decimal | gzlog/__init__.py:101 | `str(n)` is digits without a leading zero whose value is `n` |
| Naming.Pad3 | gzlog/__init__.py:101 | `"%03d" % n` is at least three digits with value `n`, and has no leading zero when longer than three |
| Naming.Pad3Examples | gzlog/__init__.py:101 | `"%03d"` gives `001`, `008`, `051`, and `1000` for 1000 |
| Naming.DigitsValue | gzlog/__init__.py:96 | definition: `int(s)` of a string of decimal digits, leading zeros allowed |
| Naming.TrailingDigits | gzlog/__init__.py:88 | the longest run of digits ending a name |
| Naming.TrailingDigitsMaximal | gzlog/__init__.py:88 | every all-digit ending of a name lies within its trailing run of digits |
| Naming.ExtAtTrailing | gzlog/__init__.py:88 | where `\.(\d+)$` matches, the trailing digits are exactly those after the dot |
| Naming.EndExtAt | gzlog/__init__.py:96-98 | wherever `\.(\d+)$` matches, the captured value is the number after that dot |
| Naming.EndExtSpec | gzlog/__init__.py:96-98 | `ext_re.search` succeeds exactly when `\.(\d+)$` matches somewhere, and `findall(...)[0]` is the number after that dot |
| Naming.ExtSearch | gzlog/__init__.py:96-98 | definition: `ext_re.search(fn)` and `int(ext_re.findall(fn)[0])`, with `$` also before one final newline; `EndExtSpec` characterizes it |
| Naming.ArchivedName | gzlog/__init__.py:88-89 | definition: `ext_re.match(name)`, which holds only when the whole name (less one final newline) is `.` followed by digits |
| Naming.GlobMatch | gzlog/__init__.py:97 | definition: `glob.glob("%s.*[0-9]" % name)` admits a listed path that extends `name.` within the same directory and ends in a digit |
| Naming.SuffixOf | gzlog/__init__.py:96-98 | definition: the suffix a listed path contributes to `max`: its search value when the glob admits it, none otherwise |
| Naming.Max | gzlog/__init__.py:96-100 | `max` over the present suffixes is absent (`ValueError`) exactly when none is present; otherwise it is one of them and at least every one |
| Naming.NextId | gzlog/__init__.py:95-100 | `next_id` is at least 1 |
| Naming.NextIdSpec | gzlog/__init__.py:95-100 | `next_id` is above every sibling's suffix, and is 1 or one more than some sibling's suffix |
| Naming.NextIdFrom | gzlog/__init__.py:95-100 | unfolding of `NextId` for a known list of suffixes: the maximum plus one, or 1 when no sibling counts |
| Naming.NextName | gzlog/__init__.py:101 | definition: `next_fn`, `name + "." + "%03d" % next_id`; `NextNameSuffix` and `NextNameFresh` state its properties |
| Naming.NextNameSuffix | gzlog/__init__.py:97-101 | the archive name is itself a glob match whose suffix is `next_id` |
| Naming.NextNameFresh | gzlog/__init__.py:96-102 | the archive name is none of the listed siblings, so the rename overwrites no archive |
| Naming.GuardAfterRotate | gzlog/__init__.py:88-90 | the guard fires on the name `rotate` produces only when the base name is empty, so a second rotate renames again |
| Naming.NumberedSuffix | gzlog/__init__.py:96-98 | a sibling `name.DIGITS` is a glob match and contributes the value of its digits |
| Naming.MalformedSuffixes | gzlog/__init__.py:96-98 | `name.999.z`, `name.999.`, `name.d/x.5` and `name.9a9` contribute nothing |
| Naming.DottedSuffix | gzlog/__init__.py:96-98 | `name.x.7` contributes 7 |
| Naming.FirstArchive | gzlog/__init__.py:95-101 | with no numbered siblings, the archive is `name.001` |
| Naming.DigitsExamples | gzlog/__init__.py:96 | `int` of `050`, `007` and `999` is 50, 7 and 999 |
| Naming.MaxExample | gzlog/__init__.py:96 | the larger of 7 and 50 is 50 |
| Naming.ArchiveCountsUp | gzlog/__init__.py:95-101 | beside `name.007` and `name.050`, the archive is `name.051` |
| Naming.ArchivePastThreeDigits | gzlog/__init__.py:95-101 | beside `name.999`, the archive is `name.1000` |
| Naming.MalformedSiblingsIgnored | gzlog/__init__.py:95-101 | beside only `name.999.z` and `name.9a9`, the archive is `name.001` |
| Naming.DottedSiblingCounts | gzlog/__init__.py:95-101 | beside `name.x.7`, the archive is `name.008` |
| Naming.ArchivedNameExamples | gzlog/__init__.py:88-89 | the guard fires on `.001` and on `.7` plus newline, and not on `log.001`, `.` or `.0a` |
| Store.FileSystem.constructor | gzlog/tests/__init__.py:11 | the host's files start as given |
| Store.Renamed | gzlog/__init__.py:102 | after `os.rename(a, b)`, `a` is gone, `b` holds `a`'s former contents, and every other path is unchanged |
| Store.RenameOpened | gzlog/__init__.py:92-102 | creating the file with `open(name, "ab")` before renaming it changes nothing about the rename |
| Store.GZLog.constructor | gzlog/__init__.py:31-37 | the log starts with the given name |
| Store.GZLog.Write | gzlog/__init__.py:39-53 | a record whose compressed size fits gets the file's old bytes followed by its frame, creating the file if needed; otherwise `struct.error` is raised and no file changes |
| Store.GZLog.Read | gzlog/__init__.py:55-80 | on a missing file the open fails; otherwise the cursor loop yields exactly `ReadLog` of the file's bytes |
| Store.GZLog.Rotate | gzlog/__init__.py:84-105 | if the guard fires, nothing changes. Otherwise the current file moves to `NextName`, which is none of the listed siblings, and `name` becomes the new name |
| Scenarios.WriteTen | gzlog/tests/__init__.py:15-16 | ten writes into an empty file leave exactly the log of ten copies of the record |
| Scenarios.WriteThenRead | gzlog/tests/__init__.py:10-28 | after ten writes, `read()` yields the record ten times and `read(5)` five times |
| Scenarios.WriteThenRotate | gzlog/tests/__init__.py:30-46 | after ten writes and a rotate, the name is `fn.001`, that file exists, and it reads back the ten records |

## Left out

- File locking (`flock`, `LOCK_EX`, `LOCK_UN`): it orders concurrent processes. The
  model is sequential, so a write or rotation happens as one step on the file map.
- zlib's algorithm: `compress` and `decompress` are fields of an abstract `Codec`. Its
  round trip is the `Lossless` precondition, because the model cannot state it as an
  axiom.
- Decompression errors on corrupt payloads: the source does not handle them, and the
  model's `decompress` is total.
- I/O errors. The one exception is opening a missing file for reading, which gives
  `NoSuchFile`. Rename atomicity and cross-device renames are also out.
- Real directory listing and the glob engine. `Rotate` takes the listing as a parameter,
  and `GlobMatch` decides which listed names the pattern `name.*[0-9]` admits. Glob
  metacharacters inside `name` itself are not modelled.
- Generator laziness: `Read` returns the whole list of yielded records. The model does
  not capture a caller stopping early, or the file changing between two yields.
- The `__iter__ = read` alias (gzlog/__init__.py:82): it is the same method.
- Python 2 string details: records and files are byte sequences, and names are
  sequences of characters.
- Store.GZLog.Rotate: its listing is assumed to be what the glob returns for the current
  name, so the freshness of the new name is proved relative to `listing` and not to the
  real directory.
- Scenarios.WriteThenRotate: the sibling listing is empty, and the temporary file's name
  is assumed not to be `.` plus digits. A temporary file's name never is.
