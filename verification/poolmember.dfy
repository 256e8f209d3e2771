/**
 * `WriterPoolMemberHdfs`: a record is accumulated in a growable buffer
 * behind a 4-byte slot, then emitted as one value whose first four bytes
 * are the big-endian length of the rest.  Files are named from a prefix, a
 * timestamp, a zero-padded serial number and an optional suffix, and a new
 * file is opened when none is open or the current one has grown past the
 * maximum size.
 */
module PoolMember {
  import opened Wrappers
  import opened Bytes
  import Document

  const InitialCapacity: nat := 262144
  const ShrinkAbove: nat := 1048576
  const GrowSlack: nat := 8192
  const PrefixLength: nat := 4

  /**
   * `accumBuffer` and `accumOffset`: the record so far sits in
   * `[4, offset)`; the first four bytes are reserved for its length.
   */
  datatype Accum = Accum(buffer: Bytes, offset: int) {
    predicate Valid() {
      PrefixLength <= offset <= |buffer|
    }

    /** The bytes written since the last emit. */
    function Record(): Bytes
      requires Valid()
    {
      buffer[PrefixLength..offset]
    }
  }

  /** A fresh accumulator: an empty record in a 256 KiB buffer. */
  function NewAccum(): (r: Accum)
    ensures r.Valid() && r.Record() == [] && |r.buffer| == InitialCapacity
  {
    Accum(seq(InitialCapacity, i => 0), PrefixLength)
  }

  /** `growAccumBuffer(needed)`: a larger zeroed buffer holding the bytes before the offset. */
  function Grow(a: Accum, needed: nat): (r: Accum)
    requires a.Valid()
    ensures r.Valid() && r.offset == a.offset
    ensures |r.buffer| == |a.buffer| + needed + GrowSlack
    ensures r.buffer[..a.offset] == a.buffer[..a.offset]
  {
    Accum(a.buffer[..a.offset] + seq(|a.buffer| + needed + GrowSlack - a.offset, i => 0), a.offset)
  }

  /** The copy of `b` to the offset, once the room is there. */
  function Put(a: Accum, b: Bytes): (r: Accum)
    requires a.Valid() && a.offset + |b| <= |a.buffer|
    ensures r.Valid() && |r.buffer| == |a.buffer| && r.offset == a.offset + |b|
    ensures r.buffer[..a.offset] == a.buffer[..a.offset] && r.buffer[a.offset..r.offset] == b
  {
    Accum(a.buffer[..a.offset] + b + a.buffer[a.offset + |b|..], a.offset + |b|)
  }

  /**
   * `write(byte[])`: grows the buffer by exactly the shortfall plus 8 KiB
   * when the bytes do not fit, then appends them to the record.
   */
  function Write(a: Accum, b: Bytes): (r: Accum)
    requires a.Valid()
    ensures r.Valid() && r.Record() == a.Record() + b
    ensures r.buffer[..a.offset] == a.buffer[..a.offset]
    ensures |r.buffer| == if |a.buffer| - a.offset >= |b| then |a.buffer| else a.offset + |b| + GrowSlack
  {
    var g := if |a.buffer| - a.offset < |b| then Grow(a, |b| - (|a.buffer| - a.offset)) else a;
    var r := Put(g, b);
    assert r.buffer[..a.offset] == g.buffer[..a.offset];
    assert r.Record() == r.buffer[..r.offset][PrefixLength..];
    assert r.buffer[..r.offset] == g.buffer[..a.offset] + b;
    r
  }

  /** What `System.arraycopy` refuses: a negative offset or length, or a range past the source's end. */
  datatype WriteError = IndexOutOfBounds

  /** `write(byte[], off, len)`: `len` bytes of `b` from `off`. */
  function WriteRange(a: Accum, b: Bytes, off: int, len: int): (r: Result<Accum, WriteError>)
    requires a.Valid()
    ensures r.Success? <==> 0 <= off && 0 <= len && off + len <= |b|
    ensures r.Success? ==> r.value.Valid() && r.value.Record() == a.Record() + b[off..off + len]
  {
    if off < 0 || len < 0 || off + len > |b| then Failure(IndexOutOfBounds)
    else Success(Write(a, b[off..off + len]))
  }

  /**
   * What `growAccumBuffer` meets once `length + needed + 8192` no longer
   * fits an `int`: a negative array size, or a wrapped length too short
   * for the bytes copied into it.
   */
  datatype GrowError = NegativeArraySize | CopyOutOfBounds

  /**
   * `write(byte[])` with Java's `int` arithmetic: the grown length is
   * `offset + |b| + 8192` wrapped to 32 bits.  It fails exactly when the
   * buffer has to grow and that sum is past the largest `int`; otherwise
   * it is `Write`, and the buffer stays a Java array.
   */
  function WriteChecked(a: Accum, b: Bytes): (r: Result<Accum, GrowError>)
    requires a.Valid() && |a.buffer| <= MaxInt32 && |b| <= MaxInt32
    ensures r.Success? <==> |a.buffer| - a.offset >= |b| || a.offset + |b| + GrowSlack <= MaxInt32
    ensures r.Success? ==> r.value == Write(a, b) && |r.value.buffer| <= MaxInt32
    ensures r.Failure? ==> Wrap32(a.offset + |b| + GrowSlack) < a.offset + |b|
    ensures r.Failure? ==> (r.error == NegativeArraySize <==> Wrap32(a.offset + |b| + GrowSlack) < 0)
  {
    if |a.buffer| - a.offset >= |b| then Success(Write(a, b))
    else
      var n := Wrap32(a.offset + |b| + GrowSlack);
      if n < 0 then Failure(NegativeArraySize)
      else if n < a.offset + |b| then Failure(CopyOutOfBounds)
      else Success(Write(a, b))
  }

  /** `(byte) v`: the low eight bits of an `int`. */
  function LowByte(v: int): Byte {
    v % 256
  }

  /** `write(int)`: one byte, the low eight bits of `v`. */
  function WriteByte(a: Accum, v: int): (r: Accum)
    requires a.Valid()
    ensures r.Valid() && r.Record() == a.Record() + [LowByte(v)]
  {
    Write(a, [LowByte(v)])
  }

  /** Writing several chunks one after another. */
  function WriteAll(a: Accum, chunks: seq<Bytes>): (r: Accum)
    requires a.Valid()
    ensures r.Valid()
    decreases |chunks|
  {
    if |chunks| == 0 then a else WriteAll(Write(a, chunks[0]), chunks[1..])
  }

  /** The chunks laid end to end. */
  function Concat(chunks: seq<Bytes>): Bytes
    decreases |chunks|
  {
    if |chunks| == 0 then [] else chunks[0] + Concat(chunks[1..])
  }

  /** The record is exactly the concatenation of what was written, in order. */
  lemma {:induction false} WriteAllRecord(a: Accum, chunks: seq<Bytes>)
    requires a.Valid()
    ensures WriteAll(a, chunks).Record() == a.Record() + Concat(chunks)
    decreases |chunks|
  {
    if |chunks| > 0 {
      WriteAllRecord(Write(a, chunks[0]), chunks[1..]);
    }
  }

  const Two32: int := 0x1_0000_0000

  /** `DataOutputStream.writeInt`: the two's-complement value, most significant byte first. */
  function BE32(v: int): (r: Bytes)
    ensures |r| == 4
  {
    var u := v % Two32;
    [u / 0x100_0000, (u / 0x1_0000) % 256, (u / 256) % 256, u % 256]
  }

  /** `DataInputStream.readInt`: four bytes back to an `int`. */
  function ReadInt(s: Bytes): int
    requires |s| >= 4
  {
    var b0: int, b1: int, b2: int, b3: int := s[0], s[1], s[2], s[3];
    Wrap32(b0 * 0x100_0000 + b1 * 0x1_0000 + b2 * 256 + b3)
  }

  /** Reading the four bytes back gives the value, wrapped to 32 bits. */
  lemma {:induction false} BE32RoundTrip(v: int)
    ensures ReadInt(BE32(v)) == Wrap32(v)
  {
    var u := v % Two32;
    var b := BE32(v);
    var b0: int, b1: int, b2: int, b3: int := b[0], b[1], b[2], b[3];
    var hi := u / 0x1_0000;
    var lo := u % 0x1_0000;
    assert u == hi * 0x1_0000 + lo;
    assert hi == b0 * 256 + b1;
    assert lo == b2 * 256 + b3;
    assert b0 * 0x100_0000 + b1 * 0x1_0000 + b2 * 256 + b3 == u;
  }

  /** The emitted value for a record: its length, big-endian, then the record. */
  function Frame(record: Bytes): Bytes {
    BE32(|record|) + record
  }

  /** What `postWriteRecordTasks(uri)` appends to the file, and the accumulator it leaves. */
  datatype Emitted = Emitted(key: Bytes, value: Bytes, next: Accum)

  /**
   * `postWriteRecordTasks`: the length goes into the reserved slot, the
   * buffer up to the offset is the value; the offset returns to 4 and a
   * buffer grown past 1 MiB is replaced by a fresh 256 KiB one.
   */
  function Emit(a: Accum, uri: Bytes): (r: Emitted)
    requires a.Valid()
    ensures r.key == uri && r.value == Frame(a.Record())
    ensures r.next.Valid() && r.next.Record() == []
    ensures |r.next.buffer| == if |a.buffer| > ShrinkAbove then InitialCapacity else |a.buffer|
  {
    var buf := BE32(a.offset - PrefixLength) + a.buffer[PrefixLength..];
    assert buf[..a.offset] == BE32(a.offset - PrefixLength) + a.Record();
    var next := if |buf| > ShrinkAbove then NewAccum() else Accum(buf, PrefixLength);
    Emitted(uri, buf[..a.offset], next)
  }

  /**
   * The reader's side: skipping the first four bytes gives the record
   * back, and the four bytes read as an `int` give its length.
   */
  lemma {:induction false} FrameRoundTrip(record: Bytes)
    requires |record| <= MaxInt32
    ensures |Frame(record)| == |record| + 4
    ensures Frame(record)[4..] == record
    ensures ReadInt(Frame(record)[..4]) == |record|
  {
    BE32RoundTrip(|record|);
    assert Frame(record)[..4] == BE32(|record|);
  }

  /**
   * Loading an emitted value from offset 4, as the link counter does,
   * loads exactly the document that was written.
   */
  lemma {:induction false} LoadFramed(record: Bytes)
    ensures var v := Frame(record);
            Document.Load(v, 4, |v| - 4) == Document.Load(record, 0, |record|)
  {
    var v := Frame(record);
    assert |v| - 4 == |record|;
    assert v[4..4 + |record|] == record[0..0 + |record|];
  }

  /** The decimal digits of `n`, most significant first, with no leading zeros. */
  function Digits(n: nat): (r: Bytes)
    ensures |r| >= 1
    decreases n
  {
    if n < 10 then [48 + n] else Digits(n / 10) + [48 + n % 10]
  }

  /** `k` copies of the digit `0`. */
  function Zeros(k: nat): (r: Bytes)
    ensures |r| == k && forall i :: 0 <= i < k ==> r[i] == 48
  {
    seq(k, i => 48)
  }

  /** `new DecimalFormat("00000").format(n)`: at least five digits, a minus sign before a negative number's. */
  function Pad5(n: int): Bytes {
    var m: nat := if n < 0 then -n else n;
    var d := Digits(m);
    (if n < 0 then Ascii("-") else []) + (if |d| < 5 then Zeros(5 - |d|) else []) + d
  }

  predicate AllDigits(s: Bytes) {
    forall i :: 0 <= i < |s| ==> IsDigit(s[i])
  }

  lemma {:induction false} DigitsValue(n: nat)
    ensures AllDigits(Digits(n)) && DecimalValue(Digits(n)) == n
    decreases n
  {
    var d := Digits(n);
    if n >= 10 {
      DigitsValue(n / 10);
      assert d[..|d| - 1] == Digits(n / 10);
    }
  }

  lemma {:induction false} ZerosValue(k: nat)
    ensures DecimalValue(Zeros(k)) == 0
    decreases k
  {
    if k > 0 {
      assert Zeros(k)[..k - 1] == Zeros(k - 1);
      ZerosValue(k - 1);
    }
  }

  lemma {:induction false} LeadingZeros(k: nat, d: Bytes)
    ensures DecimalValue(Zeros(k) + d) == DecimalValue(d)
    decreases |d|
  {
    if |d| == 0 {
      assert Zeros(k) + d == Zeros(k);
      ZerosValue(k);
    } else {
      var s := Zeros(k) + d;
      assert s[..|s| - 1] == Zeros(k) + d[..|d| - 1];
      LeadingZeros(k, d[..|d| - 1]);
    }
  }

  /** A non-negative serial number formats to at least five digits that read back as the number. */
  lemma {:induction false} Pad5Value(n: nat)
    ensures |Pad5(n)| >= 5 && AllDigits(Pad5(n)) && DecimalValue(Pad5(n)) == n
  {
    var d := Digits(n);
    DigitsValue(n);
    var z := if |d| < 5 then Zeros(5 - |d|) else [];
    assert Pad5(n) == Zeros(|z|) + d;
    LeadingZeros(|z|, d);
  }

  /** The separator `-` of the name's parts. */
  const Dash: Bytes := [45]

  /** `ArchiveFileConstants.OCCUPIED_SUFFIX`, `.open`: the mark of a file still being written. */
  const Occupied: Bytes := [46, 111, 112, 101, 110]

  /** The name a closed file keeps: `prefix-timestamp-serial[-suffix]`. */
  function BaseName(prefix: Bytes, timestamp: Bytes, serial: int, suffix: Bytes): Bytes {
    prefix + Dash + timestamp + Dash + Pad5(serial) + (if |suffix| == 0 then [] else Dash + suffix)
  }

  /** `createFile`'s name: the base name with the occupied mark. */
  function FileName(prefix: Bytes, timestamp: Bytes, serial: int, suffix: Bytes): Bytes {
    BaseName(prefix, timestamp, serial, suffix) + Occupied
  }

  /** The length of the run of digits at the start of `s`. */
  function DigitRun(s: Bytes): (n: nat)
    ensures n <= |s|
    decreases |s|
  {
    if |s| == 0 || !IsDigit(s[0]) then 0 else 1 + DigitRun(s[1..])
  }

  lemma {:induction false} DigitRunPrefix(a: Bytes, t: Bytes)
    requires AllDigits(a) && |t| > 0 && !IsDigit(t[0])
    ensures DigitRun(a + t) == |a|
    decreases |a|
  {
    if |a| > 0 {
      assert (a + t)[1..] == a[1..] + t;
      DigitRunPrefix(a[1..], t);
    } else {
      assert a + t == t;
    }
  }

  /** Digits followed by a non-digit: equal strings of that shape have equal digits. */
  lemma {:induction false} SerialReadable(head: Bytes, s1: nat, s2: nat, t: Bytes)
    requires |t| > 0 && !IsDigit(t[0])
    ensures head + Pad5(s1) + t == head + Pad5(s2) + t ==> s1 == s2
  {
    var a1, a2 := Pad5(s1), Pad5(s2);
    if head + a1 + t == head + a2 + t {
      var x := head + a1 + t;
      assert x[|head|..] == a1 + t;
      assert (head + a2 + t)[|head|..] == a2 + t;
      Pad5Value(s1);
      Pad5Value(s2);
      DigitRunPrefix(a1, t);
      DigitRunPrefix(a2, t);
      assert a1 == (a1 + t)[..|a1|];
      assert a2 == (a2 + t)[..|a2|];
    }
  }

  /**
   * Two files of the same member differ in name whenever their serial
   * numbers differ: the serial number can be read back from the name.
   */
  lemma {:induction false} FileNamesDistinct(prefix: Bytes, timestamp: Bytes, s1: nat, s2: nat, suffix: Bytes)
    ensures FileName(prefix, timestamp, s1, suffix) == FileName(prefix, timestamp, s2, suffix) ==> s1 == s2
  {
    var head := prefix + Dash + timestamp + Dash;
    var t := (if |suffix| == 0 then [] else Dash + suffix) + Occupied;
    assert FileName(prefix, timestamp, s1, suffix) == head + Pad5(s1) + t;
    assert FileName(prefix, timestamp, s2, suffix) == head + Pad5(s2) + t;
    SerialReadable(head, s1, s2, t);
  }

  /** `close`: the occupied mark is dropped from the name when the path ends with it. */
  function FinalName(path: Bytes): (r: Bytes)
    ensures |r| <= |path| && r == path[..|r|]
  {
    if |path| >= |Occupied| && path[|path| - |Occupied|..] == Occupied then path[..|path| - |Occupied|]
    else path
  }

  /** A closed file keeps the name it was created with, less the occupied mark. */
  lemma {:induction false} FinalNameOfCreated(prefix: Bytes, timestamp: Bytes, serial: int, suffix: Bytes)
    ensures FinalName(FileName(prefix, timestamp, serial, suffix)) == BaseName(prefix, timestamp, serial, suffix)
  {
    var n := FileName(prefix, timestamp, serial, suffix);
    var b := BaseName(prefix, timestamp, serial, suffix);
    assert n[|n| - |Occupied|..] == Occupied;
    assert n[..|n| - |Occupied|] == b;
  }

  /** The slash byte `/`. */
  const Slash: Byte := 47

  /** The constructor's `jobDir`: the part after the last `/`, or all of it when there is none. */
  function JobDirName(jobDir: Bytes): (r: Bytes)
    ensures Slash !in r
    ensures |r| <= |jobDir| && r == jobDir[|jobDir| - |r|..]
    ensures |r| < |jobDir| ==> jobDir[|jobDir| - |r| - 1] == Slash
  {
    var last := LastIndexOf(jobDir, Slash);
    if last == -1 then jobDir
    else
      var r := jobDir[last + 1..];
      assert forall k :: 0 <= k < |r| ==> r[k] == jobDir[last + 1 + k];
      r
  }

  /** The constructor's `hdfsOutputPath`: one trailing `/` is dropped. */
  function OutputPath(path: Bytes): (r: Bytes)
    ensures r + [Slash] == path <==> |path| > 0 && path[|path| - 1] == Slash
    ensures r == path <==> !(|path| > 0 && path[|path| - 1] == Slash)
  {
    if |path| > 0 && path[|path| - 1] == Slash then path[..|path| - 1] else path
  }

  /** `fstr`: the output directory, the job directory and the file name, joined by `/`. */
  function FilePath(outputPath: Bytes, jobDir: Bytes, name: Bytes): Bytes {
    OutputPath(outputPath) + [Slash] + JobDirName(jobDir) + [Slash] + name
  }

  /**
   * The file path's last segment is the file name, and the directory
   * before it ends in the job directory's last segment.
   */
  lemma {:induction false} FilePathSegments(outputPath: Bytes, jobDir: Bytes, name: Bytes)
    requires Slash !in name
    ensures JobDirName(FilePath(outputPath, jobDir, name)) == name
    ensures var p := FilePath(outputPath, jobDir, name);
            var dir := p[..|p| - |name| - 1];
            JobDirName(dir) == JobDirName(jobDir)
  {
    var p := FilePath(outputPath, jobDir, name);
    var o := OutputPath(outputPath);
    var j := JobDirName(jobDir);
    assert p == (o + [Slash] + j) + [Slash] + name;
    assert p[..|p| - |name| - 1] == o + [Slash] + j;
    LastSegment(o + [Slash] + j, name);
    LastSegment(o, j);
  }

  /** Whatever precedes a `/`, the last segment is what follows it. */
  lemma {:induction false} LastSegment(head: Bytes, tail: Bytes)
    requires Slash !in tail
    ensures JobDirName(head + [Slash] + tail) == tail
  {
    var p := head + [Slash] + tail;
    assert p[|head|] == Slash;
    assert forall k :: |head| < k < |p| ==> p[k] == tail[k - |head| - 1];
    assert LastIndexOf(p, Slash) == |head|;
    assert p[|head| + 1..] == tail;
  }

  /** `SequenceFile.CompressionType`. */
  datatype Compression = NoCompression | RecordCompression | BlockCompression

  /** The constant's name, which `valueOf` maps back to it. */
  function CompressionName(c: Compression): (r: string)
    ensures CompressionNamed(r) == Some(c)
  {
    match c
    case NoCompression => "NONE"
    case RecordCompression => "RECORD"
    case BlockCompression => "BLOCK"
  }

  /** `CompressionType.valueOf`: the constant with exactly that name, if any. */
  function CompressionNamed(name: string): (r: Option<Compression>) {
    if name == "NONE" then Some(NoCompression)
    else if name == "RECORD" then Some(RecordCompression)
    else if name == "BLOCK" then Some(BlockCompression)
    else None
  }

  /** `valueOf` rejects a name that is no constant's. */
  datatype CompressionError = UnknownCompression(name: string)

  /**
   * `createFile`'s compression: the configured name, or for `DEFAULT` the
   * Hadoop property `io.seqfile.compression.type`, and `RECORD` when that
   * is unset.
   */
  function ChooseCompression(configured: string, property: Option<string>): (r: Result<Compression, CompressionError>)
    ensures var name := if configured != "DEFAULT" then configured
                        else if property.None? then "RECORD" else property.value;
            && (r.Success? <==> CompressionNamed(name).Some?)
            && (r.Success? ==> CompressionName(r.value) == name)
            && (r.Failure? ==> r.error.name == name)
  {
    var name := if configured != "DEFAULT" then configured
                else if property.None? then "RECORD" else property.value;
    match CompressionNamed(name)
    case Some(c) => Success(c)
    case None => Failure(UnknownCompression(name))
  }

  /** `checkSize`: a new file when none is open or the open one is longer than the maximum (`-1` for none). */
  predicate NeedsNewFile(length: Option<int>, maxSize: int) {
    length.None? || (maxSize != -1 && length.value > maxSize)
  }

  function Sum(sizes: seq<nat>): nat
    decreases |sizes|
  {
    if |sizes| == 0 then 0 else Sum(sizes[..|sizes| - 1]) + sizes[|sizes| - 1]
  }

  /**
   * One record written by a member, as `preWriteRecordTasks` and
   * `postWriteRecordTasks` do it: `checkSize` first, then the record goes
   * into the open file.  A file is the list of the sizes its records add
   * to it, after a header of `header` bytes.
   */
  function Append(files: seq<seq<nat>>, size: nat, header: nat, maxSize: int): (r: seq<seq<nat>>)
    ensures |r| > 0 && r[..|r| - 1] <= files + [[]]
  {
    if |files| == 0 || NeedsNewFile(Some(header + Sum(files[|files| - 1])), maxSize) then files + [[size]]
    else files[..|files| - 1] + [files[|files| - 1] + [size]]
  }

  /** A stream of records written in order by one member. */
  function AppendAll(files: seq<seq<nat>>, sizes: seq<nat>, header: nat, maxSize: int): seq<seq<nat>>
    decreases |sizes|
  {
    if |sizes| == 0 then files
    else AppendAll(Append(files, sizes[0], header, maxSize), sizes[1..], header, maxSize)
  }

  function Flatten(files: seq<seq<nat>>): seq<nat>
    decreases |files|
  {
    if |files| == 0 then [] else Flatten(files[..|files| - 1]) + files[|files| - 1]
  }

  /**
   * The rotation rule, file by file: no file is empty, and every record
   * but a file's first went in while the file was at most the maximum.
   */
  predicate Rotated(files: seq<seq<nat>>, header: nat, maxSize: int) {
    forall i :: 0 <= i < |files| ==>
      |files[i]| > 0
      && (maxSize != -1 && |files[i]| > 1 ==> header + Sum(files[i][..|files[i]| - 1]) <= maxSize)
  }

  /**
   * The other half of the rotation rule: a file was left only because it
   * had grown past the maximum, so every file but the last is past it.
   */
  predicate ClosedPast(files: seq<seq<nat>>, header: nat, maxSize: int) {
    forall i :: 0 <= i < |files| - 1 ==> NeedsNewFile(Some(header + Sum(files[i])), maxSize)
  }

  /**
   * One record keeps both halves of the rotation rule and the records'
   * order, and a new file is opened exactly when `checkSize` says so.
   */
  lemma {:induction false} AppendKeeps(files: seq<seq<nat>>, size: nat, header: nat, maxSize: int)
    requires Rotated(files, header, maxSize)
    ensures var r := Append(files, size, header, maxSize);
            Rotated(r, header, maxSize) && Flatten(r) == Flatten(files) + [size]
            && (ClosedPast(files, header, maxSize) ==> ClosedPast(r, header, maxSize))
            && (|r| == |files| || |r| == |files| + 1)
            && (|r| == |files| + 1 <==>
                  |files| == 0 || NeedsNewFile(Some(header + Sum(files[|files| - 1])), maxSize))
            && (maxSize == -1 && |files| > 0 ==> |r| == |files|)
            && (|files| == 0 ==> |r| == 1)
  {
    var r := Append(files, size, header, maxSize);
    if |files| == 0 || NeedsNewFile(Some(header + Sum(files[|files| - 1])), maxSize) {
      assert r[..|r| - 1] == files;
    } else {
      var last := files[|files| - 1];
      assert r[..|r| - 1] == files[..|files| - 1];
      assert (last + [size])[..|last|] == last;
      assert files == files[..|files| - 1] + [last];
      assert Flatten(files) == Flatten(files[..|files| - 1]) + last;
    }
  }

  /**
   * Writing a stream of records keeps both halves of the rotation rule,
   * loses and reorders nothing, and with no maximum size everything goes
   * into the first file.
   */
  lemma {:induction false} AppendAllKeeps(files: seq<seq<nat>>, sizes: seq<nat>, header: nat, maxSize: int)
    requires Rotated(files, header, maxSize)
    ensures var r := AppendAll(files, sizes, header, maxSize);
            Rotated(r, header, maxSize) && Flatten(r) == Flatten(files) + sizes
            && (ClosedPast(files, header, maxSize) ==> ClosedPast(r, header, maxSize))
            && (maxSize == -1 ==> |r| == if |files| == 0 && |sizes| > 0 then 1 else |files|)
  {
    AppendAllRotated(files, sizes, header, maxSize);
    AppendAllClosed(files, sizes, header, maxSize);
    AppendAllFlatten(files, sizes, header, maxSize);
    if maxSize == -1 {
      AppendAllCount(files, sizes, header);
    }
  }

  lemma {:induction false} AppendAllRotated(files: seq<seq<nat>>, sizes: seq<nat>, header: nat, maxSize: int)
    requires Rotated(files, header, maxSize)
    ensures Rotated(AppendAll(files, sizes, header, maxSize), header, maxSize)
    decreases |sizes|
  {
    if |sizes| > 0 {
      AppendKeeps(files, sizes[0], header, maxSize);
      AppendAllRotated(Append(files, sizes[0], header, maxSize), sizes[1..], header, maxSize);
    }
  }

  lemma {:induction false} AppendAllFlatten(files: seq<seq<nat>>, sizes: seq<nat>, header: nat, maxSize: int)
    ensures Flatten(AppendAll(files, sizes, header, maxSize)) == Flatten(files) + sizes
    decreases |sizes|
  {
    if |sizes| > 0 {
      var next := Append(files, sizes[0], header, maxSize);
      AppendFlatten(files, sizes[0], header, maxSize);
      AppendAllFlatten(next, sizes[1..], header, maxSize);
      assert sizes == [sizes[0]] + sizes[1..];
      assert Flatten(files) + [sizes[0]] + sizes[1..] == Flatten(files) + sizes;
    }
  }

  /** Whichever file it goes into, a record lands after all the earlier ones. */
  lemma {:induction false} AppendFlatten(files: seq<seq<nat>>, size: nat, header: nat, maxSize: int)
    ensures Flatten(Append(files, size, header, maxSize)) == Flatten(files) + [size]
  {
    var r := Append(files, size, header, maxSize);
    if |files| == 0 || NeedsNewFile(Some(header + Sum(files[|files| - 1])), maxSize) {
      assert r[..|r| - 1] == files;
    } else {
      var last := files[|files| - 1];
      assert r[..|r| - 1] == files[..|files| - 1];
      assert files == files[..|files| - 1] + [last];
      assert Flatten(files) == Flatten(files[..|files| - 1]) + last;
    }
  }

  lemma {:induction false} AppendAllCount(files: seq<seq<nat>>, sizes: seq<nat>, header: nat)
    requires Rotated(files, header, -1)
    ensures |AppendAll(files, sizes, header, -1)| == if |files| == 0 && |sizes| > 0 then 1 else |files|
    decreases |sizes|
  {
    if |sizes| > 0 {
      var next := Append(files, sizes[0], header, -1);
      AppendKeeps(files, sizes[0], header, -1);
      AppendAllCount(next, sizes[1..], header);
    }
  }

  lemma {:induction false} AppendAllClosed(files: seq<seq<nat>>, sizes: seq<nat>, header: nat, maxSize: int)
    requires Rotated(files, header, maxSize)
    ensures ClosedPast(files, header, maxSize) ==> ClosedPast(AppendAll(files, sizes, header, maxSize), header, maxSize)
    decreases |sizes|
  {
    if |sizes| > 0 {
      AppendKeeps(files, sizes[0], header, maxSize);
      AppendAllClosed(Append(files, sizes[0], header, maxSize), sizes[1..], header, maxSize);
    }
  }

  /** One more record at the end of the stream is one more `Append`. */
  lemma {:induction false} AppendAllSnoc(files: seq<seq<nat>>, sizes: seq<nat>, size: nat, header: nat, maxSize: int)
    ensures AppendAll(files, sizes + [size], header, maxSize)
            == Append(AppendAll(files, sizes, header, maxSize), size, header, maxSize)
    decreases |sizes|
  {
    if |sizes| == 0 {
      assert sizes + [size] == [size];
      assert [size][1..] == [];
    } else {
      assert (sizes + [size])[0] == sizes[0];
      assert (sizes + [size])[1..] == sizes[1..] + [size];
      AppendAllSnoc(Append(files, sizes[0], header, maxSize), sizes[1..], size, header, maxSize);
    }
  }

  /** The files with their very last record taken back out. */
  function DropLast(files: seq<seq<nat>>): seq<seq<nat>>
    requires |files| > 0 && |files[|files| - 1]| > 0
  {
    var last := files[|files| - 1];
    if |last| == 1 then files[..|files| - 1] else files[..|files| - 1] + [last[..|last| - 1]]
  }

  /** Taking the last record out keeps the rotation rule, and `Append` puts it back. */
  lemma {:induction false} DropLastKeeps(files: seq<seq<nat>>, header: nat, maxSize: int)
    requires |files| > 0 && Rotated(files, header, maxSize) && ClosedPast(files, header, maxSize)
    ensures var last := files[|files| - 1];
            var d := DropLast(files);
            && |last| > 0
            && Rotated(d, header, maxSize) && ClosedPast(d, header, maxSize)
            && Flatten(files) == Flatten(d) + [last[|last| - 1]]
            && Append(d, last[|last| - 1], header, maxSize) == files
  {
    var last := files[|files| - 1];
    if |last| == 1 {
      DropLastFile(files, header, maxSize);
    } else {
      DropLastRecord(files, header, maxSize);
    }
  }

  /** The last file held one record: it goes, and the file before it was past the maximum. */
  lemma {:induction false} DropLastFile(files: seq<seq<nat>>, header: nat, maxSize: int)
    requires |files| > 0 && Rotated(files, header, maxSize) && ClosedPast(files, header, maxSize)
    requires |files[|files| - 1]| == 1
    ensures var d := files[..|files| - 1];
            var x := files[|files| - 1][0];
            && Rotated(d, header, maxSize) && ClosedPast(d, header, maxSize)
            && Flatten(files) == Flatten(d) + [x]
            && Append(d, x, header, maxSize) == files
  {
    var k := |files|;
    var d := files[..k - 1];
    var x := files[k - 1][0];
    assert files[k - 1] == [x];
    assert forall i :: 0 <= i < k - 1 ==> d[i] == files[i];
    assert files == d + [[x]];
    if k > 1 {
      assert d[k - 2] == files[k - 2];
      assert NeedsNewFile(Some(header + Sum(d[k - 2])), maxSize);
    }
  }

  /** The last file held more records: it keeps all but the last, which went in within the maximum. */
  lemma {:induction false} DropLastRecord(files: seq<seq<nat>>, header: nat, maxSize: int)
    requires |files| > 0 && Rotated(files, header, maxSize) && ClosedPast(files, header, maxSize)
    requires |files[|files| - 1]| > 1
    ensures var last := files[|files| - 1];
            var d := files[..|files| - 1] + [last[..|last| - 1]];
            var x := last[|last| - 1];
            && Rotated(d, header, maxSize) && ClosedPast(d, header, maxSize)
            && Flatten(files) == Flatten(d) + [x]
            && Append(d, x, header, maxSize) == files
  {
    var k := |files|;
    var last := files[k - 1];
    var l := last[..|last| - 1];
    var x := last[|last| - 1];
    var d := files[..k - 1] + [l];
    assert last == l + [x];
    assert d[..k - 1] == files[..k - 1] && d[k - 1] == l;
    assert Flatten(d) == Flatten(files[..k - 1]) + l;
    assert Flatten(files) == Flatten(files[..k - 1]) + last;
    assert Sum(l) == Sum(l[..|l| - 1]) + l[|l| - 1];
    assert maxSize != -1 ==> header + Sum(l) <= maxSize;
    assert forall i :: 0 <= i < k - 1 ==> d[i] == files[i];
    assert !NeedsNewFile(Some(header + Sum(l)), maxSize);
    assert files == d[..k - 1] + [l + [x]];
  }

  /**
   * The rotation rule decides the files: a list of files satisfies both
   * halves of it and holds the records in order exactly when it is what a
   * member writes, from no file at all, for that stream of records.
   */
  lemma {:induction false} WrittenFiles(files: seq<seq<nat>>, sizes: seq<nat>, header: nat, maxSize: int)
    ensures files == AppendAll([], sizes, header, maxSize)
            <==> Rotated(files, header, maxSize) && ClosedPast(files, header, maxSize) && Flatten(files) == sizes
  {
    AppendAllKeeps([], sizes, header, maxSize);
    if Rotated(files, header, maxSize) && ClosedPast(files, header, maxSize) && Flatten(files) == sizes {
      RotationUnique(files, sizes, header, maxSize);
    }
  }

  lemma {:induction false} RotationUnique(files: seq<seq<nat>>, sizes: seq<nat>, header: nat, maxSize: int)
    requires Rotated(files, header, maxSize) && ClosedPast(files, header, maxSize) && Flatten(files) == sizes
    ensures files == AppendAll([], sizes, header, maxSize)
    decreases |sizes|
  {
    if |files| > 0 {
      var last := files[|files| - 1];
      var d := DropLast(files);
      DropLastKeeps(files, header, maxSize);
      var x := last[|last| - 1];
      assert sizes == Flatten(d) + [x];
      RotationUnique(d, Flatten(d), header, maxSize);
      AppendAllSnoc([], Flatten(d), x, header, maxSize);
    }
  }
}
