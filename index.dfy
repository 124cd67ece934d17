/**
 * `BundleIndex`: the index payload, once its container is decompressed, is
 * read strictly in sequence: the bundle records, the file records, the path
 * records, and the untouched remainder (the compressed path table).
 */
module Index {
  import opened Wrappers
  import opened Wire
  import opened Records
  import opened Container

  datatype BundleIndex = BundleIndex(
    bundles: seq<BundleRecord>,
    files: seq<FileRecord>,
    pathReps: seq<PathRep>,
    pathComp: seq<byte>)

  /** `<I`: a count or a length. */
  const Word: seq<Field> := [I]
  /** `<QIII`: the 20-byte layout shared by file records and path records. */
  const RecordFormat: seq<Field> := [Q, I, I, I]

  lemma {:induction false} RecordFormatSize()
    ensures FormatSize(Word) == 4 && FormatSize(RecordFormat) == 20
  {
    assert FormatSize([I]) == 4;
    assert FormatSize([I, I]) == 8;
    assert FormatSize([I, I, I]) == 12;
  }

  function Prepend<T>(xs: seq<T>, r: Result<(seq<T>, nat)>): Result<(seq<T>, nat)> {
    match r
    case Ok((ys, p)) => Ok((xs + ys, p))
    case Err(e) => Err(e)
  }

  lemma {:induction false} PrependAssociates<T>(a: seq<T>, b: seq<T>, r: Result<(seq<T>, nat)>)
    ensures Prepend(a, Prepend(b, r)) == Prepend(a + b, r)
    ensures Prepend([], r) == r
  {
    if r.Ok? {
      assert a + (b + r.value.0) == a + b + r.value.0;
      assert [] + r.value.0 == r.value.0;
    }
  }

  /** One bundle record at `pos` (`u32 len, name, u32`), and the position after it. */
  function BundleAt(bs: seq<byte>, pos: nat): Result<(BundleRecord, nat)> {
    match ReadfAt(bs, pos, Word)
    case Err(e) => Err(e)
    case Ok(nameLen) =>
      var name := Window(bs, pos + 4, nameLen[0]);
      var afterName := NextPos(|bs|, pos + 4, nameLen[0]);
      match ReadfAt(bs, afterName, Word)
      case Err(e) => Err(e)
      case Ok(size) =>
        Pow256Widths();
        Ok((BundleRecord(name, size[0]), afterName + 4))
  }

  /** `count` bundle records read from position `pos`, and the position after them. */
  function ReadBundles(bs: seq<byte>, pos: nat, count: nat): Result<(seq<BundleRecord>, nat)>
    decreases count
  {
    if count == 0 then Ok(([], pos))
    else
      match BundleAt(bs, pos)
      case Err(e) => Err(e)
      case Ok((b, next)) => Prepend([b], ReadBundles(bs, next, count - 1))
  }

  /** `count` values of the fixed format `fmt` read from position `pos`, and the position after them. */
  function ReadTuples(bs: seq<byte>, pos: nat, count: nat, fmt: seq<Field>): Result<(seq<seq<nat>>, nat)>
    requires fmt != []
    decreases count
  {
    if count == 0 then Ok(([], pos))
    else
      match ReadfAt(bs, pos, fmt)
      case Err(e) => Err(e)
      case Ok(t) => Prepend([t], ReadTuples(bs, pos + FormatSize(fmt), count - 1, fmt))
  }

  predicate AllFit(fmt: seq<Field>, ts: seq<seq<nat>>) {
    forall i :: 0 <= i < |ts| ==> Fits(fmt, ts[i])
  }

  lemma {:induction false} ReadTuplesFit(bs: seq<byte>, pos: nat, count: nat, fmt: seq<Field>)
    requires fmt != [] && ReadTuples(bs, pos, count, fmt).Ok?
    ensures AllFit(fmt, ReadTuples(bs, pos, count, fmt).value.0)
    decreases count
  {
    if count > 0 {
      ReadTuplesFit(bs, pos + FormatSize(fmt), count - 1, fmt);
    }
  }

  function ToFile(t: seq<nat>): FileRecord
    requires Fits(RecordFormat, t)
  {
    Pow256Widths();
    FileRecord(t[0], t[1], t[2], t[3])
  }

  function ToPathRep(t: seq<nat>): PathRep
    requires Fits(RecordFormat, t)
  {
    Pow256Widths();
    PathRep(t[0], t[1], t[2], t[3])
  }

  function FilesOf(ts: seq<seq<nat>>): (fs: seq<FileRecord>)
    requires AllFit(RecordFormat, ts)
    ensures |fs| == |ts|
  {
    seq(|ts|, i requires 0 <= i < |ts| => ToFile(ts[i]))
  }

  function PathRepsOf(ts: seq<seq<nat>>): (ps: seq<PathRep>)
    requires AllFit(RecordFormat, ts)
    ensures |ps| == |ts|
  {
    seq(|ts|, i requires 0 <= i < |ts| => ToPathRep(ts[i]))
  }

  /** What `fh.read()` returns at `pos`. */
  function Rest(bs: seq<byte>, pos: nat): seq<byte> {
    if pos < |bs| then bs[pos..] else []
  }

  /** One more record read by the bundle loop keeps its goal in view. */
  lemma {:induction false} ReadBundlesStep(bs: seq<byte>, goal: Result<(seq<BundleRecord>, nat)>, done: seq<BundleRecord>, pos: nat, count: nat)
    requires count > 0 && goal == Prepend(done, ReadBundles(bs, pos, count))
    ensures BundleAt(bs, pos).Err? ==> goal == Err(BundleAt(bs, pos).error)
    ensures BundleAt(bs, pos).Ok? ==>
              goal == Prepend(done + [BundleAt(bs, pos).value.0], ReadBundles(bs, BundleAt(bs, pos).value.1, count - 1))
  {
    if BundleAt(bs, pos).Ok? {
      PrependAssociates(done, [BundleAt(bs, pos).value.0], ReadBundles(bs, BundleAt(bs, pos).value.1, count - 1));
    }
  }

  /** A count word at `pos`, then that many bundle records. */
  function BundleSection(bs: seq<byte>, pos: nat): Result<(seq<BundleRecord>, nat)> {
    match ReadfAt(bs, pos, Word)
    case Err(e) => Err(e)
    case Ok(count) => ReadBundles(bs, pos + 4, count[0])
  }

  /** A count word at `pos`, then that many 20-byte `<QIII` records. */
  function RecordSection(bs: seq<byte>, pos: nat): (r: Result<(seq<seq<nat>>, nat)>)
    ensures r.Ok? ==> AllFit(RecordFormat, r.value.0)
  {
    match ReadfAt(bs, pos, Word)
    case Err(e) => Err(e)
    case Ok(count) =>
      var r := ReadTuples(bs, pos + 4, count[0], RecordFormat);
      if r.Ok? then ReadTuplesFit(bs, pos + 4, count[0], RecordFormat); r else r
  }

  /** The index `BundleIndex.__init__` reads from the decompressed payload `bs`. */
  function DecodePayload(bs: seq<byte>): Result<BundleIndex> {
    match BundleSection(bs, 0)
    case Err(e) => Err(e)
    case Ok((bundles, p1)) =>
      match RecordSection(bs, p1)
      case Err(e) => Err(e)
      case Ok((files, p2)) =>
        match RecordSection(bs, p2)
        case Err(e) => Err(e)
        case Ok((reps, p3)) => Ok(BundleIndex(bundles, FilesOf(files), PathRepsOf(reps), Rest(bs, p3)))
  }

  /** What `BundleIndex(index_data)` builds: decompress the container, then decode the payload. */
  function LoadIndex(indexData: seq<byte>, decompress: Decompressor): Result<BundleIndex> {
    match ContainerPayload(indexData, decompress)
    case Err(e) => Err(e)
    case Ok(payload) => DecodePayload(payload)
  }

  /** One pass of the bundle-record loop of `BundleIndex.__init__`. */
  method ReadBundle(fh: ByteStream) returns (r: Result<BundleRecord>)
    requires fh.pos <= |fh.data|
    modifies fh
    ensures fh.pos <= |fh.data|
    ensures r.Ok? ==> BundleAt(fh.data, old(fh.pos)) == Ok((r.value, fh.pos))
    ensures r.Err? ==> BundleAt(fh.data, old(fh.pos)) == Err(r.error)
  {
    Pow256Widths();
    var nameLen := Readf(fh, Word);
    if nameLen.Err? {
      return Err(nameLen.error);
    }
    var name := fh.Read(nameLen.value[0]);
    var size := Readf(fh, Word);
    if size.Err? {
      return Err(size.error);
    }
    r := Ok(BundleRecord(name, size.value[0]));
  }

  /** The bundle-record loop of `BundleIndex.__init__`: `count` records in sequence. */
  method ReadBundleRecords(fh: ByteStream, count: nat) returns (r: Result<seq<BundleRecord>>)
    requires fh.pos <= |fh.data|
    modifies fh
    ensures fh.pos <= |fh.data|
    ensures r.Ok? ==> ReadBundles(fh.data, old(fh.pos), count) == Ok((r.value, fh.pos))
    ensures r.Err? ==> ReadBundles(fh.data, old(fh.pos), count) == Err(r.error)
  {
    var bundles: seq<BundleRecord> := [];
    ghost var goal := ReadBundles(fh.data, fh.pos, count);
    PrependAssociates([], [], goal);
    for i := 0 to count
      invariant fh.pos <= |fh.data|
      invariant goal == Prepend(bundles, ReadBundles(fh.data, fh.pos, count - i))
    {
      ReadBundlesStep(fh.data, goal, bundles, fh.pos, count - i);
      var record := ReadBundle(fh);
      if record.Err? {
        return Err(record.error);
      }
      bundles := bundles + [record.value];
    }
    assert bundles + [] == bundles;
    r := Ok(bundles);
  }

  /** The bundle count, then the bundle records. */
  method ReadBundleList(fh: ByteStream) returns (r: Result<seq<BundleRecord>>)
    requires fh.pos <= |fh.data|
    modifies fh
    ensures fh.pos <= |fh.data|
    ensures r.Ok? ==> BundleSection(fh.data, old(fh.pos)) == Ok((r.value, fh.pos))
    ensures r.Err? ==> BundleSection(fh.data, old(fh.pos)) == Err(r.error)
  {
    var bundleCount := Readf(fh, Word);
    if bundleCount.Err? {
      return Err(bundleCount.error);
    }
    r := ReadBundleRecords(fh, bundleCount.value[0]);
  }

  /** One more tuple read by a record loop keeps its goal in view. */
  lemma {:induction false} ReadTuplesStep(bs: seq<byte>, goal: Result<(seq<seq<nat>>, nat)>, done: seq<seq<nat>>, pos: nat, count: nat)
    requires count > 0 && goal == Prepend(done, ReadTuples(bs, pos, count, RecordFormat))
    ensures ReadfAt(bs, pos, RecordFormat).Err? ==> goal == Err(ReadfAt(bs, pos, RecordFormat).error)
    ensures ReadfAt(bs, pos, RecordFormat).Ok? ==>
              goal == Prepend(done + [ReadfAt(bs, pos, RecordFormat).value],
                              ReadTuples(bs, pos + FormatSize(RecordFormat), count - 1, RecordFormat))
  {
    if ReadfAt(bs, pos, RecordFormat).Ok? {
      PrependAssociates(done, [ReadfAt(bs, pos, RecordFormat).value],
                        ReadTuples(bs, pos + FormatSize(RecordFormat), count - 1, RecordFormat));
    }
  }

  /**
   * The loop shared by the file records and the path records: `count`
   * reads of `<QIII` in sequence.
   */
  method ReadRecordTuples(fh: ByteStream, count: nat) returns (r: Result<seq<seq<nat>>>)
    requires fh.pos <= |fh.data|
    modifies fh
    ensures fh.pos <= |fh.data|
    ensures r.Ok? ==> ReadTuples(fh.data, old(fh.pos), count, RecordFormat) == Ok((r.value, fh.pos))
    ensures r.Err? ==> ReadTuples(fh.data, old(fh.pos), count, RecordFormat) == Err(r.error)
  {
    RecordFormatSize();
    var tuples: seq<seq<nat>> := [];
    ghost var goal := ReadTuples(fh.data, fh.pos, count, RecordFormat);
    PrependAssociates([], [], goal);
    for i := 0 to count
      invariant fh.pos <= |fh.data|
      invariant goal == Prepend(tuples, ReadTuples(fh.data, fh.pos, count - i, RecordFormat))
    {
      ReadTuplesStep(fh.data, goal, tuples, fh.pos, count - i);
      var t := Readf(fh, RecordFormat);
      if t.Err? {
        return Err(t.error);
      }
      tuples := tuples + [t.value];
    }
    assert tuples + [] == tuples;
    r := Ok(tuples);
  }

  /** The file records: a count, then `FileRecord(*readf(fh, '<QIII'))` that many times. */
  method ReadFileList(fh: ByteStream) returns (r: Result<seq<FileRecord>>)
    requires fh.pos <= |fh.data|
    modifies fh
    ensures fh.pos <= |fh.data|
    ensures var s := RecordSection(fh.data, old(fh.pos));
            if r.Ok? then s.Ok? && r.value == FilesOf(s.value.0) && fh.pos == s.value.1 else s == Err(r.error)
  {
    var fileCount := Readf(fh, Word);
    if fileCount.Err? {
      return Err(fileCount.error);
    }
    ghost var start := fh.pos;
    var tuples := ReadRecordTuples(fh, fileCount.value[0]);
    if tuples.Err? {
      return Err(tuples.error);
    }
    ReadTuplesFit(fh.data, start, fileCount.value[0], RecordFormat);
    r := Ok(FilesOf(tuples.value));
  }

  /** The path records: the same 20-byte `<QIII` layout, as `PathRep`s. */
  method ReadPathRepList(fh: ByteStream) returns (r: Result<seq<PathRep>>)
    requires fh.pos <= |fh.data|
    modifies fh
    ensures fh.pos <= |fh.data|
    ensures var s := RecordSection(fh.data, old(fh.pos));
            if r.Ok? then s.Ok? && r.value == PathRepsOf(s.value.0) && fh.pos == s.value.1 else s == Err(r.error)
  {
    var pathRepCount := Readf(fh, Word);
    if pathRepCount.Err? {
      return Err(pathRepCount.error);
    }
    ghost var start := fh.pos;
    var tuples := ReadRecordTuples(fh, pathRepCount.value[0]);
    if tuples.Err? {
      return Err(tuples.error);
    }
    ReadTuplesFit(fh.data, start, pathRepCount.value[0], RecordFormat);
    r := Ok(PathRepsOf(tuples.value));
  }

  /** `BundleIndex.__init__` after decompression: the three record lists, then the rest. */
  method ParsePayload(payload: seq<byte>) returns (r: Result<BundleIndex>)
    ensures r == DecodePayload(payload)
  {
    var fh := new ByteStream(payload);
    var bundles := ReadBundleList(fh);
    if bundles.Err? {
      return Err(bundles.error);
    }
    var files := ReadFileList(fh);
    if files.Err? {
      return Err(files.error);
    }
    var pathReps := ReadPathRepList(fh);
    if pathReps.Err? {
      return Err(pathReps.error);
    }
    var pathComp := fh.ReadRest();
    r := Ok(BundleIndex(bundles.value, files.value, pathReps.value, pathComp));
  }

  /** `BundleIndex(index_data)`. */
  method Load(indexData: seq<byte>, decompress: Decompressor) returns (r: Result<BundleIndex>)
    ensures r == LoadIndex(indexData, decompress)
  {
    var payload := DecompressBytes(indexData, decompress);
    if payload.Err? {
      return Err(payload.error);
    }
    r := ParsePayload(payload.value);
  }
}
