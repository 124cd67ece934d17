/** Layout facts about the index payload, and the serialise-then-parse round trip. */
module IndexProperties {
  import opened Wrappers
  import opened Wire
  import opened Records
  import opened Index

  // ---------------------------------------------------------------------------
  // Sizes and counts

  /** A successful `<I` read returns the little-endian word at `pos`. */
  lemma {:induction false} WordValue(bs: seq<byte>, pos: nat)
    requires ReadfAt(bs, pos, Word).Ok?
    ensures pos + 4 <= |bs| && ReadfAt(bs, pos, Word).value == [LittleEndian(bs[pos..pos + 4])]
  {
    RecordFormatSize();
    var w := Window(bs, pos, 4);
    assert Word[0] == I && w == bs[pos..pos + 4] && w[..4] == w;
  }

  /** A bundle record consumes its two words and the `name_len` bytes of its name. */
  lemma {:induction false} BundleRecordSize(bs: seq<byte>, pos: nat)
    requires BundleAt(bs, pos).Ok?
    ensures var (b, next) := BundleAt(bs, pos).value;
            next == pos + 8 + |b.name| && next <= |bs|
            && LittleEndian(bs[pos..pos + 4]) == |b.name|
            && b.name == bs[pos + 4..pos + 4 + |b.name|]
            && b.uncompressedSize == LittleEndian(bs[pos + 4 + |b.name|..next])
  {
    RecordFormatSize();
    WordValue(bs, pos);
    var n := LittleEndian(bs[pos..pos + 4]);
    var afterName := NextPos(|bs|, pos + 4, n);
    WordValue(bs, afterName);
    assert afterName == pos + 4 + n;
  }

  /** The total length of the bundle names. */
  function NameBytes(bundles: seq<BundleRecord>): nat {
    if bundles == [] then 0 else |bundles[0].name| + NameBytes(bundles[1..])
  }

  lemma {:induction false} ReadBundlesSize(bs: seq<byte>, pos: nat, count: nat)
    requires ReadBundles(bs, pos, count).Ok?
    ensures var (bundles, next) := ReadBundles(bs, pos, count).value;
            |bundles| == count && next == pos + 8 * count + NameBytes(bundles)
    decreases count
  {
    if count > 0 {
      BundleRecordSize(bs, pos);
      var (b, p) := BundleAt(bs, pos).value;
      ReadBundlesSize(bs, p, count - 1);
      var rest := ReadBundles(bs, p, count - 1).value.0;
      assert ([b] + rest)[1..] == rest;
    }
  }

  lemma {:induction false} RecordTuplesSize(bs: seq<byte>, pos: nat, count: nat)
    requires ReadTuples(bs, pos, count, RecordFormat).Ok?
    ensures var (ts, next) := ReadTuples(bs, pos, count, RecordFormat).value;
            |ts| == count && next == pos + 20 * count && (count > 0 ==> next <= |bs|)
    decreases count
  {
    RecordFormatSize();
    if count > 0 {
      RecordTuplesSize(bs, pos + 20, count - 1);
    }
  }

  /** The little-endian count word at `pos`. */
  function CountAt(bs: seq<byte>, pos: nat): nat
    requires pos + 4 <= |bs|
  {
    LittleEndian(bs[pos..pos + 4])
  }

  /** The bytes a bundle list takes: its count word, two words per record, and the names. */
  function BundleSectionLength(bundles: seq<BundleRecord>): nat {
    4 + 8 * |bundles| + NameBytes(bundles)
  }

  /** The bytes a file or path list of `count` records takes. */
  function RecordSectionLength(count: nat): nat {
    4 + 20 * count
  }

  /** The bundle list has as many records as its count word says. */
  lemma {:induction false} BundleSectionSize(bs: seq<byte>, pos: nat, bundles: seq<BundleRecord>, next: nat)
    requires BundleSection(bs, pos) == Ok((bundles, next))
    ensures pos + 4 <= |bs| && |bundles| == CountAt(bs, pos)
    ensures next == pos + BundleSectionLength(bundles)
  {
    WordValue(bs, pos);
    ReadBundlesSize(bs, pos + 4, LittleEndian(bs[pos..pos + 4]));
  }

  /** A file or path list has as many 20-byte records as its count word says. */
  lemma {:induction false} RecordSectionSize(bs: seq<byte>, pos: nat, ts: seq<seq<nat>>, next: nat)
    requires RecordSection(bs, pos) == Ok((ts, next))
    ensures pos + 4 <= |bs| && |ts| == CountAt(bs, pos)
    ensures next == pos + RecordSectionLength(|ts|) && next <= |bs|
  {
    WordValue(bs, pos);
    RecordTuplesSize(bs, pos + 4, LittleEndian(bs[pos..pos + 4]));
  }

  /** Where the three sections of a decoded payload lie. */
  lemma {:induction false} SectionsLayout(bs: seq<byte>, bundles: seq<BundleRecord>, p1: nat,
                                          files: seq<seq<nat>>, p2: nat, reps: seq<seq<nat>>, p3: nat)
    requires BundleSection(bs, 0) == Ok((bundles, p1))
    requires RecordSection(bs, p1) == Ok((files, p2)) && RecordSection(bs, p2) == Ok((reps, p3))
    ensures p1 == BundleSectionLength(bundles) && |bundles| == CountAt(bs, 0)
    ensures p2 == p1 + RecordSectionLength(|files|) && |files| == CountAt(bs, p1)
    ensures p3 == p2 + RecordSectionLength(|reps|) && |reps| == CountAt(bs, p2)
    ensures p3 <= |bs| && Rest(bs, p3) == bs[p3..]
  {
    BundleSectionSize(bs, 0, bundles, p1);
    RecordSectionSize(bs, p1, files, p2);
    RecordSectionSize(bs, p2, reps, p3);
  }

  /**
   * The payload is read strictly in sequence: the three lists follow one
   * another, each as long as its count word says, and `path_comp` is
   * exactly the bytes after the last path record.
   */
  lemma {:induction false} PayloadLayout(bs: seq<byte>, idx: BundleIndex)
    requires DecodePayload(bs) == Ok(idx)
    ensures var p1 := BundleSectionLength(idx.bundles);
            var p2 := p1 + RecordSectionLength(|idx.files|);
            var p3 := p2 + RecordSectionLength(|idx.pathReps|);
            p3 <= |bs|
            && |idx.bundles| == CountAt(bs, 0)
            && |idx.files| == CountAt(bs, p1)
            && |idx.pathReps| == CountAt(bs, p2)
            && idx.pathComp == bs[p3..]
  {
    var bundles, p1, files, p2, reps, p3 := Sections(bs);
    DecodeOfSections(bs, bundles, p1, files, p2, reps, p3);
    SectionsLayout(bs, bundles, p1, files, p2, reps, p3);
  }

  /** The three sections a decodable payload is made of. */
  lemma {:induction false} Sections(bs: seq<byte>)
      returns (bundles: seq<BundleRecord>, p1: nat, files: seq<seq<nat>>, p2: nat, reps: seq<seq<nat>>, p3: nat)
    requires DecodePayload(bs).Ok?
    ensures BundleSection(bs, 0) == Ok((bundles, p1))
    ensures RecordSection(bs, p1) == Ok((files, p2)) && RecordSection(bs, p2) == Ok((reps, p3))
  {
    var r1 := BundleSection(bs, 0);
    bundles, p1 := r1.value.0, r1.value.1;
    var r2 := RecordSection(bs, p1);
    files, p2 := r2.value.0, r2.value.1;
    var r3 := RecordSection(bs, p2);
    reps, p3 := r3.value.0, r3.value.1;
  }

  // ---------------------------------------------------------------------------
  // Serialising an index

  /** Every bundle name fits its `u32` length word. */
  predicate NamesFit(bundles: seq<BundleRecord>) {
    bundles == [] || (|bundles[0].name| < 0x1_0000_0000 && NamesFit(bundles[1..]))
  }

  function EncodeBundle(b: BundleRecord): seq<byte>
    requires |b.name| < 0x1_0000_0000
  {
    Le32(|b.name|) + b.name + Le32(b.uncompressedSize)
  }

  function EncodeBundles(bundles: seq<BundleRecord>): seq<byte>
    requires NamesFit(bundles)
  {
    if bundles == [] then [] else EncodeBundle(bundles[0]) + EncodeBundles(bundles[1..])
  }

  function EncodeTuples(ts: seq<seq<nat>>): seq<byte>
    requires AllFit(RecordFormat, ts)
  {
    if ts == [] then []
    else
      assert Fits(RecordFormat, ts[0]);
      assert AllFit(RecordFormat, ts[1..]) by {
        forall i | 0 <= i < |ts| - 1 ensures Fits(RecordFormat, ts[1..][i]) {
          assert ts[1..][i] == ts[i + 1];
        }
      }
      Pack(RecordFormat, ts[0]) + EncodeTuples(ts[1..])
  }

  lemma {:induction false} RecordFits(a: u64, b: u32, c: u32, d: u32)
    ensures Fits(RecordFormat, [a, b, c, d])
  {
    Pow256Widths();
    var t: seq<nat> := [a, b, c, d];
    assert Width(RecordFormat[0]) == 8 && Width(RecordFormat[1]) == 4;
    assert Width(RecordFormat[2]) == 4 && Width(RecordFormat[3]) == 4;
    assert t[0] < Pow256(8) && t[1] < Pow256(4) && t[2] < Pow256(4) && t[3] < Pow256(4);
  }

  function FileTuples(files: seq<FileRecord>): (ts: seq<seq<nat>>)
    ensures |ts| == |files| && AllFit(RecordFormat, ts)
  {
    var ts := seq(|files|, i requires 0 <= i < |files| =>
                    [files[i].pathHash, files[i].bundleIndex, files[i].fileOffset, files[i].fileSize]);
    assert AllFit(RecordFormat, ts) by {
      forall i | 0 <= i < |ts| ensures Fits(RecordFormat, ts[i]) {
        RecordFits(files[i].pathHash, files[i].bundleIndex, files[i].fileOffset, files[i].fileSize);
      }
    }
    ts
  }

  function PathRepTuples(reps: seq<PathRep>): (ts: seq<seq<nat>>)
    ensures |ts| == |reps| && AllFit(RecordFormat, ts)
  {
    var ts := seq(|reps|, i requires 0 <= i < |reps| =>
                    [reps[i].hash, reps[i].offset, reps[i].size, reps[i].recursiveSize]);
    assert AllFit(RecordFormat, ts) by {
      forall i | 0 <= i < |ts| ensures Fits(RecordFormat, ts[i]) {
        RecordFits(reps[i].hash, reps[i].offset, reps[i].size, reps[i].recursiveSize);
      }
    }
    ts
  }

  /** What the payload of a serialisable index must respect: every count and name length fits a `u32`. */
  predicate WellSized(idx: BundleIndex) {
    NamesFit(idx.bundles)
    && |idx.bundles| < 0x1_0000_0000 && |idx.files| < 0x1_0000_0000 && |idx.pathReps| < 0x1_0000_0000
  }

  /** The bundle count, then the bundle records. */
  function BundleSectionBytes(bundles: seq<BundleRecord>): seq<byte>
    requires NamesFit(bundles) && |bundles| < 0x1_0000_0000
  {
    Le32(|bundles|) + EncodeBundles(bundles)
  }

  /** A record count, then the 20-byte records. */
  function RecordSectionBytes(ts: seq<seq<nat>>): seq<byte>
    requires AllFit(RecordFormat, ts) && |ts| < 0x1_0000_0000
  {
    Le32(|ts|) + EncodeTuples(ts)
  }

  /** The payload layout `BundleIndex.__init__` reads, written out. */
  function EncodePayload(idx: BundleIndex): seq<byte>
    requires WellSized(idx)
  {
    BundleSectionBytes(idx.bundles)
    + (RecordSectionBytes(FileTuples(idx.files))
       + (RecordSectionBytes(PathRepTuples(idx.pathReps)) + idx.pathComp))
  }

  // ---------------------------------------------------------------------------
  // Reading serialised records back

  lemma {:induction false} OccursSplit(bs: seq<byte>, pos: nat, x: seq<byte>, y: seq<byte>)
    requires OccursAt(bs, x + y, pos)
    ensures OccursAt(bs, x, pos) && OccursAt(bs, y, pos + |x|)
  {
    OccursAtSlice(bs, x + y, pos);
    OccursAtSlice(bs, x, pos);
    OccursAtSlice(bs, y, pos + |x|);
    assert bs[pos..pos + |x|] == (x + y)[..|x|];
    assert bs[pos + |x|..pos + |x| + |y|] == (x + y)[|x|..];
  }

  lemma {:induction false} WordAt(bs: seq<byte>, pos: nat, v: u32)
    requires OccursAt(bs, Le32(v), pos)
    ensures ReadfAt(bs, pos, Word) == Ok([v])
  {
    Pow256Widths();
    RecordFormatSize();
    assert Fits(Word, [v]);
    assert Pack(Word, [v]) == Le32(v);
    OccursAtSlice(bs, Le32(v), pos);
    ReadfOfSlice(bs, pos, Word, [v]);
  }

  lemma {:induction false} BundleAtEncoded(bs: seq<byte>, pos: nat, b: BundleRecord)
    requires |b.name| < 0x1_0000_0000 && OccursAt(bs, EncodeBundle(b), pos)
    ensures BundleAt(bs, pos) == Ok((b, pos + |EncodeBundle(b)|))
  {
    var n := |b.name|;
    OccursSplit(bs, pos, Le32(n) + b.name, Le32(b.uncompressedSize));
    OccursSplit(bs, pos, Le32(n), b.name);
    WordAt(bs, pos, n);
    WordAt(bs, pos + 4 + n, b.uncompressedSize);
    OccursAtSlice(bs, b.name, pos + 4);
    assert Window(bs, pos + 4, n) == b.name;
    assert NextPos(|bs|, pos + 4, n) == pos + 4 + n;
  }

  /** `count == |bundles|` bundle records read from `pos` are `bundles`, ending at `end`. */
  predicate BundlesReadAs(bs: seq<byte>, pos: nat, bundles: seq<BundleRecord>, end: nat) {
    ReadBundles(bs, pos, |bundles|) == Ok((bundles, end))
  }

  lemma {:induction false} ReadBundlesCons(bs: seq<byte>, pos: nat, bundles: seq<BundleRecord>, next: nat, end: nat)
    requires bundles != [] && BundleAt(bs, pos) == Ok((bundles[0], next))
    requires BundlesReadAs(bs, next, bundles[1..], end)
    ensures BundlesReadAs(bs, pos, bundles, end)
  {
    assert [bundles[0]] + bundles[1..] == bundles;
  }

  lemma {:induction false} EncodeBundlesCons(bundles: seq<BundleRecord>)
    requires bundles != [] && NamesFit(bundles)
    ensures NamesFit(bundles[1..]) && |bundles[0].name| < 0x1_0000_0000
    ensures EncodeBundles(bundles) == EncodeBundle(bundles[0]) + EncodeBundles(bundles[1..])
  {
  }

  /**
   * The first of several serialised bundle records is read back, and the
   * others follow it, up to the same end.
   */
  lemma {:induction false} BundleStep(bs: seq<byte>, pos: nat, bundles: seq<BundleRecord>, end: nat)
    requires bundles != [] && NamesFit(bundles) && OccursAt(bs, EncodeBundles(bundles), pos)
    requires end == pos + |EncodeBundles(bundles)|
    ensures var next := pos + |EncodeBundle(bundles[0])|;
            && NamesFit(bundles[1..]) && OccursAt(bs, EncodeBundles(bundles[1..]), next)
            && end == next + |EncodeBundles(bundles[1..])|
            && BundleAt(bs, pos) == Ok((bundles[0], next))
  {
    EncodeBundlesCons(bundles);
    var head, tail := EncodeBundle(bundles[0]), EncodeBundles(bundles[1..]);
    OccursSplit(bs, pos, head, tail);
    BundleAtEncoded(bs, pos, bundles[0]);
  }

  lemma {:induction false} BundlesAtEncoded(bs: seq<byte>, pos: nat, bundles: seq<BundleRecord>, end: nat)
    requires NamesFit(bundles) && OccursAt(bs, EncodeBundles(bundles), pos)
    requires end == pos + |EncodeBundles(bundles)|
    ensures BundlesReadAs(bs, pos, bundles, end)
    decreases |bundles|
  {
    if bundles != [] {
      BundleStep(bs, pos, bundles, end);
      var next := pos + |EncodeBundle(bundles[0])|;
      BundlesAtEncoded(bs, next, bundles[1..], end);
      ReadBundlesCons(bs, pos, bundles, next, end);
    }
  }

  lemma {:induction false} ReadTuplesCons(bs: seq<byte>, pos: nat, count: nat, t: seq<nat>)
    requires count > 0 && ReadfAt(bs, pos, RecordFormat) == Ok(t)
    ensures ReadTuples(bs, pos, count, RecordFormat) == Prepend([t], ReadTuples(bs, pos + 20, count - 1, RecordFormat))
  {
    RecordFormatSize();
  }

  lemma {:induction false} AllFitTail(ts: seq<seq<nat>>)
    requires ts != [] && AllFit(RecordFormat, ts)
    ensures Fits(RecordFormat, ts[0]) && AllFit(RecordFormat, ts[1..])
  {
    assert Fits(RecordFormat, ts[0]);
    forall i | 0 <= i < |ts| - 1 ensures Fits(RecordFormat, ts[1..][i]) {
      assert ts[1..][i] == ts[i + 1];
    }
  }

  lemma {:induction false} TuplesAtEncoded(bs: seq<byte>, pos: nat, ts: seq<seq<nat>>)
    requires AllFit(RecordFormat, ts) && OccursAt(bs, EncodeTuples(ts), pos)
    ensures ReadTuples(bs, pos, |ts|, RecordFormat) == Ok((ts, pos + |EncodeTuples(ts)|))
    decreases |ts|
  {
    if ts != [] {
      AllFitTail(ts);
      RecordFormatSize();
      var t, rest := ts[0], ts[1..];
      var head, tail := Pack(RecordFormat, t), EncodeTuples(rest);
      assert EncodeTuples(ts) == head + tail;
      OccursSplit(bs, pos, head, tail);
      OccursAtSlice(bs, head, pos);
      ReadfOfSlice(bs, pos, RecordFormat, t);
      TuplesAtEncoded(bs, pos + 20, rest);
      ReadTuplesCons(bs, pos, |ts|, t);
      assert [t] + rest == ts;
    }
  }

  lemma {:induction false} BundleSectionOfParts(bs: seq<byte>, pos: nat, bundles: seq<BundleRecord>, end: nat)
    requires ReadfAt(bs, pos, Word) == Ok([|bundles|])
    requires BundlesReadAs(bs, pos + 4, bundles, end)
    ensures BundleSection(bs, pos) == Ok((bundles, end))
  {
  }

  lemma {:induction false} RecordSectionOfParts(bs: seq<byte>, pos: nat, ts: seq<seq<nat>>, end: nat)
    requires ReadfAt(bs, pos, Word) == Ok([|ts|])
    requires ReadTuples(bs, pos + 4, |ts|, RecordFormat) == Ok((ts, end))
    ensures RecordSection(bs, pos) == Ok((ts, end))
  {
  }

  lemma {:induction false} BundleSectionEncoded(bs: seq<byte>, pos: nat, bundles: seq<BundleRecord>, end: nat)
    requires NamesFit(bundles) && |bundles| < 0x1_0000_0000
    requires OccursAt(bs, BundleSectionBytes(bundles), pos) && end == pos + |BundleSectionBytes(bundles)|
    ensures BundleSection(bs, pos) == Ok((bundles, end))
  {
    var records := EncodeBundles(bundles);
    OccursSplit(bs, pos, Le32(|bundles|), records);
    WordAt(bs, pos, |bundles|);
    BundlesAtEncoded(bs, pos + 4, bundles, end);
    BundleSectionOfParts(bs, pos, bundles, end);
  }

  lemma {:induction false} RecordSectionEncoded(bs: seq<byte>, pos: nat, ts: seq<seq<nat>>, end: nat)
    requires AllFit(RecordFormat, ts) && |ts| < 0x1_0000_0000
    requires OccursAt(bs, RecordSectionBytes(ts), pos) && end == pos + |RecordSectionBytes(ts)|
    ensures RecordSection(bs, pos) == Ok((ts, end))
  {
    var records := EncodeTuples(ts);
    OccursSplit(bs, pos, Le32(|ts|), records);
    WordAt(bs, pos, |ts|);
    TuplesAtEncoded(bs, pos + 4, ts);
    RecordSectionOfParts(bs, pos, ts, end);
  }

  lemma {:induction false} FilesOfTuples(files: seq<FileRecord>)
    ensures FilesOf(FileTuples(files)) == files
  {
  }

  lemma {:induction false} PathRepsOfTuples(reps: seq<PathRep>)
    ensures PathRepsOf(PathRepTuples(reps)) == reps
  {
  }

  /** Where each part of a serialised payload sits. */
  lemma {:induction false} PayloadPieces(idx: BundleIndex)
    requires WellSized(idx)
    ensures var bs := EncodePayload(idx);
            var s1 := BundleSectionBytes(idx.bundles);
            var s2 := RecordSectionBytes(FileTuples(idx.files));
            var s3 := RecordSectionBytes(PathRepTuples(idx.pathReps));
            OccursAt(bs, s1, 0) && OccursAt(bs, s2, |s1|) && OccursAt(bs, s3, |s1| + |s2|)
            && |s1| + |s2| + |s3| <= |bs| && bs[|s1| + |s2| + |s3|..] == idx.pathComp
  {
    var bs := EncodePayload(idx);
    var s1 := BundleSectionBytes(idx.bundles);
    var s2 := RecordSectionBytes(FileTuples(idx.files));
    var s3 := RecordSectionBytes(PathRepTuples(idx.pathReps));
    OccursAtSlice(bs, bs, 0);
    assert bs[0..|bs|] == bs;
    OccursSplit(bs, 0, s1, s2 + (s3 + idx.pathComp));
    OccursSplit(bs, |s1|, s2, s3 + idx.pathComp);
    OccursSplit(bs, |s1| + |s2|, s3, idx.pathComp);
    OccursAtSlice(bs, idx.pathComp, |s1| + |s2| + |s3|);
  }

  lemma {:induction false} RestAt(bs: seq<byte>, p: nat, tail: seq<byte>)
    requires p <= |bs| && bs[p..] == tail
    ensures Rest(bs, p) == tail
  {
  }

  /** The decoder's result once its three sections are known. */
  lemma {:induction false} DecodeOfSections(bs: seq<byte>, bundles: seq<BundleRecord>, p1: nat,
                         files: seq<seq<nat>>, p2: nat, reps: seq<seq<nat>>, p3: nat)
    requires BundleSection(bs, 0) == Ok((bundles, p1))
    requires RecordSection(bs, p1) == Ok((files, p2)) && RecordSection(bs, p2) == Ok((reps, p3))
    ensures AllFit(RecordFormat, files) && AllFit(RecordFormat, reps)
    ensures DecodePayload(bs) == Ok(BundleIndex(bundles, FilesOf(files), PathRepsOf(reps), Rest(bs, p3)))
  {
  }

  /** Serialising an index and parsing the payload gives the same index back. */
  lemma {:induction false} PayloadRoundTrip(idx: BundleIndex)
    requires WellSized(idx)
    ensures DecodePayload(EncodePayload(idx)) == Ok(idx)
  {
    var bs := EncodePayload(idx);
    var files, reps := FileTuples(idx.files), PathRepTuples(idx.pathReps);
    var p1 := |BundleSectionBytes(idx.bundles)|;
    var p2 := p1 + |RecordSectionBytes(files)|;
    var p3 := p2 + |RecordSectionBytes(reps)|;
    PayloadPieces(idx);
    BundleSectionEncoded(bs, 0, idx.bundles, p1);
    RecordSectionEncoded(bs, p1, files, p2);
    RecordSectionEncoded(bs, p2, reps, p3);
    RestAt(bs, p3, idx.pathComp);
    DecodeOfSections(bs, idx.bundles, p1, files, p2, reps, p3);
    FilesOfTuples(idx.files);
    PathRepsOfTuples(idx.pathReps);
  }

  /** `BundleIndex(index_data)` over a container whose payload is a serialised index returns that index. */
  lemma {:induction false} LoadRoundTrip(indexData: seq<byte>, decompress: Container.Decompressor, idx: BundleIndex)
    requires WellSized(idx) && Container.ContainerPayload(indexData, decompress) == Ok(EncodePayload(idx))
    ensures LoadIndex(indexData, decompress) == Ok(idx)
  {
    PayloadRoundTrip(idx);
  }
}
