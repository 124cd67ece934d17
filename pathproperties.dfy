/** Properties of the path-table decoder. */
module PathTableProperties {
  import opened Wrappers
  import opened Wire
  import opened Records
  import opened PathTable

  // ---------------------------------------------------------------------------
  // `_cut_ntmbs`

  /** The split is at the first NUL: the prefix is everything before it. */
  lemma {:induction false} CutAtFirstNul(s: seq<byte>, i: nat)
    requires i < |s| && s[i] == 0 && 0 !in s[..i]
    ensures CutNtmbs(s) == Ok((s[..i], s[i + 1..]))
  {
    if i > 0 {
      assert s[..i] == [s[0]] + s[1..][..i - 1];
      CutAtFirstNul(s[1..], i - 1);
      assert s[1..][i..] == s[i + 1..];
    }
  }

  /** A fragment written with its terminator is cut back out. */
  lemma {:induction false} CutWritten(fragment: seq<byte>, rest: seq<byte>)
    requires 0 !in fragment
    ensures CutNtmbs(fragment + [0] + rest) == Ok((fragment, rest))
  {
    var s := fragment + [0] + rest;
    assert s[..|fragment|] == fragment;
    assert s[|fragment| + 1..] == rest;
    CutAtFirstNul(s, |fragment|);
  }

  // ---------------------------------------------------------------------------
  // One command

  lemma {:induction false} CommandWord(c: u32, rest: seq<byte>)
    ensures Command(Le32(c) + rest) == Ok(c)
    ensures (Le32(c) + rest)[4..] == rest
  {
    assert (Le32(c) + rest)[..4] == Le32(c);
  }

  /** A zero command flips the phase, clears the bases on entering the base phase, and reads no string. */
  lemma {:induction false} ToggleStep(d: Decoder, rest: seq<byte>)
    ensures DecodeStep(d, Le32(0) + rest) == Ok(Step(Toggle(d), rest, None))
    ensures Toggle(d).basePhase == !d.basePhase
    ensures Toggle(d).bases == if d.basePhase then d.bases else []
  {
    CommandWord(0, rest);
  }

  /**
   * A non-zero command reads exactly one NUL-terminated fragment. In the
   * base phase the extended string becomes one more base; outside it the
   * string is emitted and the state is unchanged.
   */
  lemma {:induction false} NameStep(d: Decoder, c: u32, fragment: seq<byte>, rest: seq<byte>)
    requires c > 0 && 0 !in fragment
    ensures var name := if c <= |d.bases| then d.bases[c - 1] + fragment else fragment;
            DecodeStep(d, Le32(c) + (fragment + [0] + rest))
            == Ok(if d.basePhase then Step(Decoder(true, d.bases + [name]), rest, None)
                  else Step(d, rest, Some(name)))
  {
    CommandWord(c, fragment + [0] + rest);
    CutWritten(fragment, rest);
  }

  /** A region that ends inside a command word fails with `struct.error`. */
  lemma {:induction false} ShortCommand(d: Decoder, s: seq<byte>)
    requires 0 < |s| < 4
    ensures RegionTrace(d, s) == Trace([], Some(StructError))
  {
  }

  /** A non-zero command without a terminated fragment fails with `ValueError`. */
  lemma {:induction false} MissingTerminator(d: Decoder, c: u32, tail: seq<byte>)
    requires c > 0 && 0 !in tail
    ensures RegionTrace(d, Le32(c) + tail) == Trace([], Some(ValueError))
  {
    CommandWord(c, tail);
  }

  // ---------------------------------------------------------------------------
  // A reference reading of a region as a list of instructions

  /** One command of a region, with the fragment a non-zero command carries. */
  datatype Instr = Flip | Name(cmd: u32, fragment: seq<byte>)

  predicate Writable(i: Instr) {
    i.Name? ==> i.cmd > 0 && 0 !in i.fragment
  }

  /** Every name command is non-zero and its fragment holds no NUL. */
  predicate AllWritable(ins: seq<Instr>) {
    ins == [] || (Writable(ins[0]) && AllWritable(ins[1..]))
  }

  function EncodeInstr(i: Instr): seq<byte> {
    match i
    case Flip => Le32(0)
    case Name(c, f) => Le32(c) + f + [0]
  }

  function EncodeInstrs(ins: seq<Instr>): seq<byte> {
    if ins == [] then [] else EncodeInstr(ins[0]) + EncodeInstrs(ins[1..])
  }

  /** The paths a region of instructions emits, read off the instructions. */
  function Run(d: Decoder, ins: seq<Instr>): seq<seq<byte>>
    requires AllWritable(ins)
    decreases |ins|
  {
    if ins == [] then []
    else
      match ins[0]
      case Flip => Run(Toggle(d), ins[1..])
      case Name(c, f) =>
        var name := Extend(d, c, f);
        if d.basePhase then Run(Decoder(true, d.bases + [name]), ins[1..])
        else [name] + Run(d, ins[1..])
  }

  /** One written instruction followed by more bytes decodes as that instruction. */
  lemma {:induction false} InstrStep(d: Decoder, i: Instr, rest: seq<byte>)
    requires Writable(i)
    ensures DecodeStep(d, EncodeInstr(i) + rest)
            == Ok(match i
                  case Flip => Step(Toggle(d), rest, None)
                  case Name(c, f) =>
                    if d.basePhase then Step(Decoder(true, d.bases + [Extend(d, c, f)]), rest, None)
                    else Step(d, rest, Some(Extend(d, c, f))))
  {
    match i
    case Flip => ToggleStep(d, rest);
    case Name(c, f) =>
      ConcatAssoc(Le32(c) + f, [0], rest);
      ConcatAssoc(Le32(c), f, [0] + rest);
      ConcatAssoc(f, [0], rest);
      NameStep(d, c, f, rest);
  }

  /** The byte-level decoder agrees with the instruction-level reading. */
  lemma {:induction false} RegionOfInstrs(d: Decoder, ins: seq<Instr>)
    requires AllWritable(ins)
    ensures RegionTrace(d, EncodeInstrs(ins)) == Trace(Run(d, ins), None)
    decreases |ins|
  {
    if ins != [] {
      var rest := EncodeInstrs(ins[1..]);
      InstrStep(d, ins[0], rest);
      match ins[0]
      case Flip => RegionOfInstrs(Toggle(d), ins[1..]);
      case Name(c, f) =>
        if d.basePhase {
          RegionOfInstrs(Decoder(true, d.bases + [Extend(d, c, f)]), ins[1..]);
        } else {
          RegionOfInstrs(d, ins[1..]);
        }
    }
  }

  /** Writing an instruction list one instruction at a time. */
  lemma {:induction false} ConsEncode(i: Instr, t: seq<Instr>)
    ensures EncodeInstrs([i] + t) == EncodeInstr(i) + EncodeInstrs(t)
  {
    assert ([i] + t)[0] == i && ([i] + t)[1..] == t;
  }

  /** Running an instruction list one instruction at a time. */
  lemma {:induction false} Cons(d: Decoder, i: Instr, t: seq<Instr>)
    requires Writable(i) && AllWritable(t)
    ensures AllWritable([i] + t)
    ensures Run(d, [i] + t)
            == match i
               case Flip => Run(Toggle(d), t)
               case Name(c, f) =>
                 if d.basePhase then Run(Decoder(true, d.bases + [Extend(d, c, f)]), t)
                 else [Extend(d, c, f)] + Run(d, t)
  {
    assert ([i] + t)[0] == i && ([i] + t)[1..] == t;
  }

  /** `[0, 1, abc, 1, def, 0, 1, xyz]` as instructions. */
  function Example(abc: seq<byte>, def: seq<byte>, xyz: seq<byte>): seq<Instr> {
    [Flip, Name(1, abc), Name(1, def), Flip, Name(1, xyz)]
  }

  /**
   * In the stream `[0, 1, abc, 1, def, 0, 1, xyz]` the first two names become
   * the bases `abc` and `abc + def`, and the one path emitted is `abc + xyz`.
   */
  lemma {:induction false} RunExample(abc: seq<byte>, def: seq<byte>, xyz: seq<byte>)
    requires 0 !in abc && 0 !in def && 0 !in xyz
    ensures AllWritable(Example(abc, def, xyz))
    ensures Run(Fresh, Example(abc, def, xyz)) == [abc + xyz]
  {
    var t4 := [Name(1, xyz)];
    var t3 := [Flip] + t4;
    var t2 := [Name(1, def)] + t3;
    var t1 := [Name(1, abc)] + t2;
    assert Example(abc, def, xyz) == [Flip] + t1;
    var bases := [abc, abc + def];
    Cons(Decoder(false, bases), Name(1, xyz), []);
    assert t4 == [Name(1, xyz)] + [];
    assert Run(Decoder(false, bases), t4) == [abc + xyz];
    Cons(Decoder(true, bases), Flip, t4);
    assert Toggle(Decoder(true, bases)) == Decoder(false, bases);
    Cons(Decoder(true, [abc]), Name(1, def), t3);
    assert Extend(Decoder(true, [abc]), 1, def) == abc + def && [abc] + [abc + def] == bases;
    Cons(Decoder(true, []), Name(1, abc), t2);
    assert Extend(Decoder(true, []), 1, abc) == abc && [] + [abc] == [abc];
    Cons(Fresh, Flip, t1);
    assert Toggle(Fresh) == Decoder(true, []);
  }

  lemma {:induction false} EncodeExample(abc: seq<byte>, def: seq<byte>, xyz: seq<byte>)
    ensures EncodeInstrs(Example(abc, def, xyz))
            == Le32(0) + ((Le32(1) + abc + [0]) + ((Le32(1) + def + [0]) + (Le32(0) + (Le32(1) + xyz + [0]))))
  {
    var t4 := [Name(1, xyz)];
    var t3 := [Flip] + t4;
    var t2 := [Name(1, def)] + t3;
    var t1 := [Name(1, abc)] + t2;
    assert Example(abc, def, xyz) == [Flip] + t1;
    assert t4 == [Name(1, xyz)] + [];
    ConsEncode(Name(1, xyz), []);
    assert EncodeInstrs(t4) == Le32(1) + xyz + [0];
    ConsEncode(Flip, t4);
    ConsEncode(Name(1, def), t3);
    ConsEncode(Name(1, abc), t2);
    ConsEncode(Flip, t1);
  }

  /**
   * The stream `[0, 1, abc, 1, def, 0, 1, xyz]` (commands as little-endian
   * words, each fragment NUL-terminated) decodes to the one path `abc + xyz`;
   * with "abc", "def" and "xyz" that is "abcxyz".
   */
  lemma {:induction false} BasesExample(abc: seq<byte>, def: seq<byte>, xyz: seq<byte>)
    requires 0 !in abc && 0 !in def && 0 !in xyz
    ensures RegionTrace(Fresh, Le32(0) + ((Le32(1) + abc + [0]) + ((Le32(1) + def + [0]) + (Le32(0) + (Le32(1) + xyz + [0])))))
            == Trace([abc + xyz], None)
  {
    EncodeExample(abc, def, xyz);
    RunExample(abc, def, xyz);
    RegionOfInstrs(Fresh, Example(abc, def, xyz));
  }

  // ---------------------------------------------------------------------------
  // Regions

  /** The paths of the regions from `k` on, each decoded from a fresh state. */
  function RegionPaths(view: seq<byte>, reps: seq<PathRep>, k: nat): seq<seq<byte>>
    decreases |reps| - k
  {
    if k >= |reps| then [] else RegionTrace(Fresh, Region(view, reps[k])).paths + RegionPaths(view, reps, k + 1)
  }

  predicate RegionFails(view: seq<byte>, rep: PathRep) {
    RegionTrace(Fresh, Region(view, rep)).failure.Some?
  }

  /**
   * When no region fails, the table is the regions' paths in path-record
   * order, each region decoded from `base_phase = False, bases = []`.
   */
  lemma {:induction false} TableOfRegions(view: seq<byte>, reps: seq<PathRep>, k: nat)
    requires forall j :: k <= j < |reps| ==> !RegionFails(view, reps[j])
    ensures TableFrom(view, reps, k) == Trace(RegionPaths(view, reps, k), None)
    decreases |reps| - k
  {
    if k < |reps| {
      TableOfRegions(view, reps, k + 1);
    }
  }

  lemma {:induction false} TableStep(view: seq<byte>, reps: seq<PathRep>, k: nat)
    requires k < |reps|
    ensures TableFrom(view, reps, k).failure
            == if RegionFails(view, reps[k]) then RegionTrace(Fresh, Region(view, reps[k])).failure
               else TableFrom(view, reps, k + 1).failure
  {
  }

  lemma {:induction false} FailingRegionFailsTable(view: seq<byte>, reps: seq<PathRep>, k: nat, j: nat)
    requires k <= j < |reps| && RegionFails(view, reps[j])
    ensures TableFrom(view, reps, k).failure.Some?
    decreases j - k
  {
    TableStep(view, reps, k);
    if k < j && !RegionFails(view, reps[k]) {
      FailingRegionFailsTable(view, reps, k + 1, j);
    }
  }

  lemma {:induction false} FailedTableHasRegion(view: seq<byte>, reps: seq<PathRep>, k: nat) returns (j: nat)
    requires TableFrom(view, reps, k).failure.Some?
    ensures k <= j < |reps| && RegionFails(view, reps[j])
    decreases |reps| - k
  {
    TableStep(view, reps, k);
    if RegionFails(view, reps[k]) {
      j := k;
    } else {
      j := FailedTableHasRegion(view, reps, k + 1);
    }
  }

  /** The decoding fails exactly when one of the regions does. */
  lemma {:induction false} TableFailure(view: seq<byte>, reps: seq<PathRep>, k: nat)
    ensures TableFrom(view, reps, k).failure.Some? <==> exists j :: k <= j < |reps| && RegionFails(view, reps[j])
  {
    if TableFrom(view, reps, k).failure.Some? {
      var j := FailedTableHasRegion(view, reps, k);
    }
    forall j | k <= j < |reps| && RegionFails(view, reps[j]) ensures TableFrom(view, reps, k).failure.Some? {
      FailingRegionFailsTable(view, reps, k, j);
    }
  }

  // ---------------------------------------------------------------------------
  // The dictionary

  /** The keys of the table are the hashes of the paths decoded. */
  lemma {:induction false} HashTableKeys(hash: Hasher, ps: seq<seq<byte>>)
    ensures forall key :: key in HashTable(hash, ps) <==> exists i :: 0 <= i < |ps| && hash(ps[i]) == key
  {
    if ps != [] {
      var init := ps[..|ps| - 1];
      HashTableKeys(hash, init);
      assert HashTable(hash, ps) == HashTable(hash, init)[hash(ps[|ps| - 1]) := ps[|ps| - 1]];
      forall key | key in HashTable(hash, ps) ensures exists i :: 0 <= i < |ps| && hash(ps[i]) == key {
        if key != hash(ps[|ps| - 1]) {
          var i :| 0 <= i < |init| && hash(init[i]) == key;
          assert ps[i] == init[i];
        }
      }
      forall key | exists i :: 0 <= i < |ps| && hash(ps[i]) == key ensures key in HashTable(hash, ps) {
        var i :| 0 <= i < |ps| && hash(ps[i]) == key;
        if i < |init| {
          assert init[i] == ps[i];
        }
      }
    }
  }

  /** Each key holds the last path with that hash: later strings overwrite earlier ones. */
  lemma {:induction false} HashTableLastWriter(hash: Hasher, ps: seq<seq<byte>>, i: nat)
    requires i < |ps| && forall j :: i < j < |ps| ==> hash(ps[j]) != hash(ps[i])
    ensures hash(ps[i]) in HashTable(hash, ps) && HashTable(hash, ps)[hash(ps[i])] == ps[i]
  {
    if i < |ps| - 1 {
      var init := ps[..|ps| - 1];
      assert init[i] == ps[i];
      forall j | i < j < |init| ensures hash(init[j]) != hash(init[i]) {
        assert init[j] == ps[j];
      }
      HashTableLastWriter(hash, init, i);
    }
  }

  // ---------------------------------------------------------------------------
  // The enumeration

  /** The paths the filter accepts, in order. */
  function Kept(filter: Option<PathFilter>, ps: seq<seq<byte>>): seq<seq<byte>> {
    if ps == [] then [] else (if Accept(filter, ps[0]) then [ps[0]] else []) + Kept(filter, ps[1..])
  }

  /** Each path paired with its hash. */
  function Keyed(hash: Hasher, ps: seq<seq<byte>>): (ys: seq<(u64, seq<byte>)>)
    ensures |ys| == |ps|
  {
    seq(|ps|, i requires 0 <= i < |ps| => (hash(ps[i]), ps[i]))
  }

  lemma {:induction false} KeptAppend(filter: Option<PathFilter>, ps: seq<seq<byte>>, p: seq<byte>)
    ensures Kept(filter, ps + [p]) == Kept(filter, ps) + if Accept(filter, p) then [p] else []
  {
    if ps != [] {
      assert (ps + [p])[1..] == ps[1..] + [p];
      KeptAppend(filter, ps[1..], p);
      var head := if Accept(filter, ps[0]) then [ps[0]] else [];
      var tail := if Accept(filter, p) then [p] else [];
      ConcatAssoc(head, Kept(filter, ps[1..]), tail);
    } else {
      assert Kept(filter, [p]) == (if Accept(filter, p) then [p] else []) + Kept(filter, []);
    }
  }

  /** The pairs yielded are the accepted paths, each with its hash, in stream order. */
  lemma {:induction false} YieldsAreKeptPaths(hash: Hasher, filter: Option<PathFilter>, ps: seq<seq<byte>>)
    ensures Yields(hash, filter, ps) == Keyed(hash, Kept(filter, ps))
  {
    if ps != [] {
      var init, last := ps[..|ps| - 1], ps[|ps| - 1];
      assert ps == init + [last];
      YieldsAreKeptPaths(hash, filter, init);
      KeptAppend(filter, init, last);
    }
  }

  /**
   * `enumerate_path_table` decodes the same paths whatever the filter, and
   * yields exactly the accepted ones, in stream order, each with its hash.
   */
  lemma {:induction false} EnumerateIsFilteredTrace(index: Index.BundleIndex, decompress: Container.Decompressor,
                                                    hash: Hasher, filter: Option<PathFilter>)
    ensures var t := PathTrace(index, decompress);
            EnumeratedPaths(index, decompress, hash, filter) == (Keyed(hash, Kept(filter, t.paths)), t.failure)
  {
    YieldsAreKeptPaths(hash, filter, PathTrace(index, decompress).paths);
  }

  /** A path is kept exactly when it was decoded and the filter accepts it. */
  lemma {:induction false} KeptMembers(filter: Option<PathFilter>, ps: seq<seq<byte>>)
    ensures forall s :: s in Kept(filter, ps) <==> s in ps && Accept(filter, s)
  {
    if ps != [] {
      KeptMembers(filter, ps[1..]);
      assert ps == [ps[0]] + ps[1..];
    }
  }

  /** Without a filter every decoded path is yielded. */
  lemma {:induction false} KeptUnfiltered(ps: seq<seq<byte>>)
    ensures Kept(None, ps) == ps
  {
    if ps != [] {
      KeptUnfiltered(ps[1..]);
      assert ps == [ps[0]] + ps[1..];
    }
  }

  /** Insert the pairs into a dictionary in order. */
  function MapOfPairs(ys: seq<(u64, seq<byte>)>): map<u64, seq<byte>> {
    if ys == [] then map[]
    else MapOfPairs(ys[..|ys| - 1])[ys[|ys| - 1].0 := ys[|ys| - 1].1]
  }

  lemma {:induction false} MapOfYields(hash: Hasher, ps: seq<seq<byte>>)
    ensures MapOfPairs(Yields(hash, None, ps)) == HashTable(hash, ps)
  {
    if ps != [] {
      var init, last := ps[..|ps| - 1], ps[|ps| - 1];
      MapOfYields(hash, init);
      var ys := Yields(hash, None, ps);
      assert ys == Yields(hash, None, init) + [(hash(last), last)];
      assert ys[..|ys| - 1] == Yields(hash, None, init);
    }
  }

  /**
   * Without a filter, inserting the yields of `enumerate_path_table` into a
   * dictionary in order gives what `generate_path_hash_table` returns, and
   * one raises exactly when the other does.
   */
  lemma {:induction false} GenerateIsEnumerated(index: Index.BundleIndex, decompress: Container.Decompressor, hash: Hasher)
    ensures var (ys, failure) := EnumeratedPaths(index, decompress, hash, None);
            PathHashTable(index, decompress, hash) == if failure.Some? then Err(failure.value) else Ok(MapOfPairs(ys))
  {
    MapOfYields(hash, PathTrace(index, decompress).paths);
  }
}
