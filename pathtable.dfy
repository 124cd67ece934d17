/**
 * The path table: a compressed container (`path_comp`) whose payload holds,
 * for each path record, a region of u32 command words and NUL-terminated
 * name fragments. A zero command toggles the base phase; a non-zero command
 * reads one fragment and prefixes it with `bases[cmd-1]` when that base
 * exists. Inside the base phase the result becomes a new base, outside it is
 * a complete path.
 */
module PathTable {
  import opened Wrappers
  import opened Wire
  import opened Records
  import opened Container
  import opened Index

  /** `poe_util.hash_file_path`, not part of this model: any function from a path to a u64. */
  type Hasher = seq<byte> -> u64
  /** The optional `filter` argument of `enumerate_path_table`. */
  type PathFilter = seq<byte> -> bool

  /**
   * `_cut_ntmbs`: the bytes before the first NUL and the bytes after it;
   * `ValueError` when there is no NUL.
   */
  function CutNtmbs(s: seq<byte>): (r: Result<(seq<byte>, seq<byte>)>)
    ensures r.Err? <==> 0 !in s
    ensures r.Err? ==> r.error == ValueError
    ensures r.Ok? ==> 0 !in r.value.0 && s == r.value.0 + [0] + r.value.1
  {
    if s == [] then Err(ValueError)
    else if s[0] == 0 then
      assert s == [] + [0] + s[1..];
      Ok(([], s[1..]))
    else
      match CutNtmbs(s[1..])
      case Err(e) => Err(e)
      case Ok((p, rest)) =>
        assert s == [s[0]] + s[1..] && [s[0]] + (p + [0] + rest) == [s[0]] + p + [0] + rest;
        Ok(([s[0]] + p, rest))
  }

  /** What the decoder carries through one region. */
  datatype Decoder = Decoder(basePhase: bool, bases: seq<seq<byte>>)

  /** Every region starts outside the base phase with no bases. */
  const Fresh: Decoder := Decoder(false, [])

  /** A zero command flips the phase; the bases are cleared on entering the base phase only. */
  function Toggle(d: Decoder): Decoder {
    Decoder(!d.basePhase, if d.basePhase then d.bases else [])
  }

  /** The string a non-zero command builds from its fragment. */
  function Extend(d: Decoder, cmd: nat, fragment: seq<byte>): seq<byte>
    requires cmd > 0
  {
    if cmd <= |d.bases| then d.bases[cmd - 1] + fragment else fragment
  }

  /** `struct.unpack('<I', slice[:4])`. */
  function Command(s: seq<byte>): (r: Result<u32>)
    ensures r.Ok? <==> |s| >= 4
    ensures r.Ok? ==> r.value == LittleEndian(s[..4])
    ensures r.Err? ==> r.error == StructError
  {
    RecordFormatSize();
    Pow256Widths();
    match Unpack(Word, s[..Min(4, |s|)])
    case Err(e) => Err(e)
    case Ok(v) =>
      var bs := s[..Min(4, |s|)];
      assert Word[0] == I && bs == s[..4] && bs[..4] == bs;
      Ok(v[0])
  }

  /** One pass of the decoder loop: the next state, the rest of the region, and a path if one is emitted. */
  datatype Step = Step(next: Decoder, rest: seq<byte>, emitted: Option<seq<byte>>)

  function DecodeStep(d: Decoder, s: seq<byte>): (r: Result<Step>)
    ensures r.Ok? ==> |s| >= 4 && |r.value.rest| <= |s| - 4
  {
    match Command(s)
    case Err(e) => Err(e)
    case Ok(cmd) =>
      var after := s[4..];
      if cmd == 0 then Ok(Step(Toggle(d), after, None))
      else
        match CutNtmbs(after)
        case Err(e) => Err(e)
        case Ok((fragment, rest)) =>
          var name := Extend(d, cmd, fragment);
          if d.basePhase then Ok(Step(Decoder(true, d.bases + [name]), rest, None))
          else Ok(Step(d, rest, Some(name)))
  }

  /** The paths emitted, in order, and the exception that ended the decoding, if any. */
  datatype Trace = Trace(paths: seq<seq<byte>>, failure: Option<Error>)

  function Emit(e: Option<seq<byte>>, t: Trace): Trace {
    match e
    case None => t
    case Some(p) => Trace([p] + t.paths, t.failure)
  }

  function Then(ps: seq<seq<byte>>, t: Trace): Trace {
    Trace(ps + t.paths, t.failure)
  }

  /** The `while len(slice)` loop over one region from state `d`. */
  function RegionTrace(d: Decoder, s: seq<byte>): Trace
    decreases |s|
  {
    if s == [] then Trace([], None)
    else
      match DecodeStep(d, s)
      case Err(e) => Trace([], Some(e))
      case Ok(st) => Emit(st.emitted, RegionTrace(st.next, st.rest))
  }

  /** `path_view[rep.offset:rep.offset+rep.size]`: clipped at the end of the view. */
  function Region(view: seq<byte>, rep: PathRep): seq<byte> {
    Window(view, rep.offset, rep.size)
  }

  /** The regions from `k` on; an exception in one region ends the whole decoding. */
  function TableFrom(view: seq<byte>, reps: seq<PathRep>, k: nat): Trace
    decreases |reps| - k
  {
    if k >= |reps| then Trace([], None)
    else
      var t := RegionTrace(Fresh, Region(view, reps[k]));
      if t.failure.Some? then t else Then(t.paths, TableFrom(view, reps, k + 1))
  }

  /** The rest of the decoding after region `k - 1` ended with trace `t`. */
  function Resume(t: Trace, view: seq<byte>, reps: seq<PathRep>, k: nat): Trace {
    if t.failure.Some? then t else Then(t.paths, TableFrom(view, reps, k))
  }

  /** Decompress `path_comp`, then decode every region in path-record order. */
  function PathTrace(index: BundleIndex, decompress: Decompressor): Trace {
    match ContainerPayload(index.pathComp, decompress)
    case Err(e) => Trace([], Some(e))
    case Ok(view) => TableFrom(view, index.pathReps, 0)
  }

  /** `ret[hash(s)] = s` for each path in order: later paths overwrite earlier ones. */
  function HashTable(hash: Hasher, ps: seq<seq<byte>>): map<u64, seq<byte>> {
    if ps == [] then map[]
    else HashTable(hash, ps[..|ps| - 1])[hash(ps[|ps| - 1]) := ps[|ps| - 1]]
  }

  /** What `generate_path_hash_table(index)` returns, or the exception it raises. */
  function PathHashTable(index: BundleIndex, decompress: Decompressor, hash: Hasher): Result<map<u64, seq<byte>>> {
    var t := PathTrace(index, decompress);
    match t.failure
    case Some(e) => Err(e)
    case None => Ok(HashTable(hash, t.paths))
  }

  /** `not filter or filter(s)`. */
  predicate Accept(filter: Option<PathFilter>, s: seq<byte>) {
    filter.None? || filter.value(s)
  }

  /** The `(hash(s), s)` pairs yielded for the paths `ps`, in order. */
  function Yields(hash: Hasher, filter: Option<PathFilter>, ps: seq<seq<byte>>): seq<(u64, seq<byte>)> {
    if ps == [] then []
    else
      var last := ps[|ps| - 1];
      Yields(hash, filter, ps[..|ps| - 1]) + if Accept(filter, last) then [(hash(last), last)] else []
  }

  /**
   * What iterating `enumerate_path_table(index, filter)` produces: the pairs
   * yielded, and the exception raised after them, if any.
   */
  function EnumeratedPaths(index: BundleIndex, decompress: Decompressor, hash: Hasher, filter: Option<PathFilter>)
    : (seq<(u64, seq<byte>)>, Option<Error>)
  {
    var t := PathTrace(index, decompress);
    (Yields(hash, filter, t.paths), t.failure)
  }

  // ---------------------------------------------------------------------------
  // The decoders

  /** Lines 122-140 of either decoder: read one command and act on it. */
  method DecodeCommand(basePhase: bool, bases: seq<seq<byte>>, slice: seq<byte>) returns (r: Result<Step>)
    ensures r == DecodeStep(Decoder(basePhase, bases), slice)
  {
    var cmdWord := Unpack(Word, slice[..Min(4, |slice|)]);
    if cmdWord.Err? {
      return Err(cmdWord.error);
    }
    var cmd := cmdWord.value[0];
    var rest := slice[4..];
    if cmd == 0 {
      var nowBase := !basePhase;
      if nowBase {
        return Ok(Step(Decoder(nowBase, []), rest, None));
      }
      return Ok(Step(Decoder(nowBase, bases), rest, None));
    }
    var cut := CutNtmbs(rest);
    if cut.Err? {
      return Err(cut.error);
    }
    var s := cut.value.0;
    rest := cut.value.1;
    if cmd <= |bases| {
      s := bases[cmd - 1] + s;
    }
    if basePhase {
      return Ok(Step(Decoder(basePhase, bases + [s]), rest, None));
    }
    return Ok(Step(Decoder(basePhase, bases), rest, Some(s)));
  }

  lemma {:induction false} ThenAssociates(a: seq<seq<byte>>, b: seq<seq<byte>>, t: Trace)
    ensures Then(a, Then(b, t)) == Then(a + b, t)
  {
    ConcatAssoc(a, b, t.paths);
  }

  /** A successful command moves the region's pending trace forward by its emitted path, if any. */
  lemma {:induction false} RegionStep(goal: Trace, emitted: seq<seq<byte>>, d: Decoder, slice: seq<byte>, st: Step)
    requires goal == Then(emitted, RegionTrace(d, slice))
    requires slice != [] && DecodeStep(d, slice) == Ok(st)
    ensures goal == Then(emitted + (if st.emitted.Some? then [st.emitted.value] else []), RegionTrace(st.next, st.rest))
  {
    var t := RegionTrace(st.next, st.rest);
    if st.emitted.Some? {
      ThenAssociates(emitted, [st.emitted.value], t);
    } else {
      assert emitted + [] == emitted;
    }
  }

  /**
   * The `while len(slice)` loop both decoders run over one region, from
   * `base_phase = False` and no bases: the paths it emits, in order, and
   * the exception that ends it, if any.
   */
  method DecodeRegion(region: seq<byte>) returns (paths: seq<seq<byte>>, failure: Option<Error>)
    ensures Trace(paths, failure) == RegionTrace(Fresh, region)
  {
    ghost var goal := RegionTrace(Fresh, region);
    paths := [];
    var slice := region;
    var basePhase := false;
    var bases: seq<seq<byte>> := [];
    assert Decoder(basePhase, bases) == Fresh;
    while |slice| > 0
      invariant goal == Then(paths, RegionTrace(Decoder(basePhase, bases), slice))
      decreases |slice|
    {
      var step := DecodeCommand(basePhase, bases, slice);
      if step.Err? {
        assert paths + [] == paths;
        return paths, Some(step.error);
      }
      RegionStep(goal, paths, Decoder(basePhase, bases), slice, step.value);
      if step.value.emitted.Some? {
        paths := paths + [step.value.emitted.value];
      }
      basePhase, bases, slice := step.value.next.basePhase, step.value.next.bases, step.value.rest;
    }
    assert paths + [] == paths;
    failure := None;
  }

  /** What is left of the decoding after region `k`, given the regions before it emitted `emitted`. */
  lemma {:induction false} TableStepAt(goal: Trace, emitted: seq<seq<byte>>, view: seq<byte>, reps: seq<PathRep>, k: nat)
    requires k < |reps| && goal == Then(emitted, TableFrom(view, reps, k))
    ensures var t := RegionTrace(Fresh, Region(view, reps[k]));
            if t.failure.Some? then goal == Trace(emitted + t.paths, t.failure)
            else goal == Then(emitted + t.paths, TableFrom(view, reps, k + 1))
  {
    var t := RegionTrace(Fresh, Region(view, reps[k]));
    if t.failure.None? {
      ThenAssociates(emitted, t.paths, TableFrom(view, reps, k + 1));
    }
  }

  /** Appending one path to the table keeps `HashTable` in step. */
  lemma {:induction false} HashTableAppend(hash: Hasher, ps: seq<seq<byte>>, p: seq<byte>)
    ensures HashTable(hash, ps + [p]) == HashTable(hash, ps)[hash(p) := p]
  {
    assert (ps + [p])[..|ps|] == ps;
  }

  lemma {:induction false} YieldsAppend(hash: Hasher, filter: Option<PathFilter>, ps: seq<seq<byte>>, p: seq<byte>)
    ensures Yields(hash, filter, ps + [p]) == Yields(hash, filter, ps) + if Accept(filter, p) then [(hash(p), p)] else []
  {
    assert (ps + [p])[..|ps|] == ps;
  }

  /** `ret[hash(s)] = s` for each path of a region, in order. */
  method InsertPaths(ret: map<u64, seq<byte>>, ghost done: seq<seq<byte>>, hash: Hasher, paths: seq<seq<byte>>)
    returns (table: map<u64, seq<byte>>)
    requires ret == HashTable(hash, done)
    ensures table == HashTable(hash, done + paths)
  {
    table := ret;
    assert done + paths[..0] == done;
    for i := 0 to |paths|
      invariant table == HashTable(hash, done + paths[..i])
    {
      HashTableAppend(hash, done + paths[..i], paths[i]);
      assert done + paths[..i + 1] == done + paths[..i] + [paths[i]];
      table := table[hash(paths[i]) := paths[i]];
    }
    assert paths[..|paths|] == paths;
  }

  /** `yield (hash(s), s)` for each path of a region the filter accepts, in order. */
  method YieldPaths(yielded: seq<(u64, seq<byte>)>, ghost done: seq<seq<byte>>, hash: Hasher, filter: Option<PathFilter>,
                    paths: seq<seq<byte>>) returns (out: seq<(u64, seq<byte>)>)
    requires yielded == Yields(hash, filter, done)
    ensures out == Yields(hash, filter, done + paths)
  {
    out := yielded;
    assert done + paths[..0] == done;
    for i := 0 to |paths|
      invariant out == Yields(hash, filter, done + paths[..i])
    {
      var s := paths[i];
      YieldsAppend(hash, filter, done + paths[..i], s);
      assert done + paths[..i + 1] == done + paths[..i] + [s];
      if filter.None? || filter.value(s) {
        out := out + [(hash(s), s)];
      }
    }
    assert paths[..|paths|] == paths;
  }

  /** `generate_path_hash_table(index)`. */
  method GeneratePathHashTable(index: BundleIndex, decompress: Decompressor, hash: Hasher)
    returns (r: Result<map<u64, seq<byte>>>)
    ensures r == PathHashTable(index, decompress, hash)
  {
    var pathData := DecompressBytes(index.pathComp, decompress);
    if pathData.Err? {
      return Err(pathData.error);
    }
    var view := pathData.value;
    var reps := index.pathReps;
    ghost var goal := TableFrom(view, reps, 0);
    assert PathTrace(index, decompress) == goal;
    ghost var emitted: seq<seq<byte>> := [];
    var ret: map<u64, seq<byte>> := map[];
    for k := 0 to |reps|
      invariant goal == Then(emitted, TableFrom(view, reps, k))
      invariant ret == HashTable(hash, emitted)
    {
      TableStepAt(goal, emitted, view, reps, k);
      var paths, failure := DecodeRegion(Region(view, reps[k]));
      if failure.Some? {
        return Err(failure.value);
      }
      ret := InsertPaths(ret, emitted, hash, paths);
      emitted := emitted + paths;
    }
    assert emitted + [] == emitted;
    return Ok(ret);
  }

  /**
   * `enumerate_path_table(index, filter)`, run to completion: the pairs it
   * yields, in order, and the exception that ends it early, if any.
   */
  method EnumeratePathTable(index: BundleIndex, decompress: Decompressor, hash: Hasher, filter: Option<PathFilter>)
    returns (yielded: seq<(u64, seq<byte>)>, failure: Option<Error>)
    ensures (yielded, failure) == EnumeratedPaths(index, decompress, hash, filter)
  {
    yielded := [];
    var pathData := DecompressBytes(index.pathComp, decompress);
    if pathData.Err? {
      return [], Some(pathData.error);
    }
    var view := pathData.value;
    var reps := index.pathReps;
    ghost var goal := TableFrom(view, reps, 0);
    assert PathTrace(index, decompress) == goal;
    ghost var emitted: seq<seq<byte>> := [];
    for k := 0 to |reps|
      invariant goal == Then(emitted, TableFrom(view, reps, k))
      invariant yielded == Yields(hash, filter, emitted)
    {
      TableStepAt(goal, emitted, view, reps, k);
      var paths, regionFailure := DecodeRegion(Region(view, reps[k]));
      yielded := YieldPaths(yielded, emitted, hash, filter, paths);
      emitted := emitted + paths;
      if regionFailure.Some? {
        return yielded, regionFailure;
      }
    }
    assert emitted + [] == emitted;
    return yielded, None;
  }
}
