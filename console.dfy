/**
 * The `.dat64` table summary the console tool builds for each data file,
 * and the path filter that picks those files out of the path table.
 */
module Console {
  import opened Wrappers
  import opened Wire

  // ---------------------------------------------------------------------------
  // bytes.index

  /** `data.index(pat, from)`: the first occurrence at or after `from`, or none. */
  function Find(data: seq<byte>, pat: seq<byte>, from: nat): (r: Option<nat>)
    ensures r.Some? ==> from <= r.value && OccursAt(data, pat, r.value)
    ensures r.Some? ==> forall j :: from <= j < r.value ==> !OccursAt(data, pat, j)
    ensures r.None? ==> forall j :: from <= j ==> !OccursAt(data, pat, j)
    decreases |data| - from
  {
    OccursAtSlice(data, pat, from);
    if from + |pat| > |data| then None
    else if data[from..from + |pat|] == pat then Some(from)
    else Find(data, pat, from + 1)
  }

  /** The eight `0xBB` bytes that separate the fixed-width rows from the variable data. */
  const Marker: seq<byte> := [0xBB, 0xBB, 0xBB, 0xBB, 0xBB, 0xBB, 0xBB, 0xBB]

  // ---------------------------------------------------------------------------
  // DatInfo

  /** The fields `DatInfo.__init__` sets; `ids` is always `None` and is not kept. */
  datatype DatInfo = DatInfo(rowCount: u32, varOffset: nat, varSize: nat, fixedSize: int, rowWidth: int)

  /**
   * `DatInfo(data, name)`: a `struct.error` when `data` is shorter than the
   * row count, a `ValueError` when the marker is absent. The row count is
   * read before the marker is searched for, and the search starts at byte 0.
   */
  function DatInfoOf(data: seq<byte>): (r: Result<DatInfo>)
    ensures |data| < 4 ==> r == Err(StructError)
    ensures |data| >= 4 && (forall j :: !OccursAt(data, Marker, j)) ==> r == Err(ValueError)
    ensures |data| >= 4 && (exists j :: OccursAt(data, Marker, j)) ==> r.Ok?
    ensures r.Ok? ==> |data| >= 4 && r.value.rowCount == LittleEndian(data[..4])
    ensures r.Ok? ==> OccursAt(data, Marker, r.value.varOffset)
                      && forall j: nat :: j < r.value.varOffset ==> !OccursAt(data, Marker, j)
    ensures r.Ok? ==> r.value.varOffset + r.value.varSize == |data|
    ensures r.Ok? ==> r.value.fixedSize == r.value.varOffset - 4
    ensures r.Ok? ==> var d := r.value;
                      if d.rowCount == 0 then d.rowWidth == 0
                      else d.rowWidth * d.rowCount <= d.fixedSize < (d.rowWidth + 1) * d.rowCount
  {
    match ReadfAt(data, 0, [I])
    case Err(e) => Err(e)
    case Ok(vals) =>
      var w := Window(data, 0, 4);
      assert [I][0] == I && w == data[..4] && w[..4] == w;
      var rowCount := vals[0];
      match Find(data, Marker, 0)
      case None => Err(ValueError)
      case Some(varOffset) =>
        var fixedSize := varOffset - 4;
        var rowWidth := if rowCount > 0 then FloorDiv(fixedSize, rowCount) else 0;
        Ok(DatInfo(rowCount, varOffset, |data| - varOffset, fixedSize, rowWidth))
  }

  /** Python's `//` for a positive divisor: rounds toward minus infinity. */
  function FloorDiv(a: int, b: int): (q: int)
    requires b > 0
    ensures q * b <= a < q * b + b
  {
    a / b
  }

  /** A file that begins with the marker has a negative fixed part and a negative row width. */
  lemma {:induction false} MarkerAtStart(data: seq<byte>)
    requires |data| >= 8 && data[..8] == Marker
    ensures DatInfoOf(data).Ok?
    ensures var d := DatInfoOf(data).value;
            d.varOffset == 0 && d.fixedSize == -4 && d.rowCount == 0xBBBB_BBBB && d.rowWidth == -1
  {
    OccursAtSlice(data, Marker, 0);
    var count := data[..4];
    assert count == [0xBB, 0xBB, 0xBB, 0xBB];
    assert LittleEndian([0xBB, 0xBB, 0xBB, 0xBB]) == 0xBBBB_BBBB;
    assert FloorDiv(-4, 0xBBBB_BBBB) == -1;
  }

  /** `as_dict()`: the five summary fields by name; `ids` is never set, so it never appears. */
  function AsDict(d: DatInfo): (m: map<string, int>)
    ensures m.Keys == {"fixed_size", "row_count", "row_width", "var_offset", "var_size"}
    ensures m["fixed_size"] == d.fixedSize && m["row_count"] == d.rowCount && m["row_width"] == d.rowWidth
    ensures m["var_offset"] == d.varOffset && m["var_size"] == d.varSize
  {
    map["fixed_size" := d.fixedSize, "row_count" := d.rowCount, "row_width" := d.rowWidth,
        "var_offset" := d.varOffset, "var_size" := d.varSize]
  }

  // ---------------------------------------------------------------------------
  // dat64_filter

  /** ".dat64" in ASCII. */
  const Dat64Suffix: seq<byte> := [0x2E, 0x64, 0x61, 0x74, 0x36, 0x34]

  predicate EndsWith(s: seq<byte>, suffix: seq<byte>) {
    |suffix| <= |s| && s[|s| - |suffix|..] == suffix
  }

  /** `s.count(b)` for a single byte. */
  function Count(s: seq<byte>, b: byte): nat {
    if s == [] then 0 else (if s[0] == b then 1 else 0) + Count(s[1..], b)
  }

  /** `b` occurs in `s` at `i` and nowhere else. */
  predicate OnlyAt(s: seq<byte>, b: byte, i: int) {
    0 <= i < |s| && s[i] == b && forall j :: 0 <= j < |s| && j != i ==> s[j] != b
  }

  lemma {:induction false} CountZero(s: seq<byte>, b: byte)
    ensures Count(s, b) == 0 <==> b !in s
  {
    if s != [] {
      CountZero(s[1..], b);
      assert s == [s[0]] + s[1..];
    }
  }

  lemma {:induction false} CountOne(s: seq<byte>, b: byte)
    ensures Count(s, b) == 1 <==> exists i :: OnlyAt(s, b, i)
  {
    if s != [] {
      var t := s[1..];
      CountOne(t, b);
      if s[0] == b {
        CountZero(t, b);
        if Count(s, b) == 1 {
          forall j | 0 <= j < |s| && j != 0 ensures s[j] != b {
            assert s[j] == t[j - 1];
          }
          assert OnlyAt(s, b, 0);
        } else {
          var j :| 0 <= j < |t| && t[j] == b;
          forall i | 0 <= i < |s| ensures !OnlyAt(s, b, i) {
            assert s[j + 1] == b;
          }
        }
      } else {
        if Count(s, b) == 1 {
          var i :| OnlyAt(t, b, i);
          forall j | 0 <= j < |s| && j != i + 1 ensures s[j] != b {
            if j > 0 {
              assert s[j] == t[j - 1];
            }
          }
          assert OnlyAt(s, b, i + 1);
        } else {
          forall i | OnlyAt(s, b, i) ensures false {
            assert i > 0;
            forall j | 0 <= j < |t| && j != i - 1 ensures t[j] != b {
              assert t[j] == s[j + 1];
            }
            assert OnlyAt(t, b, i - 1);
          }
        }
      }
    }
  }

  /** `dat64_filter(path)`: the path ends in ".dat64" and holds exactly one '/'. */
  function Dat64Filter(path: seq<byte>): (r: bool)
    ensures r <==> EndsWith(path, Dat64Suffix) && exists i :: OnlyAt(path, Slash, i)
  {
    CountOne(path, Slash);
    EndsWith(path, Dat64Suffix) && Count(path, Slash) == 1
  }

  lemma {:induction false} CountAppend(a: seq<byte>, c: seq<byte>, b: byte)
    ensures Count(a + c, b) == Count(a, b) + Count(c, b)
  {
    if a != [] {
      assert (a + c)[0] == a[0] && (a + c)[1..] == a[1..] + c;
      CountAppend(a[1..], c, b);
    } else {
      assert a + c == c;
    }
  }

  /** A file directly below one top-level directory passes the filter. */
  lemma {:induction false} Dat64Accepts(dir: seq<byte>, name: seq<byte>)
    requires Slash !in dir && Slash !in name
    ensures Dat64Filter(dir + [Slash] + name + Dat64Suffix)
  {
    var path := dir + [Slash] + name + Dat64Suffix;
    CountZero(dir, Slash);
    CountZero(name, Slash);
    CountZero(Dat64Suffix, Slash);
    CountAppend(dir, [Slash], Slash);
    CountAppend(dir + [Slash], name, Slash);
    CountAppend(dir + [Slash] + name, Dat64Suffix, Slash);
    assert path[|path| - 6..] == Dat64Suffix;
  }

  /** A file two directories down does not. */
  lemma {:induction false} Dat64RejectsNested(outer: seq<byte>, inner: seq<byte>, name: seq<byte>)
    ensures !Dat64Filter(outer + [Slash] + inner + [Slash] + name)
  {
    CountAppend(outer, [Slash], Slash);
    CountAppend(outer + [Slash], inner, Slash);
    CountAppend(outer + [Slash] + inner, [Slash], Slash);
    CountAppend(outer + [Slash] + inner + [Slash], name, Slash);
  }
}
