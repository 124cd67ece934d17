/**
 * The record types of the bundle index, the `readf` helper every parser
 * reads through, and the on-disk name of a bundle.
 */
module Records {
  import opened Wrappers
  import opened Wire

  /** One compressed archive file, addressed by its position in the index. */
  datatype BundleRecord = BundleRecord(name: seq<byte>, uncompressedSize: u32)

  /** Where the file whose path hashes to `pathHash` lives inside a bundle. */
  datatype FileRecord = FileRecord(pathHash: u64, bundleIndex: u32, fileOffset: u32, fileSize: u32)

  /** A region of the decompressed path table holding one run of the path encoding. */
  datatype PathRep = PathRep(hash: u64, offset: u32, size: u32, recursiveSize: u32)

  /**
   * `readf(fh, fmt)`: read `calcsize(fmt)` bytes (fewer at the end of the
   * stream) and unpack them, which fails unless the read was complete.
   */
  method Readf(fh: ByteStream, fmt: seq<Field>) returns (r: Result<seq<nat>>)
    requires fmt != []
    modifies fh
    ensures r == ReadfAt(fh.data, old(fh.pos), fmt)
    ensures fh.pos == NextPos(|fh.data|, old(fh.pos), FormatSize(fmt))
  {
    var chunk := fh.Read(FormatSize(fmt));
    r := Unpack(fmt, chunk);
  }

  /** The bytes of `Bundles2`. */
  const BundlesWord: seq<byte> := [0x42, 0x75, 0x6E, 0x64, 0x6C, 0x65, 0x73, 0x32]
  /** The bytes of `Bundles2/`. */
  const BundlesDir: seq<byte> := BundlesWord + [Slash]
  /** The bytes of `.bundle.bin`. */
  const BundleBinSuffix: seq<byte> := [0x2E, 0x62, 0x75, 0x6E, 0x64, 0x6C, 0x65, 0x2E, 0x62, 0x69, 0x6E]
  /** '.' in ASCII. */
  const Dot: byte := 0x2E

  // ---------------------------------------------------------------------------
  // PurePosixPath

  /** The pieces of `s` between its slashes; a path without a slash is one piece. */
  function Split(s: seq<byte>): (parts: seq<seq<byte>>)
    ensures |parts| >= 1
    ensures forall i :: 0 <= i < |parts| ==> Slash !in parts[i]
  {
    if s == [] then [[]]
    else
      var rest := Split(s[1..]);
      if s[0] == Slash then [[]] + rest
      else
        assert forall i :: 1 <= i < |rest| ==> rest[1..][i - 1] == rest[i];
        [[s[0]] + rest[0]] + rest[1..]
  }

  /** The pieces joined with single slashes. */
  function Join(parts: seq<seq<byte>>): seq<byte> {
    if parts == [] then []
    else if |parts| == 1 then parts[0]
    else parts[0] + [Slash] + Join(parts[1..])
  }

  /** A component `PurePosixPath` keeps: neither empty nor `.`. */
  predicate Proper(part: seq<byte>) {
    part != [] && part != [Dot]
  }

  /** The components `PurePosixPath` keeps, in order. */
  function NamedParts(parts: seq<seq<byte>>): seq<seq<byte>> {
    if parts == [] then []
    else (if Proper(parts[0]) then [parts[0]] else []) + NamedParts(parts[1..])
  }

  /**
   * `str(PurePosixPath(s))` for a relative path: repeated slashes and `.`
   * components are dropped, and a path with no component left is `.`.
   */
  function PosixPath(s: seq<byte>): seq<byte>
    requires s == [] || s[0] != Slash
  {
    var kept := NamedParts(Split(s));
    if kept == [] then [Dot] else Join(kept)
  }

  /**
   * `BundleRecord.bin_path`: `PurePosixPath(f'Bundles2/{name}.bundle.bin')`.
   * For a name whose inner components are all proper, that is the plain
   * concatenation, and the name stands between the fixed prefix and suffix.
   */
  function BinPath(b: BundleRecord): (p: seq<byte>)
    ensures CleanName(b.name) ==> p == BundlesDir + b.name + BundleBinSuffix
    ensures CleanName(b.name) ==> |p| == |BundlesDir| + |b.name| + |BundleBinSuffix|
                                  && p[..|BundlesDir|] == BundlesDir
                                  && p[|p| - |BundleBinSuffix|..] == BundleBinSuffix
                                  && p[|BundlesDir|..|p| - |BundleBinSuffix|] == b.name
  {
    var raw := BundlesDir + b.name + BundleBinSuffix;
    if CleanName(b.name) then PosixPathOfClean(b.name); PosixPath(raw)
    else PosixPath(raw)
  }

  /** Every component of `name` before the last is neither empty nor `.`. */
  predicate CleanName(name: seq<byte>) {
    var parts := Split(name);
    forall i :: 0 <= i < |parts| - 1 ==> Proper(parts[i])
  }

  lemma {:induction false} JoinSplit(s: seq<byte>)
    ensures Join(Split(s)) == s
  {
    if s != [] {
      var rest := Split(s[1..]);
      JoinSplit(s[1..]);
      if s[0] == Slash {
        assert ([[]] + rest)[1..] == rest;
      } else if |rest| > 1 {
        var parts := [[s[0]] + rest[0]] + rest[1..];
        assert parts[1..] == rest[1..];
        assert Join(rest) == rest[0] + [Slash] + Join(rest[1..]);
      }
    }
  }

  /** A slash-free prefix is glued onto the first piece. */
  lemma {:induction false} SplitPrefix(w: seq<byte>, s: seq<byte>)
    requires Slash !in w
    ensures Split(w + s) == [w + Split(s)[0]] + Split(s)[1..]
  {
    var parts := Split(s);
    if w != [] {
      assert Slash !in w[1..] by {
        forall k | 0 <= k < |w| - 1 ensures w[1..][k] != Slash {
          assert w[1..][k] == w[k + 1];
        }
      }
      SplitPrefix(w[1..], s);
      assert (w + s)[1..] == w[1..] + s;
      assert (w + s)[0] == w[0] && w[0] != Slash;
      var rest := Split(w[1..] + s);
      assert rest[0] == w[1..] + parts[0];
      assert rest[1..] == parts[1..];
      assert [w[0]] + (w[1..] + parts[0]) == w + parts[0];
    } else {
      assert w + s == s;
      assert [] + parts[0] == parts[0];
      assert parts == [parts[0]] + parts[1..];
    }
  }

  lemma {:induction false} SplitWord(w: seq<byte>, s: seq<byte>)
    requires Slash !in w
    ensures Split(w + [Slash] + s) == [w] + Split(s)
  {
    var t := [Slash] + s;
    SplitPrefix(w, t);
    assert t[0] == Slash && t[1..] == s;
    assert Split(t) == [[]] + Split(s);
    assert w + [] == w;
    assert w + [Slash] + s == w + t;
  }

  /** The pieces with `t` glued onto the last one. */
  function GlueLast(parts: seq<seq<byte>>, t: seq<byte>): seq<seq<byte>>
    requires |parts| >= 1
  {
    parts[..|parts| - 1] + [parts[|parts| - 1] + t]
  }

  lemma {:induction false} GlueAfterSlash(q: seq<seq<byte>>, t: seq<byte>)
    requires |q| >= 1
    ensures [[]] + GlueLast(q, t) == GlueLast([[]] + q, t)
  {
    var parts := [[]] + q;
    assert parts[..|q|] == [[]] + q[..|q| - 1];
  }

  lemma {:induction false} GlueAfterByte(c: byte, q: seq<seq<byte>>, t: seq<byte>)
    requires |q| >= 1
    ensures var g := GlueLast(q, t); [[c] + g[0]] + g[1..] == GlueLast([[c] + q[0]] + q[1..], t)
  {
    var g := GlueLast(q, t);
    var parts := [[c] + q[0]] + q[1..];
    if |q| == 1 {
      assert g == [q[0] + t];
      assert [c] + (q[0] + t) == [c] + q[0] + t;
    } else {
      assert g[0] == q[0];
      assert g[1..] == q[1..|q| - 1] + [q[|q| - 1] + t];
      assert parts[..|q| - 1] == [[c] + q[0]] + q[1..|q| - 1];
    }
  }

  /** A slash-free suffix is glued onto the last piece. */
  lemma {:induction false} SplitSuffix(s: seq<byte>, t: seq<byte>)
    requires Slash !in t
    ensures Split(s + t) == GlueLast(Split(s), t)
  {
    if s == [] {
      SplitPrefix(t, []);
      assert s + t == t + [];
      assert t + [] == t;
    } else {
      assert (s + t)[1..] == s[1..] + t;
      assert (s + t)[0] == s[0];
      SplitSuffix(s[1..], t);
      if s[0] == Slash {
        GlueAfterSlash(Split(s[1..]), t);
      } else {
        GlueAfterByte(s[0], Split(s[1..]), t);
      }
    }
  }

  lemma {:induction false} NamedPartsOfProper(parts: seq<seq<byte>>)
    requires forall i :: 0 <= i < |parts| ==> Proper(parts[i])
    ensures NamedParts(parts) == parts
  {
    if parts != [] {
      NamedPartsOfProper(parts[1..]);
    }
  }

  lemma {:induction false} PosixPathOfClean(name: seq<byte>)
    requires CleanName(name)
    ensures PosixPath(BundlesDir + name + BundleBinSuffix) == BundlesDir + name + BundleBinSuffix
  {
    var raw := BundlesDir + name + BundleBinSuffix;
    var parts := Split(name);
    assert Slash !in BundleBinSuffix && Slash !in BundlesWord;
    SplitSuffix(name, BundleBinSuffix);
    assert raw == BundlesWord + [Slash] + (name + BundleBinSuffix);
    SplitWord(BundlesWord, name + BundleBinSuffix);
    var all := [BundlesWord] + (parts[..|parts| - 1] + [parts[|parts| - 1] + BundleBinSuffix]);
    assert Split(raw) == all;
    forall i | 0 <= i < |all| ensures Proper(all[i]) {
      if i == |all| - 1 {
        assert |all[i]| >= |BundleBinSuffix|;
      } else if i > 0 {
        assert all[i] == parts[i - 1];
      }
    }
    NamedPartsOfProper(all);
    JoinSplit(raw);
  }

  /** Names whose inner components are all proper give distinct archive paths. */
  lemma {:induction false} BinPathInjective(a: BundleRecord, b: BundleRecord)
    requires CleanName(a.name) && CleanName(b.name) && BinPath(a) == BinPath(b)
    ensures a.name == b.name
  {
    var p := BinPath(a);
    assert a.name == p[|BundlesDir|..|p| - |BundleBinSuffix|];
  }


  lemma {:induction false} SplitJoin(parts: seq<seq<byte>>)
    requires |parts| >= 1 && forall i :: 0 <= i < |parts| ==> Slash !in parts[i]
    ensures Split(Join(parts)) == parts
  {
    if |parts| == 1 {
      SplitPrefix(parts[0], []);
      assert parts[0] + [] == parts[0];
    } else {
      SplitJoin(parts[1..]);
      SplitWord(parts[0], Join(parts[1..]));
      assert parts == [parts[0]] + parts[1..];
    }
  }

  lemma {:induction false} NamedPartsCons(part: seq<byte>, rest: seq<seq<byte>>)
    ensures NamedParts([part] + rest) == (if Proper(part) then [part] else []) + NamedParts(rest)
  {
    assert ([part] + rest)[1..] == rest;
  }

  /** The components kept are proper and come from the pieces. */
  lemma {:induction false} NamedPartsKept(parts: seq<seq<byte>>)
    ensures forall i :: 0 <= i < |NamedParts(parts)| ==> Proper(NamedParts(parts)[i]) && NamedParts(parts)[i] in parts
  {
    if parts != [] {
      NamedPartsKept(parts[1..]);
      assert parts == [parts[0]] + parts[1..];
    }
  }

  lemma {:induction false} JoinHead(parts: seq<seq<byte>>)
    requires parts != [] && parts[0] != []
    ensures Join(parts) != [] && Join(parts)[0] == parts[0][0]
  {
  }

  /** Normalising twice is normalising once: the result is already a normal relative path. */
  lemma {:induction false} PosixPathIdempotent(s: seq<byte>)
    requires s == [] || s[0] != Slash
    ensures var p := PosixPath(s); p != [] && p[0] != Slash && PosixPath(p) == p
  {
    var kept := NamedParts(Split(s));
    NamedPartsKept(Split(s));
    if kept == [] {
      SplitPrefix([Dot], []);
      assert [Dot] + [] == [Dot];
      NamedPartsCons([Dot], []);
    } else {
      JoinHead(kept);
      SplitJoin(kept);
      NamedPartsOfProper(kept);
    }
  }

  /** `bin_path` normalises the concatenated string. */
  lemma {:induction false} BinPathOfRaw(b: BundleRecord)
    ensures BinPath(b) == PosixPath(BundlesDir + b.name + BundleBinSuffix)
  {
  }

  /** The pieces of `Bundles2/x/tail` for slash-free `x` and `tail`. */
  lemma {:induction false} PathPieces(x: seq<byte>, tail: seq<byte>)
    requires Slash !in x && Slash !in tail
    ensures Split(BundlesWord + [Slash] + (x + [Slash] + tail)) == [BundlesWord] + ([x] + [tail])
  {
    assert Slash !in BundlesWord;
    SplitPrefix(tail, []);
    assert tail + [] == tail;
    SplitWord(x, tail);
    SplitWord(BundlesWord, x + [Slash] + tail);
  }

  /** The pieces of `Bundles2/x/mid/tail` for slash-free `x`, `mid` and `tail`. */
  lemma {:induction false} PathPiecesWithMiddle(x: seq<byte>, mid: seq<byte>, tail: seq<byte>)
    requires Slash !in x && Slash !in mid && Slash !in tail
    ensures Split(BundlesWord + [Slash] + (x + [Slash] + (mid + [Slash] + tail))) == [BundlesWord] + ([x] + ([mid] + [tail]))
  {
    assert Slash !in BundlesWord;
    SplitPrefix(tail, []);
    assert tail + [] == tail;
    SplitWord(mid, tail);
    SplitWord(x, mid + [Slash] + tail);
    SplitWord(BundlesWord, x + [Slash] + (mid + [Slash] + tail));
  }

  lemma {:induction false} DropsMiddle(x: seq<byte>, mid: seq<byte>, tail: seq<byte>)
    requires !Proper(mid)
    ensures NamedParts([BundlesWord] + ([x] + ([mid] + [tail]))) == NamedParts([BundlesWord] + ([x] + [tail]))
  {
    NamedPartsCons(BundlesWord, [x] + [tail]);
    NamedPartsCons(x, [tail]);
    NamedPartsCons(BundlesWord, [x] + ([mid] + [tail]));
    NamedPartsCons(x, [mid] + [tail]);
    NamedPartsCons(mid, [tail]);
  }

  /** An empty or `.` component between two slash-free pieces of a name is dropped. */
  lemma {:induction false} BinPathDrops(x: seq<byte>, mid: seq<byte>, y: seq<byte>, size: u32)
    requires Slash !in x && Slash !in mid && Slash !in y && !Proper(mid)
    ensures BinPath(BundleRecord(x + [Slash] + mid + [Slash] + y, size)) == BinPath(BundleRecord(x + [Slash] + y, size))
  {
    var tail := y + BundleBinSuffix;
    assert Slash !in BundleBinSuffix;
    assert Slash !in tail;
    assert BundlesDir + (x + [Slash] + y) + BundleBinSuffix == BundlesWord + [Slash] + (x + [Slash] + tail);
    assert BundlesDir + (x + [Slash] + mid + [Slash] + y) + BundleBinSuffix
        == BundlesWord + [Slash] + (x + [Slash] + (mid + [Slash] + tail));
    BinPathOfRaw(BundleRecord(x + [Slash] + y, size));
    BinPathOfRaw(BundleRecord(x + [Slash] + mid + [Slash] + y, size));
    PathPieces(x, tail);
    PathPiecesWithMiddle(x, mid, tail);
    DropsMiddle(x, mid, tail);
  }

  /**
   * `PurePosixPath` collapses a doubled slash and a `.` component, so names
   * differing only in those give the same archive path.
   */
  lemma {:induction false} BinPathCollapses(x: seq<byte>, y: seq<byte>, size: u32)
    requires Slash !in x && Slash !in y
    ensures BinPath(BundleRecord(x + [Slash, Slash] + y, size)) == BinPath(BundleRecord(x + [Slash] + y, size))
    ensures BinPath(BundleRecord(x + [Slash, Dot, Slash] + y, size)) == BinPath(BundleRecord(x + [Slash] + y, size))
  {
    BinPathDrops(x, [], y, size);
    assert x + [Slash] + [] + [Slash] + y == x + [Slash, Slash] + y;
    BinPathDrops(x, [Dot], y, size);
    assert x + [Slash] + [Dot] + [Slash] + y == x + [Slash, Dot, Slash] + y;
  }

}
