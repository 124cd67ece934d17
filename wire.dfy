/**
 * The byte-level primitives the decoder is written against: little-endian
 * integers, `struct.unpack`/`struct.pack` for the formats the decoder uses,
 * and an in-memory binary stream with the read/seek/tell behaviour of
 * Python's `io.BytesIO`.
 */
module Wire {
  import opened Wrappers

  type byte = b: int | 0 <= b < 0x100
  type u32 = x: int | 0 <= x < 0x1_0000_0000
  type u64 = x: int | 0 <= x < 0x1_0000_0000_0000_0000

  /** '/' in ASCII. */
  const Slash: byte := 0x2F

  function Pow256(n: nat): (p: nat)
    ensures p > 0
  {
    if n == 0 then 1 else 256 * Pow256(n - 1)
  }

  lemma {:induction false} Pow256Widths()
    ensures Pow256(4) == 0x1_0000_0000
    ensures Pow256(8) == 0x1_0000_0000_0000_0000
  {
    assert Pow256(2) == 0x1_0000;
    assert Pow256(4) == 0x1_0000_0000;
    assert Pow256(6) == 0x1_0000_0000_0000;
  }

  /** The unsigned integer whose little-endian encoding is `bs`. */
  function LittleEndian(bs: seq<byte>): (v: nat)
    ensures v < Pow256(|bs|)
  {
    if bs == [] then 0 else bs[0] + 256 * LittleEndian(bs[1..])
  }

  /** The `n`-byte little-endian encoding of `v`. */
  function ToLittleEndian(v: nat, n: nat): (bs: seq<byte>)
    requires v < Pow256(n)
    ensures |bs| == n
  {
    if n == 0 then [] else [v % 256] + ToLittleEndian(v / 256, n - 1)
  }

  lemma {:induction false} DecodeEncode(v: nat, n: nat)
    requires v < Pow256(n)
    ensures LittleEndian(ToLittleEndian(v, n)) == v
  {
    if n > 0 {
      DecodeEncode(v / 256, n - 1);
      var bs := ToLittleEndian(v, n);
      assert bs[1..] == ToLittleEndian(v / 256, n - 1);
    }
  }

  lemma {:induction false} EncodeDecode(bs: seq<byte>)
    ensures ToLittleEndian(LittleEndian(bs), |bs|) == bs
  {
    if bs != [] {
      EncodeDecode(bs[1..]);
      var v := LittleEndian(bs);
      assert v % 256 == bs[0] && v / 256 == LittleEndian(bs[1..]);
    }
  }

  /** The little-endian u32 used for counts, lengths and command words. */
  function Le32(v: u32): (bs: seq<byte>)
    ensures |bs| == 4 && LittleEndian(bs) == v
  {
    Pow256Widths();
    DecodeEncode(v, 4);
    ToLittleEndian(v, 4)
  }

  // ---------------------------------------------------------------------------
  // struct formats

  /** The two codes of the `<`-prefixed formats used: `I` (u32) and `Q` (u64). */
  datatype Field = I | Q

  function Width(f: Field): nat {
    match f
    case I => 4
    case Q => 8
  }

  /** `struct.calcsize` of a little-endian format without padding. */
  function FormatSize(fmt: seq<Field>): nat {
    if fmt == [] then 0 else Width(fmt[0]) + FormatSize(fmt[1..])
  }

  /** The values `fmt` lays out fit their fields. */
  predicate Fits(fmt: seq<Field>, vals: seq<nat>) {
    |vals| == |fmt| && forall i :: 0 <= i < |fmt| ==> vals[i] < Pow256(Width(fmt[i]))
  }

  /**
   * `struct.unpack(fmt, bs)`: fails exactly when `bs` does not have the size
   * of the format; otherwise one value per field, each read little-endian
   * from its own bytes.
   */
  function Unpack(fmt: seq<Field>, bs: seq<byte>): (r: Result<seq<nat>>)
    ensures r.Ok? <==> |bs| == FormatSize(fmt)
    ensures r.Err? ==> r.error == StructError
    ensures r.Ok? ==> Fits(fmt, r.value)
    ensures r.Ok? && fmt != [] ==> r.value[0] == LittleEndian(bs[..Width(fmt[0])])
  {
    if |bs| != FormatSize(fmt) then Err(StructError)
    else if fmt == [] then Ok([])
    else
      var w := Width(fmt[0]);
      var rest := Unpack(fmt[1..], bs[w..]);
      Ok([LittleEndian(bs[..w])] + rest.value)
  }

  /** `struct.pack(fmt, *vals)`. */
  function Pack(fmt: seq<Field>, vals: seq<nat>): (bs: seq<byte>)
    requires Fits(fmt, vals)
    ensures |bs| == FormatSize(fmt)
  {
    if fmt == [] then []
    else ToLittleEndian(vals[0], Width(fmt[0])) + Pack(fmt[1..], vals[1..])
  }

  lemma {:induction false} UnpackPack(fmt: seq<Field>, vals: seq<nat>)
    requires Fits(fmt, vals)
    ensures Unpack(fmt, Pack(fmt, vals)) == Ok(vals)
  {
    if fmt != [] {
      var w := Width(fmt[0]);
      var bs := Pack(fmt, vals);
      assert Fits(fmt[1..], vals[1..]) by {
        forall i | 0 <= i < |fmt| - 1 ensures vals[1..][i] < Pow256(Width(fmt[1..][i])) {
          assert vals[1..][i] == vals[i + 1] && fmt[1..][i] == fmt[i + 1];
        }
      }
      UnpackPack(fmt[1..], vals[1..]);
      DecodeEncode(vals[0], w);
      assert bs[..w] == ToLittleEndian(vals[0], w);
      assert bs[w..] == Pack(fmt[1..], vals[1..]);
      assert vals == [vals[0]] + vals[1..];
    }
  }

  lemma {:induction false} PackUnpack(fmt: seq<Field>, bs: seq<byte>)
    requires Unpack(fmt, bs).Ok?
    ensures Pack(fmt, Unpack(fmt, bs).value) == bs
  {
    if fmt != [] {
      var w := Width(fmt[0]);
      var vals := Unpack(fmt, bs).value;
      PackUnpack(fmt[1..], bs[w..]);
      EncodeDecode(bs[..w]);
      assert vals[1..] == Unpack(fmt[1..], bs[w..]).value;
      assert bs == bs[..w] + bs[w..];
    }
  }

  // ---------------------------------------------------------------------------
  // io.BytesIO

  /** `pat` occurs in `data` starting at `i`. */
  predicate OccursAt(data: seq<byte>, pat: seq<byte>, i: nat) {
    i + |pat| <= |data| && forall k :: 0 <= k < |pat| ==> data[i + k] == pat[k]
  }

  /** An occurrence is a slice equal to the pattern. */
  lemma {:induction false} OccursAtSlice(data: seq<byte>, pat: seq<byte>, i: nat)
    ensures OccursAt(data, pat, i) <==> i + |pat| <= |data| && data[i..i + |pat|] == pat
  {
    if i + |pat| <= |data| {
      var w := data[i..i + |pat|];
      assert forall k :: 0 <= k < |pat| ==> w[k] == data[i + k];
    }
  }

  /** The bytes `read(n)` returns at position `pos`: clipped at the end of `data`. */
  function Window(data: seq<byte>, pos: nat, n: nat): (w: seq<byte>)
    ensures |w| <= n
    ensures |w| == n <==> pos + n <= |data| || n == 0
    ensures pos + n <= |data| ==> w == data[pos..pos + n]
  {
    data[Min(pos, |data|)..Min(pos + n, |data|)]
  }

  /** The position after `read(n)` at `pos`; a read at or past the end leaves it. */
  function NextPos(len: nat, pos: nat, n: nat): (p: nat)
    ensures pos <= len ==> p == Min(pos + n, len)
    ensures pos > len ==> p == pos
  {
    if pos < len then Min(pos + n, len) else pos
  }

  lemma {:induction false} WindowOfConcat(pre: seq<byte>, x: seq<byte>, post: seq<byte>)
    ensures Window(pre + x + post, |pre|, |x|) == x
  {
    var data := pre + x + post;
    assert data[|pre|..|pre| + |x|] == x;
  }

  /** An in-memory binary stream over fixed bytes, as `io.BytesIO` opened for reading. */
  class ByteStream {
    const data: seq<byte>
    var pos: nat

    constructor (data: seq<byte>)
      ensures this.data == data && pos == 0
    {
      this.data := data;
      pos := 0;
    }

    /** `read(n)`: at most `n` bytes; fewer at the end of the stream, never an error. */
    method Read(n: nat) returns (chunk: seq<byte>)
      modifies this
      ensures chunk == Window(data, old(pos), n)
      ensures pos == NextPos(|data|, old(pos), n)
    {
      chunk := Window(data, pos, n);
      pos := NextPos(|data|, pos, n);
    }

    /** `read()`: everything from the position to the end. */
    method ReadRest() returns (chunk: seq<byte>)
      modifies this
      ensures chunk == if old(pos) < |data| then data[old(pos)..] else []
      ensures pos == if old(pos) < |data| then |data| else old(pos)
    {
      if pos < |data| {
        chunk := data[pos..];
        pos := |data|;
      } else {
        chunk := [];
      }
    }

    /** `seek(p)`; `BytesIO` allows seeking past the end. */
    method Seek(p: nat)
      modifies this
      ensures pos == p
    {
      pos := p;
    }

    /** `seek(d, 1)`: relative to the current position. */
    method Skip(d: nat)
      modifies this
      ensures pos == old(pos) + d
    {
      pos := pos + d;
    }
  }

  /** What `readf(fh, fmt)` returns when `fh` stands at `pos` over `data`. */
  function ReadfAt(data: seq<byte>, pos: nat, fmt: seq<Field>): (r: Result<seq<nat>>)
    requires fmt != []
    ensures r.Ok? <==> pos + FormatSize(fmt) <= |data|
    ensures r.Err? ==> r.error == StructError
    ensures r.Ok? ==> Fits(fmt, r.value)
  {
    Unpack(fmt, Window(data, pos, FormatSize(fmt)))
  }

  /** A successful `readf` consumed exactly the packing of the values it returned. */
  lemma {:induction false} ReadfAtPacked(data: seq<byte>, pos: nat, fmt: seq<Field>)
    requires fmt != [] && ReadfAt(data, pos, fmt).Ok?
    ensures Pack(fmt, ReadfAt(data, pos, fmt).value) == data[pos..pos + FormatSize(fmt)]
  {
    PackUnpack(fmt, Window(data, pos, FormatSize(fmt)));
  }

  /** `readf` at `pos` over the packing of `vals` gives `vals` back. */
  lemma {:induction false} ReadfOfSlice(data: seq<byte>, pos: nat, fmt: seq<Field>, vals: seq<nat>)
    requires fmt != [] && Fits(fmt, vals)
    requires pos + FormatSize(fmt) <= |data| && data[pos..pos + FormatSize(fmt)] == Pack(fmt, vals)
    ensures ReadfAt(data, pos, fmt) == Ok(vals)
  {
    var w := Window(data, pos, FormatSize(fmt));
    assert w == Pack(fmt, vals);
    UnpackPack(fmt, vals);
  }
}
