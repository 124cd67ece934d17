/**
 * `CompressedBundle`: the container header parser and the block-by-block
 * decompressor. The decompression primitive (`ooz.decompress`) is a
 * parameter: it maps a compressed block and the requested uncompressed size
 * to the decompressed bytes, or to `None` when it raises.
 */
module Container {
  import opened Wrappers
  import opened Wire
  import opened Records

  type Decompressor = (seq<byte>, int) -> Option<seq<byte>>

  /** The assumption made of the primitive: a block it accepts has the requested size. */
  ghost predicate ExactLength(decompress: Decompressor) {
    forall block, size :: decompress(block, size).Some? ==> |decompress(block, size).value| == size
  }

  /** The header fields `CompressedBundle` keeps. */
  datatype Header = Header(
    uncompressedSize: u32,
    totalPayloadSize: u32,
    granularity: u32,
    blockSizes: seq<u32>,
    dataStart: nat)

  /** `<III`: uncompressed size, total payload size, head payload size. */
  const Prologue: seq<Field> := [I, I, I]
  /** `<IIQQII`: first-file flag, unknown word, the two 64-bit sizes, block count, granularity. */
  const Geometry: seq<Field> := [I, I, Q, Q, I, I]
  /** The reserved bytes skipped after the two formats. */
  const Reserved: nat := 16

  /** The u32 words of a buffer whose size is a multiple of four (`iter_unpack('<I', raw)`). */
  function Words(raw: seq<byte>): (ws: seq<u32>)
    requires |raw| % 4 == 0
    ensures |ws| == |raw| / 4
    ensures forall i :: 0 <= i < |ws| ==> ws[i] == LittleEndian(raw[4 * i..4 * i + 4])
  {
    if raw == [] then []
    else
      Pow256Widths();
      var rest := Words(raw[4..]);
      assert forall i :: 1 <= i < |rest| + 1 ==> raw[4..][4 * (i - 1)..4 * (i - 1) + 4] == raw[4 * i..4 * i + 4];
      [LittleEndian(raw[..4])] + rest
  }

  /** The little-endian encoding of a sequence of u32 words. */
  function EncodeWords(ws: seq<u32>): (bs: seq<byte>)
    ensures |bs| == 4 * |ws|
  {
    if ws == [] then [] else Le32(ws[0]) + EncodeWords(ws[1..])
  }

  lemma {:induction false} WordsOfEncodeWords(ws: seq<u32>)
    ensures Words(EncodeWords(ws)) == ws
  {
    if ws != [] {
      var bs := EncodeWords(ws);
      assert bs[4..] == EncodeWords(ws[1..]);
      assert bs[..4] == Le32(ws[0]);
      WordsOfEncodeWords(ws[1..]);
    }
  }

  /** The little-endian u32 at offset `p`. */
  function U32At(data: seq<byte>, p: nat): u32
    requires p + 4 <= |data|
  {
    Pow256Widths();
    LittleEndian(data[p..p + 4])
  }

  /**
   * The header `CompressedBundle.__init__` reads from `data` with the stream
   * at `pos`: `<III` (uncompressed size, total payload size, head payload
   * size) at `pos`, `<IIQQII` (first-file flag, an unknown word, the two
   * 64-bit sizes, block count, granularity) at `pos + 12`, 16 reserved bytes
   * skipped, then up to `block_count` u32 block sizes from `pos + 60`. Either
   * format read short fails; a short block-size array is not detected unless
   * its length is not a multiple of four.
   */
  function ParseHeader(data: seq<byte>, pos: nat): (r: Result<Header>)
    ensures r.Err? ==> r.error == StructError
  {
    if pos + 44 > |data| then Err(StructError)
    else
      var count := U32At(data, pos + 36);
      var sizesAt := pos + 60;
      var raw := Window(data, sizesAt, 4 * count);
      if |raw| % 4 != 0 then Err(StructError)
      else Ok(Header(U32At(data, pos), U32At(data, pos + 4), U32At(data, pos + 40), Words(raw), NextPos(|data|, sizesAt, 4 * count)))
  }

  lemma {:induction false} ProloguePacked(data: seq<byte>, pos: nat, vals: seq<nat>)
    requires ReadfAt(data, pos, Prologue) == Ok(vals)
    ensures vals[0] == LittleEndian(data[pos..pos + 4])
    ensures vals[1] == LittleEndian(data[pos + 4..pos + 8])
  {
    var bs := data[pos..pos + 12];
    assert FormatSize(Prologue) == 12;
    assert Unpack(Prologue, bs) == Ok(vals);
    assert bs[..4] == data[pos..pos + 4];
    assert Prologue[1..] == [I, I];
    assert Unpack(Prologue[1..], bs[4..]).Ok?;
    assert vals[1..] == Unpack(Prologue[1..], bs[4..]).value;
    assert bs[4..][..4] == data[pos + 4..pos + 8];
  }

  lemma {:induction false} GeometryPacked(data: seq<byte>, pos: nat, vals: seq<nat>)
    requires ReadfAt(data, pos, Geometry) == Ok(vals)
    ensures vals[4] == LittleEndian(data[pos + 24..pos + 28])
    ensures vals[5] == LittleEndian(data[pos + 28..pos + 32])
  {
    assert FormatSize(Geometry) == 32;
    var bs := data[pos..pos + 32];
    assert bs[24..][..4] == data[pos + 24..pos + 28];
    assert bs[24..][4..] == data[pos + 28..pos + 32];
    assert Geometry[4..] == [I, I];
    assert Geometry[..4] == [I, I, Q, Q];
    assert FormatSize([Q]) == 8;
    assert FormatSize([Q, Q]) == 16;
    assert FormatSize([I, Q, Q]) == 20;
    UnpackSuffix(Geometry, bs, vals, 4, 24);
    TwoWords(bs[24..], vals[4..]);
  }

  lemma {:induction false} TwoWords(t: seq<byte>, vals: seq<nat>)
    requires Unpack([I, I], t) == Ok(vals)
    ensures vals[0] == LittleEndian(t[..4]) && vals[1] == LittleEndian(t[4..])
  {
    assert Unpack([I], t[4..]).Ok?;
    assert vals[1..] == Unpack([I], t[4..]).value;
    assert t[4..][..4] == t[4..];
  }

  /** Unpacking drops the fields before `k` along with their bytes. */
  lemma {:induction false} UnpackSuffix(fmt: seq<Field>, bs: seq<byte>, vals: seq<nat>, k: nat, off: nat)
    requires Unpack(fmt, bs) == Ok(vals)
    requires k <= |fmt| && off == FormatSize(fmt[..k])
    ensures off <= |bs| && Unpack(fmt[k..], bs[off..]) == Ok(vals[k..])
  {
    if k > 0 {
      var w := Width(fmt[0]);
      assert fmt[..k][1..] == fmt[1..][..k - 1];
      UnpackSuffix(fmt[1..], bs[w..], vals[1..], k - 1, off - w);
      assert fmt[1..][k - 1..] == fmt[k..];
      assert bs[w..][off - w..] == bs[off..];
      assert vals[1..][k - 1..] == vals[k..];
    } else {
      assert fmt[..0] == [];
    }
  }

  /** The position of block `i` in the stream: data start plus the sizes before it. */
  function BlockOffset(h: Header, i: nat): nat
    requires i <= |h.blockSizes|
  {
    h.dataStart + Sum(h.blockSizes[..i])
  }

  function Sum(s: seq<u32>): nat {
    if s == [] then 0 else Sum(s[..|s| - 1]) + s[|s| - 1]
  }

  lemma {:induction false} BlockOffsetStep(h: Header, i: nat)
    requires i < |h.blockSizes|
    ensures BlockOffset(h, i + 1) == BlockOffset(h, i) + h.blockSizes[i]
  {
    assert h.blockSizes[..i + 1][..i] == h.blockSizes[..i];
  }

  /** The bytes `fh.read(block_sizes[i])` returns for block `i`. */
  function CompressedBlock(data: seq<byte>, h: Header, i: nat): seq<byte>
    requires i < |h.blockSizes|
  {
    Window(data, BlockOffset(h, i), h.blockSizes[i])
  }

  /** The uncompressed size requested for block `i`: the granularity, except for the last. */
  function ExpectedSize(h: Header, i: nat): int {
    if i + 1 != |h.blockSizes| then h.granularity
    else h.uncompressedSize - i * h.granularity
  }

  /** The output of `decompress_all` from block `i` on. */
  function DecompressFrom(data: seq<byte>, h: Header, decompress: Decompressor, i: nat): Result<seq<byte>>
    decreases |h.blockSizes| - i
  {
    if i >= |h.blockSizes| then Ok([])
    else
      match decompress(CompressedBlock(data, h, i), ExpectedSize(h, i))
      case None => Err(DecompressError)
      case Some(block) => Prefixed(block, DecompressFrom(data, h, decompress, i + 1))
  }

  function Prefixed(prefix: seq<byte>, r: Result<seq<byte>>): Result<seq<byte>> {
    match r
    case Ok(rest) => Ok(prefix + rest)
    case Err(e) => Err(e)
  }

  lemma {:induction false} PrefixedAssociates(a: seq<byte>, b: seq<byte>, r: Result<seq<byte>>)
    ensures Prefixed(a, Prefixed(b, r)) == Prefixed(a + b, r)
    ensures Prefixed([], r) == r
  {
    if r.Ok? {
      assert a + (b + r.value) == a + b + r.value;
      assert [] + r.value == r.value;
    }
  }

  /** What `decompress_all` returns for a stream over `data` with header `h`. */
  function DecompressBlocks(data: seq<byte>, h: Header, decompress: Decompressor): Result<seq<byte>> {
    DecompressFrom(data, h, decompress, 0)
  }

  /** Where the stream stands after reading the first blocks, `consumed` bytes of them. */
  function CursorAfter(len: nat, dataStart: nat, consumed: nat): nat {
    if dataStart < len then Min(dataStart + consumed, len) else dataStart
  }

  lemma {:induction false} CursorRead(data: seq<byte>, dataStart: nat, consumed: nat, n: nat)
    ensures Window(data, CursorAfter(|data|, dataStart, consumed), n) == Window(data, dataStart + consumed, n)
    ensures NextPos(|data|, CursorAfter(|data|, dataStart, consumed), n) == CursorAfter(|data|, dataStart, consumed + n)
  {
  }

  /** One more block decompressed by `decompress_all` keeps its goal in view. */
  lemma {:induction false} DecompressStep(data: seq<byte>, h: Header, decompress: Decompressor, goal: Result<seq<byte>>, done: seq<byte>, i: nat)
    requires i < |h.blockSizes| && goal == Prefixed(done, DecompressFrom(data, h, decompress, i))
    ensures decompress(CompressedBlock(data, h, i), ExpectedSize(h, i)).None? ==> goal == Err(DecompressError)
    ensures decompress(CompressedBlock(data, h, i), ExpectedSize(h, i)).Some? ==>
              goal == Prefixed(done + decompress(CompressedBlock(data, h, i), ExpectedSize(h, i)).value,
                               DecompressFrom(data, h, decompress, i + 1))
  {
    var block := decompress(CompressedBlock(data, h, i), ExpectedSize(h, i));
    if block.Some? {
      PrefixedAssociates(done, block.value, DecompressFrom(data, h, decompress, i + 1));
    }
  }

  class CompressedBundle {
    const fh: ByteStream
    const uncompressedSize: u32
    const totalPayloadSize: u32
    const granularity: u32
    const blockSizes: seq<u32>
    const dataStart: nat

    /** The parsed header, as a value. */
    function View(): Header {
      Header(uncompressedSize, totalPayloadSize, granularity, blockSizes, dataStart)
    }

    constructor FromHeader(fh: ByteStream, h: Header)
      ensures this.fh == fh && View() == h
    {
      this.fh := fh;
      uncompressedSize := h.uncompressedSize;
      totalPayloadSize := h.totalPayloadSize;
      granularity := h.granularity;
      blockSizes := h.blockSizes;
      dataStart := h.dataStart;
    }

    /** `CompressedBundle(fh)`: read the header at the stream's position. */
    static method Open(fh: ByteStream) returns (r: Result<CompressedBundle>)
      modifies fh
      ensures r.Ok? <==> ParseHeader(fh.data, old(fh.pos)).Ok?
      ensures r.Ok? ==> fresh(r.value) && r.value.fh == fh && r.value.View() == ParseHeader(fh.data, old(fh.pos)).value
      ensures r.Err? ==> ParseHeader(fh.data, old(fh.pos)) == Err(r.error)
    {
      ghost var start := fh.pos;
      assert FormatSize(Prologue) == 12 && FormatSize(Geometry) == 32;
      var prologue := Readf(fh, Prologue);
      if prologue.Err? {
        return Err(prologue.error);
      }
      ProloguePacked(fh.data, start, prologue.value);
      var geometry := Readf(fh, Geometry);
      if geometry.Err? {
        return Err(geometry.error);
      }
      GeometryPacked(fh.data, start + 12, geometry.value);
      fh.Skip(Reserved);
      Pow256Widths();
      var count := geometry.value[4];
      var raw := fh.Read(4 * count);
      if |raw| % 4 != 0 {
        return Err(StructError);
      }
      var h := Header(prologue.value[0], prologue.value[1], geometry.value[5], Words(raw), fh.pos);
      var b := new CompressedBundle.FromHeader(fh, h);
      return Ok(b);
    }

    /** `fh.read(block_sizes[i])` with the stream just past the blocks before `i`. */
    method ReadBlock(i: nat) returns (chunk: seq<byte>)
      requires i < |blockSizes| && fh.pos == CursorAfter(|fh.data|, dataStart, Sum(blockSizes[..i]))
      modifies fh
      ensures chunk == CompressedBlock(fh.data, View(), i)
      ensures fh.pos == CursorAfter(|fh.data|, dataStart, Sum(blockSizes[..i + 1]))
    {
      CursorRead(fh.data, dataStart, Sum(blockSizes[..i]), blockSizes[i]);
      BlockOffsetStep(View(), i);
      chunk := fh.Read(blockSizes[i]);
    }

    /**
     * `decompress_all()`: seek to the data start, then read and decompress
     * every block in order and concatenate the results. The result depends
     * only on the bytes and the header, not on where the stream stood.
     */
    method DecompressAll(decompress: Decompressor) returns (r: Result<seq<byte>>)
      modifies fh
      ensures r == DecompressBlocks(fh.data, View(), decompress)
    {
      ghost var data, h := fh.data, View();
      ghost var goal := DecompressBlocks(data, h, decompress);
      var ret: seq<byte> := [];
      fh.Seek(dataStart);
      PrefixedAssociates([], [], goal);
      for i := 0 to |blockSizes|
        invariant fh.pos == CursorAfter(|data|, dataStart, Sum(blockSizes[..i]))
        invariant goal == Prefixed(ret, DecompressFrom(data, h, decompress, i))
      {
        var usize: int;
        if i + 1 != |blockSizes| {
          usize := granularity;
        } else {
          usize := uncompressedSize - i * granularity;
        }
        DecompressStep(data, h, decompress, goal, ret, i);
        var chunk := ReadBlock(i);
        var block := decompress(chunk, usize);
        if block.None? {
          return Err(DecompressError);
        }
        ret := ret + block.value;
      }
      assert ret + [] == ret;
      r := Ok(ret);
    }
  }

  /** Decompressing twice gives the same bytes, since each call begins with a seek. */
  method DecompressAllTwice(b: CompressedBundle, decompress: Decompressor) returns (first: Result<seq<byte>>, second: Result<seq<byte>>)
    modifies b.fh
    ensures first == DecompressBlocks(b.fh.data, b.View(), decompress)
    ensures second == first
  {
    first := b.DecompressAll(decompress);
    second := b.DecompressAll(decompress);
  }

  /** What `CompressedBundle(BytesIO(data)).decompress_all()` returns. */
  function ContainerPayload(data: seq<byte>, decompress: Decompressor): Result<seq<byte>> {
    match ParseHeader(data, 0)
    case Err(e) => Err(e)
    case Ok(h) => DecompressBlocks(data, h, decompress)
  }

  method DecompressBytes(data: seq<byte>, decompress: Decompressor) returns (r: Result<seq<byte>>)
    ensures r == ContainerPayload(data, decompress)
  {
    var fh := new ByteStream(data);
    var b := CompressedBundle.Open(fh);
    if b.Err? {
      return Err(b.error);
    }
    r := b.value.DecompressAll(decompress);
  }
}

/** Properties of the container header and of `decompress_all`. */
module ContainerProperties {
  import opened Wrappers
  import opened Wire
  import opened Container

  /** The block count word of the header at `pos`. */
  function DeclaredBlockCount(data: seq<byte>, pos: nat): nat
    requires pos + 44 <= |data|
  {
    U32At(data, pos + 36)
  }

  /**
   * The header occupies 12 + 32 + 16 bytes and then four bytes per block size
   * read; all declared sizes are read exactly when the stream holds them.
   */
  lemma {:induction false} HeaderLayout(data: seq<byte>, pos: nat)
    requires ParseHeader(data, pos).Ok?
    ensures pos + 44 <= |data|
    ensures ParseHeader(data, pos).value.dataStart == pos + 60 + 4 * |ParseHeader(data, pos).value.blockSizes|
    ensures |ParseHeader(data, pos).value.blockSizes| <= DeclaredBlockCount(data, pos)
    ensures |ParseHeader(data, pos).value.blockSizes| == DeclaredBlockCount(data, pos)
            <==> DeclaredBlockCount(data, pos) == 0 || pos + 60 + 4 * DeclaredBlockCount(data, pos) <= |data|
  {
  }

  /**
   * The block sizes are the u32 words stored between the fixed part of the
   * header and the data start.
   */
  lemma {:induction false} BlockSizesAt(data: seq<byte>, pos: nat, h: Header)
    requires ParseHeader(data, pos) == Ok(h)
    ensures h.blockSizes != [] ==> pos + 60 <= h.dataStart <= |data| && h.blockSizes == Words(data[pos + 60..h.dataStart])
  {
    if pos + 60 <= |data| {
      var raw := Window(data, pos + 60, 4 * DeclaredBlockCount(data, pos));
      assert raw == data[pos + 60..h.dataStart];
    }
  }

  /** All the fields of a container header, as written. */
  datatype HeaderFields = HeaderFields(
    uncompressedSize: u32,
    totalPayloadSize: u32,
    headPayloadSize: u32,
    firstFileEncode: u32,
    unk10: u32,
    uncompressedSize2: u64,
    totalPayloadSize2: u64,
    granularity: u32,
    reserved: seq<byte>,
    blockSizes: seq<u32>)

  predicate WellFormed(f: HeaderFields) {
    |f.reserved| == Reserved && |f.blockSizes| < 0x1_0000_0000
  }

  function PrologueValues(f: HeaderFields): seq<nat> {
    [f.uncompressedSize, f.totalPayloadSize, f.headPayloadSize]
  }

  function GeometryValues(f: HeaderFields): seq<nat> {
    [f.firstFileEncode, f.unk10, f.uncompressedSize2, f.totalPayloadSize2, |f.blockSizes|, f.granularity]
  }

  lemma {:induction false} FieldsFit(f: HeaderFields)
    requires WellFormed(f)
    ensures Fits(Prologue, PrologueValues(f)) && Fits(Geometry, GeometryValues(f))
  {
    Pow256Widths();
  }

  /** The serialised header, laid out as the parser reads it. */
  function EncodeHeader(f: HeaderFields): (bs: seq<byte>)
    requires WellFormed(f)
    ensures |bs| == 60 + 4 * |f.blockSizes|
  {
    FieldsFit(f);
    Pack(Prologue, PrologueValues(f)) + Pack(Geometry, GeometryValues(f)) + f.reserved + EncodeWords(f.blockSizes)
  }

  /** The header the parser keeps for written fields. */
  function HeaderOf(f: HeaderFields): Header {
    Header(f.uncompressedSize, f.totalPayloadSize, f.granularity, f.blockSizes, 60 + 4 * |f.blockSizes|)
  }

  /** The `<III` part of a written header. */
  lemma {:induction false} EncodedPrologue(f: HeaderFields, payload: seq<byte>)
    requires WellFormed(f)
    ensures 60 <= |EncodeHeader(f) + payload|
    ensures U32At(EncodeHeader(f) + payload, 0) == f.uncompressedSize
    ensures U32At(EncodeHeader(f) + payload, 4) == f.totalPayloadSize
  {
    FieldsFit(f);
    var data := EncodeHeader(f) + payload;
    assert FormatSize(Prologue) == 12;
    assert data[0..12] == Pack(Prologue, PrologueValues(f));
    ReadfOfSlice(data, 0, Prologue, PrologueValues(f));
    ProloguePacked(data, 0, PrologueValues(f));
  }

  /** The `<IIQQII` part of a written header. */
  lemma {:induction false} EncodedGeometry(f: HeaderFields, payload: seq<byte>)
    requires WellFormed(f)
    ensures 60 <= |EncodeHeader(f) + payload|
    ensures U32At(EncodeHeader(f) + payload, 36) == |f.blockSizes|
    ensures U32At(EncodeHeader(f) + payload, 40) == f.granularity
  {
    FieldsFit(f);
    var data := EncodeHeader(f) + payload;
    assert FormatSize(Prologue) == 12 && FormatSize(Geometry) == 32;
    assert data[12..44] == Pack(Geometry, GeometryValues(f));
    ReadfOfSlice(data, 12, Geometry, GeometryValues(f));
    GeometryPacked(data, 12, GeometryValues(f));
  }

  /** The block-size array of a written header is read back whole. */
  lemma {:induction false} EncodedSizes(f: HeaderFields, payload: seq<byte>)
    requires WellFormed(f)
    ensures Window(EncodeHeader(f) + payload, 60, 4 * |f.blockSizes|) == EncodeWords(f.blockSizes)
  {
    FieldsFit(f);
    var pre := Pack(Prologue, PrologueValues(f)) + Pack(Geometry, GeometryValues(f)) + f.reserved;
    assert EncodeHeader(f) + payload == pre + EncodeWords(f.blockSizes) + payload;
    WindowOfConcat(pre, EncodeWords(f.blockSizes), payload);
  }

  /** Parsing a written header gives back its fields, with the data start just past it. */
  lemma {:induction false} HeaderRoundTrip(f: HeaderFields, payload: seq<byte>)
    requires WellFormed(f)
    ensures ParseHeader(EncodeHeader(f) + payload, 0) == Ok(HeaderOf(f))
  {
    EncodedPrologue(f, payload);
    EncodedGeometry(f, payload);
    EncodedSizes(f, payload);
    WordsOfEncodeWords(f.blockSizes);
  }

  function Flatten(xs: seq<seq<byte>>): seq<byte> {
    if xs == [] then [] else xs[0] + Flatten(xs[1..])
  }

  lemma {:induction false} FlattenAppend(a: seq<seq<byte>>, b: seq<seq<byte>>)
    ensures Flatten(a + b) == Flatten(a) + Flatten(b)
  {
    if a != [] {
      assert (a + b)[1..] == a[1..] + b;
      FlattenAppend(a[1..], b);
    } else {
      assert a + b == b;
    }
  }

  /** The result of the decompressor for block `i`. */
  function DecodedBlock(data: seq<byte>, h: Header, decompress: Decompressor, i: nat): Option<seq<byte>>
    requires i < |h.blockSizes|
  {
    decompress(CompressedBlock(data, h, i), ExpectedSize(h, i))
  }

  /** The decompressed blocks in block order (empty where the decompressor failed). */
  function Outputs(data: seq<byte>, h: Header, decompress: Decompressor): (outs: seq<seq<byte>>)
    ensures |outs| == |h.blockSizes|
  {
    seq(|h.blockSizes|, i requires 0 <= i < |h.blockSizes| =>
      match DecodedBlock(data, h, decompress, i) case Some(b) => b case None => [])
  }

  lemma {:induction false} DecompressFromShape(data: seq<byte>, h: Header, decompress: Decompressor, i: nat)
    requires i <= |h.blockSizes|
    ensures DecompressFrom(data, h, decompress, i).Ok?
            <==> forall j :: i <= j < |h.blockSizes| ==> DecodedBlock(data, h, decompress, j).Some?
    ensures DecompressFrom(data, h, decompress, i).Ok? ==>
              DecompressFrom(data, h, decompress, i).value == Flatten(Outputs(data, h, decompress)[i..])
    ensures DecompressFrom(data, h, decompress, i).Err? ==> DecompressFrom(data, h, decompress, i).error == DecompressError
    decreases |h.blockSizes| - i
  {
    var outs := Outputs(data, h, decompress);
    if i < |h.blockSizes| {
      DecompressFromShape(data, h, decompress, i + 1);
      assert outs[i..] == [outs[i]] + outs[i + 1..];
    } else {
      assert outs[i..] == [];
    }
  }

  /**
   * `decompress_all` succeeds exactly when the decompressor accepts every
   * block, and then returns the decompressed blocks concatenated in block order.
   */
  lemma {:induction false} DecompressInBlockOrder(data: seq<byte>, h: Header, decompress: Decompressor)
    ensures DecompressBlocks(data, h, decompress).Ok?
            <==> forall j :: 0 <= j < |h.blockSizes| ==> DecodedBlock(data, h, decompress, j).Some?
    ensures DecompressBlocks(data, h, decompress).Ok? ==>
              DecompressBlocks(data, h, decompress).value == Flatten(Outputs(data, h, decompress))
  {
    DecompressFromShape(data, h, decompress, 0);
    assert Outputs(data, h, decompress)[0..] == Outputs(data, h, decompress);
  }

  /** Block `i` is the `block_sizes[i]` bytes after the data start and the blocks before it. */
  lemma {:induction false} BlockLocation(data: seq<byte>, h: Header, i: nat)
    requires i < |h.blockSizes| && BlockOffset(h, i + 1) <= |data|
    ensures BlockOffset(h, 0) == h.dataStart
    ensures BlockOffset(h, i + 1) == BlockOffset(h, i) + h.blockSizes[i]
    ensures CompressedBlock(data, h, i) == data[BlockOffset(h, i)..BlockOffset(h, i + 1)]
  {
    assert h.blockSizes[..0] == [];
    BlockOffsetStep(h, i);
  }

  lemma {:induction false} FlattenLength(h: Header, outs: seq<seq<byte>>, i: nat)
    requires |outs| == |h.blockSizes| && i < |outs|
    requires forall j :: 0 <= j < |outs| ==> |outs[j]| == ExpectedSize(h, j)
    ensures |Flatten(outs[i..])| == h.uncompressedSize - i * h.granularity
    decreases |outs| - i
  {
    assert outs[i..] == [outs[i]] + outs[i + 1..];
    if i + 1 < |outs| {
      FlattenLength(h, outs, i + 1);
      assert (i + 1) * h.granularity == i * h.granularity + h.granularity;
    } else {
      assert outs[i + 1..] == [];
    }
  }

  /**
   * When the decompressor returns the size asked for, every block but the
   * last contributes `granularity` bytes, the last the rest of the
   * uncompressed size, and the output is exactly `uncompressed_size` bytes
   * long (empty for a container without blocks).
   */
  lemma {:induction false} DecompressedLength(data: seq<byte>, h: Header, decompress: Decompressor)
    requires ExactLength(decompress)
    requires DecompressBlocks(data, h, decompress).Ok?
    ensures forall j :: 0 <= j < |h.blockSizes| - 1 ==> |Outputs(data, h, decompress)[j]| == h.granularity
    ensures |h.blockSizes| > 0 ==>
              |Outputs(data, h, decompress)[|h.blockSizes| - 1]|
              == h.uncompressedSize - (|h.blockSizes| - 1) * h.granularity
    ensures |DecompressBlocks(data, h, decompress).value| == if |h.blockSizes| == 0 then 0 else h.uncompressedSize
  {
    DecompressInBlockOrder(data, h, decompress);
    var outs := Outputs(data, h, decompress);
    forall j | 0 <= j < |outs| ensures |outs[j]| == ExpectedSize(h, j) {
      assert DecodedBlock(data, h, decompress, j).Some?;
    }
    if |outs| > 0 {
      FlattenLength(h, outs, 0);
      assert outs[0..] == outs;
    }
  }

  /** A container as written: the header, then the compressed blocks back to back. */
  function BuildContainer(f: HeaderFields, blocks: seq<seq<byte>>): seq<byte>
    requires WellFormed(f)
  {
    EncodeHeader(f) + Flatten(blocks)
  }

  predicate SizesMatch(f: HeaderFields, blocks: seq<seq<byte>>) {
    |f.blockSizes| == |blocks| && forall i :: 0 <= i < |blocks| ==> f.blockSizes[i] == |blocks[i]|
  }

  lemma {:induction false} SumOfSizes(f: HeaderFields, blocks: seq<seq<byte>>, i: nat)
    requires SizesMatch(f, blocks) && i <= |blocks|
    ensures Sum(f.blockSizes[..i]) == |Flatten(blocks[..i])|
  {
    if i > 0 {
      SumOfSizes(f, blocks, i - 1);
      assert f.blockSizes[..i][..i - 1] == f.blockSizes[..i - 1];
      assert blocks[..i] == blocks[..i - 1] + [blocks[i - 1]];
      FlattenAppend(blocks[..i - 1], [blocks[i - 1]]);
      assert Flatten([blocks[i - 1]]) == blocks[i - 1] + Flatten([]);
    } else {
      assert blocks[..0] == [];
    }
  }

  lemma {:induction false} FlattenAround(blocks: seq<seq<byte>>, i: nat)
    requires i < |blocks|
    ensures Flatten(blocks) == Flatten(blocks[..i]) + blocks[i] + Flatten(blocks[i + 1..])
  {
    SplitAt(blocks, i);
    FlattenAppend(blocks[..i], blocks[i..]);
    ConcatAssoc(Flatten(blocks[..i]), blocks[i], Flatten(blocks[i + 1..]));
  }

  /** In a written container, block `i` reads back exactly the `i`-th written block. */
  lemma {:induction false} BuiltBlocks(f: HeaderFields, blocks: seq<seq<byte>>, i: nat)
    requires WellFormed(f) && SizesMatch(f, blocks) && i < |blocks|
    ensures CompressedBlock(BuildContainer(f, blocks), HeaderOf(f), i) == blocks[i]
  {
    var pre := EncodeHeader(f) + Flatten(blocks[..i]);
    SumOfSizes(f, blocks, i);
    FlattenAround(blocks, i);
    assert BuildContainer(f, blocks) == pre + blocks[i] + Flatten(blocks[i + 1..]);
    WindowOfConcat(pre, blocks[i], Flatten(blocks[i + 1..]));
  }

  /** Each block of a written container decompresses to its original. */
  lemma {:induction false} BuiltOutputs(f: HeaderFields, blocks: seq<seq<byte>>, originals: seq<seq<byte>>, decompress: Decompressor)
    requires WellFormed(f) && SizesMatch(f, blocks) && |originals| == |blocks|
    requires forall i :: 0 <= i < |blocks| ==> decompress(blocks[i], ExpectedSize(HeaderOf(f), i)) == Some(originals[i])
    ensures forall i :: 0 <= i < |blocks| ==> DecodedBlock(BuildContainer(f, blocks), HeaderOf(f), decompress, i).Some?
    ensures Outputs(BuildContainer(f, blocks), HeaderOf(f), decompress) == originals
  {
    var data := BuildContainer(f, blocks);
    var h := HeaderOf(f);
    forall i | 0 <= i < |blocks| ensures DecodedBlock(data, h, decompress, i) == Some(originals[i]) {
      BuiltBlocks(f, blocks, i);
    }
  }

  /**
   * Round trip: a container written from blocks, read with a decompressor
   * that restores each block to its original bytes, yields the originals
   * concatenated in order.
   */
  lemma {:induction false} ContainerRoundTrip(f: HeaderFields, blocks: seq<seq<byte>>, originals: seq<seq<byte>>, decompress: Decompressor)
    requires WellFormed(f) && SizesMatch(f, blocks) && |originals| == |blocks|
    requires forall i :: 0 <= i < |blocks| ==> decompress(blocks[i], ExpectedSize(HeaderOf(f), i)) == Some(originals[i])
    ensures ContainerPayload(BuildContainer(f, blocks), decompress) == Ok(Flatten(originals))
  {
    HeaderRoundTrip(f, Flatten(blocks));
    BuiltOutputs(f, blocks, originals, decompress);
    DecompressInBlockOrder(BuildContainer(f, blocks), HeaderOf(f), decompress);
  }
}
