/** Failure values and small sequence facts shared by every layer of the bundle decoder. */
module Wrappers {

  datatype Option<+T> = None | Some(value: T)

  /** The exceptions the decoder can raise, by the Python exception that carries them. */
  datatype Error =
    | StructError     // struct.unpack / struct.iter_unpack got a buffer of the wrong length
    | DecompressError // the external block decompressor rejected a block
    | ValueError      // a missing NUL terminator, or a missing marker in `bytes.index`

  datatype Result<+T> = Ok(value: T) | Err(error: Error)

  function Min(a: int, b: int): int { if a <= b then a else b }

  /** A sequence around its `i`-th element. */
  lemma {:induction false} SplitAt<T>(s: seq<T>, i: nat)
    requires i < |s|
    ensures s[..i] + s[i..] == s && s[i..][0] == s[i] && s[i..][1..] == s[i + 1..]
  {
  }

  lemma {:induction false} ConcatAssoc<T>(x: seq<T>, y: seq<T>, z: seq<T>)
    ensures x + (y + z) == x + y + z
  {
  }
}
