/** Copying bytes within and between buffers. */
module Memory {
  import opened Bits

  type Bytes = seq<u8>

  /** A buffer with `x` written over it at position `d`. */
  function Overwritten(b: Bytes, d: nat, x: Bytes): (r: Bytes)
    requires d + |x| <= |b|
    ensures |r| == |b|
  {
    b[..d] + x + b[d + |x|..]
  }

  lemma {:induction false} OverwrittenPrefix(b: Bytes, d: nat, x: Bytes)
    requires d + |x| <= |b|
    ensures Overwritten(b, d, x)[..d] == b[..d] && Overwritten(b, d, x)[..d + |x|] == b[..d] + x
    ensures d + |x| == |b| ==> Overwritten(b, d, x) == b[..d] + x
  {
  }

  lemma {:induction false} OverwrittenParts(b: Bytes, d: nat, x: Bytes)
    requires d + |x| <= |b|
    ensures Overwritten(b, d, x)[..d] == b[..d] && Overwritten(b, d, x)[d..d + |x|] == x
    ensures Overwritten(b, d, x)[d + |x|..] == b[d + |x|..]
  {
  }

  /** `memcpy` and `memmove` of `n` bytes. */
  method Copy(dst: array<u8>, d: nat, src: array<u8>, s: nat, n: nat)
    requires d + n <= dst.Length && s + n <= src.Length
    modifies dst
    ensures dst[..] == Overwritten(old(dst[..]), d, old(src[..])[s..s + n])
  {
    forall k | 0 <= k < n {
      dst[d + k] := src[s + k];
    }
  }

  method Store(dst: array<u8>, d: nat, text: Bytes)
    requires d + |text| <= dst.Length
    modifies dst
    ensures dst[..] == Overwritten(old(dst[..]), d, text)
  {
    forall k | 0 <= k < |text| {
      dst[d + k] := text[k];
    }
  }
}
