/** Bytes, and copying and filling in a buffer. */
module Memory {

  type Byte = n: nat | n < 0x100

  /** memcpy to offset at; whatever stood between lo and at is followed by the copied bytes. */
  method Copy<T>(dst: array<T>, at: nat, src: seq<T>)
    requires at + |src| <= dst.Length
    modifies dst
    ensures dst[at..at + |src|] == src
    ensures forall k | 0 <= k < dst.Length && !(at <= k < at + |src|) :: dst[k] == old(dst[k])
  {
    for i := 0 to |src|
      invariant forall k | 0 <= k < i :: dst[at + k] == src[k]
      invariant forall k | 0 <= k < dst.Length && !(at <= k < at + i) :: dst[k] == old(dst[k])
    {
      dst[at + i] := src[i];
    }
  }

  function Repeat<T>(b: T, n: nat): (r: seq<T>)
    ensures |r| == n && forall i | 0 <= i < n :: r[i] == b
  {
    seq(n, _ => b)
  }

  lemma RepeatAppend<T>(b: T, m: nat, n: nat)
    ensures Repeat(b, m) + Repeat(b, n) == Repeat(b, m + n)
  {
  }

  lemma AppendAssoc<T>(a: seq<T>, b: seq<T>, c: seq<T>)
    ensures (a + b) + c == a + (b + c)
  {
  }
}
