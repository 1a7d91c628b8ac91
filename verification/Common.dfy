/** Notions that the models share. */
module Common {

  /** Data bytes are copied, never computed with. */
  type byte = bv8

  const INT64_MAX: int := 0x7FFF_FFFF_FFFF_FFFF

  datatype Option<+T> = None | Some(value: T)

  ghost predicate NoDuplicates<T>(s: seq<T>) {
    forall i, j | 0 <= i < j < |s| :: s[i] != s[j]
  }

  function Reversed<T>(s: seq<T>): seq<T> {
    if s == [] then [] else Reversed(s[1..]) + [s[0]]
  }

  lemma ReversedCons<T>(x: T, s: seq<T>)
    ensures Reversed([x] + s) == Reversed(s) + [x]
  {
    assert ([x] + s)[1..] == s;
  }

  lemma Regroup<T>(a: seq<T>, b: seq<T>, c: seq<T>)
    ensures a + b + c == a + (b + c)
  {
  }

  lemma Difference(q: int, q': int, m: int)
    ensures (q - q') * m == q * m - q' * m
  {
  }

  lemma NonNegative(a: nat, b: nat)
    ensures a * b >= 0
  {
  }

  /** memcpy. */
  method CopyBytes(dst: array<byte>, at: nat, src: seq<byte>)
    requires at + |src| <= dst.Length
    modifies dst
    ensures dst[..] == old(dst[..at]) + src + old(dst[at + |src|..])
  {
    var j := 0;
    while j < |src|
      invariant 0 <= j <= |src|
      invariant forall k | 0 <= k < dst.Length ::
        dst[k] == if at <= k < at + j then src[k - at] else old(dst[k])
    {
      dst[at + j] := src[j];
      j := j + 1;
    }
  }
}
