/** memcpy and memset on arrays. */
module Memory {

  method MemCpy<T>(dst: array<T>, at: nat, src: seq<T>)
    requires at + |src| <= dst.Length
    modifies dst
    ensures dst[..] == old(dst[..at]) + src + old(dst[at + |src|..])
  {
    forall i | 0 <= i < |src| {
      dst[at + i] := src[i];
    }
  }

  method MemSet<T>(dst: array<T>, at: nat, value: T, n: nat)
    requires at + n <= dst.Length
    modifies dst
    ensures dst[..] == old(dst[..at]) + seq(n, _ => value) + old(dst[at + n..])
  {
    forall i | at <= i < at + n {
      dst[i] := value;
    }
  }
}
