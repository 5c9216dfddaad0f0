/** Moving ranges of fixed-size buffers. */
module Buffers {

  /** Copies the first n elements of `from` to position `at` of `to`. */
  method CopyRange<T>(from: array<T>, n: nat, to: array<T>, at: nat)
    requires from != to && n <= from.Length && at + n <= to.Length
    modifies to
    ensures to[..at] == old(to[..at]) && to[at..at + n] == from[..n] && to[at + n..] == old(to[at + n..])
  {
    for i := 0 to n
      invariant to[..at] == old(to[..at]) && to[at..at + i] == from[..i] && to[at + i..] == old(to[at + i..])
    {
      to[at + i] := from[i];
    }
  }

  /** Shifts the first n elements down by `shift` places, last one first. */
  method ShiftDown<T>(a: array<T>, n: nat, shift: nat)
    requires n + shift <= a.Length
    modifies a
    ensures a[shift..shift + n] == old(a[..n])
  {
    ghost var before := a[..n];
    var i := n;
    while 0 < i
      invariant 0 <= i <= n
      invariant a[..i] == before[..i]
      invariant forall k :: i <= k < n ==> a[k + shift] == before[k]
    {
      i := i - 1;
      a[i + shift] := a[i];
    }
  }

  lemma SplitPrefix<T>(s: seq<T>, n: nat, k: nat)
    requires n + k <= |s|
    ensures s[..n + k] == s[..n] + s[n..n + k]
    ensures s[n..n + k] == s[n..][..k]
  {
  }
}
