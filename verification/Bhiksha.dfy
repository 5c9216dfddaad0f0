/** Compressed pointers of the trie: the low part of every pointer lies in its record, and an array says from which record
    on the high part is at least k. */
module Bhiksha {

  ghost predicate NonDecreasing(v: seq<nat>) {
    forall i, j :: 0 <= i <= j < |v| ==> v[i] <= v[j]
  }

  function Pow2(n: nat): (p: nat)
    ensures 0 < p
  {
    if n == 0 then 1 else 2 * Pow2(n - 1)
  }

  // ----- how many bits to move to the array -----

  /** The bits a number up to n takes. */
  function RequiredBits(n: nat): (bits: nat)
    ensures n < Pow2(bits) && (0 < bits ==> Pow2(bits - 1) <= n)
  {
    if n == 0 then 0 else 1 + RequiredBits(n / 2)
  }

  /** The size of the pointers in bits, when `chop` of the `required` bits are moved: an entry of 64 bits for every high part,
      0 included, and the bits left in every record. */
  function TotalBits(maxOffset: nat, maxNext: nat, required: nat, chop: nat): int
    requires chop <= required
  {
    64 * (maxNext / Pow2(required - chop) + 1) + maxOffset * (required - chop)
  }

  /** No number of bits allowed needs less space, and every smaller one needs more. */
  ghost predicate Cheapest(maxOffset: nat, maxNext: nat, required: nat, configured: nat, chop: nat) {
    && chop <= required && chop <= configured
    && (forall c :: 0 <= c <= required && c <= configured ==>
          TotalBits(maxOffset, maxNext, required, chop) <= TotalBits(maxOffset, maxNext, required, c))
    && forall c :: 0 <= c < chop ==> TotalBits(maxOffset, maxNext, required, chop) < TotalBits(maxOffset, maxNext, required, c)
  }

  method ChopBits(maxOffset: nat, maxNext: nat, required: nat, configured: nat) returns (bestChop: nat)
    ensures Cheapest(maxOffset, maxNext, required, configured, bestChop)
  {
    var last := if required < configured then required else configured;
    ghost var plain := 64 + maxOffset * required;
    bestChop := 0;
    var lowestChange: int := (maxNext / Pow2(required)) * 64;
    for chop := 1 to last + 1
      invariant bestChop < chop && bestChop <= last && TotalBits(maxOffset, maxNext, required, bestChop) == plain + lowestChange
      invariant forall c :: 0 <= c < chop ==> plain + lowestChange <= TotalBits(maxOffset, maxNext, required, c)
      invariant forall c :: 0 <= c < bestChop ==> plain + lowestChange < TotalBits(maxOffset, maxNext, required, c)
    {
      // What the table costs, less what is saved in the records.
      var change := (maxNext / Pow2(required - chop)) * 64 - maxOffset * chop;
      assert maxOffset * (required - chop) == maxOffset * required - maxOffset * chop;
      if change < lowestChange {
        lowestChange, bestChop := change, chop;
      }
    }
  }

  // ----- the array of offsets -----

  function High(x: nat, size: nat): nat
    requires 0 < size
  {
    x / size
  }

  function Low(x: nat, size: nat): nat
    requires 0 < size
  {
    x % size
  }

  lemma {:induction false} HighMonotone(x: nat, y: nat, size: nat)
    requires 0 < size && x <= y
    ensures High(x, size) <= High(y, size)
  {
    HighLow(x, size);
    HighLow(y, size);
    HighLeast(y - x + Low(x, size), size, High(y, size) - High(x, size), Low(y, size));
  }

  /** A non-negative number less its remainder is a non-negative multiple. */
  lemma HighLeast(d: nat, size: nat, k: int, low: nat)
    requires 0 < size && low < size && d == k * size + low
    ensures 0 <= k
  {
    assert k < 0 ==> k * size <= 0 - size;
  }

  lemma HighLow(x: nat, size: nat)
    requires 0 < size
    ensures High(x, size) * size + Low(x, size) == x
  {
  }

  /** The place of the first value whose high part is at least k, or the number of values. */
  function FirstAt(v: seq<nat>, size: nat, k: nat): (i: nat)
    requires 0 < size
    ensures i <= |v|
  {
    if v == [] then 0
    else
      var i := FirstAt(v[..|v| - 1], size, k);
      if i < |v| - 1 then i else if High(v[|v| - 1], size) >= k then |v| - 1 else |v|
  }

  lemma {:induction false} FirstAtIs(v: seq<nat>, size: nat, k: nat)
    requires 0 < size
    ensures forall j :: 0 <= j < FirstAt(v, size, k) ==> High(v[j], size) < k
    ensures FirstAt(v, size, k) < |v| ==> High(v[FirstAt(v, size, k)], size) >= k
  {
    if v != [] {
      FirstAtIs(v[..|v| - 1], size, k);
    }
  }

  /** The index a value is written with: its place, but `closing` for the one at place n. */
  function WrittenAt(i: nat, n: nat, closing: nat): nat {
    if i < n then i else closing
  }

  /** The array up to `writeTo` after the values v. */
  ghost predicate OffsetsOk(v: seq<nat>, size: nat, offsets: seq<nat>, writeTo: nat, n: nat, closing: nat)
    requires 0 < size
  {
    && 1 <= writeTo <= |offsets| && offsets[0] == 0 && writeTo == (if v == [] then 0 else High(v[|v| - 1], size)) + 1
    && forall k :: 1 <= k < writeTo ==> FirstAt(v, size, k) < |v| && offsets[k] == WrittenAt(FirstAt(v, size, k), n, closing)
  }

  ghost predicate InlinedOk(v: seq<nat>, size: nat, inlined: seq<nat>)
    requires 0 < size
  {
    |v| <= |inlined| && forall i :: 0 <= i < |v| ==> inlined[i] == Low(v[i], size)
  }

  lemma OffsetsAppended(v: seq<nat>, size: nat, value: nat, offsets: seq<nat>, offsets': seq<nat>, writeTo: nat, n: nat, closing: nat)
    requires 0 < size && NonDecreasing(v + [value]) && OffsetsOk(v, size, offsets, writeTo, n, closing)
    requires |offsets'| == |offsets| && writeTo <= High(value, size) + 1 <= |offsets|
    requires forall k :: 0 <= k < |offsets| ==>
               offsets'[k] == if writeTo <= k <= High(value, size) then WrittenAt(|v|, n, closing) else offsets[k]
    ensures OffsetsOk(v + [value], size, offsets', High(value, size) + 1, n, closing)
  {
    assert (v + [value])[..|v|] == v;
    forall k | 1 <= k < High(value, size) + 1
      ensures FirstAt(v + [value], size, k) < |v| + 1 && offsets'[k] == WrittenAt(FirstAt(v + [value], size, k), n, closing)
    {
      FirstAtIs(v, size, k);
      if writeTo <= k {
        forall i | 0 <= i < |v|
          ensures High(v[i], size) < k
        {
          assert (v + [value])[i] == v[i] && (v + [value])[|v| - 1] == v[|v| - 1];
          HighMonotone(v[i], v[|v| - 1], size);
        }
      }
    }
  }

  /** Which entries an index has reached: those up to the high part of its value. The closing index counts as its place only
      if it is one. */
  lemma EntryAtMost(v: seq<nat>, size: nat, offsets: seq<nat>, n: nat, closing: nat, i: nat, k: nat)
    requires 0 < size && NonDecreasing(v) && |v| == n + 1 && n <= closing
    requires OffsetsOk(v, size, offsets, |offsets|, n, closing) && i <= n && k < |offsets|
    ensures i < n || closing == n ==> (offsets[k] <= i <==> k <= High(v[i], size))
    ensures i == n && 0 < n && n < closing ==> (offsets[k] <= i <==> k <= High(v[n - 1], size))
  {
    if 0 < k {
      FirstAtAtMost(v, size, k, i);
      if 0 < n {
        FirstAtAtMost(v, size, k, n - 1);
      }
    }
  }

  lemma FirstAtAtMost(v: seq<nat>, size: nat, k: nat, i: nat)
    requires 0 < size && NonDecreasing(v) && i < |v|
    ensures FirstAt(v, size, k) <= i <==> k <= High(v[i], size)
  {
    FirstAtIs(v, size, k);
    if FirstAt(v, size, k) <= i {
      HighMonotone(v[FirstAt(v, size, k)], v[i], size);
    }
  }

  /** The entries are sorted, which the search for an index needs. */
  lemma OffsetsAscend(v: seq<nat>, size: nat, offsets: seq<nat>, n: nat, closing: nat)
    requires 0 < size && NonDecreasing(v) && |v| == n + 1 && n <= closing
    requires OffsetsOk(v, size, offsets, |offsets|, n, closing)
    ensures NonDecreasing(offsets)
  {
    forall i, j | 0 <= i <= j < |offsets|
      ensures offsets[i] <= offsets[j]
    {
      if 0 < i {
        FirstAtIs(v, size, i);
        FirstAtIs(v, size, j);
      }
    }
  }

  /** Putting the high part of x before the low part of y gives y only if they have the same high part. */
  lemma MixedIsRight(x: nat, y: nat, size: nat)
    requires 0 < size
    ensures High(x, size) * size + Low(y, size) == y <==> High(x, size) == High(y, size)
  {
    HighLow(y, size);
    var d := High(x, size) - High(y, size);
    assert High(x, size) * size - High(y, size) * size == d * size;
    assert d * size == 0 <==> d == 0;
  }

  class ArrayBhiksha {
    /** The pointers below this lie in the record. */
    const inlineSize: nat
    const chop: nat
    const offsets: array<nat>
    var writeTo: nat
    const inlined: array<nat>

    constructor (entries: nat, maxNext: nat, configured: nat)
      ensures writeTo == 1 && 0 < inlineSize && inlined.Length == entries && HasRoomFor(maxNext)
      ensures Cheapest(entries, maxNext, RequiredBits(maxNext), configured, chop)
      ensures inlineSize == Pow2(RequiredBits(maxNext) - chop)
      ensures fresh(offsets) && fresh(inlined) && forall n, closing :: Written([], n, closing)
    {
      var chop := ChopBits(entries, maxNext, RequiredBits(maxNext), configured);
      var size := Pow2(RequiredBits(maxNext) - chop);
      this.chop, inlineSize := chop, size;
      writeTo := 1;
      offsets := new nat[High(maxNext, size) + 1](_ => 0);
      inlined := new nat[entries](_ => 0);
    }

    ghost predicate HasRoomFor(maxNext: nat) {
      0 < inlineSize && offsets.Length == High(maxNext, inlineSize) + 1
    }

    /** The values v have been written, each with the index of its place, the one at place n with `closing`. */
    ghost predicate Written(v: seq<nat>, n: nat, closing: nat)
      reads this, offsets, inlined
    {
      && 0 < inlineSize && offsets != inlined && NonDecreasing(v)
      && OffsetsOk(v, inlineSize, offsets[..], writeTo, n, closing) && InlinedOk(v, inlineSize, inlined[..])
    }

    method WriteNext(at: nat, index: nat, value: nat, ghost v: seq<nat>, ghost n: nat, ghost closing: nat)
      requires Written(v, n, closing) && at == |v| < inlined.Length && index == WrittenAt(at, n, closing)
      requires NonDecreasing(v + [value]) && High(value, inlineSize) < offsets.Length
      modifies this`writeTo, offsets, inlined
      ensures Written(v + [value], n, closing)
    {
      ghost var s, low := offsets[..], inlined[..];
      if v != [] {
        assert (v + [value])[|v| - 1] == v[|v| - 1] && (v + [value])[|v|] == value;
        HighMonotone(v[|v| - 1], value, inlineSize);
      }
      WriteOffsets(index, High(value, inlineSize), v, value);
      inlined[at] := Low(value, inlineSize);
      OffsetsAppended(v, inlineSize, value, s, offsets[..], old(writeTo), n, closing);
      assert inlined[..] == low[at := Low(value, inlineSize)];
    }

    /** Note the index for every high part that has not been reached before. */
    method WriteOffsets(index: nat, encode: nat, ghost v: seq<nat>, ghost value: nat)
      requires 0 < inlineSize && 1 <= writeTo <= offsets.Length && encode < offsets.Length && writeTo <= encode + 1
      modifies this`writeTo, offsets
      ensures writeTo == encode + 1
      ensures forall k :: 0 <= k < offsets.Length ==> offsets[k] == if old(writeTo) <= k <= encode then index else old(offsets[k])
    {
      while writeTo <= encode
        invariant old(writeTo) <= writeTo <= encode + 1
        invariant forall k :: 0 <= k < offsets.Length ==> offsets[k] == if old(writeTo) <= k < writeTo then index else old(offsets[k])
      {
        offsets[writeTo] := index;
        writeTo := writeTo + 1;
      }
    }

    /** Whether the array is filled exactly to its end: so it is just if the last value has the high part of the largest. */
    method FinishedLoading(ghost v: seq<nat>, ghost n: nat, ghost closing: nat, ghost maxNext: nat) returns (ok: bool)
      requires Written(v, n, closing) && v != [] && HasRoomFor(maxNext)
      ensures ok <==> writeTo == offsets.Length
      ensures ok <==> High(v[|v| - 1], inlineSize) == High(maxNext, inlineSize)
    {
      ok := writeTo == offsets.Length;
    }

    /** The last entry that is at most the key. */
    method BinaryBelow(key: nat) returns (k: nat)
      requires 0 < offsets.Length && offsets[0] <= key && NonDecreasing(offsets[..])
      ensures k < offsets.Length
      ensures forall j :: 0 <= j < offsets.Length ==> (offsets[j] <= key <==> j <= k)
    {
      var end := offsets.Length;
      k := 0;
      while k + 1 < end
        invariant k < end <= offsets.Length && offsets[k] <= key
        invariant forall j :: end <= j < offsets.Length ==> key < offsets[j]
      {
        var pivot := (k + end) / 2;
        assert forall j :: 0 <= j < offsets.Length ==> offsets[..][j] == offsets[j];
        if offsets[pivot] <= key {
          k := pivot;
        } else {
          end := pivot;
        }
      }
      assert forall j :: 0 <= j < offsets.Length ==> offsets[..][j] == offsets[j];
    }

    /** The round trip: the value of a record and that of the next one. The value after the last record comes back just if it was
        written with the number of records, or has the same high part as the one before. */
    method ReadNext(index: nat, ghost v: seq<nat>, ghost n: nat, ghost closing: nat) returns (begin: nat, end: nat)
      requires Written(v, n, closing) && |v| == n + 1 && writeTo == offsets.Length && index < n <= closing
      ensures begin == v[index]
      ensures end == v[index + 1] <==>
              index + 1 < n || closing == n || High(v[n - 1], inlineSize) == High(v[n], inlineSize)
    {
      OffsetsAscend(v, inlineSize, offsets[..], n, closing);
      assert offsets[..][0] == offsets[0];
      var beginAt := BinaryBelow(index);
      var endAt := beginAt;
      assert forall j :: 0 <= j < offsets.Length ==> offsets[..][j] == offsets[j];
      while endAt < offsets.Length && offsets[endAt] <= index + 1
        invariant beginAt <= endAt <= offsets.Length
        invariant forall j :: 0 <= j < endAt ==> offsets[j] <= index + 1
      {
        endAt := endAt + 1;
      }
      endAt := endAt - 1;
      begin := beginAt * inlineSize + inlined[index];
      end := endAt * inlineSize + inlined[index + 1];
      assert forall j :: 0 <= j < offsets.Length ==> (offsets[j] <= index + 1 <==> j <= endAt);
      BothRead(v, inlineSize, offsets[..], inlined[..], n, closing, index, beginAt, endAt);
    }
  }

  lemma BothRead(v: seq<nat>, size: nat, offsets: seq<nat>, inlined: seq<nat>, n: nat, closing: nat, i: nat, b: nat, e: nat)
    requires 0 < size && NonDecreasing(v) && |v| == n + 1 && i < n <= closing
    requires OffsetsOk(v, size, offsets, |offsets|, n, closing) && InlinedOk(v, size, inlined)
    requires b < |offsets| && forall j :: 0 <= j < |offsets| ==> (offsets[j] <= i <==> j <= b)
    requires e < |offsets| && forall j :: 0 <= j < |offsets| ==> (offsets[j] <= i + 1 <==> j <= e)
    ensures b * size + inlined[i] == v[i]
    ensures e * size + inlined[i + 1] == v[i + 1] <==> i + 1 < n || closing == n || High(v[n - 1], size) == High(v[n], size)
  {
    HighMonotone(v[i], v[n], size);
    HighMonotone(v[i + 1], v[n], size);
    LastReached(v, size, offsets, n, closing, i, b);
    LastReached(v, size, offsets, n, closing, i + 1, e);
    HighLow(v[i], size);
    HighLow(v[i + 1], size);
    MixedIsRight(v[i], v[i + 1], size);
  }

  lemma LastReached(v: seq<nat>, size: nat, offsets: seq<nat>, n: nat, closing: nat, i: nat, e: nat)
    requires 0 < size && NonDecreasing(v) && |v| == n + 1 && i <= n <= closing && 0 < n
    requires OffsetsOk(v, size, offsets, |offsets|, n, closing) && High(v[i], size) <= High(v[n], size)
    requires e < |offsets| && forall j :: 0 <= j < |offsets| ==> (offsets[j] <= i <==> j <= e)
    ensures e == High(v[if i < n || closing == n then i else n - 1], size)
  {
    var h := High(v[if i < n || closing == n then i else n - 1], size);
    HighMonotone(v[n - 1], v[n], size);
    EntryAtMost(v, size, offsets, n, closing, i, h);
    EntryAtMost(v, size, offsets, n, closing, i, e);
  }

  /** A level of the trie: the pointers of n records, each with its place, and the closing pointer. The array is filled exactly. */
  method WriteLevel(v: seq<nat>, configured: nat, closing: nat) returns (level: ArrayBhiksha, ok: bool)
    requires v != [] && NonDecreasing(v)
    ensures fresh(level) && fresh(level.offsets) && fresh(level.inlined)
    ensures Cheapest(|v|, v[|v| - 1], RequiredBits(v[|v| - 1]), configured, level.chop)
    ensures level.inlineSize == Pow2(RequiredBits(v[|v| - 1]) - level.chop)
    ensures ok && level.Written(v, |v| - 1, closing) && level.writeTo == level.offsets.Length
  {
    var n := |v| - 1;
    level := new ArrayBhiksha(n + 1, v[n], configured);
    for i := 0 to |v|
      invariant fresh(level) && fresh(level.offsets) && fresh(level.inlined) && level.inlined.Length == |v|
      invariant level.HasRoomFor(v[n]) && level.Written(v[..i], n, closing)
    {
      assert v[..i] + [v[i]] == v[..i + 1];
      HighMonotone(v[i], v[n], level.inlineSize);
      level.WriteNext(i, if i < n then i else closing, v[i], v[..i], n, closing);
    }
    assert v[..|v|] == v;
    ok := level.FinishedLoading(v, n, closing, v[n]);
  }

  /** What the closing index of the trie loses: of 65 records only the last has a child, and its range reads as empty. */
  method ClosingIndexMatters(configured: nat)
    returns (v: seq<nat>, begin: nat, end: nat)
    requires 0 < configured
    ensures v == seq(65, _ => 0) + [1]
    ensures begin == v[64] && end != v[65]
  {
    v := seq(65, _ => 0) + [1];
    assert v[64] == 0 && v[65] == 1;
    begin, end := LastOfLevel(v, configured);
  }

  method LastOfLevel(v: seq<nat>, configured: nat) returns (begin: nat, end: nat)
    requires |v| == 66 && v[64] == 0 && v[65] == 1 && NonDecreasing(v) && 0 < configured
    ensures begin == v[64] && end != v[65]
  {
    var level, _ := WriteLevel(v, configured, 66);
    OneBitChopped(configured, level.chop);
    begin, end := level.ReadNext(64, v, 65, 66);
  }

  lemma OneBitChopped(configured: nat, chop: nat)
    requires 0 < configured && Cheapest(66, 1, RequiredBits(1), configured, chop)
    ensures chop == RequiredBits(1)
  {
    hide TotalBits, Pow2;
    OneBitSaves();
    assert TotalBits(66, 1, 1, chop) <= TotalBits(66, 1, 1, 1);
  }

  lemma OneBitSaves()
    ensures RequiredBits(1) == 1 && TotalBits(66, 1, 1, 1) < TotalBits(66, 1, 1, 0)
  {
    assert RequiredBits(0) == 0 && Pow2(0) == 1 && Pow2(1) == 2;
    assert 66 * 1 == 66;
  }
}
