/** The orders that the index uses: Slice::compare (ibdb/src/base/slice.h) and the timestamp
    comparator (ibdb/src/storage/segment.h). */
module Slices {
  import opened Coding
  import opened SkipLists

  /** The sign of the first difference between two strings of one length. */
  function Memcmp(a: Bytes, b: Bytes): int
    requires |a| == |b|
    decreases |a|
  {
    if a == [] then 0
    else if a[0] < b[0] then -1
    else if b[0] < a[0] then 1
    else Memcmp(a[1..], b[1..])
  }

  function SliceCompare(a: Bytes, b: Bytes): int {
    var minLen := if |a| < |b| then |a| else |b|;
    var r := Memcmp(a[..minLen], b[..minLen]);
    if r != 0 then r else if |a| < |b| then -1 else if |a| > |b| then 1 else 0
  }

  function TsCompare(a: nat, b: nat): int {
    if a == b then 0 else if a > b then 1 else -1
  }

  lemma TsOrder()
    ensures TotalOrder(TsCompare)
  {
  }

  lemma CompareStep(x: bv8, a: Bytes, b: Bytes)
    ensures SliceCompare([x] + a, [x] + b) == SliceCompare(a, b)
  {
    var minLen := if |a| < |b| then |a| else |b|;
    assert ([x] + a)[..minLen + 1] == [x] + a[..minLen];
    assert ([x] + b)[..minLen + 1] == [x] + b[..minLen];
    assert ([x] + a[..minLen])[1..] == a[..minLen] && ([x] + b[..minLen])[1..] == b[..minLen];
  }

  lemma CompareFirst(a: Bytes, b: Bytes)
    ensures a == [] || b == [] ==> SliceCompare(a, b) == if |a| < |b| then -1 else if |a| > |b| then 1 else 0
    ensures a != [] && b != [] && a[0] != b[0] ==> SliceCompare(a, b) == if a[0] < b[0] then -1 else 1
    ensures a != [] && b != [] && a[0] == b[0] ==> SliceCompare(a, b) == SliceCompare(a[1..], b[1..])
  {
    if a != [] && b != [] && a[0] == b[0] {
      assert a == [a[0]] + a[1..] && b == [b[0]] + b[1..];
      CompareStep(a[0], a[1..], b[1..]);
    }
  }

  /** The first byte in which two strings differ decides, as an unsigned number; if there is none,
      the shorter string comes first. */
  lemma {:induction false} FirstDifference(a: Bytes, b: Bytes, i: nat)
    requires i <= |a| && i <= |b| && a[..i] == b[..i]
    ensures i < |a| && i < |b| && a[i] < b[i] ==> SliceCompare(a, b) < 0
    ensures i < |a| && i < |b| && a[i] > b[i] ==> SliceCompare(a, b) > 0
    ensures i == |a| < |b| ==> SliceCompare(a, b) < 0
    decreases i
  {
    hide SliceCompare;
    CompareFirst(a, b);
    if i > 0 {
      assert a[0] == a[..i][0] == b[..i][0] == b[0];
      assert a[1..][..i - 1] == a[..i][1..] == b[..i][1..] == b[1..][..i - 1];
      FirstDifference(a[1..], b[1..], i - 1);
    }
  }

  lemma {:induction false} CompareZero(a: Bytes, b: Bytes)
    ensures SliceCompare(a, b) == 0 <==> a == b
    decreases |a|
  {
    hide SliceCompare;
    CompareFirst(a, b);
    if a != [] && b != [] && a[0] == b[0] {
      CompareZero(a[1..], b[1..]);
      assert a == [a[0]] + a[1..] && b == [b[0]] + b[1..];
    }
  }

  lemma {:induction false} CompareFlip(a: Bytes, b: Bytes)
    ensures SliceCompare(a, b) < 0 <==> SliceCompare(b, a) > 0
    decreases |a|
  {
    hide SliceCompare;
    CompareFirst(a, b);
    CompareFirst(b, a);
    if a != [] && b != [] && a[0] == b[0] {
      CompareFlip(a[1..], b[1..]);
    }
  }

  lemma {:induction false} CompareChain(a: Bytes, b: Bytes, c: Bytes)
    requires SliceCompare(a, b) < 0 && SliceCompare(b, c) < 0
    ensures SliceCompare(a, c) < 0
    decreases |a|
  {
    hide SliceCompare;
    CompareFirst(a, b);
    CompareFirst(b, c);
    CompareFirst(a, c);
    if a != [] && b != [] && c != [] && a[0] == b[0] == c[0] {
      CompareChain(a[1..], b[1..], c[1..]);
    }
  }

  /** Slice::compare is a total order, and it calls equal only what has equal bytes. */
  lemma SliceOrder()
    ensures TotalOrder(SliceCompare)
  {
    hide SliceCompare;
    forall a, b ensures SliceCompare(a, b) == 0 <==> a == b { CompareZero(a, b); }
    forall a, b ensures SliceCompare(a, b) < 0 <==> SliceCompare(b, a) > 0 { CompareFlip(a, b); }
    forall a, b, c | SliceCompare(a, b) < 0 && SliceCompare(b, c) < 0 ensures SliceCompare(a, c) < 0 {
      CompareChain(a, b, c);
    }
  }
}
