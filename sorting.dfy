/**
 * The `Arrays.sort(serviceReferences, COMPARATOR)` step of handleSingle and handleCollection.
 * Arrays.sort on objects is a stable sort. Its result is specified by a functional stable
 * insertion sort, whose result is the one any stable sort under COMPARATOR produces, Arrays.sort
 * included; the in-place method below is an insertion sort with adjacent swaps that yields it.
 */
module Sorting {
  import opened Comparator

  predicate Sorted(s: seq<ServiceRef>) {
    forall i, j :: 0 <= i < j < |s| ==> Le(s[i], s[j])
  }

  /**
   * Inserts x behind every element that does not order after it: one step of a stable
   * insertion sort, working from the back as the swapping loop does.
   */
  function Insert(s: seq<ServiceRef>, x: ServiceRef): seq<ServiceRef>
    decreases |s|
  {
    if |s| == 0 || Compare(s[|s| - 1], x) <= 0 then s + [x]
    else Insert(s[..|s| - 1], x) + [s[|s| - 1]]
  }

  /** The ascending stable sort of s under COMPARATOR. */
  function SortSeq(s: seq<ServiceRef>): seq<ServiceRef>
    decreases |s|
  {
    if |s| == 0 then [] else Insert(SortSeq(s[..|s| - 1]), s[|s| - 1])
  }

  /** The elements of s that compare equal to z, in their order in s. */
  function Equivalents(s: seq<ServiceRef>, z: ServiceRef): seq<ServiceRef>
    decreases |s|
  {
    if |s| == 0 then []
    else Equivalents(s[..|s| - 1], z) + (if Compare(s[|s| - 1], z) == 0 then [s[|s| - 1]] else [])
  }

  lemma {:induction false} InsertPermutes(s: seq<ServiceRef>, x: ServiceRef)
    ensures multiset(Insert(s, x)) == multiset(s) + multiset{x}
    decreases |s|
  {
    if !(|s| == 0 || Compare(s[|s| - 1], x) <= 0) {
      InsertPermutes(s[..|s| - 1], x);
      assert s == s[..|s| - 1] + [s[|s| - 1]];
    }
  }

  lemma {:induction false} InsertSorted(s: seq<ServiceRef>, x: ServiceRef)
    requires Sorted(s)
    ensures Sorted(Insert(s, x))
    decreases |s|
  {
    ComparatorIsTotalPreorder();
    if |s| == 0 || Compare(s[|s| - 1], x) <= 0 {
      var r := s + [x];
      forall i, j | 0 <= i < j < |r| ensures Le(r[i], r[j]) {
        if j == |s| && i < |s| - 1 {
          CompareTransitive(s[i], s[|s| - 1], x);
        }
      }
    } else {
      var init, last := s[..|s| - 1], s[|s| - 1];
      InsertSorted(init, x);
      InsertPermutes(init, x);
      var p := Insert(init, x);
      var r := p + [last];
      forall i, j | 0 <= i < j < |r| ensures Le(r[i], r[j]) {
        if j == |p| {
          assert r[i] in multiset(p);
          assert r[i] == x || r[i] in multiset(init);
          if r[i] != x {
            var k :| 0 <= k < |init| && init[k] == r[i];
          }
        }
      }
    }
  }

  /** Sorting yields an ascending permutation of its input. */
  lemma {:induction false} SortSeqSortedPermutation(s: seq<ServiceRef>)
    ensures Sorted(SortSeq(s))
    ensures multiset(SortSeq(s)) == multiset(s)
    ensures |SortSeq(s)| == |s|
    decreases |s|
  {
    SortSeqLength(s);
    if |s| > 0 {
      var init, last := s[..|s| - 1], s[|s| - 1];
      var sorted := SortSeq(init);
      SortSeqSortedPermutation(init);
      InsertSorted(sorted, last);
      InsertPermutes(sorted, last);
      assert SortSeq(s) == Insert(sorted, last);
      assert multiset(s) == multiset(init) + multiset{last} by {
        assert s == init + [last];
      }
    }
  }

  lemma {:induction false} EquivalentsAppend(s: seq<ServiceRef>, t: seq<ServiceRef>, z: ServiceRef)
    ensures Equivalents(s + t, z) == Equivalents(s, z) + Equivalents(t, z)
    decreases |t|
  {
    if |t| == 0 {
      assert s + t == s;
    } else {
      EquivalentsAppend(s, t[..|t| - 1], z);
      assert (s + t)[..|s + t| - 1] == s + t[..|t| - 1];
      assert (s + t)[|s + t| - 1] == t[|t| - 1];
    }
  }

  lemma EquivalentsOne(y: ServiceRef, z: ServiceRef)
    ensures Equivalents([y], z) == if Compare(y, z) == 0 then [y] else []
  {
    assert [y][..0] == [];
  }

  /** Two references that both compare equal to z compare equal to each other. */
  lemma EquivalentsCompareEqual(x: ServiceRef, y: ServiceRef, z: ServiceRef)
    requires Compare(x, z) == 0 && Compare(y, z) == 0
    ensures Compare(y, x) == 0
  {
    CompareSpec(x, z);
    CompareSpec(y, z);
    CompareSpec(y, x);
  }

  lemma {:induction false} InsertStable(s: seq<ServiceRef>, x: ServiceRef, z: ServiceRef)
    ensures Equivalents(Insert(s, x), z) == Equivalents(s, z) + Equivalents([x], z)
    decreases |s|
  {
    if |s| == 0 || Compare(s[|s| - 1], x) <= 0 {
      EquivalentsAppend(s, [x], z);
    } else {
      InsertStable(s[..|s| - 1], x, z);
      InsertPassing(s, x, z);
    }
  }

  /**
   * The step where x moves in front of the last element of s: stability for the rest of s
   * gives stability for s.
   */
  lemma InsertPassing(s: seq<ServiceRef>, x: ServiceRef, z: ServiceRef)
    requires |s| > 0 && Compare(s[|s| - 1], x) > 0
    requires Equivalents(Insert(s[..|s| - 1], x), z) == Equivalents(s[..|s| - 1], z) + Equivalents([x], z)
    ensures Equivalents(Insert(s, x), z) == Equivalents(s, z) + Equivalents([x], z)
  {
    var init, last := s[..|s| - 1], s[|s| - 1];
    var p := Insert(init, x);
    assert Insert(s, x) == p + [last];
    EquivalentsAppend(p, [last], z);
    EquivalentsOne(last, z);
    var e, ex, el := Equivalents(init, z), Equivalents([x], z), Equivalents([last], z);
    assert Equivalents(s, z) == e + el;
    EquivalentsPassing(x, last, z);
    AppendCommutesWithEmpty(e, ex, el);
  }

  /** Appending a and b in either order gives the same sequence when one of them is empty. */
  lemma AppendCommutesWithEmpty<T>(e: seq<T>, a: seq<T>, b: seq<T>)
    requires a == [] || b == []
    ensures e + a + b == e + b + a
  {
    if a == [] {
      assert e + a == e;
      assert e + b + a == e + b;
    } else {
      assert e + b == e;
      assert e + a + b == e + a;
    }
  }

  /** x passes last only when last orders strictly after it, so they are never both equivalent to z. */
  lemma EquivalentsPassing(x: ServiceRef, last: ServiceRef, z: ServiceRef)
    requires Compare(last, x) > 0
    ensures Equivalents([x], z) == [] || Equivalents([last], z) == []
  {
    EquivalentsOne(x, z);
    EquivalentsOne(last, z);
    if Compare(x, z) == 0 && Compare(last, z) == 0 {
      EquivalentsCompareEqual(x, last, z);
      CompareSpec(last, x);
    }
  }

  /**
   * The sort is stable: the references that compare equal to any z keep their relative
   * order from the input.
   */
  lemma {:induction false} SortSeqStable(s: seq<ServiceRef>, z: ServiceRef)
    ensures Equivalents(SortSeq(s), z) == Equivalents(s, z)
    decreases |s|
  {
    if |s| > 0 {
      SortSeqStable(s[..|s| - 1], z);
      InsertStable(SortSeq(s[..|s| - 1]), s[|s| - 1], z);
    }
  }

  /** Arrays.sort(a, COMPARATOR) in place, by insertion with adjacent swaps. */
  method SortByRanking(a: array<ServiceRef>)
    modifies a
    ensures a[..] == SortSeq(old(a[..]))
  {
    ghost var input := a[..];
    var i := 0;
    while i < a.Length
      invariant 0 <= i <= a.Length
      invariant a[..] == SortSeq(input[..i]) + input[i..]
    {
      SortStep(input, i, a[..]);
      InsertAt(a, i);
      i := i + 1;
    }
    assert input[..a.Length] == input;
  }

  /** One round of the outer loop, on the functional side. */
  lemma SortStep(input: seq<ServiceRef>, i: nat, cur: seq<ServiceRef>)
    requires i < |input| && cur == SortSeq(input[..i]) + input[i..]
    ensures i < |cur|
    ensures Insert(cur[..i], cur[i]) + cur[i + 1..] == SortSeq(input[..i + 1]) + input[i + 1..]
  {
    var sorted, rest := SortSeq(input[..i]), input[i..];
    SortSeqLength(input[..i]);
    assert cur[..i] == sorted;
    assert cur[i] == rest[0] == input[i];
    assert cur[i + 1..] == rest[1..] == input[i + 1..];
    var prefix := input[..i + 1];
    assert prefix[..|prefix| - 1] == input[..i] && prefix[|prefix| - 1] == input[i];
    assert SortSeq(prefix) == Insert(sorted, input[i]);
  }

  lemma {:induction false} SortSeqLength(s: seq<ServiceRef>)
    ensures |SortSeq(s)| == |s|
    decreases |s|
  {
    if |s| > 0 {
      SortSeqLength(s[..|s| - 1]);
      InsertLength(SortSeq(s[..|s| - 1]), s[|s| - 1]);
    }
  }

  lemma {:induction false} InsertLength(s: seq<ServiceRef>, x: ServiceRef)
    ensures |Insert(s, x)| == |s| + 1
    decreases |s|
  {
    if !(|s| == 0 || Compare(s[|s| - 1], x) <= 0) {
      InsertLength(s[..|s| - 1], x);
    }
  }

  /** Moves a[i] down into the sorted prefix a[..i], swapping it past every greater element. */
  method InsertAt(a: array<ServiceRef>, i: nat)
    requires i < a.Length
    modifies a
    ensures a[..] == Insert(old(a[..i]), old(a[i])) + old(a[i + 1..])
  {
    ghost var p, rest := a[..i], a[i + 1..];
    var x := a[i];
    var j := i;
    assert a[..] == p + [x] + rest;
    assert p[..j] == p && p[j..] == [];
    while j > 0 && Compare(a[j - 1], x) > 0
      invariant 0 <= j <= i
      invariant a[..] == p[..j] + [x] + p[j..] + rest
      invariant Insert(p, x) == Insert(p[..j], x) + p[j..]
    {
      ghost var before := a[..];
      SwapStep(p, j, x, rest, before);
      a[j - 1], a[j] := a[j], a[j - 1];
      assert a[..] == before[j - 1 := x][j := p[j - 1]];
      j := j - 1;
    }
    assert p[..j] + [x] == Insert(p[..j], x);
  }

  /** One round of the swapping loop: the array side and the functional side move together. */
  lemma SwapStep(p: seq<ServiceRef>, j: nat, x: ServiceRef, rest: seq<ServiceRef>, before: seq<ServiceRef>)
    requires 0 < j <= |p| && before == p[..j] + [x] + p[j..] + rest && Compare(before[j - 1], x) > 0
    ensures before[j - 1] == p[j - 1] && before[j] == x
    ensures before[j - 1 := x][j := p[j - 1]] == p[..j - 1] + [x] + p[j - 1..] + rest
    ensures Insert(p[..j], x) + p[j..] == Insert(p[..j - 1], x) + p[j - 1..]
  {
    assert before[j - 1] == p[j - 1];
    InsertShift(p, j, x);
    SwapDown(p, j, x, rest);
  }

  /** Swapping x with its left neighbour moves the boundary of the inserted prefix one step left. */
  lemma SwapDown(p: seq<ServiceRef>, j: nat, x: ServiceRef, rest: seq<ServiceRef>)
    requires 0 < j <= |p|
    ensures (p[..j] + [x] + p[j..] + rest)[j - 1 := x][j := p[j - 1]]
            == p[..j - 1] + [x] + p[j - 1..] + rest
  {
    var u := (p[..j] + [x] + p[j..] + rest)[j - 1 := x][j := p[j - 1]];
    var v := p[..j - 1] + [x] + p[j - 1..] + rest;
    assert |u| == |v|;
    forall k | 0 <= k < |u| ensures u[k] == v[k] {
      if k < j - 1 {
      } else if k == j - 1 {
      } else if k == j {
      } else if k < |p| + 1 {
        assert u[k] == p[k - 1];
      } else {
        assert u[k] == rest[k - |p| - 1];
      }
    }
  }

  /** One swap of the insertion loop, on the functional side. */
  lemma InsertShift(p: seq<ServiceRef>, j: nat, x: ServiceRef)
    requires 0 < j <= |p| && Compare(p[j - 1], x) > 0
    ensures Insert(p[..j], x) + p[j..] == Insert(p[..j - 1], x) + p[j - 1..]
  {
    assert p[..j][..j - 1] == p[..j - 1];
    assert Insert(p[..j], x) == Insert(p[..j - 1], x) + [p[j - 1]];
    assert p[j - 1..] == [p[j - 1]] + p[j..];
  }
}
