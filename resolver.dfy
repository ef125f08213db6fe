/**
 * The resolver half of ServiceSupplier: how `get` decides between a single service and a list,
 * which service handleSingle picks, and which list handleCollection builds. The registry lookup
 * `getServiceReferences` is the parameter `found` (None is Java's null), and `getService` is the
 * `service` field of each reference.
 */
module Resolver {
  import opened Wrappers
  import opened Comparator
  import opened Sorting

  /** The Java reflection types a descriptor can ask for. */
  datatype JavaType =
    | ClassType(name: string)
    | ParameterizedType(raw: string, firstArg: JavaType, moreArgs: seq<JavaType>)
    | OtherType  // a type variable, wildcard or generic array type: not a Class

  const ListClass: string := "java.util.List"
  /** The utility class java.util.Collections, not the interface java.util.Collection. */
  const CollectionsClass: string := "java.util.Collections"

  /** The shape of a request once `get` has looked at the desired type. */
  datatype Request =
    | SingleRequest(desired: JavaType, track: bool)
    | CollectionRequest(element: JavaType, track: bool)

  /** ServiceSupplier.get: only a parameterised List (or Collections) takes the collection path. */
  function Dispatch(desired: JavaType, track: bool, dynamic: bool): (r: Request)
    ensures r.CollectionRequest? <==>
      desired.ParameterizedType? && (desired.raw == ListClass || desired.raw == CollectionsClass)
    ensures r.CollectionRequest? ==> r.element == desired.firstArg
    ensures r.SingleRequest? ==> r.desired == desired
    ensures r.track <==> track && dynamic
  {
    var trackIt := track && dynamic;
    if desired.ParameterizedType? && (desired.raw == CollectionsClass || desired.raw == ListClass) then
      CollectionRequest(desired.firstArg, trackIt)
    else
      SingleRequest(desired, trackIt)
  }

  /** Collection<T>, Set<T> and ArrayList<T> are not recognised: they are looked up as single services. */
  lemma OtherCollectionTypesAreSingle(element: JavaType, track: bool, dynamic: bool)
    ensures Dispatch(ParameterizedType("java.util.Collection", element, []), track, dynamic).SingleRequest?
    ensures Dispatch(ParameterizedType("java.util.Set", element, []), track, dynamic).SingleRequest?
    ensures Dispatch(ParameterizedType("java.util.ArrayList", element, []), track, dynamic).SingleRequest?
  {
  }

  /**
   * The cast `(Class<Object>) t` after unwrapping a parameterised type to its raw type: the
   * name of the class to look up, or None where the cast throws ClassCastException.
   */
  function ClassOf(t: JavaType): (r: Option<string>)
    ensures r.None? <==> t.OtherType?
    ensures t.ClassType? ==> r == Some(t.name)
    ensures t.ParameterizedType? ==> r == Some(t.raw)
  {
    match t
    case ClassType(name) => Some(name)
    case ParameterizedType(raw, _, _) => Some(raw)
    case OtherType => None
  }

  /** The references a lookup returned; a null array holds none. */
  function Refs(found: Option<seq<ServiceRef>>): seq<ServiceRef> {
    if found.Some? then found.value else []
  }

  /**
   * Index k holds a highest reference of s under COMPARATOR, and every reference after it
   * in s orders strictly below it: among equally high references, the last one.
   */
  ghost predicate IsLastHighest(s: seq<ServiceRef>, k: int) {
    && 0 <= k < |s|
    && (forall j :: 0 <= j < |s| ==> Le(s[j], s[k]))
    && (forall j :: k < j < |s| ==> Compare(s[j], s[k]) < 0)
  }

  lemma LastHighestGrowsUp(init: seq<ServiceRef>, x: ServiceRef, k: int)
    requires IsLastHighest(init, k) && Le(init[k], x)
    ensures IsLastHighest(init + [x], |init|)
  {
    var s := init + [x];
    forall j | 0 <= j < |s| ensures Le(s[j], x) {
      if j < |init| {
        CompareTransitive(init[j], init[k], x);
      } else {
        CompareSpec(x, x);
      }
    }
  }

  lemma LastHighestStays(init: seq<ServiceRef>, x: ServiceRef, k: int)
    requires IsLastHighest(init, k) && !Le(init[k], x)
    ensures IsLastHighest(init + [x], k)
  {
    CompareSpec(init[k], x);
  }

  /** The last element of the stable ascending sort is the last of the highest references. */
  lemma {:induction false} SortLastIsLastHighest(s: seq<ServiceRef>)
    requires |s| > 0
    ensures |SortSeq(s)| == |s|
    ensures exists k :: IsLastHighest(s, k) && s[k] == SortSeq(s)[|s| - 1]
    decreases |s|
  {
    SortSeqLength(s);
    var init, x := s[..|s| - 1], s[|s| - 1];
    assert s == init + [x];
    if |init| == 0 {
      assert SortSeq(s) == Insert([], x) == [x];
      CompareSpec(x, x);
      assert IsLastHighest(s, 0);
    } else {
      SortLastIsLastHighest(init);
      var k :| IsLastHighest(init, k) && init[k] == SortSeq(init)[|init| - 1];
      var p := SortSeq(init);
      SortSeqLength(init);
      if Le(init[k], x) {
        assert SortSeq(s) == p + [x];
        LastHighestGrowsUp(init, x, k);
        assert s[|s| - 1] == SortSeq(s)[|s| - 1];
      } else {
        assert SortSeq(s) == Insert(p[..|p| - 1], x) + [init[k]];
        LastHighestStays(init, x, k);
        assert s[k] == SortSeq(s)[|s| - 1];
      }
    }
  }

  /** At most one index is the last of the highest: the choice is determined by the input. */
  lemma LastHighestUnique(s: seq<ServiceRef>, k1: int, k2: int)
    requires IsLastHighest(s, k1) && IsLastHighest(s, k2)
    ensures k1 == k2
  {
    if k1 < k2 {
      CompareSpec(s[k1], s[k2]);
    } else if k2 < k1 {
      CompareSpec(s[k2], s[k1]);
    }
  }

  /** With one reference ranked above all others, that one is chosen. */
  lemma HighestRankWins(s: seq<ServiceRef>, k: int, m: int)
    requires IsLastHighest(s, k)
    requires 0 <= m < |s| && forall j :: 0 <= j < |s| && j != m ==> Rank(s[j]) < Rank(s[m])
    ensures k == m
  {
    if k != m {
      CompareSpec(s[m], s[k]);
    }
  }

  /** Among the references of the top ranking, the chosen one has the greatest class name. */
  lemma TieBreakByClassName(s: seq<ServiceRef>, k: int, j: int)
    requires IsLastHighest(s, k) && 0 <= j < |s|
    ensures Rank(s[j]) <= Rank(s[k])
    ensures Rank(s[j]) == Rank(s[k]) ==> !LexBefore(s[k].refClass, s[j].refClass)
  {
    CompareSpec(s[j], s[k]);
    CompareSpec(s[k], s[j]);
  }

  /**
   * handleSingle's selection: sort the references and take the service of the last one;
   * NOT_A_VALUE when the lookup returned null or nothing.
   */
  method SelectHighest(found: Option<seq<ServiceRef>>) returns (r: Option<ServiceObject>)
    ensures r.None? <==> Refs(found) == []
    ensures r.Some? ==> exists k :: IsLastHighest(Refs(found), k) && r.value == Refs(found)[k].service
  {
    r := None;
    if found.Some? {
      var refs := found.value;
      var a := new ServiceRef[|refs|](i requires 0 <= i < |refs| => refs[i]);
      assert a[..] == refs;
      SortByRanking(a);
      if a.Length > 0 {
        SortLastIsLastHighest(refs);
        r := Some(a[a.Length - 1].service);
      }
    }
  }

  // ----- Collections.reverse -----

  function Reversed<T>(s: seq<T>): seq<T>
    decreases |s|
  {
    if |s| == 0 then [] else [s[|s| - 1]] + Reversed(s[..|s| - 1])
  }

  lemma {:induction false} ReversedAt<T>(s: seq<T>, k: nat)
    requires k < |s|
    ensures |Reversed(s)| == |s| && Reversed(s)[k] == s[|s| - 1 - k]
    decreases |s|
  {
    ReversedLength(s[..|s| - 1]);
    if k > 0 {
      ReversedAt(s[..|s| - 1], k - 1);
    }
  }

  lemma {:induction false} ReversedLength<T>(s: seq<T>)
    ensures |Reversed(s)| == |s|
    decreases |s|
  {
    if |s| > 0 {
      ReversedLength(s[..|s| - 1]);
    }
  }

  lemma {:induction false} ReversedPermutes<T>(s: seq<T>)
    ensures multiset(Reversed(s)) == multiset(s)
    decreases |s|
  {
    if |s| > 0 {
      ReversedPermutes(s[..|s| - 1]);
      assert s == s[..|s| - 1] + [s[|s| - 1]];
    }
  }

  lemma {:induction false} ReversedEquivalents(s: seq<ServiceRef>, z: ServiceRef)
    ensures Equivalents(Reversed(s), z) == Reversed(Equivalents(s, z))
    decreases |s|
  {
    if |s| > 0 {
      var init, x := s[..|s| - 1], s[|s| - 1];
      ReversedEquivalents(init, z);
      EquivalentsAppend([x], Reversed(init), z);
      EquivalentsOne(x, z);
      var e := Equivalents(init, z);
      if Compare(x, z) == 0 {
        assert Reversed(e + [x]) == [x] + Reversed(e) by {
          assert (e + [x])[..|e + [x]| - 1] == e;
        }
      } else {
        assert e + [] == e;
      }
    }
  }

  predicate SortedDescending(s: seq<ServiceRef>) {
    forall i, j :: 0 <= i < j < |s| ==> Le(s[j], s[i])
  }

  lemma ReversedSorted(s: seq<ServiceRef>)
    requires Sorted(s)
    ensures SortedDescending(Reversed(s))
  {
    ReversedLength(s);
    var r := Reversed(s);
    forall i, j | 0 <= i < j < |r| ensures Le(r[j], r[i]) {
      ReversedAt(s, i);
      ReversedAt(s, j);
    }
  }

  /** The reverse of the ascending sort is a descending permutation, stable in reverse. */
  lemma ReversedSortFacts(refs: seq<ServiceRef>)
    ensures multiset(Reversed(SortSeq(refs))) == multiset(refs)
    ensures SortedDescending(Reversed(SortSeq(refs)))
    ensures forall z :: Equivalents(Reversed(SortSeq(refs)), z) == Reversed(Equivalents(refs, z))
  {
    var sorted := SortSeq(refs);
    SortSeqSortedPermutation(refs);
    ReversedPermutes(sorted);
    ReversedSorted(sorted);
    forall z ensures Equivalents(Reversed(sorted), z) == Reversed(Equivalents(refs, z)) {
      ReversedEquivalents(sorted, z);
      SortSeqStable(refs, z);
    }
  }

  /** Reversing the references and reversing their services line up. */
  lemma ReversedServices(refs: seq<ServiceRef>)
    ensures Reversed(Services(refs)) == Services(Reversed(refs))
  {
    var list := Services(refs);
    ReversedLength(list);
    ReversedLength(refs);
    forall i | 0 <= i < |list| ensures Reversed(list)[i] == Reversed(refs)[i].service {
      ReversedAt(list, i);
      ReversedAt(refs, i);
    }
  }

  /**
   * rv holds the services of refs, highest ranking first: the services of a descending
   * permutation of refs in which references that compare equal come in reverse registry order.
   */
  ghost predicate ListedDescending(rv: seq<ServiceObject>, refs: seq<ServiceRef>) {
    exists order :: DescendingOrder(order, refs) && rv == Services(order)
  }

  /**
   * order is refs rearranged highest first; references that compare equal keep the reverse of
   * their order in refs.
   */
  ghost predicate DescendingOrder(order: seq<ServiceRef>, refs: seq<ServiceRef>) {
    && multiset(order) == multiset(refs)
    && SortedDescending(order)
    && (forall z :: Equivalents(order, z) == Reversed(Equivalents(refs, z)))
  }

  /** Nothing found, nothing listed. */
  lemma ListedNothing(rv: seq<ServiceObject>)
    requires ListedDescending(rv, [])
    ensures rv == []
  {
    var none: seq<ServiceRef> := [];
    var order :| DescendingOrder(order, none) && rv == Services(order);
    assert |order| == |multiset(order)|;
  }

  /** getService on each reference, in order. */
  function Services(refs: seq<ServiceRef>): (r: seq<ServiceObject>)
    ensures |r| == |refs| && forall i :: 0 <= i < |refs| ==> r[i] == refs[i].service
  {
    seq(|refs|, i requires 0 <= i < |refs| => refs[i].service)
  }

  /**
   * The list handleCollection returns holds one service per reference found, with nothing
   * left out and nothing repeated.
   */
  lemma ListedExactly(rv: seq<ServiceObject>, refs: seq<ServiceRef>)
    requires ListedDescending(rv, refs)
    ensures multiset(rv) == multiset(Services(refs))
  {
    var order :| DescendingOrder(order, refs) && rv == Services(order);
    assert rv == Services(order);
    ServicesPermute(order, refs);
  }

  /** Rearranging the references rearranges their services the same way. */
  lemma {:induction false} ServicesPermute(order: seq<ServiceRef>, refs: seq<ServiceRef>)
    requires multiset(order) == multiset(refs)
    ensures multiset(Services(order)) == multiset(Services(refs))
    decreases |refs|
  {
    if |refs| == 0 {
      assert |order| == |multiset(order)| == 0;
    } else {
      var init, x := refs[..|refs| - 1], refs[|refs| - 1];
      assert x in multiset(order) by {
        assert refs == init + [x];
      }
      var i :| 0 <= i < |order| && order[i] == x;
      var front, back := order[..i], order[i + 1..];
      PickOut(order, i, refs);
      ServicesPermute(front + back, init);
      ServicesAround(front, x, back, init);
      assert order == front + [x] + back;
      assert refs == init + [x];
    }
  }

  /** Taking the last reference out of refs and the same reference out of order keeps them permutations. */
  lemma PickOut(order: seq<ServiceRef>, i: nat, refs: seq<ServiceRef>)
    requires multiset(order) == multiset(refs) && |refs| > 0
    requires i < |order| && order[i] == refs[|refs| - 1]
    ensures multiset(order[..i] + order[i + 1..]) == multiset(refs[..|refs| - 1])
  {
    var x := order[i];
    var m1, m2 := multiset(order[..i] + order[i + 1..]), multiset(refs[..|refs| - 1]);
    assert order == order[..i] + [x] + order[i + 1..];
    assert refs == refs[..|refs| - 1] + [x];
    assert multiset(order) == m1 + multiset{x};
    assert multiset(refs) == m2 + multiset{x};
    forall y ensures m1[y] == m2[y] {
      assert (m1 + multiset{x})[y] == (m2 + multiset{x})[y];
    }
  }

  /** The inductive step of ServicesPermute on the service side. */
  lemma ServicesAround(front: seq<ServiceRef>, x: ServiceRef, back: seq<ServiceRef>, init: seq<ServiceRef>)
    requires multiset(Services(front + back)) == multiset(Services(init))
    ensures multiset(Services(front + [x] + back)) == multiset(Services(init + [x]))
  {
    ServicesConcat(front + [x], back);
    ServicesConcat(front, [x]);
    ServicesConcat(front, back);
    ServicesConcat(init, [x]);
  }

  lemma ServicesConcat(s: seq<ServiceRef>, t: seq<ServiceRef>)
    ensures Services(s + t) == Services(s) + Services(t)
  {
  }

  /**
   * handleCollection's list: one service per reference found, highest first; references that
   * compare equal come in the reverse of their registry order. Empty when the lookup is null.
   * `order` is the list of references behind the returned services.
   */
  method CollectDescending(found: Option<seq<ServiceRef>>) returns (rv: seq<ServiceObject>, ghost order: seq<ServiceRef>)
    ensures DescendingOrder(order, Refs(found))
    ensures rv == Services(order)
    ensures ListedDescending(rv, Refs(found))
  {
    var list: seq<ServiceObject> := [];
    ghost var sorted: seq<ServiceRef> := [];
    if found.Some? {
      var refs := found.value;
      var a := new ServiceRef[|refs|](i requires 0 <= i < |refs| => refs[i]);
      assert a[..] == refs;
      SortByRanking(a);
      for i := 0 to a.Length
        invariant list == Services(a[..i])
      {
        assert a[..i + 1] == a[..i] + [a[i]];
        list := list + [a[i].service];
      }
      sorted := a[..];
      assert a[..a.Length] == sorted;
    }
    assert list == Services(sorted);
    assert sorted == SortSeq(Refs(found)) by {
      assert SortSeq([]) == [];
    }
    // Collections.reverse: the services go out highest ranking first
    rv := Reversed(list);
    order := Reversed(sorted);
    ReversedSortFacts(Refs(found));
    ReversedServices(sorted);
  }
}
