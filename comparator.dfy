/**
 * ServiceSupplier.COMPARATOR: service references ordered by ascending ranking, ties broken by
 * String.compareTo on the name of the reference object's own class (`a.getClass().getName()`),
 * which is not the class of the service behind it.
 */
module Comparator {
  import opened Ranking

  /** Identity of the service object that the registry's getService hands out for a reference. */
  type ServiceObject = nat

  /**
   * A service reference as the resolver sees it: its ranking property, the name of the
   * reference object's class (the comparator's tie-break key) and the service it stands for.
   */
  datatype ServiceRef = ServiceRef(ranking: Property, refClass: string, service: ServiceObject)

  function Rank(a: ServiceRef): int32 {
    ParseRanking(a.ranking)
  }

  /** Integer.compare: the sign of x - y, as -1, 0 or 1. */
  function IntegerCompare(x: int, y: int): int {
    if x < y then -1 else if x == y then 0 else 1
  }

  /**
   * String.compareTo: the difference of the first pair of characters that differ, or else the
   * difference of the lengths.
   */
  function CompareTo(s: string, t: string): int
    decreases |s|
  {
    if |s| == 0 || |t| == 0 then |s| - |t|
    else if s[0] != t[0] then s[0] as int - t[0] as int
    else CompareTo(s[1..], t[1..])
  }

  /**
   * Lexicographic order, defined independently of CompareTo: s is a proper prefix of t, or
   * at the first position where they differ s has the smaller character.
   */
  ghost predicate LexBefore(s: string, t: string) {
    || (|s| < |t| && s == t[..|s|])
    || exists k :: 0 <= k < |s| && k < |t| && s[..k] == t[..k] && s[k] < t[k]
  }

  /** The comparator itself: negative, zero or positive as a orders before, with or after b. */
  function Compare(a: ServiceRef, b: ServiceRef): int {
    var x := IntegerCompare(Rank(a), Rank(b));
    if x != 0 then x else CompareTo(a.refClass, b.refClass)
  }

  /** a may stand before b in an ascending sort. */
  predicate Le(a: ServiceRef, b: ServiceRef) {
    Compare(a, b) <= 0
  }

  lemma LexBeforeStep(s: string, t: string)
    requires |s| > 0 && |t| > 0 && s[0] == t[0]
    ensures LexBefore(s, t) <==> LexBefore(s[1..], t[1..])
  {
    if LexBefore(s, t) {
      LexBeforeDrop(s, t);
    }
    if LexBefore(s[1..], t[1..]) {
      LexBeforeCons(s, t);
    }
  }

  lemma LexBeforeDrop(s: string, t: string)
    requires |s| > 0 && |t| > 0 && s[0] == t[0] && LexBefore(s, t)
    ensures LexBefore(s[1..], t[1..])
  {
    if |s| < |t| && s == t[..|s|] {
      assert s[1..] == t[1..][..|s[1..]|];
    } else {
      var k :| 0 <= k < |s| && k < |t| && s[..k] == t[..k] && s[k] < t[k];
      assert k != 0;
      assert s[1..][..k - 1] == t[1..][..k - 1];
      assert s[1..][k - 1] < t[1..][k - 1];
    }
  }

  lemma LexBeforeCons(s: string, t: string)
    requires |s| > 0 && |t| > 0 && s[0] == t[0] && LexBefore(s[1..], t[1..])
    ensures LexBefore(s, t)
  {
    if |s[1..]| < |t[1..]| && s[1..] == t[1..][..|s[1..]|] {
      assert s == [s[0]] + s[1..];
      assert t[..|s|] == [t[0]] + t[1..][..|s[1..]|];
    } else {
      var k :| 0 <= k < |s[1..]| && k < |t[1..]| && s[1..][..k] == t[1..][..k] && s[1..][k] < t[1..][k];
      assert s[..k + 1] == [s[0]] + s[1..][..k];
      assert t[..k + 1] == [t[0]] + t[1..][..k];
      assert s[k + 1] < t[k + 1];
    }
  }

  /** String.compareTo is the lexicographic order, antisymmetric, and zero only on equal strings. */
  lemma {:induction false} CompareToSpec(s: string, t: string)
    ensures CompareTo(s, t) < 0 <==> LexBefore(s, t)
    ensures CompareTo(s, t) == 0 <==> s == t
    ensures CompareTo(s, t) == -CompareTo(t, s)
    decreases |s|
  {
    if |s| == 0 || |t| == 0 {
      if |s| < |t| {
        assert s == t[..|s|];
      }
      if LexBefore(s, t) {
        assert |s| < |t|;
      }
    } else if s[0] != t[0] {
      if s[0] < t[0] {
        assert s[..0] == t[..0];
      }
    } else {
      CompareToSpec(s[1..], t[1..]);
      LexBeforeStep(s, t);
      if s[1..] == t[1..] {
        assert s == [s[0]] + s[1..] && t == [t[0]] + t[1..];
      }
    }
  }

  lemma {:induction false} CompareToTransitive(s: string, t: string, u: string)
    requires CompareTo(s, t) <= 0 && CompareTo(t, u) <= 0
    ensures CompareTo(s, u) <= 0
    decreases |s|
  {
    if |s| > 0 && |t| > 0 && |u| > 0 && s[0] == t[0] == u[0] {
      CompareToTransitive(s[1..], t[1..], u[1..]);
    }
  }

  /**
   * What the comparator orders by: ranking first, and the lexicographic order of the
   * reference class names only between equal rankings.
   */
  lemma CompareSpec(a: ServiceRef, b: ServiceRef)
    ensures Compare(a, b) < 0 <==>
      Rank(a) < Rank(b) || (Rank(a) == Rank(b) && LexBefore(a.refClass, b.refClass))
    ensures Compare(a, b) == 0 <==> Rank(a) == Rank(b) && a.refClass == b.refClass
    ensures Compare(a, b) > 0 <==> Compare(b, a) < 0
  {
    CompareToSpec(a.refClass, b.refClass);
  }

  lemma CompareTransitive(a: ServiceRef, b: ServiceRef, c: ServiceRef)
    requires Le(a, b) && Le(b, c)
    ensures Le(a, c)
  {
    if Rank(a) == Rank(b) == Rank(c) {
      CompareToTransitive(a.refClass, b.refClass, c.refClass);
    }
  }

  /** COMPARATOR is a total preorder, as Arrays.sort requires of it. */
  lemma ComparatorIsTotalPreorder()
    ensures forall a :: Le(a, a)
    ensures forall a, b :: Le(a, b) || Le(b, a)
    ensures forall a, b, c :: Le(a, b) && Le(b, c) ==> Le(a, c)
    ensures forall a, b :: Compare(a, b) < 0 <==> Compare(b, a) > 0
  {
    forall a ensures Le(a, a) {
      CompareSpec(a, a);
    }
    forall a, b ensures Le(a, b) || Le(b, a) {
      CompareSpec(a, b);
    }
    forall a, b, c | Le(a, b) && Le(b, c) ensures Le(a, c) {
      CompareTransitive(a, b, c);
    }
    forall a, b ensures Compare(a, b) < 0 <==> Compare(b, a) > 0 {
      CompareSpec(b, a);
    }
  }

  /**
   * In a registry whose references are all objects of one class, the tie-break never
   * separates two references: equal rankings compare as equal.
   */
  lemma SameReferenceClassTies(a: ServiceRef, b: ServiceRef)
    requires a.refClass == b.refClass && Rank(a) == Rank(b)
    ensures Compare(a, b) == 0
  {
    CompareToSpec(a.refClass, b.refClass);
  }
}
