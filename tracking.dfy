/**
 * The live-rebind table `handlerList` seen abstractly: for each bundle context and tracked service
 * class, the requestors its ServiceHandler holds. The functions here are what trackService and
 * ServiceHandler.serviceChanged do to that table; the classes in module Supplier are proved to
 * follow them.
 */
module Tracking {
  /** A BundleContext, compared by identity. */
  type Context = nat
  /** The name of a tracked service class (Class.getName()). */
  type TypeName = string
  /** An IRequestor, compared by identity. */
  type Requestor = nat

  type Table = map<Context, map<TypeName, set<Requestor>>>

  predicate Present<V>(m: map<Context, map<TypeName, V>>, c: Context, t: TypeName) {
    c in m && t in m[c]
  }

  /** The requestors interested in (c, t); none when no handler exists. */
  function Interest(v: Table, c: Context, t: TypeName): set<Requestor> {
    if Present(v, c, t) then v[c][t] else {}
  }

  /** The table's invariant: no context maps to an empty inner map, no handler holds no requestor. */
  ghost predicate WellFormed(v: Table) {
    forall c :: c in v ==> v[c] != map[] && forall t :: t in v[c] ==> v[c][t] != {}
  }

  /**
   * The removal serviceChanged performs: drop t from c's inner map, and drop c itself once its
   * inner map is empty. Nothing happens when c has no inner map.
   */
  function DropPair<V>(m: map<Context, map<TypeName, V>>, c: Context, t: TypeName): (w: map<Context, map<TypeName, V>>)
    ensures !Present(w, c, t)
    ensures forall c', t' :: (c' != c || t' != t) ==>
      (Present(w, c', t') <==> Present(m, c', t')) && (Present(w, c', t') ==> w[c'][t'] == m[c'][t'])
    ensures c in w ==> c in m && w[c] != map[]
  {
    if c in m then
      var inner := m[c] - {t};
      assert inner.Keys == m[c].Keys - {t};
      if inner.Keys == {} then
        assert forall t' :: t' in m[c] ==> t' == t by {
          forall t' | t' in m[c] ensures t' == t {
            assert t' in m[c].Keys;
            assert t' in inner.Keys || t' == t;
          }
        }
        m - {c}
      else m[c := inner]
    else m
  }

  /**
   * Two maps with the same pairs still have the same pairs, and the same outer keys, after the
   * same pair is dropped from both: the handler table and the abstract table stay in step.
   */
  lemma DropPairSameShape<V, W>(m: map<Context, map<TypeName, V>>, n: map<Context, map<TypeName, W>>, c: Context, t: TypeName)
    requires forall c' :: c' in m <==> c' in n
    requires forall c', t' :: Present(m, c', t') <==> Present(n, c', t')
    ensures forall c' :: c' in DropPair(m, c, t) <==> c' in DropPair(n, c, t)
    ensures forall c', t' :: Present(DropPair(m, c, t), c', t') <==> Present(DropPair(n, c, t), c', t')
  {
    if c in m {
      assert (m[c] - {t}).Keys == m[c].Keys - {t} && (n[c] - {t}).Keys == n[c].Keys - {t};
      forall t' ensures t' in m[c].Keys - {t} <==> t' in n[c].Keys - {t} {
        assert Present(m, c, t') <==> Present(n, c, t');
      }
      assert m[c].Keys - {t} == n[c].Keys - {t};
    }
  }

  /**
   * The two-level computeIfAbsent of trackService: after it, (c, t) maps to x, whether or not c
   * or t was present before; every other pair is as it was.
   */
  function Put<V>(m: map<Context, map<TypeName, V>>, c: Context, t: TypeName, x: V): (w: map<Context, map<TypeName, V>>)
    ensures Present(w, c, t) && w[c][t] == x
    ensures forall c', t' :: (c' != c || t' != t) ==>
      (Present(w, c', t') <==> Present(m, c', t')) && (Present(w, c', t') ==> w[c'][t'] == m[c'][t'])
    ensures Present(m, c, t) && m[c][t] == x ==> w == m
  {
    var inner := if c in m then m[c] else map[];
    assert Present(m, c, t) && m[c][t] == x ==> inner[t := x] == m[c];
    m[c := inner[t := x]]
  }

  /** A second Put to the same pair overrides the first. */
  lemma PutTwice<V>(m: map<Context, map<TypeName, V>>, c: Context, t: TypeName, x: V, y: V)
    ensures Put(Put(m, c, t, x), c, t, y) == Put(m, c, t, y)
  {
    var inner := if c in m then m[c] else map[];
    assert Put(m, c, t, x)[c][t := y] == inner[t := y];
  }

  /** trackService: add r to the requestors of (c, t), creating the entry when it is absent. */
  function Tracked(v: Table, c: Context, t: TypeName, r: Requestor): (w: Table)
    ensures Present(w, c, t) && Interest(w, c, t) == Interest(v, c, t) + {r}
    ensures forall c', t' :: (c' != c || t' != t) ==>
      (Present(w, c', t') <==> Present(v, c', t')) && Interest(w, c', t') == Interest(v, c', t')
  {
    Put(v, c, t, Interest(v, c, t) + {r})
  }

  /**
   * serviceChanged on the handler of (c, t): keep only the requestors that are still valid; when
   * none is left, the pair is dropped from the table.
   */
  function AfterEvent(v: Table, c: Context, t: TypeName, valid: set<Requestor>): (w: Table)
    ensures Interest(w, c, t) == Interest(v, c, t) * valid
    ensures Present(w, c, t) <==> Interest(v, c, t) * valid != {}
    ensures forall c', t' :: (c' != c || t' != t) ==>
      (Present(w, c', t') <==> Present(v, c', t')) && Interest(w, c', t') == Interest(v, c', t')
  {
    var kept := Interest(v, c, t) * valid;
    if kept == {} then DropPair(v, c, t) else v[c := v[c][t := kept]]
  }

  /** Tracking the same requestor twice changes nothing the second time. */
  lemma TrackedIdempotent(v: Table, c: Context, t: TypeName, r: Requestor)
    ensures Tracked(Tracked(v, c, t, r), c, t, r) == Tracked(v, c, t, r)
  {
    var w := Tracked(v, c, t, r);
    assert Interest(w, c, t) + {r} == Interest(w, c, t);
    assert w[c][t := Interest(w, c, t)] == w[c];
  }

  /** A requestor already interested in (c, t) leaves the table unchanged when tracked again. */
  lemma TrackedKnownRequestor(v: Table, c: Context, t: TypeName, r: Requestor)
    requires r in Interest(v, c, t)
    ensures Tracked(v, c, t, r) == v
  {
    assert Interest(v, c, t) + {r} == v[c][t];
    assert v[c][t := v[c][t]] == v[c];
  }

  lemma TrackedWellFormed(v: Table, c: Context, t: TypeName, r: Requestor)
    requires WellFormed(v)
    ensures WellFormed(Tracked(v, c, t, r))
  {
  }

  lemma DropPairWellFormed(v: Table, c: Context, t: TypeName)
    requires WellFormed(v)
    ensures WellFormed(DropPair(v, c, t))
  {
  }

  lemma AfterEventWellFormed(v: Table, c: Context, t: TypeName, valid: set<Requestor>)
    requires WellFormed(v)
    ensures WellFormed(AfterEvent(v, c, t, valid))
  {
    var w := AfterEvent(v, c, t, valid);
    forall c' | c' in w ensures w[c'] != map[] && forall t' :: t' in w[c'] ==> w[c'][t'] != {} {
      assert c' in v;
      forall t' | t' in w[c'] ensures w[c'][t'] != {} {
        assert Present(w, c', t');
        if c' != c || t' != t {
          assert Interest(w, c', t') == Interest(v, c', t');
        }
      }
    }
  }

  /**
   * The cleanup invariant: once every requestor of (c, t) is invalid, one event removes the pair,
   * and the context too when it tracked nothing else.
   */
  lemma AllInvalidRemovesPair(v: Table, c: Context, t: TypeName, valid: set<Requestor>)
    requires WellFormed(v) && Present(v, c, t)
    requires Interest(v, c, t) * valid == {}
    ensures !Present(AfterEvent(v, c, t, valid), c, t)
    ensures v[c].Keys == {t} ==> c !in AfterEvent(v, c, t, valid)
  {
    if v[c].Keys == {t} {
      assert (v[c] - {t}).Keys == {};
      assert v[c] - {t} == map[];
    }
  }

  /**
   * The life cycle of one watcher: two requestors tracked, then the first becomes invalid,
   * then the second.
   */
  lemma WatcherLifeCycle(s: Context, t: TypeName, c1: Requestor, c2: Requestor)
    requires c1 != c2
    ensures var v1 := Tracked(Tracked(map[], s, t, c1), s, t, c2);
            && v1 == map[s := map[t := {c1, c2}]]
            && Interest(v1, s, t) == {c1, c2}
            && var v2 := AfterEvent(v1, s, t, {c2});
            && Interest(v2, s, t) == {c2}
            && AfterEvent(v2, s, t, {}) == map[]
  {
    var empty: Table := map[];
    assert Interest(empty, s, t) + {c1} == {c1};
    var v0 := Tracked(empty, s, t, c1);
    assert v0[s] == map[t := {c1}] && v0.Keys == {s};
    assert v0 == map[s := map[t := {c1}]];
    assert Interest(v0, s, t) == {c1};
    var v1 := Tracked(v0, s, t, c2);
    assert Interest(v0, s, t) + {c2} == {c1, c2};
    assert v1[s] == map[t := {c1, c2}] && v1.Keys == {s};
    assert v1 == map[s := map[t := {c1, c2}]];
    var v2 := AfterEvent(v1, s, t, {c2});
    assert {c1, c2} * {c2} == {c2};
    assert v2[s] == map[t := {c2}] && v2.Keys == {s};
    assert v2 == map[s := map[t := {c2}]];
    assert v2[s] - {t} == map[];
  }

  /**
   * A well-formed table is determined by who is interested in what: two of them that agree on
   * Interest everywhere are equal.
   */
  lemma TablesEqual(v: Table, w: Table)
    requires WellFormed(v) && WellFormed(w)
    requires forall c, t :: Interest(v, c, t) == Interest(w, c, t)
    ensures v == w
  {
    assert forall c, t :: Present(v, c, t) <==> Present(w, c, t) by {
      forall c, t ensures Present(v, c, t) <==> Present(w, c, t) {
        assert Present(v, c, t) <==> Interest(v, c, t) != {};
        assert Present(w, c, t) <==> Interest(w, c, t) != {};
      }
    }
    forall c | c in v ensures c in w && v[c] == w[c] {
      var t :| t in v[c];
      assert Present(v, c, t);
      forall t' | t' in v[c] ensures t' in w[c] && v[c][t'] == w[c][t'] {
        assert Present(v, c, t') && Interest(v, c, t') == Interest(w, c, t');
      }
      forall t' | t' in w[c] ensures t' in v[c] {
        assert Present(w, c, t');
      }
    }
    forall c | c in w ensures c in v {
      var t :| t in w[c];
      assert Present(w, c, t);
    }
  }
}
