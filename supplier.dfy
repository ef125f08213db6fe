/**
 * ServiceSupplier and its inner ServiceHandler as objects: the table `handlerList` of handlers per
 * bundle context and service class, the handlers' requestor sets, and the service listeners the
 * framework holds. Every method is one atomic step (the source runs them under one lock).
 */
module Supplier {
  import opened Wrappers
  import opened Comparator
  import opened Resolver
  import opened Tracking

  /** What `get` hands back to the injector. */
  datatype Supplied =
    | ServiceValue(obj: ServiceObject)       // the service chosen by handleSingle
    | NotAValue                              // IInjector.NOT_A_VALUE
    | ServiceList(objs: seq<ServiceObject>)  // the list built by handleCollection
    | ClassCastFailure                       // the cast `(Class<Object>) t` threw

  /** One re-execution of a requestor during change delivery; `failed` when it threw. */
  datatype Execution = Execution(requestor: Requestor, failed: bool)

  /**
   * What getServiceReferences answers in one bundle context: the references registered under
   * each class name; a name with none gives null.
   */
  type Registry = map<TypeName, seq<ServiceRef>>

  function Lookup(registry: Registry, name: TypeName): (r: Option<seq<ServiceRef>>)
    ensures r.None? <==> name !in registry
  {
    if name in registry then Some(registry[name]) else None
  }

  /** Each requestor of rs was re-executed exactly once; exactly those in `failing` failed. */
  predicate RunsEach(runs: seq<Execution>, rs: set<Requestor>, failing: set<Requestor>) {
    && (forall i :: 0 <= i < |runs| ==> runs[i].requestor in rs)
    && (forall r :: r in rs ==> exists i :: 0 <= i < |runs| && runs[i].requestor == r)
    && (forall i, j :: 0 <= i < j < |runs| ==> runs[i].requestor != runs[j].requestor)
    && (forall i :: 0 <= i < |runs| ==> runs[i].failed == (runs[i].requestor in failing))
  }

  lemma RunsEachExtend(runs: seq<Execution>, done: set<Requestor>, r: Requestor, failing: set<Requestor>)
    requires RunsEach(runs, done, failing) && r !in done
    ensures RunsEach(runs + [Execution(r, r in failing)], done + {r}, failing)
  {
    var more := runs + [Execution(r, r in failing)];
    forall r' | r' in done + {r} ensures exists i :: 0 <= i < |more| && more[i].requestor == r' {
      if r' == r {
        assert more[|runs|].requestor == r;
      } else {
        var i :| 0 <= i < |runs| && runs[i].requestor == r';
        assert more[i].requestor == r';
      }
    }
  }

  /**
   * The forEach of serviceChanged: resolveArguments(false) and execute() on every requestor; a
   * Throwable is caught and printed, so a failing requestor neither stops the others nor leaves the set.
   */
  method RunRequestors(rs: set<Requestor>, failing: set<Requestor>) returns (runs: seq<Execution>)
    ensures RunsEach(runs, rs, failing)
    ensures |runs| == |rs|
  {
    runs := [];
    var todo := rs;
    while todo != {}
      invariant todo <= rs
      invariant |runs| + |todo| == |rs|
      invariant RunsEach(runs, rs - todo, failing)
      decreases |todo|
    {
      var r :| r in todo;
      var failed := r in failing;
      RunsEachExtend(runs, rs - todo, r, failing);
      runs := runs + [Execution(r, failed)];
      assert rs - (todo - {r}) == (rs - todo) + {r};
      todo := todo - {r};
    }
    assert rs - todo == rs;
  }

  class ServiceHandler {
    const supplier: ServiceSupplier
    const context: Context
    const serviceType: TypeName
    var requestors: set<Requestor>

    constructor (supplier: ServiceSupplier, context: Context, serviceType: TypeName)
      ensures this.supplier == supplier && this.context == context && this.serviceType == serviceType
      ensures requestors == {}
    {
      this.supplier := supplier;
      this.context := context;
      this.serviceType := serviceType;
      requestors := {};
    }

    /**
     * ServiceListener.serviceChanged: drop the requestors that are no longer valid; with none
     * left, remove the entry for this context and type from the table (and the context once it
     * tracks nothing) and this listener, and stop. Otherwise, when the event's objectClass names
     * the tracked type, re-execute every remaining requestor once. The framework delivers events
     * only to registered listeners.
     */
    method ServiceChanged(objectClass: seq<string>, valid: set<Requestor>, failing: set<Requestor>)
      returns (runs: seq<Execution>)
      requires supplier.Valid() && WellFormed(supplier.Table) && this in supplier.listeners
      modifies this, supplier
      ensures supplier.Valid() && WellFormed(supplier.Table) && supplier.Repr == old(supplier.Repr)
      ensures requestors == old(requestors) * valid
      ensures supplier.Table == AfterEvent(old(supplier.Table), context, serviceType, valid)
      ensures requestors == {} ==>
        && supplier.handlerList == DropPair(old(supplier.handlerList), context, serviceType)
        && supplier.listeners == old(supplier.listeners) - {this}
        && runs == []
      ensures requestors != {} ==>
        && supplier.handlerList == old(supplier.handlerList)
        && supplier.listeners == old(supplier.listeners)
        && if serviceType in objectClass then RunsEach(runs, requestors, failing) && |runs| == |requestors|
           else runs == []
    {
      ghost var table := supplier.Table;
      supplier.NoIdleListener(this);
      supplier.Loosen(this);
      Prune(valid);
      runs := Settle(table, valid, objectClass, failing);
    }

    /**
     * The rest of serviceChanged once removeIf has run: unregister when no requestor is left,
     * otherwise catch the table up and re-execute the requestors when the event names the type.
     */
    method Settle(ghost table: Table, valid: set<Requestor>, objectClass: seq<string>, failing: set<Requestor>)
      returns (runs: seq<Execution>)
      requires supplier.ValidExcept(this) && supplier.Table == table && WellFormed(table)
      requires this in supplier.listeners && requestors == Interest(table, context, serviceType) * valid
      modifies supplier
      ensures supplier.Valid() && WellFormed(supplier.Table) && supplier.Repr == old(supplier.Repr)
      ensures supplier.Table == AfterEvent(table, context, serviceType, valid)
      ensures requestors == {} ==>
        && supplier.handlerList == DropPair(old(supplier.handlerList), context, serviceType)
        && supplier.listeners == old(supplier.listeners) - {this}
        && runs == []
      ensures requestors != {} ==>
        && supplier.handlerList == old(supplier.handlerList)
        && supplier.listeners == old(supplier.listeners)
        && if serviceType in objectClass then RunsEach(runs, requestors, failing) && |runs| == |requestors|
           else runs == []
    {
      runs := [];
      if requestors == {} {
        DropPairWellFormed(table, context, serviceType);
        assert AfterEvent(table, context, serviceType, valid) == DropPair(table, context, serviceType);
        supplier.Unregister(this);
        return;
      }
      AfterEventWellFormed(table, context, serviceType, valid);
      supplier.Pruned(this, valid);
      var mentioned := Mentions(objectClass, serviceType);
      if mentioned {
        runs := RunRequestors(requestors, failing);
      }
    }

    /** requestors.removeIf(r -> !r.isValid()): the supplier's invariant on the others is untouched. */
    method Prune(valid: set<Requestor>)
      requires supplier.ValidExcept(this)
      modifies this
      ensures requestors == old(requestors) * valid
      ensures supplier.ValidExcept(this)
    {
      requestors := set r | r in requestors && r in valid;
    }
  }

  /** The loop over the event's objectClass names: does one of them equal the tracked type's name? */
  method Mentions(objectClass: seq<string>, name: TypeName) returns (found: bool)
    ensures found <==> name in objectClass
  {
    found := false;
    var i := 0;
    while i < |objectClass|
      invariant 0 <= i <= |objectClass|
      invariant name !in objectClass[..i]
    {
      if name == objectClass[i] {
        found := true;
        break;
      }
      assert objectClass[..i + 1] == objectClass[..i] + [objectClass[i]];
      i := i + 1;
    }
    assert !found ==> objectClass[..i] == objectClass;
  }

  class ServiceSupplier {
    var handlerList: map<Context, map<TypeName, ServiceHandler>>
    /** The service listeners registered with the framework (add/removeServiceListener). */
    var listeners: set<ServiceHandler>
    /** The table as requestor sets per context and type. */
    ghost var Table: Table
    /** Every handler this supplier has created. */
    ghost var Repr: set<ServiceHandler>

    /**
     * The table's invariant, with the requestor set of `skip` (when not null) allowed to be out of
     * date: the table and its abstraction have the same pairs, each entry is a registered
     * handler of this supplier for its own pair, and every registered listener is the entry for
     * its own pair (no handler stays registered once it has left the table).
     */
    ghost predicate ValidExcept(skip: ServiceHandler?)
      reads this, Repr - {skip}
    {
      && (forall c :: c in handlerList <==> c in Table)
      && (forall c, t :: Present(handlerList, c, t) <==> Present(Table, c, t))
      && (forall c, t :: Present(handlerList, c, t) ==>
            && handlerList[c][t] in Repr && handlerList[c][t] in listeners
            && handlerList[c][t].supplier == this
            && handlerList[c][t].context == c && handlerList[c][t].serviceType == t)
      && (forall c, t :: Present(handlerList, c, t) && handlerList[c][t] in Repr && handlerList[c][t] != skip ==>
            handlerList[c][t].requestors == Table[c][t])
      && (forall h :: h in listeners ==>
            Present(handlerList, h.context, h.serviceType) && handlerList[h.context][h.serviceType] == h)
    }

    ghost predicate Valid()
      reads this, Repr
    {
      ValidExcept(null)
    }

    /**
     * No listener leaks: every registered handler is the table's handler for its own pair and
     * still has a requestor to re-execute.
     */
    lemma NoIdleListener(h: ServiceHandler)
      requires Valid() && WellFormed(Table) && h in listeners
      ensures Present(handlerList, h.context, h.serviceType) && handlerList[h.context][h.serviceType] == h
      ensures h.requestors != {}
    {
    }

    lemma Loosen(h: ServiceHandler?)
      requires Valid()
      ensures ValidExcept(h)
    {
    }

    constructor ()
      ensures Valid() && handlerList == map[] && listeners == {} && Table == map[] && Repr == {}
    {
      handlerList := map[];
      listeners := {};
      Table := map[];
      Repr := {};
    }

    /**
     * What one trackService call for (c, cls) does to the handler table and the listeners: the
     * pair's existing handler is kept and no listener is added, or exactly one fresh handler is
     * stored and registered; no other entry of handlerList changes.
     */
    twostate predicate Attached(c: Context, cls: TypeName)
      reads this
    {
      && Present(handlerList, c, cls)
      && handlerList == Put(old(handlerList), c, cls, handlerList[c][cls])
      && (old(Present(handlerList, c, cls)) ==>
            handlerList[c][cls] == old(handlerList[c][cls]) && listeners == old(listeners))
      && (!old(Present(handlerList, c, cls)) ==>
            fresh(handlerList[c][cls]) && listeners == old(listeners) + {handlerList[c][cls]})
    }

    /**
     * trackService: at most one handler per (context, class), created and registered as a
     * listener only when absent; the requestor joins its set; nothing else changes.
     */
    method TrackService(context: Context, serviceClass: TypeName, requestor: Requestor)
      requires Valid() && WellFormed(Table)
      modifies this, Repr
      ensures Valid() && WellFormed(Table)
      ensures Table == Tracked(old(Table), context, serviceClass, requestor)
      ensures Attached(context, serviceClass)
      ensures Repr == if old(Present(handlerList, context, serviceClass)) then old(Repr)
                      else old(Repr) + {handlerList[context][serviceClass]}
      ensures fresh(Repr - old(Repr))
      ensures forall h :: h in old(Repr) && h != handlerList[context][serviceClass] ==> unchanged(h)
    {
      TrackedWellFormed(Table, context, serviceClass, requestor);
      var handler := Attach(context, serviceClass);
      PutTwice(old(Table), context, serviceClass, Interest(old(Table), context, serviceClass),
        Interest(old(Table), context, serviceClass) + {requestor});
      handler.requestors := handler.requestors + {requestor};
      Joined(handler);
    }

    /** `if (track) trackService(...)`: the whole effect of the call, or nothing at all. */
    method TrackWhen(track: bool, context: Context, serviceClass: TypeName, requestor: Requestor)
      requires Valid() && WellFormed(Table)
      modifies this, Repr
      ensures Valid() && WellFormed(Table)
      ensures Table == if track then Tracked(old(Table), context, serviceClass, requestor) else old(Table)
      ensures !track ==> handlerList == old(handlerList) && listeners == old(listeners)
      ensures track ==> Attached(context, serviceClass)
      ensures fresh(Repr - old(Repr))
      ensures forall h :: h in old(Repr) && !(track && h == handlerList[context][serviceClass]) ==> unchanged(h)
    {
      if track {
        TrackService(context, serviceClass, requestor);
      }
    }

    /**
     * handleSingle: the cast of t to a class (a ClassCastException for a type that is neither a
     * class nor a parameterized type), the lookup by class name, and the highest-ranked service,
     * or NOT_A_VALUE when none is registered. Only a successful lookup is tracked.
     */
    method HandleSingle(context: Context, registry: Registry, t: JavaType, requestor: Requestor, track: bool)
      returns (r: Supplied)
      requires Valid() && WellFormed(Table)
      modifies this, Repr
      ensures Valid() && WellFormed(Table)
      ensures t.OtherType? ==> r == ClassCastFailure
      ensures !t.OtherType? ==>
        var refs := Refs(Lookup(registry, ClassOf(t).value));
        && (r.NotAValue? <==> refs == [])
        && (r.ServiceValue? || r.NotAValue?)
        && (r.ServiceValue? ==> exists k :: IsLastHighest(refs, k) && r.obj == refs[k].service)
      ensures Table == if r.ServiceValue? && track then Tracked(old(Table), context, ClassOf(t).value, requestor)
                       else old(Table)
      ensures !(r.ServiceValue? && track) ==> handlerList == old(handlerList) && listeners == old(listeners)
      ensures r.ServiceValue? && track ==> Attached(context, ClassOf(t).value)
      ensures fresh(Repr - old(Repr))
      ensures forall h :: h in old(Repr) && !(r.ServiceValue? && track && h == handlerList[context][ClassOf(t).value]) ==>
        unchanged(h)
    {
      var cl := ClassOf(t);
      if cl.None? {
        return ClassCastFailure;
      }
      var found := Lookup(registry, cl.value);
      var chosen := SelectHighest(found);
      if chosen.None? {
        return NotAValue;
      }
      TrackWhen(track, context, cl.value, requestor);
      r := ServiceValue(chosen.value);
    }

    /**
     * handleCollection: the cast of t to a class, then the services of every reference found,
     * highest ranking first, and the requestor tracked whether or not any was found.
     */
    method HandleCollection(context: Context, registry: Registry, t: JavaType, requestor: Requestor, track: bool)
      returns (r: Supplied)
      requires Valid() && WellFormed(Table)
      modifies this, Repr
      ensures Valid() && WellFormed(Table)
      ensures t.OtherType? ==> r == ClassCastFailure
      ensures !t.OtherType? ==>
        r.ServiceList? && ListedDescending(r.objs, Refs(Lookup(registry, ClassOf(t).value)))
      ensures Table == if !t.OtherType? && track then Tracked(old(Table), context, ClassOf(t).value, requestor)
                       else old(Table)
      ensures !(!t.OtherType? && track) ==> handlerList == old(handlerList) && listeners == old(listeners)
      ensures !t.OtherType? && track ==> Attached(context, ClassOf(t).value)
      ensures fresh(Repr - old(Repr))
      ensures forall h :: h in old(Repr) && !(!t.OtherType? && track && h == handlerList[context][ClassOf(t).value]) ==>
        unchanged(h)
    {
      var cl := ClassOf(t);
      if cl.None? {
        return ClassCastFailure;
      }
      var found := Lookup(registry, cl.value);
      var rv, order := CollectDescending(found);
      TrackWhen(track, context, cl.value, requestor);
      r := ServiceList(rv);
    }

    /**
     * get: a List<T> (or a type whose raw type is the Collections class) is served by
     * handleCollection for T, every other type by handleSingle; tracking needs both the
     * caller's track flag and the dynamic attribute of the @Service qualifier.
     */
    method Get(context: Context, registry: Registry, desired: JavaType, requestor: Requestor, track: bool, dynamic: bool)
      returns (r: Supplied)
      requires Valid() && WellFormed(Table)
      modifies this, Repr
      ensures Valid() && WellFormed(Table)
      ensures fresh(Repr - old(Repr))
      ensures match Dispatch(desired, track, dynamic)
        case CollectionRequest(element, tracking) =>
          && (element.OtherType? ==> r == ClassCastFailure)
          && (!element.OtherType? ==>
                r.ServiceList? && ListedDescending(r.objs, Refs(Lookup(registry, ClassOf(element).value))))
          && Table == (if !element.OtherType? && tracking
                       then Tracked(old(Table), context, ClassOf(element).value, requestor) else old(Table))
          && (!(!element.OtherType? && tracking) ==> handlerList == old(handlerList) && listeners == old(listeners))
          && (!element.OtherType? && tracking ==> Attached(context, ClassOf(element).value))
          && (forall h :: (h in old(Repr) && !(!element.OtherType? && tracking && h == handlerList[context][ClassOf(element).value])) ==>
                unchanged(h))
        case SingleRequest(_, tracking) =>
          && (desired.OtherType? ==> r == ClassCastFailure)
          && (!desired.OtherType? ==>
                var refs := Refs(Lookup(registry, ClassOf(desired).value));
                && (r.NotAValue? <==> refs == [])
                && (r.ServiceValue? || r.NotAValue?)
                && (r.ServiceValue? ==> exists k :: IsLastHighest(refs, k) && r.obj == refs[k].service))
          && Table == (if r.ServiceValue? && tracking
                       then Tracked(old(Table), context, ClassOf(desired).value, requestor) else old(Table))
          && (!(r.ServiceValue? && tracking) ==> handlerList == old(handlerList) && listeners == old(listeners))
          && (r.ServiceValue? && tracking ==> Attached(context, ClassOf(desired).value))
          && (forall h :: (h in old(Repr) && !(r.ServiceValue? && tracking && h == handlerList[context][ClassOf(desired).value])) ==>
                unchanged(h))
    {
      var request := Dispatch(desired, track, dynamic);
      match request {
        case CollectionRequest(element, tracking) =>
          r := HandleCollection(context, registry, element, requestor, tracking);
        case SingleRequest(_, tracking) =>
          r := HandleSingle(context, registry, desired, requestor, tracking);
      }
    }

    /** The two computeIfAbsent calls of trackService: the handler for (context, serviceClass), created when absent. */
    method Attach(context: Context, serviceClass: TypeName) returns (handler: ServiceHandler)
      requires Valid()
      modifies this
      ensures Valid()
      ensures handlerList == Put(old(handlerList), context, serviceClass, handler)
      ensures Table == Put(old(Table), context, serviceClass, Interest(old(Table), context, serviceClass))
      ensures handler.supplier == this && handler.context == context && handler.serviceType == serviceClass
      ensures handler.requestors == Interest(old(Table), context, serviceClass)
      ensures old(Present(handlerList, context, serviceClass)) ==>
        && handler == old(handlerList[context][serviceClass])
        && listeners == old(listeners) && Repr == old(Repr)
      ensures !old(Present(handlerList, context, serviceClass)) ==>
        && fresh(handler)
        && listeners == old(listeners) + {handler}
        && Repr == old(Repr) + {handler}
    {
      if Present(handlerList, context, serviceClass) {
        handler := handlerList[context][serviceClass];
      } else {
        handler := new ServiceHandler(this, context, serviceClass);
        listeners := listeners + {handler};
        Repr := Repr + {handler};
        handlerList := Put(handlerList, context, serviceClass, handler);
        Table := Put(Table, context, serviceClass, {});
        forall g | g in listeners
          ensures Present(handlerList, g.context, g.serviceType) && handlerList[g.context][g.serviceType] == g
        {
          if g != handler {
            assert g.context != context || g.serviceType != serviceClass;
          }
        }
      }
    }

    /** The abstraction catches up with the requestor set trackService has just grown. */
    ghost method Joined(h: ServiceHandler)
      requires ValidExcept(h) && h.supplier == this
      requires Present(handlerList, h.context, h.serviceType) && handlerList[h.context][h.serviceType] == h
      modifies this
      ensures Valid() && Repr == old(Repr) && handlerList == old(handlerList) && listeners == old(listeners)
      ensures Table == Put(old(Table), h.context, h.serviceType, h.requestors)
    {
      Table := Put(Table, h.context, h.serviceType, h.requestors);
      forall c, t | Present(handlerList, c, t) && (c != h.context || t != h.serviceType)
        ensures handlerList[c][t] != h
      {
      }
    }

    /** The removal serviceChanged performs once h has no requestor left. */
    method Unregister(h: ServiceHandler)
      requires ValidExcept(h) && h.supplier == this && h.requestors == {} && h in listeners
      modifies this
      ensures Valid() && Repr == old(Repr)
      ensures handlerList == DropPair(old(handlerList), h.context, h.serviceType)
      ensures listeners == old(listeners) - {h}
      ensures Table == DropPair(old(Table), h.context, h.serviceType)
    {
      DropPairSameShape(handlerList, Table, h.context, h.serviceType);
      handlerList := DropPair(handlerList, h.context, h.serviceType);
      listeners := listeners - {h};
      Table := DropPair(Table, h.context, h.serviceType);
      forall c, t | Present(handlerList, c, t)
        ensures handlerList[c][t] != h && handlerList[c][t] in listeners
        ensures handlerList[c][t].requestors == Table[c][t]
      {
        assert c != h.context || t != h.serviceType;
      }
      forall g | g in listeners
        ensures Present(handlerList, g.context, g.serviceType) && handlerList[g.context][g.serviceType] == g
      {
        assert g in old(listeners) && g != h;
        assert g.context != h.context || g.serviceType != h.serviceType;
      }
    }

    /** The abstraction catches up with h's pruned, non-empty requestor set. */
    ghost method Pruned(h: ServiceHandler, valid: set<Requestor>)
      requires ValidExcept(h) && h.supplier == this && h.requestors != {} && h in listeners
      requires h.requestors == Table[h.context][h.serviceType] * valid
      modifies this
      ensures Valid() && Repr == old(Repr) && handlerList == old(handlerList) && listeners == old(listeners)
      ensures Table == AfterEvent(old(Table), h.context, h.serviceType, valid)
    {
      Table := AfterEvent(Table, h.context, h.serviceType, valid);
      forall c, t | Present(handlerList, c, t) && (c != h.context || t != h.serviceType)
        ensures handlerList[c][t] != h
      {
      }
    }
  }

  /**
   * One requestor tracked twice for the same context and class, then an event that finds it
   * invalid: a single handler and listener while it is tracked, and nothing left afterwards.
   */
  method TrackTwiceThenRelease(context: Context, name: TypeName, requestor: Requestor)
    returns (supplier: ServiceSupplier, runs: seq<Execution>)
    ensures supplier.Valid() && supplier.Table == map[]
    ensures supplier.handlerList == map[] && supplier.listeners == {} && runs == []
  {
    supplier := new ServiceSupplier();
    supplier.TrackService(context, name, requestor);
    var handler := supplier.handlerList[context][name];
    supplier.TrackService(context, name, requestor);
    assert supplier.handlerList[context][name] == handler && supplier.listeners == {handler};
    assert supplier.handlerList == map[context := map[name := handler]] by {
      assert supplier.handlerList.Keys == {context};
      assert supplier.handlerList[context].Keys == {name};
    }
    runs := handler.ServiceChanged([name], {}, {});
    assert supplier.handlerList == map[] by {
      assert (map[name := handler] - {name}).Keys == {};
    }
  }

  /**
   * Requestors 1 and 2 both ask `get` for List<name> with dynamic tracking: the second request
   * reuses the watcher the first one created, and no second listener is registered.
   */
  method GetTwice(context: Context, registry: Registry, name: TypeName)
    returns (supplier: ServiceSupplier, watcher: ServiceHandler)
    ensures supplier.Valid() && WellFormed(supplier.Table)
    ensures supplier.Table == map[context := map[name := {1, 2}]]
    ensures supplier.handlerList == map[context := map[name := watcher]] && supplier.listeners == {watcher}
    ensures watcher.supplier == supplier && watcher.context == context && watcher.serviceType == name
    ensures fresh(supplier) && fresh(watcher)
  {
    supplier := new ServiceSupplier();
    var request := ParameterizedType(ListClass, ClassType(name), []);
    assert Dispatch(request, true, true) == CollectionRequest(ClassType(name), true);
    var _ := supplier.Get(context, registry, request, 1, true, true);
    watcher := supplier.handlerList[context][name];
    assert supplier.listeners == {watcher};
    var _ := supplier.Get(context, registry, request, 2, true, true);
    assert supplier.handlerList[context][name] == watcher && supplier.listeners == {watcher};
    assert supplier.handlerList == map[context := map[name := watcher]] by {
      assert supplier.handlerList.Keys == {context};
      assert supplier.handlerList[context].Keys == {name};
    }
    WatcherLifeCycle(context, name, 1, 2);
  }

  /**
   * The live-rebind scenario through `get`: after GetTwice, an event once requestor 1 has gone
   * re-executes 2 alone; an event once 2 has gone removes the watcher and its listener.
   */
  method GetTwiceThenRelease(context: Context, registry: Registry, name: TypeName)
    returns (supplier: ServiceSupplier, first: seq<Execution>, second: seq<Execution>)
    ensures first == [Execution(2, false)] && second == []
    ensures supplier.Valid() && supplier.Table == map[]
    ensures supplier.handlerList == map[] && supplier.listeners == {}
  {
    var watcher;
    supplier, watcher := GetTwice(context, registry, name);
    first := watcher.ServiceChanged([name], {2}, {});
    assert watcher.requestors == {2};
    assert first[0].requestor == 2;
    second := watcher.ServiceChanged([name], {}, {});
    assert (map[name := watcher] - {name}).Keys == {};
  }
}
