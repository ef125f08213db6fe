# ServiceSupplier: ranking, selection and live rebinding of `@Service` injections

This project models the core of Eclipse TEA's `ServiceSupplier`, the dependency-injection supplier
that resolves fields and parameters annotated `@Service` to OSGi services. The model has two parts.

**The resolver.** `get` looks at the desired type. A `List<T>` asks for every service registered
under `T`. Any other type asks for a single service. The supplier looks up the service references
registered under the class name. It sorts them with `COMPARATOR`: ascending by `service.ranking`,
which `parseRanking` reads as an `int` that falls back to 0, then by the class name of the
*reference object*. `handleSingle` returns the service of the last (highest) reference, or
`NOT_A_VALUE` when there is none. `handleCollection` returns the services of all references in
reverse, so the highest comes first.

**The tracker.** When the request is tracked and the qualifier is `dynamic`, `trackService` records
the requestor in `handlerList`, a table from bundle context to service class to `ServiceHandler`.
Each (context, class) pair has at most one handler, and each handler is registered once as a
service listener. On every service event the handler drops the requestors that are no longer
valid. If none remain, it removes itself from the table and unregisters its listener. Otherwise,
when the event's `objectClass` names its type, it re-executes every remaining requestor once and
swallows their failures.

The files:

- `ranking.dfy` (module `Ranking`): the ranking property, `Integer.parseInt` on decimal text, and
  `parseRanking`.
- `comparator.dfy` (module `Comparator`): service references, `String.compareTo`, `COMPARATOR`
  and its total-preorder laws.
- `sorting.dfy` (module `Sorting`): `Arrays.sort` with `COMPARATOR`. It has a functional stable
  insertion sort as the specification, proved sorted, a permutation and stable. It also has an
  in-place insertion sort on an `array`, proved equal to that specification.
- `resolver.dfy` (module `Resolver`): the dispatch of `get`, the selection in `handleSingle`,
  and the list building and reversal in `handleCollection`.
- `tracking.dfy` (module `Tracking`): the tracking table as a pure value, mapping context and
  class to the set of interested requestors, with the table operations and their laws.
- `supplier.dfy` (module `Supplier`): the classes `ServiceSupplier` and `ServiceHandler`. They have
  the mutable `handlerList`, the handlers' `requestors` sets and the registered listeners, and
  `get`, `handleSingle`, `handleCollection`, `trackService` and `serviceChanged` as methods.
  - Each method is proved against the functions of `Tracking` through a ghost `Table`.
  - The invariant `Valid` ties that `Table` to the live handler objects.

Two consequences of the code are worth stating, and the model keeps both:

- The tie-break compares `a.getClass().getName()`, the class of the `ServiceReference`
  implementation, not the class of the service. The model gives each reference an abstract
  `refClass` string. When all references share one class, ties keep registry order, because
  `Arrays.sort` is stable. `handleCollection`'s reversal then lists tied services in reverse
  registry order.
- `get` compares the raw type with `Collections.class` (the utility class) and `List.class`. A
  type parameterised by `Collections` cannot occur, so in practice only `List<T>` is a
  collection request. `Collection<T>`, `Set<T>` and `ArrayList<T>` go down the single path with
  their raw class (`Resolver.OtherCollectionTypesAreSingle`).

The framework delivers service events only to registered listeners, and the supplier's invariant
makes every registered listener the table's handler for its own context and type. So the
`map.remove(serviceType)` in `serviceChanged` always removes the handler that is running, and
no handler stays registered once it has left the table (`Supplier.ServiceSupplier.NoIdleListener`).

## Model

| member | source | states |
|---|---|---|
| Ranking.ParseRanking | org.eclipse.tea.core/src/org/eclipse/tea/core/internal/service/ServiceSupplier.java:112-123 | An Integer ranking is returned unchanged. A missing ranking, text that is not a decimal numeral, and a numeral outside the 32-bit range all give 0. A numeral within the 32-bit range gives its value, whatever its sign and leading zeros. It is total: no input makes it fail. |
| Ranking.NonCanonicalRankings | org.eclipse.tea.core/src/org/eclipse/tea/core/internal/service/ServiceSupplier.java:116-122 | Text Integer.toString would not write still ranks as Integer.parseInt reads it: "+5" is 5, "007" is 7, "-0" is 0, and " 5" (a blank) falls back to 0. |
| Ranking.ParseDecimal | org.eclipse.tea.core/src/org/eclipse/tea/core/internal/service/ServiceSupplier.java:118 | Integer.parseInt round trip: the decimal text of every 32-bit integer is a numeral and parses back to that integer. |
| Ranking.RankingOfDecimalText | org.eclipse.tea.core/src/org/eclipse/tea/core/internal/service/ServiceSupplier.java:112-123 | A ranking given as the decimal text of n ranks exactly like the Integer n. |
| Ranking.StrayCharacterRejected | org.eclipse.tea.core/src/org/eclipse/tea/core/internal/service/ServiceSupplier.java:116-122 | Text with a non-digit anywhere other than a leading sign fails to parse, and the ranking falls back to 0. |
| Ranking.NatDigitsValue | org.eclipse.tea.core/src/org/eclipse/tea/core/internal/service/ServiceSupplier.java:118 | The decimal digits written for a natural number are non-empty, all digits, unsigned, and denote that number. |
| Comparator.CompareToSpec | org.eclipse.tea.core/src/org/eclipse/tea/core/internal/service/ServiceSupplier.java:109 | String.compareTo is negative exactly when the first string is lexicographically before the second. It is zero exactly for equal strings and antisymmetric in sign. |
| Comparator.CompareToTransitive | org.eclipse.tea.core/src/org/eclipse/tea/core/internal/service/ServiceSupplier.java:109 | String.compareTo's "at most" is transitive. |
| Comparator.CompareSpec | org.eclipse.tea.core/src/org/eclipse/tea/core/internal/service/ServiceSupplier.java:100-110 | COMPARATOR puts a before b exactly when a's parsed ranking is lower, or the rankings are equal and a's reference class name comes first. It ties exactly when both ranking and class name agree, and it is antisymmetric. |
| Comparator.CompareTransitive | org.eclipse.tea.core/src/org/eclipse/tea/core/internal/service/ServiceSupplier.java:100-110 | COMPARATOR's "at most" is transitive across references. |
| Comparator.ComparatorIsTotalPreorder | org.eclipse.tea.core/src/org/eclipse/tea/core/internal/service/ServiceSupplier.java:100-110 | COMPARATOR is reflexive, total, transitive and sign-antisymmetric, which is the contract Arrays.sort needs. |
| Comparator.SameReferenceClassTies | org.eclipse.tea.core/src/org/eclipse/tea/core/internal/service/ServiceSupplier.java:104-109 | References with the same ranking and the same reference class compare equal, whatever their services. |
| Sorting.InsertPermutes | org.eclipse.tea.core/src/org/eclipse/tea/core/internal/service/ServiceSupplier.java:157 | Inserting one reference adds exactly that reference to the multiset. |
| Sorting.InsertSorted | org.eclipse.tea.core/src/org/eclipse/tea/core/internal/service/ServiceSupplier.java:157 | Inserting into a sequence sorted under COMPARATOR keeps it sorted. |
| Sorting.SortSeqSortedPermutation | org.eclipse.tea.core/src/org/eclipse/tea/core/internal/service/ServiceSupplier.java:157 | The specification sort returns a permutation of its input that is ascending under COMPARATOR. |
| Sorting.EquivalentsAppend | org.eclipse.tea.core/src/org/eclipse/tea/core/internal/service/ServiceSupplier.java:157 | The references tying with z in a concatenation are those of the first part followed by those of the second. |
| Sorting.InsertStable | org.eclipse.tea.core/src/org/eclipse/tea/core/internal/service/ServiceSupplier.java:157 | Insertion places the new reference after every reference it ties with. |
| Sorting.SortSeqStable | org.eclipse.tea.core/src/org/eclipse/tea/core/internal/service/ServiceSupplier.java:157 | Stability of Arrays.sort: for every reference z, the references tying with z appear in the sorted result in their input order. |
| Sorting.SortByRanking | org.eclipse.tea.core/src/org/eclipse/tea/core/internal/service/ServiceSupplier.java:157 | The in-place sort of the reference array leaves exactly the specification sort of the original contents, so it is sorted, a permutation and stable. |
| Sorting.InsertAt | org.eclipse.tea.core/src/org/eclipse/tea/core/internal/service/ServiceSupplier.java:157 | One insertion step in place: the element at i moves into the sorted prefix as the specification insertion places it, and the suffix is untouched. |
| Sorting.SortStep | org.eclipse.tea.core/src/org/eclipse/tea/core/internal/service/ServiceSupplier.java:157 | Inserting the next element into the sorted prefix extends the sorted prefix by one input element. |
| Sorting.SortSeqLength | org.eclipse.tea.core/src/org/eclipse/tea/core/internal/service/ServiceSupplier.java:157 | Sorting keeps the number of references. |
| Resolver.Dispatch | org.eclipse.tea.core/src/org/eclipse/tea/core/internal/service/ServiceSupplier.java:125-141 | get takes the collection path exactly when the desired type is parameterised with raw type java.util.List or java.util.Collections, and then passes its first type argument. Any other type goes down the single path unchanged. Tracking is requested exactly when track is set and the qualifier is dynamic. |
| Resolver.OtherCollectionTypesAreSingle | org.eclipse.tea.core/src/org/eclipse/tea/core/internal/service/ServiceSupplier.java:132 | Collection, Set and ArrayList parameterisations are single requests, not collection requests. |
| Resolver.ClassOf | org.eclipse.tea.core/src/org/eclipse/tea/core/internal/service/ServiceSupplier.java:151-152 | The looked-up class is the type itself or a parameterised type's raw type. Any other kind of Type has no class, because the cast fails. |
| Resolver.SortLastIsLastHighest | org.eclipse.tea.core/src/org/eclipse/tea/core/internal/service/ServiceSupplier.java:157-163 | The last element after the ascending sort is the input's last maximal reference under COMPARATOR. |
| Resolver.LastHighestGrowsUp | org.eclipse.tea.core/src/org/eclipse/tea/core/internal/service/ServiceSupplier.java:157-163 | A new reference at least as high as the current winner becomes the winner. |
| Resolver.LastHighestStays | org.eclipse.tea.core/src/org/eclipse/tea/core/internal/service/ServiceSupplier.java:157-163 | A new reference strictly below the current winner leaves the winner in place. |
| Resolver.LastHighestUnique | org.eclipse.tea.core/src/org/eclipse/tea/core/internal/service/ServiceSupplier.java:157-163 | The selected reference is uniquely determined. |
| Resolver.HighestRankWins | org.eclipse.tea.core/src/org/eclipse/tea/core/internal/service/ServiceSupplier.java:101-106 | A reference whose ranking is strictly above all others is the one selected. |
| Resolver.TieBreakByClassName | org.eclipse.tea.core/src/org/eclipse/tea/core/internal/service/ServiceSupplier.java:104-109 | The selected reference has the highest ranking. Among equal rankings, no other reference's class name comes after it. |
| Resolver.SelectHighest | org.eclipse.tea.core/src/org/eclipse/tea/core/internal/service/ServiceSupplier.java:155-171 | With no references (null or empty) there is no value. Otherwise the result is the service of the last maximal reference under COMPARATOR. |
| Resolver.ReversedAt | org.eclipse.tea.core/src/org/eclipse/tea/core/internal/service/ServiceSupplier.java:196 | Collections.reverse puts element k at position n-1-k. |
| Resolver.ReversedPermutes | org.eclipse.tea.core/src/org/eclipse/tea/core/internal/service/ServiceSupplier.java:196 | Reversal neither loses nor duplicates elements. |
| Resolver.ReversedEquivalents | org.eclipse.tea.core/src/org/eclipse/tea/core/internal/service/ServiceSupplier.java:196 | Reversal reverses the order among tied references. |
| Resolver.ReversedSorted | org.eclipse.tea.core/src/org/eclipse/tea/core/internal/service/ServiceSupplier.java:188-196 | Reversing an ascending sequence gives a descending one. |
| Resolver.ReversedSortFacts | org.eclipse.tea.core/src/org/eclipse/tea/core/internal/service/ServiceSupplier.java:186-196 | Sort then reverse gives a permutation of the references, descending under COMPARATOR, with ties in reverse registry order. |
| Resolver.ReversedServices | org.eclipse.tea.core/src/org/eclipse/tea/core/internal/service/ServiceSupplier.java:190-196 | Mapping references to services and then reversing equals reversing and then mapping. |
| Resolver.Services | org.eclipse.tea.core/src/org/eclipse/tea/core/internal/service/ServiceSupplier.java:190-192 | One service per reference, position by position. |
| Resolver.ServicesPermute | org.eclipse.tea.core/src/org/eclipse/tea/core/internal/service/ServiceSupplier.java:190-192 | Permuted references give permuted services. |
| Resolver.ListedExactly | org.eclipse.tea.core/src/org/eclipse/tea/core/internal/service/ServiceSupplier.java:186-205 | A list handleCollection may return holds exactly one service per reference found, with no omission and no duplicate. |
| Resolver.ListedNothing | org.eclipse.tea.core/src/org/eclipse/tea/core/internal/service/ServiceSupplier.java:186-205 | With no references the list is empty. |
| Resolver.CollectDescending | org.eclipse.tea.core/src/org/eclipse/tea/core/internal/service/ServiceSupplier.java:185-205 | The built list is the services of an ordering of the references found. That ordering is a permutation, descending under COMPARATOR, with tied references in reverse registry order. A null lookup gives the empty list. |
| Tracking.DropPair | org.eclipse.tea.core/src/org/eclipse/tea/core/internal/service/ServiceSupplier.java:67-74 | Removes the (context, type) entry and every context left empty, and changes no other entry. |
| Tracking.Put | org.eclipse.tea.core/src/org/eclipse/tea/core/internal/service/ServiceSupplier.java:209-214 | The two-level computeIfAbsent/put: afterwards the pair is present with the given value and every other pair is unchanged. Re-putting the present value changes nothing. |
| Tracking.PutTwice | org.eclipse.tea.core/src/org/eclipse/tea/core/internal/service/ServiceSupplier.java:209-215 | The second of two puts on one pair wins. |
| Tracking.Tracked | org.eclipse.tea.core/src/org/eclipse/tea/core/internal/service/ServiceSupplier.java:208-216 | After tracking, the pair is present and its interest is the old interest plus the requestor. No other pair changes. |
| Tracking.AfterEvent | org.eclipse.tea.core/src/org/eclipse/tea/core/internal/service/ServiceSupplier.java:63-74 | After an event the pair's interest is the old interest restricted to valid requestors. The pair stays present exactly when some remain, and no other pair changes. |
| Tracking.TrackedIdempotent | org.eclipse.tea.core/src/org/eclipse/tea/core/internal/service/ServiceSupplier.java:215 | Tracking the same requestor twice is the same as tracking it once. |
| Tracking.TrackedKnownRequestor | org.eclipse.tea.core/src/org/eclipse/tea/core/internal/service/ServiceSupplier.java:215 | Tracking a requestor already interested in the pair leaves the table unchanged. |
| Tracking.TrackedWellFormed | org.eclipse.tea.core/src/org/eclipse/tea/core/internal/service/ServiceSupplier.java:208-216 | Tracking keeps the table free of empty inner maps and empty requestor sets. |
| Tracking.DropPairWellFormed | org.eclipse.tea.core/src/org/eclipse/tea/core/internal/service/ServiceSupplier.java:67-74 | Removing a pair keeps the table free of empty inner maps and empty requestor sets. |
| Tracking.AfterEventWellFormed | org.eclipse.tea.core/src/org/eclipse/tea/core/internal/service/ServiceSupplier.java:63-74 | Pruning by an event keeps the table free of empty inner maps and empty requestor sets. |
| Tracking.AllInvalidRemovesPair | org.eclipse.tea.core/src/org/eclipse/tea/core/internal/service/ServiceSupplier.java:63-74 | When no requestor of a pair is valid, the event removes the pair. When that pair was the context's only one, it removes the context too. |
| Tracking.WatcherLifeCycle | org.eclipse.tea.core/src/org/eclipse/tea/core/internal/service/ServiceSupplier.java:61-78 | Two requestors tracked, one invalidated, then the other invalidated: the table is exactly {s: {t: {c1, c2}}}, then the interest is {c2}, then the table is empty. |
| Tracking.TablesEqual | org.eclipse.tea.core/src/org/eclipse/tea/core/internal/service/ServiceSupplier.java:98 | A well-formed table is determined by who is interested in which pair. |
| Supplier.Lookup | org.eclipse.tea.core/src/org/eclipse/tea/core/internal/service/ServiceSupplier.java:155 | getServiceReferences answers null exactly for a class name with no registration. |
| Supplier.RunsEachExtend | org.eclipse.tea.core/src/org/eclipse/tea/core/internal/service/ServiceSupplier.java:83-90 | Running one more, not yet run requestor extends a run log that runs each requestor once. |
| Supplier.RunRequestors | org.eclipse.tea.core/src/org/eclipse/tea/core/internal/service/ServiceSupplier.java:83-90 | Every requestor is re-executed exactly once, failures included. A failing requestor stops none of the others. |
| Supplier.Mentions | org.eclipse.tea.core/src/org/eclipse/tea/core/internal/service/ServiceSupplier.java:80-93 | The scan of objectClass finds a match exactly when the tracked type's name is among the names. |
| Supplier.ServiceHandler.constructor | org.eclipse.tea.core/src/org/eclipse/tea/core/internal/service/ServiceSupplier.java:54-58 | A new handler records its supplier, context and type, and has no requestors. |
| Supplier.ServiceHandler.ServiceChanged | org.eclipse.tea.core/src/org/eclipse/tea/core/internal/service/ServiceSupplier.java:61-95 | Delivered to a registered listener: the requestors become the valid ones, and the tracking table becomes AfterEvent of the old one; the supplier invariant is kept. With none left, the pair leaves handlerList (an emptied context goes with it), the listener is unregistered and nothing runs. With some left, handlerList and the listeners stay, and every remaining requestor runs once (as many runs as requestors) exactly when objectClass names the tracked type; otherwise none runs. |
| Supplier.ServiceSupplier.constructor | org.eclipse.tea.core/src/org/eclipse/tea/core/internal/service/ServiceSupplier.java:98 | A new supplier starts with an empty handler table and no listeners, and satisfies the invariant. |
| Supplier.ServiceSupplier.TrackService | org.eclipse.tea.core/src/org/eclipse/tea/core/internal/service/ServiceSupplier.java:208-216 | The table becomes Tracked of the old table. An existing handler for the pair is reused, with no new listener. Otherwise exactly one fresh handler is created and registered as a listener. No other entry of handlerList changes, and no other handler's requestor set changes. |
| Supplier.ServiceSupplier.HandleSingle | org.eclipse.tea.core/src/org/eclipse/tea/core/internal/service/ServiceSupplier.java:143-172 | An uncastable type fails. Otherwise the result is NOT_A_VALUE exactly when no reference is found, and else the service of the last maximal reference. Tracking happens only when a service was found and track is set. Without tracking, handlerList, the listeners and every handler stay as they were. With it, the pair's existing handler is reused with no new listener, or exactly one fresh handler is stored and registered; no other entry of handlerList and no other handler changes. Every handler added to Repr is freshly allocated, so a caller can make the next request within the same frame. |
| Supplier.ServiceSupplier.HandleCollection | org.eclipse.tea.core/src/org/eclipse/tea/core/internal/service/ServiceSupplier.java:174-206 | An uncastable type fails. Otherwise the result is every found service, once each, in descending COMPARATOR order. Tracking happens whenever track is set, even when nothing was found. Without tracking, handlerList, the listeners and every handler stay as they were. With it, the pair's existing handler is reused with no new listener, or exactly one fresh handler is stored and registered; no other entry of handlerList and no other handler changes. Every handler added to Repr is freshly allocated, so a caller can make the next request within the same frame. |
| Supplier.ServiceSupplier.Get | org.eclipse.tea.core/src/org/eclipse/tea/core/internal/service/ServiceSupplier.java:125-141 | Follows Dispatch: a collection request yields HandleCollection's result for the first type argument, and any other request yields HandleSingle's. Each tracks under track && dynamic. Where that path does not track, handlerList, the listeners and every handler stay as they were. Where it does, the pair's existing handler is reused with no new listener, or exactly one fresh handler is stored and registered; no other entry of handlerList and no other handler changes. Every handler added to Repr is freshly allocated, so a caller can make the next request within the same frame. |
| Supplier.ServiceSupplier.Attach | org.eclipse.tea.core/src/org/eclipse/tea/core/internal/service/ServiceSupplier.java:209-214 | The nested computeIfAbsent returns the pair's existing handler, or creates, stores and registers exactly one new handler. |
| Supplier.ServiceSupplier.Unregister | org.eclipse.tea.core/src/org/eclipse/tea/core/internal/service/ServiceSupplier.java:67-76 | Removes the pair (and an emptied context) from handlerList and the table, and removes the handler's listener. |
| Supplier.ServiceSupplier.NoIdleListener | org.eclipse.tea.core/src/org/eclipse/tea/core/internal/service/ServiceSupplier.java:61-78 | Every registered listener is the table's handler for its own pair and still has a requestor: a handler leaves the listeners when it leaves the table. |
| Supplier.ServiceHandler.Prune | org.eclipse.tea.core/src/org/eclipse/tea/core/internal/service/ServiceSupplier.java:63-64 | removeIf keeps exactly the valid requestors and leaves the supplier's invariant on every other handler intact. |
| Supplier.ServiceHandler.Settle | org.eclipse.tea.core/src/org/eclipse/tea/core/internal/service/ServiceSupplier.java:66-93 | After the prune: with no requestor left, the pair and the listener go and nothing runs; otherwise the table catches up with the pruned set and each requestor runs once, as many runs as requestors, exactly when objectClass names the type. |
| Supplier.TrackTwiceThenRelease | org.eclipse.tea.core/src/org/eclipse/tea/core/internal/service/ServiceSupplier.java:61-78 | Tracking one requestor twice and then invalidating it leaves no handler, no listener and nothing run. |
| Supplier.ServiceSupplier.TrackWhen | org.eclipse.tea.core/src/org/eclipse/tea/core/internal/service/ServiceSupplier.java:198-200 | `if (track) trackService(...)`, as also at lines 160-162: with track, TrackService's whole effect; without it, the table, handlerList, the listeners and every handler stay as they were. Added handlers are fresh. |
| Supplier.GetTwice | org.eclipse.tea.core/src/org/eclipse/tea/core/internal/service/ServiceSupplier.java:125-141 | Two tracked get calls for List<name> by requestors 1 and 2 share one watcher: one handler, one listener, and the table holds {1, 2} for the pair. |
| Supplier.GetTwiceThenRelease | org.eclipse.tea.core/src/org/eclipse/tea/core/internal/service/ServiceSupplier.java:61-95 | After the two get calls, an event with only requestor 2 valid runs exactly [Execution(2, false)]; an event with none valid runs nothing and leaves no handler, no listener and an empty table. |

## Left out

- The OSGi framework is abstract.
  - `FrameworkUtil.getBundle` and the fallback to the supplier's own bundle context (lines 128, 145-148, 177-180) are not modelled. The bundle context arrives as a parameter.
  - `getServiceReferences` is a `Registry` map in that context.
  - `getService` is a `service` field on each reference.
  - `addServiceListener`/`removeServiceListener` add to and remove from a `listeners` set.
- Java reflection is reduced to `JavaType`: a class, a parameterised type with raw type and arguments, or any other `Type`. The `ClassCastException` that `(Class<Object>) t` throws on the last is modelled as `ClassCastFailure`.
- Class identity is by name, so two classes with one name from different class loaders are not distinguished.
- The `synchronized` blocks (lines 62, 208) and all thread interleaving are left out. Each operation is one atomic step.
- The `InvalidSyntaxException` handlers (lines 167-169, 201-203) are left out, because no filter is passed and they cannot run.
- The `printStackTrace` (line 88) is left out. A failed re-execution is recorded only as `failed` in the run log.
- The `@Component` registration (line 45) and the injector front end (`IObjectDescriptor`, `IRequestor`) are left out.
  - A requestor is an opaque number.
  - `isValid` is given as the set `valid`.
  - Whether `resolveArguments(false)`/`execute()` throws is given as the set `failing`.
- Supplier.ServiceHandler.ServiceChanged: requires the handler to be a registered listener. A handler that had already left the table could only receive an event delivered concurrently with its removal, and concurrent delivery is not modelled. Also, the effects of re-executing a requestor on this same supplier are not modelled. `resolveArguments(false)`/`execute()` may re-enter `get` and `trackService` under the reentrant lock, and so add handlers and listeners. The clause "with requestors left, handlerList and the listeners stay" holds only for the handler's own step.
- Supplier.RunRequestors: the re-execution order of a `HashSet` is unspecified, so the contract fixes only that each requestor runs once.
- `Integer.parseInt` accepts only ASCII digits here. Java also accepts other Unicode decimal digits.
- `String.compareTo` compares UTF-16 code units. The model compares Dafny characters by code point. The two agree for names without supplementary characters, such as every realistic `ServiceReference` implementation class name.
- A `null` `objectClass` property or reference class name would throw `NullPointerException`. It is not modelled, because the framework always sets both.
- Supplier.ServiceSupplier.Get: the `group` argument is unused by the source and is not a parameter.
