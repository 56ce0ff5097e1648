# generic: multi-axis registry, multiple dispatch and events, in Dafny

This project models the core of the Python library `generic`:

- **Registry** (`generic/registry.py`). A tree with one level per axis. Each node maps keys to children, with the `None` key as the wildcard, and may hold a target.
  - `register` walks or creates a key path and refuses to overwrite a target.
  - `get_registration` reads one exact path.
  - `query` walks the tree depth first. On every axis it tries the candidate keys from most to least specific.
  - `lookup` takes the first thing `query` yields.
  - Keys are first aligned with the named axes by `_align_with_axes`.
  - `SimpleAxis` matches by identity. `TypeAxis` matches along the method resolution order (MRO) of the object's type.
- **Dispatcher** (`generic/multidispatch.py`). A registry with `params_arity` type axes.
  - Registration checks the number of types and the shape of the rule's parameter list.
  - A call resolves on the first `params_arity` arguments and passes all arguments to the chosen rule.
- **MethodDispatcher** (`generic/multimethod.py`). Declarations made in a class body stay pending. `has_multimethods(cls)` then registers each one with `cls` as the leading key.
- **Event manager** (`generic/event.py`). A one-axis type registry whose targets are handler sets, each linked to the handler sets of its type's bases.
  - `subscribe` and `unsubscribe` change the exact type's set.
  - `fire` runs `all_handlers` of the nearest registered type.

The modelling choices:

- Python objects are `PyTypes.Obj`: `None`, a class object, or an instance.
- A class carries its bases and its precomputed MRO tail. `PyTypes.WellFormed` states what Python guarantees of an MRO.
- Rules and handlers are opaque identities.
- Every mutation is a pure function from the old state to the new one. Every raised exception is an `Err` of a `Result`.

The modules are:

- `wrappers.dfy`: `Option` and `Result`.
- `pytypes.dfy`: the Python object model.
- `registry.dfy`: the registry.
- `query_order.dfy`: the order `query` yields in, described by candidate-index vectors ("routes") instead of recursion.
- `multidispatch.dfy`, `multimethod.dfy` and `event.dfy`: the three clients.

## Model

| member | source | states |
|---|---|---|
| PyTypes.MroEndsInObject | generic/registry.py:146-151 | the MRO `type(obj).mro()` that `TypeAxis` walks starts at the class itself, ends at `object` and repeats no class |
| Registry.AlignKeys | generic/registry.py:80-113 | fails with "too many keys" exactly when positional plus keyword keys outnumber the distinct axis names. Given that bound, succeeds exactly when every keyword names an axis not already filled. On success: at most one key per axis, never ending in `None`, each keyword key in its axis's slot, every other slot holding the positional key or `None` |
| Registry.TrimTrailingNones | generic/registry.py:109-111 | the result is a prefix of the input, does not end in `None`, and everything dropped is `None` |
| Registry.AxesDictFacts | generic/registry.py:27 | the axis dictionary maps each name to the index of its last occurrence, and holds exactly the names of the axes |
| Registry.Insert | generic/registry.py:29-39 | fails exactly when the path already holds a target, reporting that target; on success the path holds the new target |
| Registry.InsertLeavesOtherPaths | generic/registry.py:29-39 | inserting at one path leaves the target found at every other path unchanged |
| Registry.EmptyFindsNothing | generic/registry.py:25 | a fresh tree holds no target at any path |
| Registry.GetRegistration | generic/registry.py:41-48 | fails exactly when alignment fails; otherwise returns the target at exactly the aligned path, `None` when the path is absent |
| Registry.Register | generic/registry.py:29-39 | succeeds exactly when `get_registration` finds nothing; afterwards `get_registration` returns the new target. A conflict reports the existing target; alignment errors pass through |
| Registry.RegisterLeavesOtherPaths | generic/registry.py:29-39 | a registration changes no other path's registration |
| Registry.SimpleMatches | generic/registry.py:134-139 | yields the object alone when it is a key, otherwise nothing |
| Registry.MroMatches | generic/registry.py:149-151 | yields exactly the registered classes of the MRO, in MRO order |
| Registry.TypeMatches | generic/registry.py:146-151 | yields exactly the keys that are classes on `type(obj).mro()`, in MRO order |
| Registry.Query | generic/registry.py:53-56 | fails exactly when alignment fails |
| Registry.Lookup | generic/registry.py:50-51 | fails exactly when alignment fails |
| QueryOrder.CandidatesWildcard | generic/registry.py:69-78 | the wildcard key `None` is a candidate exactly for a `None` object, and a simple axis offers any other object only itself |
| QueryOrder.TypeCandidatesFollowMro | generic/registry.py:146-151 | a type axis offers an object the classes of `type(obj).mro()` and nothing else: its own class first, `object` last, no class twice |
| QueryOrder.RoutesComplete | generic/registry.py:58-78 | the routes `_query` follows are exactly the candidate choices that reach an existing node |
| QueryOrder.RoutesSorted | generic/registry.py:58-78 | `_query` follows its routes in strictly increasing lexicographic order, axis 0 most significant |
| QueryOrder.QueryFollowsRoutes | generic/registry.py:58-78 | `_query` yields one item per route, and the j-th item is the target of the j-th route |
| QueryOrder.MatchesFilterCandidates | generic/registry.py:77 | `axis.matches(obj, keys)` is the candidate list filtered by the keys present |
| QueryOrder.QueryTakesLeastRoute | generic/registry.py:58-78 | the query is empty exactly when no route reaches a node. Otherwise its first item is the target of the lexicographically least reaching route |
| QueryOrder.LookupTakesLeastRoute | generic/registry.py:50-56 | `lookup` returns the target of the least reaching route, or `None` when no route reaches a node |
| QueryOrder.QueryNonEmptyIffReached | generic/registry.py:58-78 | the query yields something exactly when some route reaches a node |
| QueryOrder.ReachedRouteReadsKeys | generic/registry.py:58-78 | a reaching route picks a candidate on every axis, and its target is the one stored at the key path it spells |
| QueryOrder.FoundKeysAreReached | generic/registry.py:58-78 | a key path of candidates that holds a target is reached by its route, with that target |
| MultiDispatch.DecimalInjective | generic/multidispatch.py:38 | distinct numbers print differently with `%d` |
| MultiDispatch.ArgAxesDistinct | generic/multidispatch.py:38-39 | the axis names `arg_0`, `arg_1`, ... are pairwise distinct |
| MultiDispatch.PositionalAlign | generic/registry.py:86-113 | with distinct axis names, positional keys only, and no more keys than axes, alignment is just the trimming of trailing `None`s |
| MultiDispatch.NewDispatcher | generic/multidispatch.py:26-39 | fails with "not enough positional arguments" exactly when the arity is below `params_arity`. On success: `params_arity` type axes, the argspec kept, an empty registry |
| MultiDispatch.RegisterRule | generic/multidispatch.py:41-53 | gives "wrong number of type parameters" when the type count differs and "does not conform" when the shape differs. Otherwise succeeds exactly when the types' path is free, and a failure reports a conflict with the existing rule. Success keeps the dispatcher's invariant, and the rule is found at its types |
| MultiDispatch.RegisterRuleLeavesOtherPaths | generic/multidispatch.py:41-53 | a registration leaves every other path's rule as it was |
| MultiDispatch.NewDispatcherConforming | generic/multidispatch.py:26-39 | a new dispatcher stores no rule, so every stored rule has the dispatcher's argspec shape |
| MultiDispatch.RegisterRuleKeepsConforming | generic/multidispatch.py:47-53 | because of the "does not conform" check, every rule stored after a registration still has the dispatcher's argspec shape |
| MultiDispatch.LookupRuleConforms | generic/multidispatch.py:55-61 | in a conforming dispatcher, the rule `lookup_rule` returns has the dispatcher's argspec shape, and so the same positional arity |
| MultiDispatch.LookupRule | generic/multidispatch.py:55-61 | resolves on `args[:params_arity]`; the result is the registry's `lookup` rule; finding nothing raises, naming those arguments |
| MultiDispatch.LookupRuleIgnoresExtraArgs | generic/multidispatch.py:55-61 | arguments past the dispatched ones never change the resolution |
| MultiDispatch.Call | generic/multidispatch.py:70-73 | fails exactly when resolution fails; otherwise returns the chosen rule's result on the full original arguments and keyword arguments |
| MultiDispatch.Multifunction | generic/multidispatch.py:12-20 | fails exactly when the function has fewer positional parameters than types; otherwise a dispatcher with `len(argtypes)` axes holding exactly the function, at its types |
| MultiDispatch.SpelledIffReachedTarget | generic/registry.py:58-78 | a candidate choice spells a registered key path exactly when its route reaches a node holding a target |
| MultiDispatch.LookupRuleMostSpecific | generic/multidispatch.py:55-61 | resolution succeeds exactly when some choice of classes from the arguments' MROs spells a registered path. The rule found is the one at the lexicographically least such choice |
| MultiDispatch.ExactTypesWin | generic/tests/test_multidispatch.py:55-75 | a rule registered for the arguments' exact types is always the one chosen (`Sub` instances get the `Sub` rule, `Super` instances the `Super` rule) |
| MultiDispatch.ObjectCatchesAll | generic/tests/test_multidispatch.py:45-53 | a rule registered for `object` in every position makes every call resolve |
| MultiMethod.NewMethodDispatcher | generic/multimethod.py:68-73 | like a dispatcher, plus an empty pending list |
| MultiMethod.RegisterUnboundRule | generic/multimethod.py:75-78 | appends exactly `(argtypes, func)` to the pending list and leaves the dispatcher untouched |
| MultiMethod.Multimethod | generic/multimethod.py:20-44 | the dispatcher has `len(argtypes) + 1` axes and an empty registry; the one pending rule is `(argtypes, func)`; fails when the method has too few positional parameters |
| MultiMethod.RegisterCase | generic/multimethod.py:91-98 | `register(*argtypes)` only appends a pending declaration |
| MultiMethod.CatchAllTypes | generic/multimethod.py:105 | `[object] * (params_arity - 1)`: that many `object`s, none for `params_arity` 0 |
| MultiMethod.Otherwise | generic/multimethod.py:100-108 | `otherwise` appends a pending declaration for `object` in every non-class position |
| MultiMethod.RegisterAllKeepsConforming | generic/multimethod.py:80-86 | binding the pending declarations keeps every stored rule of the dispatcher's argspec shape |
| MultiMethod.RegisterAllLeavesOtherPaths | generic/multimethod.py:80-86 | binding leaves every path that no declaration is bound to as it was |
| MultiMethod.RegisterAllRegisters | generic/multimethod.py:80-86 | after a failure-free run every declaration is found at `(cls,) + argtypes` |
| MultiMethod.ProceedUnboundRules | generic/multimethod.py:80-86 | on success every pending declaration is registered under `(cls,) + argtypes` and the list is emptied; on failure the list is kept; the arity and argspec never change |
| MultiMethod.RegisterAllSucceedsIff | tests/test_multimethod.py:110-121 | binding succeeds exactly when every declaration fits the dispatcher and the bound type tuples are free and pairwise distinct, so declaring the same tuple twice in one class fails |
| MultiMethod.HasMultimethods | generic/multimethod.py:47-56 | binding the pending declarations keeps every dispatcher state well formed and creates or drops no dispatcher, also when a binding raises; the class itself is not touched |
| MultiMethod.RegisterAllKeepsRules | generic/multimethod.py:82-85 | binding declarations never removes or replaces a registered rule, even when a later declaration fails |
| MultiMethod.HasMultimethodsRegisters | generic/multimethod.py:53-55 | when no binding raises, every declaration that was pending on a dispatcher attribute of the class is registered on that dispatcher at `(cls,) + argtypes` (through generic/multimethod.py:80-86) |
| MultiMethod.HasMultimethodsKeepsRules | generic/multimethod.py:53-55 | a rule any dispatcher already holds is still registered after a `has_multimethods` that does not raise |
| MultiMethod.HasMultimethodsBinds | generic/multimethod.py:53-55 | when no binding raises, every dispatcher attribute of the class ends with an empty pending list |
| MultiMethod.HasMultimethodsKeeps | generic/multimethod.py:53-55 | dispatchers that are not attributes of the class are unchanged, whether or not a binding raises |
| MultiMethod.HasMultimethodsFailureKeepsPending | generic/multimethod.py:53-55 | when a binding raises, some dispatcher still holds its non-empty pending list, because the list is cleared only after the loop over it completes (generic/multimethod.py:82-86) |
| MultiMethod.InheritedRuleApplies | tests/test_multimethod.py:71-107 | calling the method through an instance (`__get__` binding it, generic/multimethod.py:88-89) runs the rule stored for the k-th class of the instance's MRO and the exact types of the other arguments, when no rule matches through a class before the k-th (`DummySub().foo(1)` gets `Dummy`'s rule) |
| MultiMethod.OwnRuleApplies | tests/test_multimethod.py:124-138 | calling the method through an instance runs the rule stored for the instance's own class and the exact argument types, so a subclass's rule overrides the inherited one |
| MultiMethod.OtherwiseCatchesAll | tests/test_multimethod.py:40-69 | once `otherwise` is bound to a class without error, every call through an instance of that class or of a subclass finds a rule, whatever the types of the other dispatched arguments, as long as none is `None` (`Dummy().foo([])` does not raise) |
| Event.NewManager | generic/event.py:36-38 | a fresh manager satisfies the manager invariant and has no handler sets |
| Event.GetRegistrationOfClass | generic/event.py:42 | `get_registration(c)` returns the handler set of exactly `c`, or `None` |
| Event.RegisteredMro | generic/event.py:59-71 | because parent sets are always created first, a type with a handler set has handler sets for its whole MRO |
| Event.RegisterHandlersGrows | generic/event.py:59-71 | `_register_handlers(c)` on a class without a handler set never fails and gives every class of `c`'s MRO a handler set, linked to its bases' sets. The new sets are empty; existing sets are untouched; the registry keeps mirroring the sets |
| Event.AddSetKeepsInv | generic/event.py:69-70 | registering the new, empty handler set of a class whose bases all have sets succeeds and keeps the registry mirroring the sets |
| Event.RegisterParentsGrows | generic/event.py:62-68 | the loop over `__bases__` never fails and collects exactly the bases' handler sets, in order, creating the missing ones and the ones of their MROs |
| Event.HandleBaseGrows | generic/event.py:65-68 | one iteration yields the base's own set: the registered one when present, otherwise the one it creates |
| Event.AddHandler | generic/event.py:45 | `set.add`: membership grows by exactly the handler, no duplicates arise, and adding a present handler is a no-op |
| Event.RemoveHandler | generic/event.py:50-51 | `handlers.remove(handler)`, which runs only under the membership guard of line 50: membership loses exactly the handler and no duplicate arises |
| Event.RemoveUndoesAdd | generic/event.py:45-51 | removing a handler just added restores the handlers |
| Event.Subscribe | generic/event.py:40-45 | creates the handler sets of `c`'s MRO on first use and adds the handler to `c`'s set; every other type's handlers stay as they were |
| Event.SubscribePresent | generic/event.py:40-45 | subscribing an already subscribed handler changes nothing |
| Event.SubscribeIdempotent | generic/event.py:40-45 | subscribing twice is subscribing once |
| Event.Unsubscribe | generic/event.py:47-51 | removes the handler from exactly `c`'s set; a no-op when `c` has no set or the handler is absent |
| Event.UnsubscribeUndoesSubscribe | generic/event.py:40-51 | unsubscribing a handler just subscribed restores `c`'s handlers |
| Event.AddNew | generic/event.py:17-30 | the `seen` filter: appends, in order, exactly the handlers not yet produced, and produces no duplicates |
| Event.AllHandlers | generic/event.py:14-30 | own handlers come first, as a prefix, and no handler is yielded twice |
| Event.AllHandlersMembers | generic/event.py:14-30 | a handler is yielded exactly when it is subscribed to some class of the type's MRO |
| Event.MroMatchesHead | generic/registry.py:146-151 | the first `TypeAxis` match of an MRO is its nearest class that has a key |
| Event.LookupEvent | generic/event.py:55 | `registry.lookup(event)` gives the handler set of the nearest class on the event type's MRO that has one; `None` for a `None` event |
| Event.FireAsWritten | generic/event.py:53-57 | `None.all_handlers` raises exactly when no class of the event's MRO has a handler set |
| Event.AsWrittenSkipsSecondBase | generic/event.py:53-57 | for `C(A, S)` with handler 1 on `A` and handler 2 on `S`, firing a `C` calls only handler 1 |
| Event.Fire | generic/event.py:53-57 | the corrected `fire`: fails exactly when the source's does |
| Event.FireMembers | generic/event.py:53-57 | the corrected `fire` calls exactly the handlers subscribed to some class of the event's MRO, each once |
| Event.FireExtendsAsWritten | generic/event.py:53-57 | the corrected `fire` first calls what the source calls, in the same order |
| Event.AsWrittenCompleteWhenCovered | generic/event.py:53-57 | when every registered class of the event's MRO is on the MRO of the nearest one, the source already calls every subscribed handler |
| Event.AsWrittenCompleteForExactType | generic/event.py:53-57 | an event whose own type has a handler set is fired completely by the source |
| Event.AsWrittenCompleteUnderSingleInheritance | generic/event.py:53-57 | under single inheritance the source fires every subscribed handler |

## Left out

- Running rules and handlers is not modelled. Rules and handlers are identities; `MultiDispatch.Call` takes the rule's execution as a function parameter, and a handler's side effects and exceptions are not modelled.
- `inspect.getargspec` and `inspect.getfullargspec` are not modelled. An argspec is given as parameter names, the names of the `*args` and `**kwargs` parameters, and defaults. The extra fields of `FullArgSpec` are not modelled.
- `MultiDispatch.IsEquivalentArgspecs`: the Python 2 comparison of two `map` results is modelled as its intended element-wise equality of the four field lengths. Under Python 3 the comparison is between two `map` objects and is always false.
- generic/multimethod.py imports `FunctionDispatcher` and `KeyType`; generic/multidispatch.py as shown names the class `Dispatcher`. Both names are modelled as the same `MultiDispatch.Dispatcher`.
- `threading.local`: the pending list is modelled for a single thread.
- `functools.wraps` and `update_wrapper` copy metadata and are not modelled. The `print` in `proceed_unbound_rules` is output and is not modelled.
- `types.MethodType` binding is modelled as passing the instance as the first argument (`MultiMethod.Get` and `MultiMethod.CallAccessed`); what such a call runs is stated by `MultiMethod.InheritedRuleApplies`, `MultiMethod.OwnRuleApplies` and `MultiMethod.OtherwiseCatchesAll`.
- A dispatcher object shared between class attributes is modelled by reference, through an explicit heap from references to dispatcher states (`MultiMethod.HasMultimethods`).
- Metaclasses are not modelled: every class object has type `type`. The MRO is not computed by C3 linearisation. It is given with each class, constrained by `PyTypes.WellFormed`.
- A Python `set` of handlers is modelled as a duplicate-free sequence in insertion order. Python's own iteration order of a set is not modelled.
- `Registry.Query` and `Registry.Lookup`: their contracts state only the error condition. What they yield is stated by `QueryOrder.QueryFollowsRoutes`, `QueryOrder.QueryTakesLeastRoute` and `QueryOrder.LookupTakesLeastRoute`.
- `Event.RemoveHandler`: Python's `set.remove` raises `KeyError` for an absent handler. The model returns the handlers unchanged instead. `unsubscribe` never reaches that case, because it calls `remove` only after checking membership.
- `MultiMethod.RegisterAll`: its contract states only that the invariant, arity and argspec are kept. What it registers and when it fails are stated by `MultiMethod.RegisterAllRegisters` and `MultiMethod.RegisterAllSucceedsIff`.
- `MultiMethod.HasMultimethods`: its contract states only that the dispatcher states stay well formed under the same references. What it registers is stated by `MultiMethod.HasMultimethodsRegisters` and `MultiMethod.HasMultimethodsKeepsRules`. That it empties the pending lists is stated by `MultiMethod.HasMultimethodsBinds`. What it leaves alone is stated by `MultiMethod.HasMultimethodsKeeps`, and what a failure leaves pending by `MultiMethod.HasMultimethodsFailureKeepsPending`. The exception itself is returned beside the heap rather than raised.
- Keyword arguments to the registry are a sequence of distinct `(name, key)` pairs in dictionary order. Axes whose names repeat are modelled as the source behaves: the axis dictionary keeps the last index per name.
- The `handle` API with aggregated exceptions and the `Event` class are not modelled. They appear only in tests/test_event_exception.py, not in generic/event.py.
- Not modelled: the module-level `_global_manager` and its `subscribe`/`unsubscribe`/`fire` aliases, the `__str__` helpers, and `setup.py`.

## Findings

| source | as written | input that shows it | evidently intended | confidence | as-written member | corrected member |
|---|---|---|---|---|---|---|
| generic/event.py:53-57 | `fire` runs only `all_handlers` of the nearest registered type on the event's MRO, which follows `__bases__` links from that type | classes `A`, `S` and `C(A, S)`; handler 1 subscribed to `A`, handler 2 to `S`, nothing to `C`; firing a `C` instance calls handler 1 only, although the same event calls both once anything subscribes to `C` | a handler subscribed to a supertype fires for every subtype instance, so every handler subscribed to a class of the event's MRO is called | medium, not executed | Event.FireAsWritten, Event.AsWrittenSkipsSecondBase | Event.Fire, Event.FireMembers |
