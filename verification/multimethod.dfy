/**
 * Multiple dispatch for methods (generic/multimethod.py): rules are declared
 * against a class that does not exist yet, kept pending, and bound to the
 * class by `has_multimethods`, which registers each one with the class as the
 * leading key.
 */
module MultiMethod {
  import opened Wrappers
  import opened PyTypes
  import opened Registry
  import opened QueryOrder
  import opened MultiDispatch

  /** A declaration awaiting its class: `(argtypes, func)`. */
  datatype Pending = Pending(argtypes: seq<Obj>, rule: Rule)

  /**
   * A `MethodDispatcher`: a function dispatcher whose first axis is the class
   * of `self`, plus the list of pending declarations of one thread.
   */
  datatype MethodDispatcher = MethodDispatcher(dispatcher: Dispatcher, pending: seq<Pending>)

  ghost predicate ValidMethod(md: MethodDispatcher)
  {
    Valid(md.dispatcher)
  }

  /** `MethodDispatcher(argspec, params_arity)`: no rules and nothing pending. */
  function NewMethodDispatcher(argspec: ArgSpec, paramsArity: nat): (r: Result<MethodDispatcher, DispatchError>)
    ensures r.Ok? <==> Arity(argspec) >= paramsArity
    ensures r.Err? ==> r.error == NotEnoughPositional
    ensures r.Ok? ==> ValidMethod(r.value) && r.value.pending == []
    ensures r.Ok? ==> r.value.dispatcher.paramsArity == paramsArity && r.value.dispatcher.argspec == argspec
    ensures r.Ok? ==> forall p :: Find(r.value.dispatcher.registry.tree, p) == None
  {
    match NewDispatcher(argspec, paramsArity)
    case Err(e) => Err(e)
    case Ok(d) => Ok(MethodDispatcher(d, []))
  }

  /** `register_unbound_rule`: append a declaration; the registry is untouched. */
  function RegisterUnboundRule(md: MethodDispatcher, rule: Rule, argtypes: seq<Obj>): (r: MethodDispatcher)
    ensures r.dispatcher == md.dispatcher
    ensures |r.pending| == |md.pending| + 1
    ensures r.pending[..|md.pending|] == md.pending && r.pending[|md.pending|] == Pending(argtypes, rule)
  {
    md.(pending := md.pending + [Pending(argtypes, rule)])
  }

  /**
   * `multimethod(*argtypes)(func)`: a dispatcher over the class and
   * `len(argtypes)` more arguments, with `func` as its one pending rule.
   */
  function Multimethod(argtypes: seq<Obj>, func: Rule): (r: Result<MethodDispatcher, DispatchError>)
    ensures r.Ok? <==> Arity(func.argspec) >= |argtypes| + 1
    ensures r.Err? ==> r.error == NotEnoughPositional
    ensures r.Ok? ==> ValidMethod(r.value) && r.value.dispatcher.paramsArity == |argtypes| + 1
    ensures r.Ok? ==> r.value.dispatcher.argspec == func.argspec
    ensures r.Ok? ==> r.value.pending == [Pending(argtypes, func)]
    ensures r.Ok? ==> forall p :: Find(r.value.dispatcher.registry.tree, p) == None
  {
    match NewMethodDispatcher(func.argspec, |argtypes| + 1)
    case Err(e) => Err(e)
    case Ok(md) => Ok(RegisterUnboundRule(md, func, argtypes))
  }

  /** `md.register(*argtypes)(meth)`: declare one more case; the decorator returns `md`. */
  function RegisterCase(md: MethodDispatcher, argtypes: seq<Obj>, meth: Rule): (r: MethodDispatcher)
    ensures r.dispatcher == md.dispatcher
    ensures r.pending == md.pending + [Pending(argtypes, meth)]
  {
    RegisterUnboundRule(md, meth, argtypes)
  }

  /** The argument types of a catch-all: `[object] * (params_arity - 1)`. */
  function CatchAllTypes(paramsArity: nat): (t: seq<Obj>)
    ensures paramsArity >= 1 ==> |t| == paramsArity - 1
    ensures paramsArity == 0 ==> t == []
    ensures forall i :: 0 <= i < |t| ==> t[i] == ClassObj(Object)
  {
    if paramsArity == 0 then [] else ObjectKeys(paramsArity - 1)
  }

  /** `md.otherwise(meth)`: declare a case for `object` in every non-class position. */
  function Otherwise(md: MethodDispatcher, meth: Rule): (r: MethodDispatcher)
    ensures r.dispatcher == md.dispatcher
    ensures r.pending == md.pending + [Pending(CatchAllTypes(md.dispatcher.paramsArity), meth)]
  {
    RegisterUnboundRule(md, meth, CatchAllTypes(md.dispatcher.paramsArity))
  }

  /** The types a pending declaration is registered under once bound to `cls`. */
  function BoundTypes(cls: Cls, p: Pending): seq<Obj>
  {
    [ClassObj(cls)] + p.argtypes
  }

  /** The registry path those types end up at. */
  function BoundKey(cls: Cls, p: Pending): seq<Obj>
  {
    TrimTrailingNones(BoundTypes(cls, p))
  }

  /**
   * The loop of `proceed_unbound_rules`: register each declaration in order;
   * the first failure stops the loop, keeping what was registered before it.
   */
  function RegisterAll(d: Dispatcher, cls: Cls, ps: seq<Pending>): (r: (Dispatcher, Option<DispatchError>))
    requires Valid(d)
    ensures Valid(r.0) && r.0.paramsArity == d.paramsArity && r.0.argspec == d.argspec
    decreases |ps|
  {
    if ps == [] then (d, None)
    else
      match RegisterRule(d, ps[0].rule, BoundTypes(cls, ps[0]))
      case Err(e) => (d, Some(e))
      case Ok(d1) => RegisterAll(d1, cls, ps[1..])
  }

  /** Paths no declaration is bound to keep what they held. */
  lemma {:induction false} RegisterAllLeavesOtherPaths(d: Dispatcher, cls: Cls, ps: seq<Pending>, p: seq<Obj>)
    requires Valid(d)
    requires forall i :: 0 <= i < |ps| ==> p != BoundKey(cls, ps[i])
    ensures Find(RegisterAll(d, cls, ps).0.registry.tree, p) == Find(d.registry.tree, p)
    decreases |ps|
  {
    if ps != [] {
      var r0 := RegisterRule(d, ps[0].rule, BoundTypes(cls, ps[0]));
      if r0.Ok? {
        assert p != BoundKey(cls, ps[0]);
        RegisterRuleLeavesOtherPaths(d, ps[0].rule, BoundTypes(cls, ps[0]), p);
        assert forall i :: 0 <= i < |ps[1..]| ==> ps[1..][i] == ps[i + 1];
        RegisterAllLeavesOtherPaths(r0.value, cls, ps[1..], p);
      }
    }
  }

  /** After a run without failure every declaration is found at its bound path. */
  lemma {:induction false} RegisterAllRegisters(d: Dispatcher, cls: Cls, ps: seq<Pending>, i: nat)
    requires Valid(d) && RegisterAll(d, cls, ps).1.None? && i < |ps|
    ensures Find(RegisterAll(d, cls, ps).0.registry.tree, BoundKey(cls, ps[i])) == Some(ps[i].rule)
    decreases |ps|
  {
    var d1 := RegisterRule(d, ps[0].rule, BoundTypes(cls, ps[0])).value;
    if i > 0 {
      RegisterAllRegisters(d1, cls, ps[1..], i - 1);
    } else {
      var k0 := BoundKey(cls, ps[0]);
      forall j | 0 <= j < |ps[1..]| ensures k0 != BoundKey(cls, ps[1..][j]) {
        RegisterAllSucceedsIff(d1, cls, ps[1..]);
      }
      RegisterAllLeavesOtherPaths(d1, cls, ps[1..], k0);
    }
  }

  /** Binding declarations never removes or replaces a registered rule, even when it fails part-way. */
  lemma {:induction false} RegisterAllKeepsRules(d: Dispatcher, cls: Cls, ps: seq<Pending>, p: seq<Obj>, rule: Rule)
    requires Valid(d) && Find(d.registry.tree, p) == Some(rule)
    ensures Find(RegisterAll(d, cls, ps).0.registry.tree, p) == Some(rule)
    decreases |ps|
  {
    if ps != [] {
      var r0 := RegisterRule(d, ps[0].rule, BoundTypes(cls, ps[0]));
      if r0.Ok? {
        RegisterRuleLeavesOtherPaths(d, ps[0].rule, BoundTypes(cls, ps[0]), p);
        RegisterAllKeepsRules(r0.value, cls, ps[1..], p, rule);
      }
    }
  }

  /** Binding declarations keeps every stored rule of the dispatcher's shape. */
  lemma {:induction false} RegisterAllKeepsConforming(d: Dispatcher, cls: Cls, ps: seq<Pending>)
    requires Valid(d) && Conforming(d)
    ensures Conforming(RegisterAll(d, cls, ps).0)
    decreases |ps|
  {
    if ps != [] {
      RegisterRuleKeepsConforming(d, ps[0].rule, BoundTypes(cls, ps[0]));
      var r0 := RegisterRule(d, ps[0].rule, BoundTypes(cls, ps[0]));
      if r0.Ok? {
        RegisterAllKeepsConforming(r0.value, cls, ps[1..]);
      }
    }
  }

  /**
   * `proceed_unbound_rules(cls)`: on success every pending declaration is
   * registered and the pending list is emptied; on failure the error is
   * reported, the pending list is kept and earlier registrations persist.
   */
  function ProceedUnboundRules(md: MethodDispatcher, cls: Cls): (r: (MethodDispatcher, Option<DispatchError>))
    requires ValidMethod(md)
    ensures ValidMethod(r.0)
    ensures r.0.dispatcher.paramsArity == md.dispatcher.paramsArity && r.0.dispatcher.argspec == md.dispatcher.argspec
    ensures r.1.None? ==> r.0.pending == []
    ensures r.1.Some? ==> r.0.pending == md.pending
    ensures r.1.None? ==>
              forall i :: 0 <= i < |md.pending| ==>
                Find(r.0.dispatcher.registry.tree, BoundKey(cls, md.pending[i])) == Some(md.pending[i].rule)
  {
    var (d, err) := RegisterAll(md.dispatcher, cls, md.pending);
    assert err.None? ==>
             forall i :: 0 <= i < |md.pending| ==>
               Find(d.registry.tree, BoundKey(cls, md.pending[i])) == Some(md.pending[i].rule) by {
      if err.None? {
        forall i | 0 <= i < |md.pending| {
          RegisterAllRegisters(md.dispatcher, cls, md.pending, i);
        }
      }
    }
    if err.None? then (MethodDispatcher(d, []), None) else (MethodDispatcher(d, md.pending), err)
  }

  /** Each declaration passes the dispatcher's checks once bound to `cls`. */
  predicate AllFit(d: Dispatcher, cls: Cls, ps: seq<Pending>)
  {
    forall i :: 0 <= i < |ps| ==> RuleFits(d, ps[i].rule, BoundTypes(cls, ps[i]))
  }

  /** The bound paths are free in the registry and pairwise different. */
  ghost predicate FreshKeys(d: Dispatcher, cls: Cls, ps: seq<Pending>)
  {
    && (forall i :: 0 <= i < |ps| ==> Find(d.registry.tree, BoundKey(cls, ps[i])) == None)
    && (forall i, j :: 0 <= i < j < |ps| ==> BoundKey(cls, ps[i]) != BoundKey(cls, ps[j]))
  }

  /**
   * Binding succeeds exactly when every declaration fits the dispatcher and
   * no two declarations, nor a declaration and an earlier registration,
   * claim the same types.
   */
  lemma {:induction false} RegisterAllSucceedsIff(d: Dispatcher, cls: Cls, ps: seq<Pending>)
    requires Valid(d)
    ensures RegisterAll(d, cls, ps).1.None? <==> AllFit(d, cls, ps) && FreshKeys(d, cls, ps)
    decreases |ps|
  {
    if ps != [] {
      var r0 := RegisterRule(d, ps[0].rule, BoundTypes(cls, ps[0]));
      if r0.Ok? {
        StepFit(d, r0.value, cls, ps);
        StepFresh(d, cls, ps);
        RegisterAllSucceedsIff(r0.value, cls, ps[1..]);
      } else {
        FirstFailure(d, cls, ps);
      }
    }
  }

  /** A failing first registration means the declarations do not all fit or are not fresh. */
  lemma FirstFailure(d: Dispatcher, cls: Cls, ps: seq<Pending>)
    requires Valid(d) && ps != [] && RegisterRule(d, ps[0].rule, BoundTypes(cls, ps[0])).Err?
    ensures !(AllFit(d, cls, ps) && FreshKeys(d, cls, ps))
  {
    if AllFit(d, cls, ps) {
      assert RuleFits(d, ps[0].rule, BoundTypes(cls, ps[0]));
    }
  }

  /** After a successful first registration a path is free when it was free and is not the first's. */
  lemma FreeAfterFirst(d: Dispatcher, cls: Cls, ps: seq<Pending>, k: seq<Obj>)
    requires Valid(d) && ps != [] && RegisterRule(d, ps[0].rule, BoundTypes(cls, ps[0])).Ok?
    ensures var d1 := RegisterRule(d, ps[0].rule, BoundTypes(cls, ps[0])).value;
            Find(d1.registry.tree, k) == None <==> k != BoundKey(cls, ps[0]) && Find(d.registry.tree, k) == None
  {
    if k != BoundKey(cls, ps[0]) {
      RegisterRuleLeavesOtherPaths(d, ps[0].rule, BoundTypes(cls, ps[0]), k);
    }
  }

  /** Registering keeps the dispatcher's arity and shape, so fitting is unaffected. */
  lemma StepFit(d: Dispatcher, d1: Dispatcher, cls: Cls, ps: seq<Pending>)
    requires ps != [] && d1.paramsArity == d.paramsArity && d1.argspec == d.argspec
    requires RuleFits(d, ps[0].rule, BoundTypes(cls, ps[0]))
    ensures AllFit(d, cls, ps) <==> AllFit(d1, cls, ps[1..])
  {
    assert forall i :: 1 <= i < |ps| ==> ps[1..][i - 1] == ps[i];
  }

  /** Freshness of the rest after the first registration is freshness of all before it. */
  lemma StepFresh(d: Dispatcher, cls: Cls, ps: seq<Pending>)
    requires Valid(d) && ps != [] && RegisterRule(d, ps[0].rule, BoundTypes(cls, ps[0])).Ok?
    ensures FreshKeys(d, cls, ps) <==> FreshKeys(RegisterRule(d, ps[0].rule, BoundTypes(cls, ps[0])).value, cls, ps[1..])
  {
    var d1 := RegisterRule(d, ps[0].rule, BoundTypes(cls, ps[0])).value;
    forall k: seq<Obj>
      ensures Find(d1.registry.tree, k) == None <==> k != BoundKey(cls, ps[0]) && Find(d.registry.tree, k) == None
    {
      FreeAfterFirst(d, cls, ps, k);
    }
    FreshShift(d, d1, cls, ps);
  }

  /** Taking the first key out of the free ones shifts freshness to the rest. */
  lemma FreshShift(d: Dispatcher, d1: Dispatcher, cls: Cls, ps: seq<Pending>)
    requires ps != [] && Find(d.registry.tree, BoundKey(cls, ps[0])) == None
    requires forall k :: Find(d1.registry.tree, k) == None <==> k != BoundKey(cls, ps[0]) && Find(d.registry.tree, k) == None
    ensures FreshKeys(d, cls, ps) <==> FreshKeys(d1, cls, ps[1..])
  {
    var rest := ps[1..];
    assert forall i :: 1 <= i < |ps| ==> rest[i - 1] == ps[i];
  }

  /** A class attribute: a method dispatcher (by reference) or anything else. */
  datatype Attr = DispatcherRef(ref: nat) | Plain(value: Obj)

  /** The method dispatchers alive, by reference. */
  type Heap = map<nat, MethodDispatcher>

  ghost predicate ValidHeap(heap: Heap)
  {
    forall ref :: ref in heap ==> ValidMethod(heap[ref])
  }

  predicate RefsIn(heap: Heap, dict: seq<(string, Attr)>)
  {
    forall i :: 0 <= i < |dict| && dict[i].1.DispatcherRef? ==> dict[i].1.ref in heap
  }

  /**
   * `has_multimethods(cls)`: bind the pending declarations of every
   * dispatcher attribute of the class body, in attribute order, to `cls`. The
   * class itself is returned unchanged, so only the dispatchers change. The
   * first failure stops the loop: the dispatchers bound before it stay bound,
   * and the failing one keeps its partial registrations and its pending list.
   */
  function HasMultimethods(heap: Heap, cls: Cls, dict: seq<(string, Attr)>): (r: (Heap, Option<DispatchError>))
    requires ValidHeap(heap) && RefsIn(heap, dict)
    ensures ValidHeap(r.0) && r.0.Keys == heap.Keys
    decreases |dict|
  {
    if dict == [] then (heap, None)
    else
      var rest := dict[1..];
      RefsInRest(heap, dict);
      match dict[0].1
      case Plain(_) => HasMultimethods(heap, cls, rest)
      case DispatcherRef(ref) =>
        var (md, err) := ProceedUnboundRules(heap[ref], cls);
        if err.Some? then (heap[ref := md], err)
        else HasMultimethods(heap[ref := md], cls, rest)
  }

  lemma RefsInRest(heap: Heap, dict: seq<(string, Attr)>)
    requires RefsIn(heap, dict) && dict != []
    ensures RefsIn(heap, dict[1..])
  {
    assert forall i :: 0 <= i < |dict| - 1 ==> dict[1..][i] == dict[i + 1];
  }

  /**
   * After `has_multimethods` succeeds, every dispatcher attribute of the class
   * has no pending declaration left.
   */
  lemma {:induction false} HasMultimethodsBinds(heap: Heap, cls: Cls, dict: seq<(string, Attr)>)
    requires ValidHeap(heap) && RefsIn(heap, dict)
    ensures var r := HasMultimethods(heap, cls, dict);
            r.1.None? ==> forall i :: 0 <= i < |dict| && dict[i].1.DispatcherRef? ==> r.0[dict[i].1.ref].pending == []
    decreases |dict|
  {
    if dict != [] {
      var rest := dict[1..];
      RefsInRest(heap, dict);
      assert forall i :: 1 <= i < |dict| ==> dict[i] == rest[i - 1];
      match dict[0].1
      case Plain(_) =>
        HasMultimethodsBinds(heap, cls, rest);
      case DispatcherRef(ref) =>
        var (md, err) := ProceedUnboundRules(heap[ref], cls);
        if err.None? {
          HasMultimethodsBinds(heap[ref := md], cls, rest);
          HasMultimethodsKeeps(heap[ref := md], cls, rest);
        }
    }
  }

  /** `has_multimethods` leaves the dispatchers the class does not hold unchanged, even when it fails. */
  lemma {:induction false} HasMultimethodsKeeps(heap: Heap, cls: Cls, dict: seq<(string, Attr)>)
    requires ValidHeap(heap) && RefsIn(heap, dict)
    ensures var r := HasMultimethods(heap, cls, dict);
            forall ref :: ref in heap && (forall i :: 0 <= i < |dict| ==> dict[i].1 != DispatcherRef(ref)) ==>
              r.0[ref] == heap[ref]
    decreases |dict|
  {
    if dict != [] {
      var rest := dict[1..];
      RefsInRest(heap, dict);
      assert forall i :: 1 <= i < |dict| ==> dict[i] == rest[i - 1];
      match dict[0].1
      case Plain(_) =>
        HasMultimethodsKeeps(heap, cls, rest);
      case DispatcherRef(ref) =>
        var (md, err) := ProceedUnboundRules(heap[ref], cls);
        if err.None? {
          HasMultimethodsKeeps(heap[ref := md], cls, rest);
        }
    }
  }

  /**
   * A failure comes from one dispatcher of the class whose declarations were
   * pending: they are all still pending afterwards, so a later
   * `has_multimethods` on a class holding that dispatcher binds them again.
   */
  lemma {:induction false} HasMultimethodsFailureKeepsPending(heap: Heap, cls: Cls, dict: seq<(string, Attr)>)
    requires ValidHeap(heap) && RefsIn(heap, dict)
    ensures var r := HasMultimethods(heap, cls, dict);
            r.1.Some? ==> exists ref :: ref in heap && heap[ref].pending != [] && r.0[ref].pending == heap[ref].pending
    decreases |dict|
  {
    if dict != [] {
      var rest := dict[1..];
      RefsInRest(heap, dict);
      match dict[0].1
      case Plain(_) =>
        HasMultimethodsFailureKeepsPending(heap, cls, rest);
      case DispatcherRef(ref) =>
        var (md, err) := ProceedUnboundRules(heap[ref], cls);
        if err.Some? {
          assert heap[ref].pending != [];
          assert HasMultimethods(heap, cls, dict).0[ref] == md;
        } else {
          HasMultimethodsFailureKeepsPending(heap[ref := md], cls, rest);
        }
    }
  }

  /**
   * The promise of `has_multimethods`: when no binding fails, every
   * declaration pending on a dispatcher attribute of the class is registered
   * on that dispatcher at `(cls,) + argtypes`.
   */
  lemma {:induction false} HasMultimethodsRegisters(heap: Heap, cls: Cls, dict: seq<(string, Attr)>, ref: nat, j: nat)
    requires ValidHeap(heap) && RefsIn(heap, dict)
    requires HasMultimethods(heap, cls, dict).1.None?
    requires exists i :: 0 <= i < |dict| && dict[i].1 == DispatcherRef(ref)
    requires ref in heap && j < |heap[ref].pending|
    ensures Find(HasMultimethods(heap, cls, dict).0[ref].dispatcher.registry.tree, BoundKey(cls, heap[ref].pending[j]))
            == Some(heap[ref].pending[j].rule)
    decreases |dict|
  {
    var rest := dict[1..];
    RefsInRest(heap, dict);
    match dict[0].1
    case Plain(_) =>
      var i :| 0 <= i < |dict| && dict[i].1 == DispatcherRef(ref);
      assert rest[i - 1] == dict[i];
      HasMultimethodsRegisters(heap, cls, rest, ref, j);
    case DispatcherRef(ref0) =>
      var (md, err) := ProceedUnboundRules(heap[ref0], cls);
      if ref0 == ref {
        HasMultimethodsKeepsRules(heap[ref := md], cls, rest, ref, BoundKey(cls, heap[ref].pending[j]), heap[ref].pending[j].rule);
      } else {
        var i :| 0 <= i < |dict| && dict[i].1 == DispatcherRef(ref);
        assert rest[i - 1] == dict[i];
        HasMultimethodsRegisters(heap[ref0 := md], cls, rest, ref, j);
      }
  }

  /** A rule a dispatcher holds stays registered through a `has_multimethods` that does not fail. */
  lemma {:induction false} HasMultimethodsKeepsRules(heap: Heap, cls: Cls, dict: seq<(string, Attr)>, ref: nat, p: seq<Obj>, rule: Rule)
    requires ValidHeap(heap) && RefsIn(heap, dict) && ref in heap
    requires HasMultimethods(heap, cls, dict).1.None?
    requires Find(heap[ref].dispatcher.registry.tree, p) == Some(rule)
    ensures Find(HasMultimethods(heap, cls, dict).0[ref].dispatcher.registry.tree, p) == Some(rule)
    decreases |dict|
  {
    if dict != [] {
      var rest := dict[1..];
      RefsInRest(heap, dict);
      match dict[0].1
      case Plain(_) =>
        HasMultimethodsKeepsRules(heap, cls, rest, ref, p, rule);
      case DispatcherRef(ref0) =>
        var (md, err) := ProceedUnboundRules(heap[ref0], cls);
        if ref0 == ref {
          RegisterAllKeepsRules(heap[ref].dispatcher, cls, heap[ref].pending, p, rule);
        }
        HasMultimethodsKeepsRules(heap[ref0 := md], cls, rest, ref, p, rule);
    }
  }

  /** `md.__get__(obj, cls)`: the dispatcher itself from the class, a bound method from an instance. */
  datatype Accessed = Unbound(md: MethodDispatcher) | Bound(md: MethodDispatcher, self: Obj)

  function Get(md: MethodDispatcher, obj: Obj): (a: Accessed)
    ensures a.md == md
    ensures obj == NoneObj <==> a.Unbound?
    ensures a.Bound? ==> a.self == obj
  {
    if obj == NoneObj then Unbound(md) else Bound(md, obj)
  }

  /** Calling what `__get__` returned: a bound method passes the instance first. */
  function CallAccessed<R>(a: Accessed, args: seq<Obj>, kwargs: KwArgs, exec: Invocation -> R): (r: Result<R, DispatchError>)
    requires ValidMethod(a.md)
    ensures a.Bound? ==> r == Call(a.md.dispatcher, [a.self] + args, kwargs, exec)
    ensures a.Unbound? ==> r == Call(a.md.dispatcher, args, kwargs, exec)
  {
    match a
    case Unbound(md) => Call(md.dispatcher, args, kwargs, exec)
    case Bound(md, self) => Call(md.dispatcher, [self] + args, kwargs, exec)
  }

  /** The route taking `mro[k]` on the class axis and the exact type on every other axis. */
  lemma FallbackRoute(d: Dispatcher, self: Obj, args: seq<Obj>, k: nat, z: seq<nat>)
    requires Valid(d) && d.paramsArity == |args| + 1
    requires self != NoneObj && forall i :: 0 <= i < |args| ==> args[i] != NoneObj
    requires k < |Mro(TypeOf(self))| && |z| == |args| && forall i :: 0 <= i < |z| ==> z[i] == 0
    ensures var r := [k] + z;
            && InCandidates([self] + args, AxisList(d.registry.axes), r)
            && RouteKeys([self] + args, AxisList(d.registry.axes), r) ==
                 [ClassObj(Mro(TypeOf(self))[k])] + ExactKeys(args)
  {
    var all := [self] + args;
    var axes := AxisList(d.registry.axes);
    var r := [k] + z;
    var keys := RouteKeys(all, axes, r);
    var want := [ClassObj(Mro(TypeOf(self))[k])] + ExactKeys(args);
    forall i | 0 <= i < |r|
      ensures r[i] < |Candidates(axes[i], all[i])| && keys[i] == want[i]
    {
      assert axes[i] == TypeAxis;
      if i > 0 {
        assert all[i] == args[i - 1] && r[i] == 0;
      }
    }
  }

  /** A route at or after index `k` on the first axis and anything after it is not below `[k, 0, ..., 0]`. */
  lemma NotBelowFallback(rs: seq<nat>, k: nat, z: seq<nat>)
    requires |rs| == |z| + 1 && rs[0] >= k
    requires forall i :: 0 <= i < |z| ==> z[i] == 0
    ensures !LexLess(rs, [k] + z)
  {
    NothingBelowZeros(rs[1..], z);
    assert ([k] + z)[1..] == z;
  }

  /**
   * Inheritance on the class axis, through instance access (`__get__` binds
   * `self` as the first argument): when no rule matching the other arguments
   * is registered for a class before `mro[k]` in the MRO of `self`'s class,
   * the rule registered for `mro[k]` and the exact types of the other
   * arguments is the one called. The class of `self` may have rules of its
   * own for other argument types.
   */
  lemma InheritedRuleApplies<R>(md: MethodDispatcher, self: Obj, args: seq<Obj>, kwargs: KwArgs, exec: Invocation -> R, k: nat, rule: Rule)
    requires ValidMethod(md) && md.dispatcher.paramsArity == |args| + 1
    requires self != NoneObj && forall i :: 0 <= i < |args| ==> args[i] != NoneObj
    requires k < |Mro(TypeOf(self))|
    requires forall r :: Spelled(md.dispatcher.registry.tree, [self] + args, AxisList(md.dispatcher.registry.axes), r) ==> r[0] >= k
    requires Find(md.dispatcher.registry.tree, [ClassObj(Mro(TypeOf(self))[k])] + ExactKeys(args)) == Some(rule)
    ensures LookupRule(md.dispatcher, [self] + args) == Ok(rule)
    ensures CallAccessed(Get(md, self), args, kwargs, exec) == Ok(exec(Invocation(rule, [self] + args, kwargs)))
  {
    InheritedLookup(md.dispatcher, self, args, k, rule);
  }

  /** The resolution half of `InheritedRuleApplies`. */
  lemma InheritedLookup(d: Dispatcher, self: Obj, args: seq<Obj>, k: nat, rule: Rule)
    requires Valid(d) && d.paramsArity == |args| + 1
    requires self != NoneObj && forall i :: 0 <= i < |args| ==> args[i] != NoneObj
    requires k < |Mro(TypeOf(self))|
    requires forall r :: Spelled(d.registry.tree, [self] + args, AxisList(d.registry.axes), r) ==> r[0] >= k
    requires Find(d.registry.tree, [ClassObj(Mro(TypeOf(self))[k])] + ExactKeys(args)) == Some(rule)
    ensures LookupRule(d, [self] + args) == Ok(rule)
  {
    var all := [self] + args;
    var key := DispatchedArgs(d, all);
    var z := seq(|args|, _ => 0);
    assert key == all;
    FallbackSpelled(d, self, args, k, z, rule);
    NoneBelowFallback(d.registry.tree, key, AxisList(d.registry.axes), k, z);
    LookupAtLeast(d, all, [k] + z);
  }

  /** When every spelled route starts at `k` or later, none is below the fallback `[k, 0, ..., 0]`. */
  lemma NoneBelowFallback<T>(tree: Node<T>, key: seq<Obj>, axes: seq<Axis>, k: nat, z: seq<nat>)
    requires |key| <= |axes| && |key| == |z| + 1 && forall i :: 0 <= i < |z| ==> z[i] == 0
    requires forall r :: Spelled(tree, key, axes, r) ==> r[0] >= k
    ensures forall r :: Spelled(tree, key, axes, r) ==> !LexLess(r, [k] + z)
  {
    forall r | Spelled(tree, key, axes, r) ensures !LexLess(r, [k] + z) {
      NotBelowFallback(r, k, z);
    }
  }

  /** A spelled route with no spelled route below it gives the rule `lookup_rule` returns. */
  lemma LookupAtLeast(d: Dispatcher, args: seq<Obj>, r0: seq<nat>)
    requires Valid(d) && |args| >= d.paramsArity
    requires forall i :: 0 <= i < d.paramsArity ==> args[i] != NoneObj
    requires Spelled(d.registry.tree, DispatchedArgs(d, args), AxisList(d.registry.axes), r0)
    requires forall r :: Spelled(d.registry.tree, DispatchedArgs(d, args), AxisList(d.registry.axes), r) ==> !LexLess(r, r0)
    ensures LookupRule(d, args) == Ok(Find(d.registry.tree, RouteKeys(DispatchedArgs(d, args), AxisList(d.registry.axes), r0)).value)
  {
    var rs := LeastSpelledRoute(d, args, r0);
    assert rs == r0;
  }

  /** With some route spelled, `lookup_rule` succeeds with the target of the least one. */
  lemma LeastSpelledRoute(d: Dispatcher, args: seq<Obj>, r0: seq<nat>) returns (rs: seq<nat>)
    requires Valid(d) && |args| >= d.paramsArity
    requires forall i :: 0 <= i < d.paramsArity ==> args[i] != NoneObj
    requires Spelled(d.registry.tree, DispatchedArgs(d, args), AxisList(d.registry.axes), r0)
    ensures LookupRule(d, args).Ok?
    ensures var key := DispatchedArgs(d, args);
            var axes := AxisList(d.registry.axes);
            && Spelled(d.registry.tree, key, axes, rs)
            && Find(d.registry.tree, RouteKeys(key, axes, rs)) == Some(LookupRule(d, args).value)
            && forall r' :: Spelled(d.registry.tree, key, axes, r') && r' != rs ==> LexLess(rs, r')
  {
    var key := DispatchedArgs(d, args);
    var axes := AxisList(d.registry.axes);
    LookupRuleMostSpecific(d, args);
    rs :| Spelled(d.registry.tree, key, axes, rs)
      && Find(d.registry.tree, RouteKeys(key, axes, rs)) == Some(LookupRule(d, args).value)
      && forall r' :: Spelled(d.registry.tree, key, axes, r') && r' != rs ==> LexLess(rs, r');
  }

  /** The fallback route `[k, 0, ..., 0]` is spelled and finds `rule`. */
  lemma FallbackSpelled(d: Dispatcher, self: Obj, args: seq<Obj>, k: nat, z: seq<nat>, rule: Rule)
    requires Valid(d) && d.paramsArity == |args| + 1
    requires self != NoneObj && forall i :: 0 <= i < |args| ==> args[i] != NoneObj
    requires k < |Mro(TypeOf(self))| && |z| == |args| && forall i :: 0 <= i < |z| ==> z[i] == 0
    requires Find(d.registry.tree, [ClassObj(Mro(TypeOf(self))[k])] + ExactKeys(args)) == Some(rule)
    ensures var key := DispatchedArgs(d, [self] + args);
            var axes := AxisList(d.registry.axes);
            && Spelled(d.registry.tree, key, axes, [k] + z)
            && Find(d.registry.tree, RouteKeys(key, axes, [k] + z)) == Some(rule)
  {
    assert DispatchedArgs(d, [self] + args) == [self] + args;
    FallbackRoute(d, self, args, k, z);
  }

  /**
   * A rule the instance's own class registers for the exact types of the
   * other arguments overrides every inherited one.
   */
  lemma OwnRuleApplies<R>(md: MethodDispatcher, self: Obj, args: seq<Obj>, kwargs: KwArgs, exec: Invocation -> R, rule: Rule)
    requires ValidMethod(md) && md.dispatcher.paramsArity == |args| + 1
    requires self != NoneObj && forall i :: 0 <= i < |args| ==> args[i] != NoneObj
    requires Find(md.dispatcher.registry.tree, [ClassObj(TypeOf(self))] + ExactKeys(args)) == Some(rule)
    ensures CallAccessed(Get(md, self), args, kwargs, exec) == Ok(exec(Invocation(rule, [self] + args, kwargs)))
  {
    InheritedRuleApplies(md, self, args, kwargs, exec, 0, rule);
  }

  /**
   * An `otherwise` declaration bound to `cls` catches every call on an
   * instance of `cls` or of a subclass, whatever the other arguments' types.
   */
  lemma OtherwiseCatchesAll<R>(md: MethodDispatcher, meth: Rule, cls: Cls, self: Obj, args: seq<Obj>, kwargs: KwArgs, exec: Invocation -> R)
    requires ValidMethod(md) && ProceedUnboundRules(Otherwise(md, meth), cls).1.None?
    requires self != NoneObj && cls in Mro(TypeOf(self)) && |args| + 1 >= md.dispatcher.paramsArity
    requires forall i :: 0 <= i < |args| && i + 1 < md.dispatcher.paramsArity ==> args[i] != NoneObj && WellFormed(TypeOf(args[i]))
    ensures CallAccessed(Get(ProceedUnboundRules(Otherwise(md, meth), cls).0, self), args, kwargs, exec).Ok?
  {
    OtherwiseBound(md, meth, cls);
    ClassCatchAllSpelled(ProceedUnboundRules(Otherwise(md, meth), cls).0.dispatcher, self, args, cls);
  }

  /** A bound `otherwise` is found at `(cls, object, ..., object)`. */
  lemma OtherwiseBound(md: MethodDispatcher, meth: Rule, cls: Cls)
    requires ValidMethod(md) && ProceedUnboundRules(Otherwise(md, meth), cls).1.None?
    ensures var d := ProceedUnboundRules(Otherwise(md, meth), cls).0.dispatcher;
            && d.paramsArity == md.dispatcher.paramsArity >= 1
            && Find(d.registry.tree, [ClassObj(cls)] + ObjectKeys(d.paramsArity - 1)) == Some(meth)
  {
    var md1 := Otherwise(md, meth);
    var last := |md1.pending| - 1;
    var types := BoundTypes(cls, md1.pending[last]);
    RegisterAllSucceedsIff(md1.dispatcher, cls, md1.pending);
    assert RuleFits(md1.dispatcher, md1.pending[last].rule, types);
    assert types == [ClassObj(cls)] + ObjectKeys(md.dispatcher.paramsArity - 1);
    TrimKeepsLastKey(types);
  }

  /** A key list that does not end in `None` is its own trimming. */
  lemma TrimKeepsLastKey(s: seq<Obj>)
    requires s != [] && s[|s| - 1] != NoneObj
    ensures TrimTrailingNones(s) == s
  {
  }

  /** A rule at `(cls, object, ..., object)` applies to every instance of `cls` or a subclass. */
  lemma ClassCatchAllSpelled(d: Dispatcher, self: Obj, args: seq<Obj>, cls: Cls)
    requires Valid(d) && d.paramsArity >= 1 && |args| + 1 >= d.paramsArity
    requires self != NoneObj && cls in Mro(TypeOf(self))
    requires forall i :: 0 <= i < |args| && i + 1 < d.paramsArity ==> args[i] != NoneObj && WellFormed(TypeOf(args[i]))
    requires Find(d.registry.tree, [ClassObj(cls)] + ObjectKeys(d.paramsArity - 1)).Some?
    ensures LookupRule(d, [self] + args).Ok?
  {
    var all := [self] + args;
    var key := DispatchedArgs(d, all);
    var axes := AxisList(d.registry.axes);
    assert forall i :: 1 <= i < |key| ==> key[i] == args[i - 1];
    var r := CatchAllRoute(key, axes, cls);
    assert Spelled(d.registry.tree, key, axes, r);
    LookupRuleMostSpecific(d, all);
  }

  /** The route taking `cls` on the first type axis and `object` on every other one. */
  lemma CatchAllRoute(key: seq<Obj>, axes: seq<Axis>, cls: Cls) returns (r: seq<nat>)
    requires 0 < |key| <= |axes| && forall i :: 0 <= i < |axes| ==> axes[i] == TypeAxis
    requires key[0] != NoneObj && cls in Mro(TypeOf(key[0]))
    requires forall i :: 1 <= i < |key| ==> key[i] != NoneObj && WellFormed(TypeOf(key[i]))
    ensures |r| == |key| && InCandidates(key, axes, r)
    ensures RouteKeys(key, axes, r) == [ClassObj(cls)] + ObjectKeys(|key| - 1)
  {
    var want := [ClassObj(cls)] + ObjectKeys(|key| - 1);
    var j :| 0 <= j < |Mro(TypeOf(key[0]))| && Mro(TypeOf(key[0]))[j] == cls;
    r := seq(|key|, i requires 0 <= i < |key| => if i == 0 then j else |Mro(TypeOf(key[i]))| - 1);
    forall i | 0 <= i < |key|
      ensures r[i] < |Candidates(axes[i], key[i])| && RouteKeys(key, axes, r)[i] == want[i]
    {
      if i > 0 {
        MroEndsInObject(TypeOf(key[i]));
      }
    }
  }
}
