/**
 * Multiple dispatch for free functions (generic/multidispatch.py): a registry
 * with one type axis per dispatched parameter, registration-time arity and
 * shape checks, and call-time resolution on the run-time types of the first
 * `params_arity` arguments.
 */
module MultiDispatch {
  import opened Wrappers
  import opened PyTypes
  import opened Registry
  import opened QueryOrder

  /**
   * The parts of `inspect.getargspec` the dispatcher reads: parameter names,
   * the names of the `*args` and `**kwargs` parameters, and default values.
   * A missing `defaults` tuple is the empty sequence.
   */
  datatype ArgSpec = ArgSpec(args: seq<string>, varargs: Option<string>, keywords: Option<string>, defaults: seq<Obj>)

  /** A rule: an opaque callable identity together with its parameter list. */
  datatype Rule = Rule(id: nat, argspec: ArgSpec)

  /** `arity`: the number of positional parameters without a default. */
  function Arity(a: ArgSpec): int
  {
    |a.args| - |a.defaults|
  }

  /** `len(x) if x else 0` for a name that may be missing. */
  function NameLength(x: Option<string>): nat
  {
    match x
    case None => 0
    case Some(s) => |s|
  }

  /**
   * The four lengths `is_equalent_argspecs` compares. Note that for `*args`
   * and `**kwargs` this is the length of the parameter NAME.
   */
  function FieldLengths(a: ArgSpec): (nat, nat, nat, nat)
  {
    (|a.args|, NameLength(a.varargs), NameLength(a.keywords), |a.defaults|)
  }

  /** `is_equalent_argspecs`: equal field lengths, field by field. */
  predicate IsEquivalentArgspecs(left: ArgSpec, right: ArgSpec)
  {
    FieldLengths(left) == FieldLengths(right)
  }

  // ---------------------------------------------------------------------------
  // Axis names "arg_0", "arg_1", ...
  // ---------------------------------------------------------------------------

  function DigitChar(d: nat): char
    requires d < 10
  {
    "0123456789"[d]
  }

  /** `"%d" % n`. */
  function Decimal(n: nat): (s: string)
    ensures |s| >= 1
    ensures n >= 10 ==> |s| >= 2
    decreases n
  {
    if n < 10 then [DigitChar(n)] else Decimal(n / 10) + [DigitChar(n % 10)]
  }

  lemma {:induction false} DecimalInjective(a: nat, b: nat)
    requires Decimal(a) == Decimal(b)
    ensures a == b
    decreases a
  {
    if a >= 10 && b >= 10 {
      var sa := Decimal(a);
      assert sa[|sa| - 1] == DigitChar(a % 10) && Decimal(b)[|sa| - 1] == DigitChar(b % 10);
      assert a % 10 == b % 10;
      assert Decimal(a / 10) == sa[..|sa| - 1] == Decimal(b)[..|sa| - 1] == Decimal(b / 10);
      DecimalInjective(a / 10, b / 10);
    }
  }

  /** `"arg_%d" % n`. */
  function ArgName(n: nat): string
  {
    "arg_" + Decimal(n)
  }

  lemma ArgNameInjective(a: nat, b: nat)
    requires ArgName(a) == ArgName(b)
    ensures a == b
  {
    assert Decimal(a) == ArgName(a)[4..] == ArgName(b)[4..] == Decimal(b);
    DecimalInjective(a, b);
  }

  /** The dispatcher's axes: one type axis per dispatched parameter. */
  function ArgAxes(k: nat): (axes: seq<NamedAxis>)
    ensures |axes| == k
    ensures forall i :: 0 <= i < k ==> axes[i] == NamedAxis(ArgName(i), TypeAxis)
  {
    seq(k, i requires 0 <= i < k => NamedAxis(ArgName(i), TypeAxis))
  }

  predicate DistinctAxisNames(axes: seq<NamedAxis>)
  {
    forall i, j :: 0 <= i < j < |axes| ==> axes[i].name != axes[j].name
  }

  /** With distinct names the axes dictionary has one entry per axis. */
  lemma {:induction false} AxesDictSizeDistinct(axes: seq<NamedAxis>)
    requires DistinctAxisNames(axes)
    ensures |AxesDict(axes)| == |axes|
  {
    if axes != [] {
      var last := |axes| - 1;
      var prefix := axes[..last];
      assert DistinctAxisNames(prefix);
      AxesDictSizeDistinct(prefix);
      AxesDictFacts(prefix);
      forall k | k in AxesDict(prefix) ensures k != axes[last].name {
        var i := AxesDict(prefix)[k];
        assert prefix[i] == axes[i];
      }
    }
  }

  lemma ArgAxesDistinct(k: nat)
    ensures DistinctAxisNames(ArgAxes(k))
  {
    forall i, j | 0 <= i < j < k ensures ArgAxes(k)[i].name != ArgAxes(k)[j].name {
      if ArgName(i) == ArgName(j) {
        ArgNameInjective(i, j);
      }
    }
  }

  /** Two key sequences without trailing `None` that agree slot by slot are equal. */
  lemma SlotsDetermine(a: seq<Obj>, b: seq<Obj>)
    requires a == [] || a[|a| - 1] != NoneObj
    requires b == [] || b[|b| - 1] != NoneObj
    requires forall i: nat :: Slot(a, i) == Slot(b, i)
    ensures a == b
  {
    var n := if |a| < |b| then |b| else |a|;
    if n > 0 {
      assert Slot(a, n - 1) == Slot(b, n - 1);
    }
    assert |a| == |b|;
    forall i | 0 <= i < |a| ensures a[i] == b[i] {
      assert Slot(a, i) == Slot(b, i);
    }
  }

  /** Positional-only keys, no more than the axes: alignment only trims the tail. */
  lemma PositionalAlign<T>(r: Registry<T>, args: seq<Obj>)
    requires DistinctAxisNames(r.axes) && |args| <= |r.axes|
    ensures AlignWithAxes(r, args, []) == Ok(TrimTrailingNones(args))
  {
    AxesDictSizeDistinct(r.axes);
    var res := AlignKeys<T>(r.axes, args, []);
    assert res.Ok?;
    UntargetedIsTrimmed(res.value, args, AxesDict(r.axes));
  }

  /** A key list without trailing `None` that agrees with `args` on every slot is `args` trimmed. */
  lemma UntargetedIsTrimmed(a: seq<Obj>, args: seq<Obj>, d: map<string, nat>)
    requires a == [] || a[|a| - 1] != NoneObj
    requires forall i: nat :: !Targeted(d, [], i) ==> Slot(a, i) == Slot(args, i)
    ensures a == TrimTrailingNones(args)
  {
    forall i: nat ensures Slot(a, i) == Slot(TrimTrailingNones(args), i) {
      assert !Targeted(d, [], i);
      SlotOfTrimmed(args, i);
    }
    SlotsDetermine(a, TrimTrailingNones(args));
  }

  // ---------------------------------------------------------------------------
  // The tree invariant of a dispatcher
  // ---------------------------------------------------------------------------

  /**
   * Every node `depth` levels below this one holds a target: such nodes are
   * only ever created as the end of a full-length registration.
   */
  ghost predicate DeepTargets<T>(n: Node<T>, depth: nat)
    decreases depth
  {
    depth == 0 ||
    forall k :: k in n.children ==>
      if depth == 1 then n.children[k].target.Some? else DeepTargets(n.children[k], depth - 1)
  }

  lemma {:induction false} InsertKeepsDeepTargets<T>(n: Node<T>, keys: seq<Obj>, target: T, depth: nat)
    requires DeepTargets(n, depth) && |keys| <= depth
    requires Insert(n, keys, target).Ok?
    ensures DeepTargets(Insert(n, keys, target).value, depth)
    decreases |keys|
  {
    if keys != [] {
      var child := if keys[0] in n.children then n.children[keys[0]] else EmptyNode();
      var c := Insert(child, keys[1..], target).value;
      if depth > 1 {
        InsertKeepsDeepTargets(child, keys[1..], target, depth - 1);
      } else {
        assert keys[1..] == [];
      }
    }
  }

  /** Along a reaching route of full depth every node reached holds a target. */
  lemma {:induction false} DeepTargetsReached<T>(n: Node<T>, objs: seq<Obj>, axes: seq<Axis>, r: seq<nat>)
    requires |objs| <= |axes|
    requires DeepTargets(n, |objs|) && Reaches(n, objs, axes, r)
    requires n.target.Some? || |objs| > 0
    ensures TargetOf(n, objs, axes, r).Some?
    decreases |r|
  {
    if r != [] {
      var c := Candidates(axes[0], objs[0]);
      var child := n.children[c[r[0]]];
      if |objs| > 1 {
        DeepTargetsReached(child, objs[1..], axes[1..], r[1..]);
      } else {
        assert r[1..] == [] && objs[1..] == [];
        assert RouteNode(n, objs, axes, r) == RouteNode(child, objs[1..], axes[1..], r[1..]) == Some(child);
      }
    }
  }

  // ---------------------------------------------------------------------------
  // The dispatcher
  // ---------------------------------------------------------------------------

  datatype Dispatcher = Dispatcher(argspec: ArgSpec, paramsArity: nat, registry: Registry<Rule>)

  /** The errors a dispatcher raises (`TypeError`, or the registry's errors). */
  datatype DispatchError =
    | NotEnoughPositional
    | WrongTypeCount
    | NonConformingRule
    | RegistryFailure(cause: RegistryError<Rule>)
    | NoRule(args: seq<Obj>)

  /** What `__init__` establishes and every registration keeps. */
  ghost predicate Valid(d: Dispatcher)
  {
    d.registry.axes == ArgAxes(d.paramsArity) && DeepTargets(d.registry.tree, d.paramsArity)
  }

  /** `Dispatcher(argspec, params_arity)`. */
  function NewDispatcher(argspec: ArgSpec, paramsArity: nat): (r: Result<Dispatcher, DispatchError>)
    ensures r.Ok? <==> Arity(argspec) >= paramsArity
    ensures r.Err? ==> r.error == NotEnoughPositional
    ensures r.Ok? ==> Valid(r.value) && r.value.argspec == argspec && r.value.paramsArity == paramsArity
    ensures r.Ok? ==> |r.value.registry.axes| == paramsArity
    ensures r.Ok? ==> forall p :: Find(r.value.registry.tree, p) == None
  {
    if Arity(argspec) < paramsArity then Err(NotEnoughPositional)
    else
      var reg := NewRegistry<Rule>(ArgAxes(paramsArity));
      assert forall p :: Find(reg.tree, p) == None by {
        forall p ensures Find(reg.tree, p) == None { EmptyFindsNothing<Rule>(p); }
      }
      Ok(Dispatcher(argspec, paramsArity, reg))
  }

  /** The checks `register_rule` makes before touching the registry. */
  predicate RuleFits(d: Dispatcher, rule: Rule, argtypes: seq<Obj>)
  {
    |argtypes| == d.paramsArity && IsEquivalentArgspecs(rule.argspec, d.argspec)
  }

  /**
   * `register_rule` (and the `when` decorator, which only curries it): check
   * the number of types and the rule's shape, then register at the types.
   */
  function RegisterRule(d: Dispatcher, rule: Rule, argtypes: seq<Obj>): (r: Result<Dispatcher, DispatchError>)
    requires Valid(d)
    ensures |argtypes| != d.paramsArity ==> r == Err(WrongTypeCount)
    ensures |argtypes| == d.paramsArity && !IsEquivalentArgspecs(rule.argspec, d.argspec) ==> r == Err(NonConformingRule)
    ensures RuleFits(d, rule, argtypes) ==>
              (r.Ok? <==> Find(d.registry.tree, TrimTrailingNones(argtypes)) == None)
    ensures RuleFits(d, rule, argtypes) && r.Err? ==>
              r.error == RegistryFailure(Conflict(rule, Find(d.registry.tree, TrimTrailingNones(argtypes)).value))
    ensures r.Ok? ==> Valid(r.value) && r.value.argspec == d.argspec && r.value.paramsArity == d.paramsArity
    ensures r.Ok? ==> Find(r.value.registry.tree, TrimTrailingNones(argtypes)) == Some(rule)
  {
    if |argtypes| != d.paramsArity then Err(WrongTypeCount)
    else if !IsEquivalentArgspecs(rule.argspec, d.argspec) then Err(NonConformingRule)
    else
      ArgAxesDistinct(d.paramsArity);
      PositionalAlign(d.registry, argtypes);
      match Register(d.registry, rule, argtypes, [])
      case Err(e) => Err(RegistryFailure(e))
      case Ok(reg) =>
        InsertKeepsDeepTargets(d.registry.tree, TrimTrailingNones(argtypes), rule, d.paramsArity);
        Ok(d.(registry := reg))
  }

  /** A registration leaves every other key path as it was. */
  lemma RegisterRuleLeavesOtherPaths(d: Dispatcher, rule: Rule, argtypes: seq<Obj>, p: seq<Obj>)
    requires Valid(d) && RegisterRule(d, rule, argtypes).Ok?
    requires p != TrimTrailingNones(argtypes)
    ensures Find(RegisterRule(d, rule, argtypes).value.registry.tree, p) == Find(d.registry.tree, p)
  {
    ArgAxesDistinct(d.paramsArity);
    PositionalAlign(d.registry, argtypes);
    RegisterLeavesOtherPaths(d.registry, rule, argtypes, [], p);
  }

  /**
   * Every rule the dispatcher holds has the dispatcher's parameter shape, so
   * whichever rule a call resolves to takes the same positional arguments.
   */
  ghost predicate Conforming(d: Dispatcher)
  {
    forall p :: Find(d.registry.tree, p).Some? ==> IsEquivalentArgspecs(Find(d.registry.tree, p).value.argspec, d.argspec)
  }

  /** A new dispatcher holds no rule, so it conforms. */
  lemma NewDispatcherConforming(argspec: ArgSpec, paramsArity: nat)
    ensures NewDispatcher(argspec, paramsArity).Ok? ==> Conforming(NewDispatcher(argspec, paramsArity).value)
  {
  }

  /** The shape check of `register_rule` keeps every stored rule conforming. */
  lemma RegisterRuleKeepsConforming(d: Dispatcher, rule: Rule, argtypes: seq<Obj>)
    requires Valid(d) && Conforming(d)
    ensures RegisterRule(d, rule, argtypes).Ok? ==> Conforming(RegisterRule(d, rule, argtypes).value)
  {
    var r := RegisterRule(d, rule, argtypes);
    if r.Ok? {
      forall p | Find(r.value.registry.tree, p).Some?
        ensures IsEquivalentArgspecs(Find(r.value.registry.tree, p).value.argspec, r.value.argspec)
      {
        if p != TrimTrailingNones(argtypes) {
          RegisterRuleLeavesOtherPaths(d, rule, argtypes, p);
        }
      }
    }
  }

  function Min(a: nat, b: nat): nat
  {
    if a < b then a else b
  }

  /** The arguments that take part in dispatch: `args[:params_arity]`. */
  function DispatchedArgs(d: Dispatcher, args: seq<Obj>): (key: seq<Obj>)
    ensures |key| <= d.paramsArity && |key| <= |args| && key == args[..|key|]
    ensures |args| >= d.paramsArity ==> |key| == d.paramsArity
  {
    args[..Min(|args|, d.paramsArity)]
  }

  /**
   * `lookup_rule`: resolve on the first `params_arity` arguments; `TypeError`
   * naming those arguments when nothing is found.
   */
  function LookupRule(d: Dispatcher, args: seq<Obj>): (r: Result<Rule, DispatchError>)
    requires Valid(d)
    ensures r.Err? ==> r.error == NoRule(DispatchedArgs(d, args))
    ensures r.Ok? <==> Lookup(d.registry, DispatchedArgs(d, args), []).Ok? && Lookup(d.registry, DispatchedArgs(d, args), []).value.Some?
    ensures r.Ok? ==> Lookup(d.registry, DispatchedArgs(d, args), []) == Ok(Some(r.value))
  {
    var key := DispatchedArgs(d, args);
    ArgAxesDistinct(d.paramsArity);
    PositionalAlign(d.registry, key);
    match Lookup(d.registry, key, [])
    case Err(e) => Err(RegistryFailure(e))
    case Ok(None) => Err(NoRule(key))
    case Ok(Some(rule)) => Ok(rule)
  }

  /**
   * In a conforming dispatcher the rule a call resolves to has the
   * dispatcher's shape, hence its arity: every overload is called the same way.
   */
  lemma LookupRuleConforms(d: Dispatcher, args: seq<Obj>)
    requires Valid(d) && Conforming(d)
    ensures LookupRule(d, args).Ok? ==>
              IsEquivalentArgspecs(LookupRule(d, args).value.argspec, d.argspec)
              && Arity(LookupRule(d, args).value.argspec) == Arity(d.argspec)
  {
    if LookupRule(d, args).Ok? {
      var key := DispatchedArgs(d, args);
      ArgAxesDistinct(d.paramsArity);
      PositionalAlign(d.registry, key);
      LookupTakesLeastRoute(d.registry, key, []);
      var objs := AlignWithAxes(d.registry, key, []).value;
      var axes := AxisList(d.registry.axes);
      var R := Routes(d.registry.tree, objs, axes);
      ReachedRouteReadsKeys(d.registry.tree, objs, axes, R[0]);
      assert Find(d.registry.tree, RouteKeys(objs, axes, R[0])) == Some(LookupRule(d, args).value);
    }
  }

  /** Arguments past the dispatched ones never influence resolution. */
  lemma LookupRuleIgnoresExtraArgs(d: Dispatcher, args: seq<Obj>, extra: seq<Obj>)
    requires Valid(d) && |args| >= d.paramsArity
    ensures LookupRule(d, args + extra) == LookupRule(d, args)
  {
    assert DispatchedArgs(d, args + extra) == DispatchedArgs(d, args);
  }

  /** A call of the rule with exactly the arguments the dispatcher received. */
  datatype Invocation = Invocation(rule: Rule, args: seq<Obj>, kwargs: KwArgs)

  /**
   * `__call__`: resolve the rule, then call it with all the original
   * arguments; `exec` stands for running the rule, whose result is returned
   * unchanged.
   */
  function Call<R>(d: Dispatcher, args: seq<Obj>, kwargs: KwArgs, exec: Invocation -> R): (r: Result<R, DispatchError>)
    requires Valid(d)
    ensures r.Ok? <==> LookupRule(d, args).Ok?
    ensures r.Err? ==> r.error == NoRule(DispatchedArgs(d, args))
    ensures r.Ok? ==> r.value == exec(Invocation(LookupRule(d, args).value, args, kwargs))
  {
    match LookupRule(d, args)
    case Err(e) => Err(e)
    case Ok(rule) => Ok(exec(Invocation(rule, args, kwargs)))
  }

  /** `multifunction(*argtypes)(func)`: a fresh dispatcher holding just `func`. */
  function Multifunction(argtypes: seq<Obj>, func: Rule): (r: Result<Dispatcher, DispatchError>)
    ensures r.Ok? <==> Arity(func.argspec) >= |argtypes|
    ensures r.Err? ==> r.error == NotEnoughPositional
    ensures r.Ok? ==> Valid(r.value) && r.value.paramsArity == |argtypes| && r.value.argspec == func.argspec
    ensures r.Ok? ==> Find(r.value.registry.tree, TrimTrailingNones(argtypes)) == Some(func)
    ensures r.Ok? ==> forall p :: p != TrimTrailingNones(argtypes) ==> Find(r.value.registry.tree, p) == None
  {
    match NewDispatcher(func.argspec, |argtypes|)
    case Err(e) => Err(e)
    case Ok(d) =>
      var r := RegisterRule(d, func, argtypes);
      assert r.Ok? ==> forall p :: p != TrimTrailingNones(argtypes) ==> Find(r.value.registry.tree, p) == None by {
        if r.Ok? {
          forall p | p != TrimTrailingNones(argtypes) ensures Find(r.value.registry.tree, p) == None {
            RegisterRuleLeavesOtherPaths(d, func, argtypes, p);
          }
        }
      }
      r
  }

  // ---------------------------------------------------------------------------
  // Resolution order
  // ---------------------------------------------------------------------------

  /**
   * A choice `r` of one candidate per object (for a type axis, one class of
   * the MRO of the object's type, by index) that spells a key path holding a
   * registered target.
   */
  ghost predicate Spelled<T>(n: Node<T>, objs: seq<Obj>, axes: seq<Axis>, r: seq<nat>)
    requires |objs| <= |axes|
  {
    |r| == |objs| && InCandidates(objs, axes, r) && Find(n, RouteKeys(objs, axes, r)).Some?
  }

  /** What `lookup` makes of a query: its first element, `None` if it is empty. */
  function First<T>(q: seq<Option<T>>): (f: Option<T>)
    ensures f.Some? ==> q != [] && f == q[0]
    ensures q != [] && q[0].Some? ==> f == q[0]
  {
    if q == [] then None else q[0]
  }

  /** A choice spells a registered path exactly when it reaches a node holding a target. */
  lemma SpelledIffReachedTarget<T>(n: Node<T>, objs: seq<Obj>, axes: seq<Axis>, r: seq<nat>)
    requires |objs| <= |axes|
    ensures Spelled(n, objs, axes, r) <==> Reaches(n, objs, axes, r) && TargetOf(n, objs, axes, r).Some?
    ensures Spelled(n, objs, axes, r) ==> TargetOf(n, objs, axes, r) == Find(n, RouteKeys(objs, axes, r))
  {
    if Spelled(n, objs, axes, r) {
      FoundKeysAreReached(n, objs, axes, r);
    }
    if Reaches(n, objs, axes, r) {
      ReachedRouteReadsKeys(n, objs, axes, r);
    }
  }

  /**
   * Under the tree invariant, the first target a query yields exists exactly
   * when some choice spells a registered path, and it is the target of the
   * lexicographically least such choice.
   */
  lemma FirstQueriedIsLeastSpelled<T>(n: Node<T>, objs: seq<Obj>, axes: seq<Axis>)
    requires |objs| <= |axes| && DeepTargets(n, |objs|)
    ensures var f := First(QueryNode(n, objs, axes));
            && (f.Some? <==> exists r :: Spelled(n, objs, axes, r))
            && (f.Some? ==>
                  exists r :: Spelled(n, objs, axes, r) && Find(n, RouteKeys(objs, axes, r)) == f
                    && forall r' :: Spelled(n, objs, axes, r') && r' != r ==> LexLess(r, r'))
  {
    QueryTakesLeastRoute(n, objs, axes);
    var R := Routes(n, objs, axes);
    var f := First(QueryNode(n, objs, axes));
    forall r ensures Spelled(n, objs, axes, r) <==> Reaches(n, objs, axes, r) && TargetOf(n, objs, axes, r).Some? {
      SpelledIffReachedTarget(n, objs, axes, r);
    }
    if R == [] {
      forall r ensures !Reaches(n, objs, axes, r) {
        RoutesComplete(n, objs, axes, r);
      }
    } else {
      var r0 := R[0];
      SpelledIffReachedTarget(n, objs, axes, r0);
      if |objs| > 0 {
        DeepTargetsReached(n, objs, axes, r0);
        assert Spelled(n, objs, axes, r0);
      } else {
        assert forall r :: Reaches(n, objs, axes, r) ==> r == r0;
      }
    }
  }

  /** A valid dispatcher's lookup of positional arguments is the first queried target. */
  lemma LookupIsFirstQueried(d: Dispatcher, key: seq<Obj>)
    requires Valid(d) && |key| <= d.paramsArity
    requires key == [] || key[|key| - 1] != NoneObj
    ensures Lookup(d.registry, key, []) == Ok(First(QueryNode(d.registry.tree, key, AxisList(d.registry.axes))))
  {
    ArgAxesDistinct(d.paramsArity);
    PositionalAlign(d.registry, key);
    assert TrimTrailingNones(key) == key;
  }

  /**
   * `lookup_rule` on arguments that are not `None`: a rule is found exactly
   * when some choice of classes from the arguments' MROs spells a registered
   * key path, and the rule found is the one registered at the lexicographically
   * least such choice: the most specific class for the first argument, then
   * for the second among those, and so on.
   */
  lemma LookupRuleMostSpecific(d: Dispatcher, args: seq<Obj>)
    requires Valid(d) && |args| >= d.paramsArity
    requires forall i :: 0 <= i < d.paramsArity ==> args[i] != NoneObj
    ensures var key := DispatchedArgs(d, args);
            var axes := AxisList(d.registry.axes);
            var tree := d.registry.tree;
            && (LookupRule(d, args).Ok? <==> exists r :: Spelled(tree, key, axes, r))
            && (LookupRule(d, args).Ok? ==>
                  exists r :: Spelled(tree, key, axes, r)
                    && Find(tree, RouteKeys(key, axes, r)) == Some(LookupRule(d, args).value)
                    && forall r' :: Spelled(tree, key, axes, r') && r' != r ==> LexLess(r, r'))
  {
    var key := DispatchedArgs(d, args);
    LookupIsFirstQueried(d, key);
    FirstQueriedIsLeastSpelled(d.registry.tree, key, AxisList(d.registry.axes));
  }

  /** No index vector is lexicographically below the all-zero one. */
  lemma {:induction false} NothingBelowZeros(a: seq<nat>, z: seq<nat>)
    requires forall i :: 0 <= i < |z| ==> z[i] == 0
    ensures !LexLess(a, z)
    decreases |z|
  {
    if a != [] && z != [] {
      NothingBelowZeros(a[1..], z[1..]);
    }
  }

  /** The key path of the arguments' exact types. */
  function ExactKeys(key: seq<Obj>): (p: seq<Obj>)
    ensures |p| == |key| && forall i :: 0 <= i < |key| ==> p[i] == ClassObj(TypeOf(key[i]))
  {
    seq(|key|, i requires 0 <= i < |key| => ClassObj(TypeOf(key[i])))
  }

  /** A rule registered for the exact types of the arguments is always chosen. */
  lemma ExactTypesWin(d: Dispatcher, args: seq<Obj>, rule: Rule)
    requires Valid(d) && |args| >= d.paramsArity
    requires forall i :: 0 <= i < d.paramsArity ==> args[i] != NoneObj
    requires Find(d.registry.tree, ExactKeys(args[..d.paramsArity])) == Some(rule)
    ensures LookupRule(d, args) == Ok(rule)
  {
    var key := DispatchedArgs(d, args);
    var axes := AxisList(d.registry.axes);
    var z := seq(|key|, _ => 0);
    assert RouteKeys(key, axes, z) == ExactKeys(key);
    assert Spelled(d.registry.tree, key, axes, z);
    LookupRuleMostSpecific(d, args);
    var r :| Spelled(d.registry.tree, key, axes, r)
      && Find(d.registry.tree, RouteKeys(key, axes, r)) == Some(LookupRule(d, args).value)
      && forall r' :: Spelled(d.registry.tree, key, axes, r') && r' != r ==> LexLess(r, r');
    NothingBelowZeros(r, z);
    assert r == z;
  }

  /** `(object, ..., object)`: the key path of a catch-all rule. */
  function ObjectKeys(n: nat): (p: seq<Obj>)
    ensures |p| == n && forall i :: 0 <= i < n ==> p[i] == ClassObj(Object)
  {
    seq(n, _ => ClassObj(Object))
  }

  /** A rule registered for `object` in every position applies to any arguments. */
  lemma ObjectCatchesAll(d: Dispatcher, args: seq<Obj>)
    requires Valid(d) && |args| >= d.paramsArity
    requires forall i :: 0 <= i < d.paramsArity ==> args[i] != NoneObj && WellFormed(TypeOf(args[i]))
    requires Find(d.registry.tree, ObjectKeys(d.paramsArity)).Some?
    ensures LookupRule(d, args).Ok?
  {
    var key := DispatchedArgs(d, args);
    var axes := AxisList(d.registry.axes);
    var last := seq(|key|, i requires 0 <= i < |key| => |Mro(TypeOf(key[i]))| - 1);
    forall i | 0 <= i < |key| ensures RouteKeys(key, axes, last)[i] == ClassObj(Object) {
      MroEndsInObject(TypeOf(key[i]));
    }
    assert RouteKeys(key, axes, last) == ObjectKeys(d.paramsArity);
    assert Spelled(d.registry.tree, key, axes, last);
    LookupRuleMostSpecific(d, args);
  }
}
