/**
 * The multi-axis specificity registry (generic/registry.py): a tree with one
 * level per axis, registration of one target per key path, exact reads, and
 * the left-to-right, most-specific-first query.
 */
module Registry {
  import opened Wrappers
  import opened PyTypes

  /** How one axis turns an object into candidate keys. */
  datatype Axis = SimpleAxis | TypeAxis

  /** One `(name, axis)` pair given to the registry's constructor. */
  datatype NamedAxis = NamedAxis(name: string, axis: Axis)

  /**
   * A tree node (`_TreeNode`): the target registered at this path, if any,
   * and the children keyed by axis key; `NoneObj` is the key of a skipped axis.
   */
  datatype Node<T> = Node(target: Option<T>, children: map<Obj, Node<T>>)

  datatype Registry<T> = Registry(axes: seq<NamedAxis>, tree: Node<T>)

  /** The `ValueError`s (and one `IndexError`) the registry raises. */
  datatype RegistryError<T> =
    | TooManyKeys
    | NoAxisNamed(name: string)
    | AxisGivenTwice
    | AxisIndexOutOfRange
    | Conflict(target: T, existing: T)

  /** Keyword arguments: ordered, with no name given twice (a Python dict). */
  predicate DistinctNames(kw: seq<(string, Obj)>)
  {
    forall i, j :: 0 <= i < j < |kw| ==> kw[i].0 != kw[j].0
  }

  type KwArgs = kw: seq<(string, Obj)> | DistinctNames(kw)

  function EmptyNode<T>(): Node<T>
  {
    Node(None, map[])
  }

  function NewRegistry<T>(axes: seq<NamedAxis>): Registry<T>
  {
    Registry(axes, EmptyNode())
  }

  /** The registry's axes in order (`self._axes`). */
  function AxisList(axes: seq<NamedAxis>): (r: seq<Axis>)
    ensures |r| == |axes|
    ensures forall i :: 0 <= i < |axes| ==> r[i] == axes[i].axis
  {
    seq(|axes|, i requires 0 <= i < |axes| => axes[i].axis)
  }

  // ---------------------------------------------------------------------------
  // Aligning positional and keyword keys with the axes
  // ---------------------------------------------------------------------------

  /**
   * `self._axes_dict`: each axis name mapped to its index. When a name is
   * repeated the dictionary comprehension keeps the LAST index, and the
   * dictionary has one entry per distinct name.
   */
  function AxesDict(axes: seq<NamedAxis>): map<string, nat>
  {
    if axes == [] then map[]
    else AxesDict(axes[..|axes| - 1])[axes[|axes| - 1].name := |axes| - 1]
  }

  /**
   * Every axis name is in the dictionary, each name maps to an axis carrying
   * that name and no later axis carries it, and there are at most as many
   * entries as axes.
   */
  lemma {:induction false} AxesDictFacts(axes: seq<NamedAxis>)
    ensures forall i :: 0 <= i < |axes| ==> axes[i].name in AxesDict(axes)
    ensures forall k :: k in AxesDict(axes) ==> AxesDict(axes)[k] < |axes| && axes[AxesDict(axes)[k]].name == k
    ensures forall k, j :: k in AxesDict(axes) && AxesDict(axes)[k] < j < |axes| ==> axes[j].name != k
    ensures |AxesDict(axes)| <= |axes|
  {
    if axes != [] {
      var last := |axes| - 1;
      var prefix := axes[..last];
      AxesDictFacts(prefix);
      var d0 := AxesDict(prefix);
      var d := AxesDict(axes);
      var name := axes[last].name;
      assert d == d0[name := last];
      forall i | 0 <= i < |axes| ensures axes[i].name in d {
        if i < last { assert prefix[i] == axes[i]; }
      }
      forall k | k in d ensures d[k] < |axes| && axes[d[k]].name == k {
        if k != name { assert prefix[d0[k]] == axes[d0[k]]; }
      }
      forall k, j | k in d && d[k] < j < |axes| ensures axes[j].name != k {
        if k != name && j < last { assert prefix[j] == axes[j]; }
      }
    }
  }

  /** Two names never share an index in the axes dictionary. */
  predicate InjectiveIndex(d: map<string, nat>)
  {
    forall k1, k2 :: k1 in d && k2 in d && d[k1] == d[k2] ==> k1 == k2
  }

  lemma AxesDictInjective(axes: seq<NamedAxis>)
    ensures InjectiveIndex(AxesDict(axes))
  {
    AxesDictFacts(axes);
  }

  /** The key at position `i` of an aligned list, `NoneObj` past its end. */
  function Slot(s: seq<Obj>, i: nat): Obj
  {
    if i < |s| then s[i] else NoneObj
  }

  /** Whether some keyword argument names the axis with index `i`. */
  predicate Targeted(d: map<string, nat>, kw: seq<(string, Obj)>, i: nat)
  {
    exists j :: 0 <= j < |kw| && kw[j].0 in d && d[kw[j].0] == i
  }

  /** A keyword argument names a known axis that no positional key occupies. */
  predicate KeywordFits(d: map<string, nat>, width: nat, args: seq<Obj>, kv: (string, Obj))
  {
    kv.0 in d && d[kv.0] < width && Slot(args, d[kv.0]) == NoneObj
  }

  /** The keyword loop of `_align_with_axes`, one keyword at a time in order. */
  function PlaceKeywords<T>(d: map<string, nat>, aligned: seq<Obj>, kw: KwArgs)
    : (r: Result<seq<Obj>, RegistryError<T>>)
    requires InjectiveIndex(d)
    ensures r.Ok? <==> forall j :: 0 <= j < |kw| ==> KeywordFits(d, |aligned|, aligned, kw[j])
    ensures r.Err? ==> r.error.NoAxisNamed? || r.error.AxisIndexOutOfRange? || r.error.AxisGivenTwice?
    ensures r.Ok? ==> |r.value| == |aligned|
    ensures r.Ok? ==> forall j :: 0 <= j < |kw| ==> r.value[d[kw[j].0]] == kw[j].1
    ensures r.Ok? ==> forall i :: 0 <= i < |aligned| && !Targeted(d, kw, i) ==> r.value[i] == aligned[i]
    decreases |kw|
  {
    if kw == [] then Ok(aligned)
    else
      var (k, v) := kw[0];
      if k !in d then Err(NoAxisNamed(k))
      else if d[k] >= |aligned| then Err(AxisIndexOutOfRange)
      else if aligned[d[k]] != NoneObj then Err(AxisGivenTwice)
      else
        var rest: KwArgs := kw[1..];
        var r := PlaceKeywords(d, aligned[d[k] := v], rest);
        assert r.Ok? ==> forall j :: 1 <= j < |kw| ==> kw[j] == rest[j - 1];
        if r.Ok? then
          assert forall i :: Targeted(d, rest, i) ==> Targeted(d, kw, i) by {
            forall i | Targeted(d, rest, i) ensures Targeted(d, kw, i) {
              var j :| 0 <= j < |rest| && rest[j].0 in d && d[rest[j].0] == i;
              assert kw[j + 1] == rest[j];
            }
          }
          assert Targeted(d, kw, d[k]) by { assert kw[0].0 == k; }
          r
        else
          assert exists j :: 0 <= j < |rest| && !KeywordFits(d, |aligned|, aligned[d[k] := v], rest[j]);
          var j :| 0 <= j < |rest| && !KeywordFits(d, |aligned|, aligned[d[k] := v], rest[j]);
          assert kw[j + 1] == rest[j];
          r
  }

  /** Drops trailing `NoneObj` keys ("trim empty tail nodes"). */
  function TrimTrailingNones(s: seq<Obj>): (t: seq<Obj>)
    ensures |t| <= |s| && t == s[..|t|]
    ensures t == [] || t[|t| - 1] != NoneObj
    ensures forall i :: |t| <= i < |s| ==> s[i] == NoneObj
    decreases |s|
  {
    if s != [] && s[|s| - 1] == NoneObj then TrimTrailingNones(s[..|s| - 1]) else s
  }

  /** Trimming never changes what any position of the aligned list holds. */
  lemma SlotOfTrimmed(s: seq<Obj>, i: nat)
    ensures Slot(TrimTrailingNones(s), i) == Slot(s, i)
  {
  }

  function Nones(n: nat): (s: seq<Obj>)
    ensures |s| == n && forall i :: 0 <= i < n ==> s[i] == NoneObj
  {
    seq(n, _ => NoneObj)
  }

  /** Padding the positional keys with `NoneObj` changes no position's key. */
  lemma PaddedSlots(args: seq<Obj>, n: nat)
    ensures forall i: nat :: Slot(args + Nones(n), i) == Slot(args, i)
  {
  }

  /** What the aligned list holds once every keyword has been placed and the tail trimmed. */
  lemma PlacedLength<T>(d: map<string, nat>, aligned: seq<Obj>, kw: KwArgs, a: seq<Obj>)
    requires InjectiveIndex(d)
    requires PlaceKeywords<T>(d, aligned, kw) == Ok(a)
    ensures |TrimTrailingNones(a)| <= |aligned|
  {
  }

  lemma PlacedKeywordSlots<T>(d: map<string, nat>, aligned: seq<Obj>, kw: KwArgs, a: seq<Obj>)
    requires InjectiveIndex(d)
    requires PlaceKeywords<T>(d, aligned, kw) == Ok(a)
    ensures forall j :: 0 <= j < |kw| ==> Slot(TrimTrailingNones(a), d[kw[j].0]) == kw[j].1
  {
    forall j | 0 <= j < |kw| ensures Slot(TrimTrailingNones(a), d[kw[j].0]) == kw[j].1 {
      SlotOfTrimmed(a, d[kw[j].0]);
    }
  }

  lemma PlacedOtherSlots<T>(d: map<string, nat>, aligned: seq<Obj>, kw: KwArgs, a: seq<Obj>)
    requires InjectiveIndex(d)
    requires PlaceKeywords<T>(d, aligned, kw) == Ok(a)
    ensures forall i: nat :: !Targeted(d, kw, i) ==> Slot(TrimTrailingNones(a), i) == Slot(aligned, i)
  {
    forall i: nat | !Targeted(d, kw, i) ensures Slot(TrimTrailingNones(a), i) == Slot(aligned, i) {
      SlotOfTrimmed(a, i);
    }
  }

  /**
   * `_align_with_axes` of a registry: it reads the axes only, never the tree;
   * `AlignKeys` states what it computes.
   */
  function AlignWithAxes<T>(r: Registry<T>, args: seq<Obj>, kw: KwArgs): Result<seq<Obj>, RegistryError<T>>
  {
    AlignKeys(r.axes, args, kw)
  }

  /**
   * `_align_with_axes`: one key per axis, positional keys first, keyword keys
   * placed by axis name, skipped axes `NoneObj`, trailing `NoneObj`s trimmed.
   * The width is `len(self._axes_dict)`, the number of distinct axis names.
   */
  function AlignKeys<T>(axes: seq<NamedAxis>, args: seq<Obj>, kw: KwArgs)
    : (res: Result<seq<Obj>, RegistryError<T>>)
    ensures res == Err(TooManyKeys) <==> |args| + |kw| > |AxesDict(axes)|
    ensures |args| + |kw| <= |AxesDict(axes)| ==>
              (res.Ok? <==> forall j :: 0 <= j < |kw| ==> KeywordFits(AxesDict(axes), |AxesDict(axes)|, args, kw[j]))
    ensures res.Ok? ==> |res.value| <= |axes|
    ensures res.Ok? ==> res.value == [] || res.value[|res.value| - 1] != NoneObj
    ensures res.Ok? ==> forall j :: 0 <= j < |kw| ==> Slot(res.value, AxesDict(axes)[kw[j].0]) == kw[j].1
    ensures res.Ok? ==> forall i: nat :: !Targeted(AxesDict(axes), kw, i) ==> Slot(res.value, i) == Slot(args, i)
  {
    var d := AxesDict(axes);
    AxesDictFacts(axes);
    AxesDictInjective(axes);
    if |args| + |kw| > |d| then Err(TooManyKeys)
    else
      var aligned := args + Nones(|d| - |args|);
      PaddedFits(d, args, |d| - |args|, kw);
      match PlaceKeywords(d, aligned, kw)
      case Err(e) => Err(e)
      case Ok(a) =>
        PlacedLength<T>(d, aligned, kw, a);
        PlacedKeywordSlots<T>(d, aligned, kw, a);
        AlignedOtherSlots<T>(d, args, kw, a);
        Ok(TrimTrailingNones(a))
  }

  /** A keyword fits the padded list exactly when it fits the positional keys within the width. */
  lemma PaddedFits(d: map<string, nat>, args: seq<Obj>, n: nat, kw: KwArgs)
    ensures forall j :: 0 <= j < |kw| ==>
              (KeywordFits(d, |args| + n, args + Nones(n), kw[j]) <==> KeywordFits(d, |args| + n, args, kw[j]))
  {
    PaddedSlots(args, n);
  }

  /** Positions no keyword names keep their positional key, or `NoneObj`. */
  lemma AlignedOtherSlots<T>(d: map<string, nat>, args: seq<Obj>, kw: KwArgs, a: seq<Obj>)
    requires InjectiveIndex(d) && |args| <= |d|
    requires PlaceKeywords<T>(d, args + Nones(|d| - |args|), kw) == Ok(a)
    ensures forall i: nat :: !Targeted(d, kw, i) ==> Slot(TrimTrailingNones(a), i) == Slot(args, i)
  {
    var aligned := args + Nones(|d| - |args|);
    PlacedOtherSlots<T>(d, aligned, kw, a);
    forall i: nat | !Targeted(d, kw, i) ensures Slot(TrimTrailingNones(a), i) == Slot(args, i) {
      PaddedSlot(args, |d| - |args|, i);
    }
  }

  lemma PaddedSlot(args: seq<Obj>, n: nat, i: nat)
    ensures Slot(args + Nones(n), i) == Slot(args, i)
  {
  }

  // ---------------------------------------------------------------------------
  // Registration and exact reads
  // ---------------------------------------------------------------------------

  /** The target stored at exactly this key path, `None` if the path is absent. */
  function Find<T>(n: Node<T>, keys: seq<Obj>): Option<T>
    decreases |keys|
  {
    if keys == [] then n.target
    else if keys[0] in n.children then Find(n.children[keys[0]], keys[1..])
    else None
  }

  /**
   * Walks the path creating missing nodes (`setdefault`) and stores the
   * target at its end; fails with the existing target if there is one.
   */
  function Insert<T>(n: Node<T>, keys: seq<Obj>, target: T): (r: Result<Node<T>, T>)
    ensures r.Err? <==> Find(n, keys).Some?
    ensures r.Err? ==> Find(n, keys) == Some(r.error)
    ensures r.Ok? ==> Find(r.value, keys) == Some(target)
    decreases |keys|
  {
    if keys == [] then
      if n.target.Some? then Err(n.target.value) else Ok(n.(target := Some(target)))
    else
      var child := if keys[0] in n.children then n.children[keys[0]] else EmptyNode();
      match Insert(child, keys[1..], target)
      case Err(existing) => Err(existing)
      case Ok(c) => Ok(n.(children := n.children[keys[0] := c]))
  }

  /** Registering at one path leaves the target at every other path as it was. */
  lemma {:induction false} InsertLeavesOtherPaths<T>(n: Node<T>, keys: seq<Obj>, target: T, p: seq<Obj>)
    requires Insert(n, keys, target).Ok?
    requires p != keys
    ensures Find(Insert(n, keys, target).value, p) == Find(n, p)
    decreases |keys|
  {
    var n' := Insert(n, keys, target).value;
    if keys == [] {
      assert p != [];
      assert n'.children == n.children;
    } else if p == [] {
    } else {
      var child := if keys[0] in n.children then n.children[keys[0]] else EmptyNode();
      var c := Insert(child, keys[1..], target).value;
      assert n'.children == n.children[keys[0] := c];
      if p[0] == keys[0] {
        InsertLeavesOtherPaths(child, keys[1..], target, p[1..]);
        if keys[0] !in n.children {
          EmptyFindsNothing<T>(p[1..]);
        }
      }
    }
  }

  /** A path that was never created holds no target. */
  lemma EmptyFindsNothing<T>(p: seq<Obj>)
    ensures Find(EmptyNode<T>(), p) == None
  {
  }

  /** `get_registration`: an exact-path read with no specificity expansion. */
  function GetRegistration<T>(r: Registry<T>, args: seq<Obj>, kw: KwArgs)
    : (res: Result<Option<T>, RegistryError<T>>)
    ensures AlignWithAxes(r, args, kw).Err? <==> res.Err?
    ensures res.Ok? ==> res.value == Find(r.tree, AlignWithAxes(r, args, kw).value)
  {
    match AlignWithAxes(r, args, kw)
    case Err(e) => Err(e)
    case Ok(keys) => Ok(Find(r.tree, keys))
  }

  /** `register`: store `target` at the aligned key path, refusing to overwrite. */
  function Register<T>(r: Registry<T>, target: T, args: seq<Obj>, kw: KwArgs)
    : (res: Result<Registry<T>, RegistryError<T>>)
    ensures res.Ok? <==> GetRegistration(r, args, kw) == Ok(None)
    ensures res.Ok? ==> res.value.axes == r.axes
    ensures res.Ok? ==> GetRegistration(res.value, args, kw) == Ok(Some(target))
    ensures GetRegistration(r, args, kw).Err? ==> res == Err(GetRegistration(r, args, kw).error)
    ensures GetRegistration(r, args, kw).Ok? && GetRegistration(r, args, kw).value.Some? ==>
              res == Err(Conflict(target, GetRegistration(r, args, kw).value.value))
  {
    match AlignWithAxes(r, args, kw)
    case Err(e) => Err(e)
    case Ok(keys) =>
      match Insert(r.tree, keys, target)
      case Err(existing) => Err(Conflict(target, existing))
      case Ok(tree) =>
        AlignIgnoresTree(r, tree, args, kw);
        Ok(r.(tree := tree))
  }

  /** Alignment reads the axes only, never the tree. */
  lemma AlignIgnoresTree<T>(r: Registry<T>, tree: Node<T>, args: seq<Obj>, kw: KwArgs)
    ensures AlignWithAxes(r.(tree := tree), args, kw) == AlignWithAxes(r, args, kw)
  {
    assert r.(tree := tree).axes == r.axes;
  }

  /** A successful registration changes no other key path's registration. */
  lemma RegisterLeavesOtherPaths<T>(r: Registry<T>, target: T, args: seq<Obj>, kw: KwArgs, p: seq<Obj>)
    requires Register(r, target, args, kw).Ok?
    requires p != AlignWithAxes(r, args, kw).value
    ensures Find(Register(r, target, args, kw).value.tree, p) == Find(r.tree, p)
  {
    InsertLeavesOtherPaths(r.tree, AlignWithAxes(r, args, kw).value, target, p);
  }

  // ---------------------------------------------------------------------------
  // Axes and queries
  // ---------------------------------------------------------------------------

  /** `s` is `t` with some elements deleted, order kept. */
  predicate IsSubsequence<X(==)>(s: seq<X>, t: seq<X>)
    decreases |t|
  {
    if s == [] then true
    else if t == [] then false
    else if s[0] == t[0] then IsSubsequence(s[1..], t[1..])
    else IsSubsequence(s, t[1..])
  }

  /** `SimpleAxis.matches`: the object itself, if it is a registered key. */
  function SimpleMatches(obj: Obj, keys: set<Obj>): (r: seq<Obj>)
    ensures |r| <= 1
    ensures forall k :: k in r <==> k == obj && obj in keys
  {
    if obj in keys then [obj] else []
  }

  /** The class objects of an MRO, in order. */
  function ClassObjs(mro: seq<Cls>): (r: seq<Obj>)
    ensures |r| == |mro| && forall i :: 0 <= i < |mro| ==> r[i] == ClassObj(mro[i])
  {
    seq(|mro|, i requires 0 <= i < |mro| => ClassObj(mro[i]))
  }

  /** The loop of `TypeAxis.matches` over an MRO. */
  function MroMatches(mro: seq<Cls>, keys: set<Obj>): (r: seq<Obj>)
    ensures forall k :: k in r <==> k in keys && k.ClassObj? && k.cls in mro
    ensures IsSubsequence(r, ClassObjs(mro))
    decreases |mro|
  {
    if mro == [] then []
    else
      var rest := MroMatches(mro[1..], keys);
      assert ClassObjs(mro)[1..] == ClassObjs(mro[1..]);
      if ClassObj(mro[0]) in keys then [ClassObj(mro[0])] + rest else rest
  }

  /**
   * `TypeAxis.matches`: the classes of `type(obj).mro()` that are registered
   * keys, most specific first.
   */
  function TypeMatches(obj: Obj, keys: set<Obj>): (r: seq<Obj>)
    ensures forall k :: k in r <==> k in keys && k.ClassObj? && k.cls in Mro(TypeOf(obj))
    ensures IsSubsequence(r, ClassObjs(Mro(TypeOf(obj))))
  {
    MroMatches(Mro(TypeOf(obj)), keys)
  }

  function Matches(axis: Axis, obj: Obj, keys: set<Obj>): (r: seq<Obj>)
    ensures forall k :: k in r ==> k in keys
  {
    match axis
    case SimpleAxis => SimpleMatches(obj, keys)
    case TypeAxis => TypeMatches(obj, keys)
  }

  /**
   * `_query`: depth-first, left to right. A skipped axis follows only the
   * wildcard child; otherwise every match on the axis, most specific first,
   * is explored completely before the next one. Each node reached after the
   * last key yields its target, which may be absent.
   */
  function QueryNode<T>(n: Node<T>, objs: seq<Obj>, axes: seq<Axis>): seq<Option<T>>
    requires |objs| <= |axes|
    decreases |objs|, 1
  {
    if objs == [] then [n.target]
    else if objs[0] == NoneObj then
      if NoneObj in n.children then QueryNode(n.children[NoneObj], objs[1..], axes[1..]) else []
    else
      QueryEach(n, Matches(axes[0], objs[0], n.children.Keys), objs, axes)
  }

  /** The `for match_key in ...: yield from` loop of `_query`. */
  function QueryEach<T>(n: Node<T>, ms: seq<Obj>, objs: seq<Obj>, axes: seq<Axis>): seq<Option<T>>
    requires 0 < |objs| <= |axes|
    requires forall k :: k in ms ==> k in n.children
    decreases |objs|, 0, |ms|
  {
    if ms == [] then []
    else QueryNode(n.children[ms[0]], objs[1..], axes[1..]) + QueryEach(n, ms[1..], objs, axes)
  }

  /** `query`: align the objects with the axes, then walk the tree. */
  function Query<T>(r: Registry<T>, args: seq<Obj>, kw: KwArgs)
    : (res: Result<seq<Option<T>>, RegistryError<T>>)
    ensures res.Err? <==> AlignWithAxes(r, args, kw).Err?
  {
    match AlignWithAxes(r, args, kw)
    case Err(e) => Err(e)
    case Ok(objs) => Ok(QueryNode(r.tree, objs, AxisList(r.axes)))
  }

  /** `lookup`: the first thing `query` yields, `None` if it yields nothing. */
  function Lookup<T>(r: Registry<T>, args: seq<Obj>, kw: KwArgs)
    : (res: Result<Option<T>, RegistryError<T>>)
    ensures res.Err? <==> AlignWithAxes(r, args, kw).Err?
  {
    match Query(r, args, kw)
    case Err(e) => Err(e)
    case Ok(q) => Ok(if q == [] then None else q[0])
  }
}
