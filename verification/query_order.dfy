/**
 * What `_query` enumerates, stated without its recursion: a query chooses one
 * candidate key per axis (most specific candidate = index 0), and yields the
 * target of every node such a choice reaches, in lexicographic order of the
 * chosen candidate indices. Axis 0 therefore dominates: a match through a more
 * specific axis-0 key always comes before any match through a less specific one.
 */
module QueryOrder {
  import opened Wrappers
  import opened PyTypes
  import opened Registry

  /**
   * The keys an object could match on an axis, most specific first, before
   * looking at what is registered. A skipped axis can only follow the wildcard.
   */
  function Candidates(axis: Axis, obj: Obj): (c: seq<Obj>)
    ensures |c| >= 1
    ensures obj == NoneObj ==> c == [NoneObj]
    ensures obj != NoneObj && axis.SimpleAxis? ==> c == [obj]
    ensures obj != NoneObj && axis.TypeAxis? ==> c == ClassObjs(Mro(TypeOf(obj)))
  {
    if obj == NoneObj then [NoneObj]
    else
      match axis
      case SimpleAxis => [obj]
      case TypeAxis => ClassObjs(Mro(TypeOf(obj)))
  }

  /**
   * The wildcard is tried exactly for `None`, and on a simple axis an object
   * is tried as itself.
   */
  lemma CandidatesWildcard(axis: Axis, obj: Obj)
    ensures NoneObj in Candidates(axis, obj) <==> obj == NoneObj
    ensures obj != NoneObj && axis.SimpleAxis? ==> Candidates(axis, obj) == [obj]
  {
  }

  /**
   * On a type axis, for a well-formed type, the candidates are the classes of
   * its MRO, each once, from the type itself down to `object`.
   */
  lemma TypeCandidatesFollowMro(obj: Obj)
    requires obj != NoneObj && WellFormed(TypeOf(obj))
    ensures var c := Candidates(TypeAxis, obj);
            && NoDuplicates(c)
            && c[0] == ClassObj(TypeOf(obj))
            && c[|c| - 1] == ClassObj(Object)
            && forall x :: ClassObj(x) in c <==> x in Mro(TypeOf(obj))
  {
    var c := Candidates(TypeAxis, obj);
    var m := Mro(TypeOf(obj));
    MroEndsInObject(TypeOf(obj));
    forall x | ClassObj(x) in c ensures x in m {
      var i :| 0 <= i < |c| && c[i] == ClassObj(x);
    }
    forall x | x in m ensures ClassObj(x) in c {
      var i :| 0 <= i < |m| && m[i] == x;
      assert c[i] == ClassObj(x);
    }
    forall i, j | 0 <= i < j < |c| ensures c[i] != c[j] {
      assert m[i] != m[j];
    }
  }

  /** The node reached by taking candidate `r[i]` on axis `i`, if every step exists. */
  function RouteNode<T>(n: Node<T>, objs: seq<Obj>, axes: seq<Axis>, r: seq<nat>): Option<Node<T>>
    requires |objs| <= |axes|
    decreases |r|
  {
    if r == [] then Some(n)
    else if objs == [] then None
    else
      var c := Candidates(axes[0], objs[0]);
      if r[0] < |c| && c[r[0]] in n.children then
        RouteNode(n.children[c[r[0]]], objs[1..], axes[1..], r[1..])
      else None
  }

  /** A choice of one candidate per object that reaches an existing node. */
  predicate Reaches<T>(n: Node<T>, objs: seq<Obj>, axes: seq<Axis>, r: seq<nat>)
    requires |objs| <= |axes|
  {
    |r| == |objs| && RouteNode(n, objs, axes, r).Some?
  }

  /** The target of the node a route reaches (absent if it reaches none). */
  function TargetOf<T>(n: Node<T>, objs: seq<Obj>, axes: seq<Axis>, r: seq<nat>): Option<T>
    requires |objs| <= |axes|
  {
    match RouteNode(n, objs, axes, r)
    case Some(m) => m.target
    case None => None
  }

  /** Strict lexicographic order on candidate-index vectors. */
  predicate LexLess(a: seq<nat>, b: seq<nat>)
    decreases |a|
  {
    a != [] && b != [] && (a[0] < b[0] || (a[0] == b[0] && LexLess(a[1..], b[1..])))
  }

  predicate LexSorted(rs: seq<seq<nat>>)
  {
    forall a, b :: 0 <= a < b < |rs| ==> LexLess(rs[a], rs[b])
  }

  function Prefixed(i: nat, rs: seq<seq<nat>>): (r: seq<seq<nat>>)
    ensures |r| == |rs| && forall j :: 0 <= j < |rs| ==> r[j] == [i] + rs[j]
  {
    seq(|rs|, j requires 0 <= j < |rs| => [i] + rs[j])
  }

  /** The routes a query follows, in the order `_query` follows them. */
  function Routes<T>(n: Node<T>, objs: seq<Obj>, axes: seq<Axis>): seq<seq<nat>>
    requires |objs| <= |axes|
    decreases |objs|, 1
  {
    if objs == [] then [[]] else RoutesFrom(n, objs, axes, 0)
  }

  /** The routes whose first index is at least `i`. */
  function RoutesFrom<T>(n: Node<T>, objs: seq<Obj>, axes: seq<Axis>, i: nat): seq<seq<nat>>
    requires 0 < |objs| <= |axes|
    decreases |objs|, 0, |Candidates(axes[0], objs[0])| - i
  {
    var c := Candidates(axes[0], objs[0]);
    if i >= |c| then []
    else
      (if c[i] in n.children then Prefixed(i, Routes(n.children[c[i]], objs[1..], axes[1..])) else [])
      + RoutesFrom(n, objs, axes, i + 1)
  }

  // ---------------------------------------------------------------------------
  // The routes are exactly the reaching choices ...
  // ---------------------------------------------------------------------------

  lemma {:induction false} RoutesComplete<T>(n: Node<T>, objs: seq<Obj>, axes: seq<Axis>, r: seq<nat>)
    requires |objs| <= |axes|
    ensures r in Routes(n, objs, axes) <==> Reaches(n, objs, axes, r)
    decreases |objs|, 1
  {
    if objs != [] {
      RoutesFromComplete(n, objs, axes, 0, r);
    }
  }

  lemma {:induction false} RoutesFromComplete<T>(n: Node<T>, objs: seq<Obj>, axes: seq<Axis>, i: nat, r: seq<nat>)
    requires 0 < |objs| <= |axes|
    ensures r in RoutesFrom(n, objs, axes, i) <==> Reaches(n, objs, axes, r) && i <= r[0]
    decreases |objs|, 0, |Candidates(axes[0], objs[0])| - i
  {
    var c := Candidates(axes[0], objs[0]);
    if i < |c| {
      RoutesFromComplete(n, objs, axes, i + 1, r);
      if c[i] in n.children {
        var child := n.children[c[i]];
        PrefixedMembers(i, Routes(child, objs[1..], axes[1..]), r);
        if r != [] {
          RoutesComplete(child, objs[1..], axes[1..], r[1..]);
        }
      }
    } else {
      if Reaches(n, objs, axes, r) {
        assert r != [];
      }
    }
  }

  /** The routes `i` prefixes are those starting at `i` whose tail is listed. */
  lemma PrefixedMembers(i: nat, rs: seq<seq<nat>>, r: seq<nat>)
    ensures r in Prefixed(i, rs) <==> r != [] && r[0] == i && r[1..] in rs
  {
    if r != [] && r[0] == i && r[1..] in rs {
      var j :| 0 <= j < |rs| && rs[j] == r[1..];
      assert Prefixed(i, rs)[j] == r;
    }
  }

  // ---------------------------------------------------------------------------
  // ... listed in strictly increasing lexicographic order ...
  // ---------------------------------------------------------------------------

  lemma ConcatSorted(a: seq<seq<nat>>, b: seq<seq<nat>>)
    requires LexSorted(a) && LexSorted(b)
    requires forall x, y :: x in a && y in b ==> LexLess(x, y)
    ensures LexSorted(a + b)
  {
    forall p, q | 0 <= p < q < |a + b| ensures LexLess((a + b)[p], (a + b)[q]) {
      if q < |a| {
      } else if p >= |a| {
        assert (a + b)[p] == b[p - |a|] && (a + b)[q] == b[q - |a|];
      } else {
        assert (a + b)[p] in a && (a + b)[q] in b;
      }
    }
  }

  lemma PrefixedSorted(i: nat, rs: seq<seq<nat>>)
    requires LexSorted(rs)
    ensures LexSorted(Prefixed(i, rs))
  {
    var p := Prefixed(i, rs);
    forall a, b | 0 <= a < b < |p| ensures LexLess(p[a], p[b]) {
      assert p[a][1..] == rs[a] && p[b][1..] == rs[b];
    }
  }

  lemma {:induction false} RoutesSorted<T>(n: Node<T>, objs: seq<Obj>, axes: seq<Axis>)
    requires |objs| <= |axes|
    ensures LexSorted(Routes(n, objs, axes))
    decreases |objs|, 1
  {
    if objs != [] {
      RoutesFromSorted(n, objs, axes, 0);
    }
  }

  lemma {:induction false} RoutesFromSorted<T>(n: Node<T>, objs: seq<Obj>, axes: seq<Axis>, i: nat)
    requires 0 < |objs| <= |axes|
    ensures LexSorted(RoutesFrom(n, objs, axes, i))
    decreases |objs|, 0, |Candidates(axes[0], objs[0])| - i
  {
    var c := Candidates(axes[0], objs[0]);
    if i < |c| {
      RoutesFromSorted(n, objs, axes, i + 1);
      var rest := RoutesFrom(n, objs, axes, i + 1);
      var here := if c[i] in n.children then Prefixed(i, Routes(n.children[c[i]], objs[1..], axes[1..])) else [];
      if c[i] in n.children {
        RoutesSorted(n.children[c[i]], objs[1..], axes[1..]);
        PrefixedSorted(i, Routes(n.children[c[i]], objs[1..], axes[1..]));
      }
      forall x, y | x in here && y in rest ensures LexLess(x, y) {
        RoutesFromComplete(n, objs, axes, i + 1, y);
      }
      ConcatSorted(here, rest);
    }
  }

  // ---------------------------------------------------------------------------
  // ... and `_query` yields exactly their targets, in that order.
  // ---------------------------------------------------------------------------

  /** The candidates from index `i` on that are registered keys, in order. */
  function FilterFrom(c: seq<Obj>, i: nat, keys: set<Obj>): seq<Obj>
    decreases |c| - i
  {
    if i >= |c| then [] else (if c[i] in keys then [c[i]] else []) + FilterFrom(c, i + 1, keys)
  }

  lemma {:induction false} MroMatchesFilter(mro: seq<Cls>, i: nat, keys: set<Obj>)
    requires i <= |mro|
    ensures MroMatches(mro[i..], keys) == FilterFrom(ClassObjs(mro), i, keys)
    decreases |mro| - i
  {
    if i < |mro| {
      MroMatchesFilter(mro, i + 1, keys);
      assert mro[i..][1..] == mro[i + 1..];
    }
  }

  /** Both axes' `matches` filter the candidate list by the registered keys. */
  lemma MatchesFilterCandidates(axis: Axis, obj: Obj, keys: set<Obj>)
    requires obj != NoneObj
    ensures Matches(axis, obj, keys) == FilterFrom(Candidates(axis, obj), 0, keys)
  {
    if axis.TypeAxis? {
      MroMatchesFilter(Mro(TypeOf(obj)), 0, keys);
      assert Mro(TypeOf(obj))[0..] == Mro(TypeOf(obj));
    }
  }

  lemma FilterFromInKeys(c: seq<Obj>, i: nat, keys: set<Obj>)
    ensures forall k :: k in FilterFrom(c, i, keys) ==> k in keys
    decreases |c| - i
  {
    if i < |c| {
      FilterFromInKeys(c, i + 1, keys);
    }
  }

  /** Following a route through a child is following the rest of it from the child. */
  lemma TargetThroughChild<T>(n: Node<T>, objs: seq<Obj>, axes: seq<Axis>, i: nat, r: seq<nat>)
    requires 0 < |objs| <= |axes|
    requires i < |Candidates(axes[0], objs[0])| && Candidates(axes[0], objs[0])[i] in n.children
    ensures TargetOf(n, objs, axes, [i] + r)
         == TargetOf(n.children[Candidates(axes[0], objs[0])[i]], objs[1..], axes[1..], r)
  {
    assert ([i] + r)[1..] == r;
  }

  /** `_query` yields the target of each route of `Routes`, in order. */
  lemma {:induction false} QueryFollowsRoutes<T>(n: Node<T>, objs: seq<Obj>, axes: seq<Axis>)
    requires |objs| <= |axes|
    ensures |QueryNode(n, objs, axes)| == |Routes(n, objs, axes)|
    ensures forall j :: 0 <= j < |Routes(n, objs, axes)| ==>
              QueryNode(n, objs, axes)[j] == TargetOf(n, objs, axes, Routes(n, objs, axes)[j])
    decreases |objs|, 1
  {
    if objs == [] {
    } else if objs[0] == NoneObj {
      var c := Candidates(axes[0], objs[0]);
      assert RoutesFrom(n, objs, axes, 1) == [];
      if NoneObj in n.children {
        var child := n.children[NoneObj];
        QueryFollowsRoutes(child, objs[1..], axes[1..]);
        var rs := Routes(child, objs[1..], axes[1..]);
        assert Routes(n, objs, axes) == Prefixed(0, rs) + [];
        forall j | 0 <= j < |rs| ensures TargetOf(n, objs, axes, [0] + rs[j]) == TargetOf(child, objs[1..], axes[1..], rs[j]) {
          TargetThroughChild(n, objs, axes, 0, rs[j]);
        }
      }
    } else {
      var keys := n.children.Keys;
      var c := Candidates(axes[0], objs[0]);
      MatchesFilterCandidates(axes[0], objs[0], keys);
      QueryEachFollowsRoutes(n, objs, axes, 0);
    }
  }

  lemma {:induction false} QueryEachFollowsRoutes<T>(n: Node<T>, objs: seq<Obj>, axes: seq<Axis>, i: nat)
    requires 0 < |objs| <= |axes| && objs[0] != NoneObj
    requires forall k :: k in FilterFrom(Candidates(axes[0], objs[0]), i, n.children.Keys) ==> k in n.children
    ensures |QueryEach(n, FilterFrom(Candidates(axes[0], objs[0]), i, n.children.Keys), objs, axes)|
         == |RoutesFrom(n, objs, axes, i)|
    ensures forall j :: 0 <= j < |RoutesFrom(n, objs, axes, i)| ==>
              QueryEach(n, FilterFrom(Candidates(axes[0], objs[0]), i, n.children.Keys), objs, axes)[j]
              == TargetOf(n, objs, axes, RoutesFrom(n, objs, axes, i)[j])
    decreases |objs|, 0, |Candidates(axes[0], objs[0])| - i
  {
    var c := Candidates(axes[0], objs[0]);
    var keys := n.children.Keys;
    if i < |c| {
      FilterFromInKeys(c, i + 1, keys);
      QueryEachFollowsRoutes(n, objs, axes, i + 1);
      var qRest := QueryEach(n, FilterFrom(c, i + 1, keys), objs, axes);
      var rRest := RoutesFrom(n, objs, axes, i + 1);
      if c[i] in keys {
        var child := n.children[c[i]];
        QueryFollowsRoutes(child, objs[1..], axes[1..]);
        var qHere := QueryNode(child, objs[1..], axes[1..]);
        var rs := Routes(child, objs[1..], axes[1..]);
        var rHere := Prefixed(i, rs);
        assert FilterFrom(c, i, keys) == [c[i]] + FilterFrom(c, i + 1, keys);
        assert ([c[i]] + FilterFrom(c, i + 1, keys))[1..] == FilterFrom(c, i + 1, keys);
        assert QueryEach(n, FilterFrom(c, i, keys), objs, axes) == qHere + qRest;
        assert RoutesFrom(n, objs, axes, i) == rHere + rRest;
        forall j | 0 <= j < |rHere| ensures TargetOf(n, objs, axes, rHere[j]) == TargetOf(child, objs[1..], axes[1..], rs[j]) {
          TargetThroughChild(n, objs, axes, i, rs[j]);
        }
      } else {
        assert FilterFrom(c, i, keys) == FilterFrom(c, i + 1, keys);
        assert RoutesFrom(n, objs, axes, i) == rRest;
      }
    }
  }

  // ---------------------------------------------------------------------------
  // Consequences for `lookup`
  // ---------------------------------------------------------------------------

  /**
   * `lookup` yields the target of the lexicographically least route that
   * reaches a node: no other reaching route is more specific on an earlier
   * axis. When no route reaches a node it yields `None`.
   */
  lemma QueryTakesLeastRoute<T>(n: Node<T>, objs: seq<Obj>, axes: seq<Axis>)
    requires |objs| <= |axes|
    ensures var R := Routes(n, objs, axes);
            && (R == [] <==> QueryNode(n, objs, axes) == [])
            && (R != [] ==>
                  && Reaches(n, objs, axes, R[0])
                  && QueryNode(n, objs, axes)[0] == TargetOf(n, objs, axes, R[0])
                  && forall r :: Reaches(n, objs, axes, r) && r != R[0] ==> LexLess(R[0], r))
  {
    var R := Routes(n, objs, axes);
    QueryFollowsRoutes(n, objs, axes);
    RoutesSorted(n, objs, axes);
    if R != [] {
      RoutesComplete(n, objs, axes, R[0]);
      forall r | Reaches(n, objs, axes, r) && r != R[0] ensures LexLess(R[0], r) {
        RoutesComplete(n, objs, axes, r);
        var j :| 0 <= j < |R| && R[j] == r;
      }
    }
  }

  lemma LookupTakesLeastRoute<T>(reg: Registry<T>, args: seq<Obj>, kw: KwArgs)
    requires AlignWithAxes(reg, args, kw).Ok?
    ensures var objs := AlignWithAxes(reg, args, kw).value;
            var axes := AxisList(reg.axes);
            var R := Routes(reg.tree, objs, axes);
            && (R == [] ==> Lookup(reg, args, kw) == Ok(None))
            && (R != [] ==>
                  && Reaches(reg.tree, objs, axes, R[0])
                  && Lookup(reg, args, kw) == Ok(TargetOf(reg.tree, objs, axes, R[0]))
                  && forall r :: Reaches(reg.tree, objs, axes, r) && r != R[0] ==> LexLess(R[0], r))
  {
    QueryTakesLeastRoute(reg.tree, AlignWithAxes(reg, args, kw).value, AxisList(reg.axes));
  }

  /** A query yields something exactly when some route reaches a node. */
  lemma QueryNonEmptyIffReached<T>(n: Node<T>, objs: seq<Obj>, axes: seq<Axis>)
    requires |objs| <= |axes|
    ensures QueryNode(n, objs, axes) != [] <==> exists r :: Reaches(n, objs, axes, r)
  {
    QueryFollowsRoutes(n, objs, axes);
    var R := Routes(n, objs, axes);
    if R != [] {
      RoutesComplete(n, objs, axes, R[0]);
    }
    if exists r :: Reaches(n, objs, axes, r) {
      var r :| Reaches(n, objs, axes, r);
      RoutesComplete(n, objs, axes, r);
    }
  }

  // ---------------------------------------------------------------------------
  // Routes and the key paths they spell
  // ---------------------------------------------------------------------------

  /** The key each route index selects (`None` for an index past the candidates). */
  function RouteKeys(objs: seq<Obj>, axes: seq<Axis>, r: seq<nat>): (keys: seq<Obj>)
    requires |objs| <= |axes| && |r| <= |objs|
    ensures |keys| == |r|
  {
    seq(|r|, i requires 0 <= i < |r| =>
      var c := Candidates(axes[i], objs[i]);
      if r[i] < |c| then c[r[i]] else NoneObj)
  }

  /** Every index of the route picks one of the object's candidates. */
  predicate InCandidates(objs: seq<Obj>, axes: seq<Axis>, r: seq<nat>)
    requires |objs| <= |axes| && |r| <= |objs|
  {
    forall i :: 0 <= i < |r| ==> r[i] < |Candidates(axes[i], objs[i])|
  }

  lemma RouteKeysTail(objs: seq<Obj>, axes: seq<Axis>, r: seq<nat>)
    requires |objs| <= |axes| && 0 < |r| <= |objs|
    ensures RouteKeys(objs, axes, r)[1..] == RouteKeys(objs[1..], axes[1..], r[1..])
  {
  }

  /** A route that reaches a node reads the target stored at the keys it spells. */
  lemma {:induction false} ReachedRouteReadsKeys<T>(n: Node<T>, objs: seq<Obj>, axes: seq<Axis>, r: seq<nat>)
    requires |objs| <= |axes| && Reaches(n, objs, axes, r)
    ensures InCandidates(objs, axes, r)
    ensures TargetOf(n, objs, axes, r) == Find(n, RouteKeys(objs, axes, r))
    decreases |r|
  {
    if r != [] {
      var c := Candidates(axes[0], objs[0]);
      RouteKeysTail(objs, axes, r);
      ReachedRouteReadsKeys(n.children[c[r[0]]], objs[1..], axes[1..], r[1..]);
    }
  }

  /** Conversely, a stored target at the keys a full-length route spells is reached. */
  lemma {:induction false} FoundKeysAreReached<T>(n: Node<T>, objs: seq<Obj>, axes: seq<Axis>, r: seq<nat>)
    requires |objs| <= |axes| && |r| == |objs| && InCandidates(objs, axes, r)
    requires Find(n, RouteKeys(objs, axes, r)).Some?
    ensures Reaches(n, objs, axes, r)
    ensures TargetOf(n, objs, axes, r) == Find(n, RouteKeys(objs, axes, r))
    decreases |r|
  {
    if r != [] {
      var c := Candidates(axes[0], objs[0]);
      RouteKeysTail(objs, axes, r);
      assert InCandidates(objs[1..], axes[1..], r[1..]) by {
        forall i | 0 <= i < |r| - 1 ensures r[1..][i] < |Candidates(axes[1..][i], objs[1..][i])| {
          assert r[i + 1] < |Candidates(axes[i + 1], objs[i + 1])|;
        }
      }
      FoundKeysAreReached(n.children[c[r[0]]], objs[1..], axes[1..], r[1..]);
    }
  }
}
