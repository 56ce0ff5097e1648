/**
 * The event manager (generic/event.py): a one-axis type registry whose
 * targets are handler sets. Each handler set is linked to the handler sets of
 * its type's bases, and firing an event runs the handlers of the nearest
 * registered type and, through the links, of its supertypes.
 */
module Event {
  import opened Wrappers
  import opened PyTypes
  import opened Registry
  import opened MultiDispatch

  /** A handler: an opaque callable identity. */
  type Handler = nat

  /**
   * A `HandlerSet`: the handler sets of the bases (each named by the class it
   * was registered for) and the handlers subscribed to this exact type. The
   * Python set of handlers is kept in insertion order.
   */
  datatype HandlerSet = HandlerSet(parents: seq<Cls>, handlers: seq<Handler>)

  /**
   * A `Manager`: the registry maps each registered type to the identity of
   * its handler set (the type itself); `sets` holds those handler sets.
   */
  datatype Manager = Manager(registry: Registry<Cls>, sets: map<Cls, HandlerSet>)

  datatype EventError =
    | RegistryFailure(cause: RegistryError<Cls>)
    | NoHandlerSet  // `lookup` found nothing: `None.all_handlers` raises AttributeError

  /** The one axis `("event_type", TypeAxis())`. */
  function EventAxes(): seq<NamedAxis>
  {
    [NamedAxis("event_type", TypeAxis)]
  }

  /** Every handler set links exactly the handler sets of its type's bases, which exist. */
  predicate SetsClosed(sets: map<Cls, HandlerSet>)
  {
    && (forall c :: c in sets ==> sets[c].parents == c.bases)
    && (forall c, i :: c in sets && 0 <= i < |c.bases| ==> c.bases[i] in sets)
  }

  /**
   * What `Manager()` establishes and every operation keeps: the registry
   * holds, at the one-key path of each type with a handler set, that set's
   * identity, and nothing else; handler sets are closed under bases and hold
   * no handler twice.
   */
  ghost predicate Inv(m: Manager)
  {
    RegistryMirrorsSets(m) && SetsClosed(m.sets) && HandlersDistinct(m.sets)
  }

  /** The registry holds, under the root, exactly one leaf per handler set, naming it. */
  ghost predicate RegistryMirrorsSets(m: Manager)
  {
    && m.registry.axes == EventAxes()
    && m.registry.tree.target == None
    && (forall k :: k in m.registry.tree.children ==> k.ClassObj? && k.cls in m.sets)
    && (forall c :: c in m.sets ==>
          ClassObj(c) in m.registry.tree.children && m.registry.tree.children[ClassObj(c)].target == Some(c))
  }

  /** Every handler set holds no handler twice. */
  predicate HandlersDistinct(sets: map<Cls, HandlerSet>)
  {
    forall c :: c in sets ==> NoDuplicates(sets[c].handlers)
  }

  /** `Manager()`: no handler sets. */
  function NewManager(): (m: Manager)
    ensures Inv(m) && m.sets == map[]
  {
    Manager(NewRegistry(EventAxes()), map[])
  }

  /** `get_registration(c)` for a class: the identity of its handler set, if any. */
  lemma GetRegistrationOfClass(m: Manager, c: Cls)
    requires Inv(m)
    ensures GetRegistration(m.registry, [ClassObj(c)], []) == Ok(if c in m.sets then Some(c) else None)
  {
    var k := [ClassObj(c)];
    PositionalAlign(m.registry, k);
    assert TrimTrailingNones(k) == k;
    assert k[1..] == [];
    if c in m.sets {
      assert Find(m.registry.tree, k) == Find(m.registry.tree.children[ClassObj(c)], []);
    }
  }

  /** The classes of an MRO, as a set. */
  ghost function MroSet(c: Cls): set<Cls>
  {
    set x | x in Mro(c)
  }

  /** Every class on a well-formed MRO is well-formed, and its MRO lies within. */
  lemma {:induction false} MroClosed(c: Cls, x: Cls)
    requires WellFormed(c) && x in Mro(c)
    ensures WellFormed(x) && MroSet(x) <= MroSet(c)
    decreases c
  {
    if x != c {
      assert x in c.ancestors;
      assert InSomeBaseMro(c, x);
      var i :| 0 <= i < |c.bases| && x in Mro(c.bases[i]);
      MroClosed(c.bases[i], x);
      forall y | y in MroSet(c.bases[i]) ensures y in MroSet(c) {
        assert y in c.ancestors;
      }
    }
  }

  /** The classes of the MROs of the bases from index `i` on. */
  ghost function BasesMro(c: Cls, i: nat): set<Cls>
    requires i <= |c.bases|
    decreases |c.bases| - i
  {
    if i == |c.bases| then {} else MroSet(c.bases[i]) + BasesMro(c, i + 1)
  }

  lemma {:induction false} BasesMroMembers(c: Cls, i: nat, x: Cls)
    requires i <= |c.bases|
    ensures x in BasesMro(c, i) <==> exists j :: i <= j < |c.bases| && x in MroSet(c.bases[j])
    decreases |c.bases| - i
  {
    if i < |c.bases| {
      BasesMroMembers(c, i + 1, x);
    }
  }

  /** A well-formed MRO is the class followed by the union of its bases' MROs. */
  lemma MroSetSplit(c: Cls)
    requires WellFormed(c)
    ensures MroSet(c) == {c} + BasesMro(c, 0)
  {
    forall x ensures x in MroSet(c) <==> x == c || x in BasesMro(c, 0) {
      BasesMroMembers(c, 0, x);
      if x in MroSet(c) && x != c {
        assert x in c.ancestors;
        assert InSomeBaseMro(c, x);
      }
      if exists j :: 0 <= j < |c.bases| && x in MroSet(c.bases[j]) {
        var j :| 0 <= j < |c.bases| && x in MroSet(c.bases[j]);
        assert x in c.ancestors;
      }
    }
  }

  /** A class is not on the MRO of any of its bases. */
  lemma NotInBaseMro(c: Cls)
    requires WellFormed(c)
    ensures c !in BasesMro(c, 0)
  {
    forall j | 0 <= j < |c.ancestors| ensures c.ancestors[j] != c {
      assert Mro(c)[j + 1] == c.ancestors[j];
    }
    MroSetSplit(c);
    forall x | x in BasesMro(c, 0) ensures x in c.ancestors {
      BasesMroMembers(c, 0, x);
    }
  }

  /** With closed handler sets, a registered type's whole MRO is registered. */
  lemma {:induction false} RegisteredMro(sets: map<Cls, HandlerSet>, c: Cls)
    requires SetsClosed(sets) && c in sets && WellFormed(c)
    ensures MroSet(c) <= sets.Keys
    decreases c
  {
    MroSetSplit(c);
    forall x | x in BasesMro(c, 0) ensures x in sets {
      BasesMroMembers(c, 0, x);
      var j :| 0 <= j < |c.bases| && x in MroSet(c.bases[j]);
      RegisteredMro(sets, c.bases[j]);
    }
  }

  /**
   * `m1` keeps every handler set of `m`, and every handler set it adds is a
   * fresh one: linked to its type's bases and empty.
   */
  ghost predicate Extends(m: Manager, m1: Manager)
  {
    && m.sets.Keys <= m1.sets.Keys
    && forall x :: x in m1.sets ==> m1.sets[x] == if x in m.sets then m.sets[x] else HandlerSet(x.bases, [])
  }

  /**
   * `m1` is `m` after registering the handler sets of the classes `added`:
   * the invariant holds, old handler sets are kept and the new ones are fresh.
   */
  ghost predicate Grown(m: Manager, added: set<Cls>, m1: Manager)
  {
    Inv(m1) && Extends(m, m1) && m1.sets.Keys == m.sets.Keys + added
  }

  /** `registry.register(handler_set, c)` for a new handler set linked to `parents`. */
  function AddSet(m: Manager, c: Cls, parents: seq<Cls>): (r: Result<Manager, RegistryError<Cls>>)
  {
    match Register(m.registry, c, [ClassObj(c)], [])
    case Err(e) => Err(e)
    case Ok(reg) => Ok(Manager(reg, m.sets[c := HandlerSet(parents, [])]))
  }

  /** Registering a new class whose bases all have handler sets succeeds and keeps the invariant. */
  lemma AddSetKeepsInv(m: Manager, c: Cls)
    requires Inv(m) && c !in m.sets
    requires forall i :: 0 <= i < |c.bases| ==> c.bases[i] in m.sets
    ensures AddSet(m, c, c.bases).Ok? && Inv(AddSet(m, c, c.bases).value)
    ensures AddSet(m, c, c.bases).value.sets == m.sets[c := HandlerSet(c.bases, [])]
  {
    AddedLeaf(m, c);
  }

  /** Registering a new class adds one leaf under the root holding its identity. */
  lemma AddedLeaf(m: Manager, c: Cls)
    requires Inv(m) && c !in m.sets
    ensures Register(m.registry, c, [ClassObj(c)], []).Ok?
    ensures Register(m.registry, c, [ClassObj(c)], []).value.tree ==
              m.registry.tree.(children := m.registry.tree.children[ClassObj(c) := Node(Some(c), map[])])
  {
    var k := [ClassObj(c)];
    GetRegistrationOfClass(m, c);
    PositionalAlign(m.registry, k);
    assert TrimTrailingNones(k) == k;
    assert k[1..] == [];
    assert ClassObj(c) !in m.registry.tree.children;
    assert Insert(EmptyNode<Cls>(), k[1..], c) == Ok(Node(Some(c), map[]));
  }

  /**
   * `_register_handlers(c)`: make sure every base has a handler set (creating
   * them recursively), then register an empty handler set for `c` linked to
   * them.
   */
  function RegisterHandlers(m: Manager, c: Cls): (r: Result<Manager, RegistryError<Cls>>)
    decreases c, 1
  {
    match RegisterParents(m, c, 0)
    case Err(e) => Err(e)
    case Ok((m1, parents)) => AddSet(m1, c, parents)
  }

  /**
   * The loop over `c.__bases__` from index `i`, collecting the handler sets
   * of the bases (each named by the class it is registered for).
   */
  function RegisterParents(m: Manager, c: Cls, i: nat): (r: Result<(Manager, seq<Cls>), RegistryError<Cls>>)
    requires i <= |c.bases|
    decreases c, 0, |c.bases| - i, 1
  {
    if i == |c.bases| then Ok((m, []))
    else
      match HandleBase(m, c, i)
      case Err(e) => Err(e)
      case Ok((m1, parent)) =>
        match RegisterParents(m1, c, i + 1)
        case Err(e) => Err(e)
        case Ok((m2, rest)) => Ok((m2, [parent] + rest))
  }

  /** One iteration: look base `i` up and register it if it has no handler set. */
  function HandleBase(m: Manager, c: Cls, i: nat): (r: Result<(Manager, Cls), RegistryError<Cls>>)
    requires i < |c.bases|
    decreases c, 0, |c.bases| - i, 0
  {
    var p := c.bases[i];
    match GetRegistration(m.registry, [ClassObj(p)], [])
    case Err(e) => Err(e)
    case Ok(Some(found)) => Ok((m, found))
    case Ok(None) =>
      match RegisterHandlers(m, p)
      case Err(e) => Err(e)
      case Ok(m1) => Ok((m1, p))
  }

  /**
   * `_register_handlers(c)` on a class without a handler set never fails and
   * gives every class of `c`'s MRO a handler set, linked to its bases' sets.
   * The new sets are empty; existing sets are untouched.
   */
  lemma {:induction false} RegisterHandlersGrows(m: Manager, c: Cls)
    requires Inv(m) && WellFormed(c) && c !in m.sets
    ensures RegisterHandlers(m, c).Ok? && Grown(m, MroSet(c), RegisterHandlers(m, c).value)
    decreases c, 1
  {
    NotInBaseMro(c);
    RegisterParentsGrows(m, c, 0);
    var (m1, parents) := RegisterParents(m, c, 0).value;
    FinishRegister(m, m1, c);
    AddSetKeepsInv(m1, c);
    ExtendsByFresh(m, m1, AddSet(m1, c, parents).value, c);
  }

  /** The last step of `_register_handlers`: the new set completes the MRO. */
  lemma FinishRegister(m: Manager, m1: Manager, c: Cls)
    requires WellFormed(c) && c !in m.sets.Keys + BasesMro(c, 0)
    requires m1.sets.Keys == m.sets.Keys + BasesMro(c, 0)
    ensures c !in m1.sets && forall i :: 0 <= i < |c.bases| ==> c.bases[i] in m1.sets
    ensures m1.sets.Keys + {c} == m.sets.Keys + MroSet(c)
  {
    BasesRegistered(m1, c);
    MroSetSplit(c);
  }

  /** Adding a fresh empty set for a class `m` lacks keeps the extension. */
  lemma ExtendsByFresh(m: Manager, m1: Manager, m2: Manager, c: Cls)
    requires Extends(m, m1) && c !in m.sets
    requires m2.sets == m1.sets[c := HandlerSet(c.bases, [])]
    ensures Extends(m, m2) && m2.sets.Keys == m1.sets.Keys + {c}
  {
    forall x | x in m2.sets ensures m2.sets[x] == if x in m.sets then m.sets[x] else HandlerSet(x.bases, []) {
      if x != c {
        assert m2.sets[x] == m1.sets[x];
      }
    }
  }

  /** Once the loop is done every base has a handler set. */
  lemma BasesRegistered(m1: Manager, c: Cls)
    requires forall x :: x in BasesMro(c, 0) ==> x in m1.sets
    ensures forall i :: 0 <= i < |c.bases| ==> c.bases[i] in m1.sets
  {
    forall i | 0 <= i < |c.bases| ensures c.bases[i] in m1.sets {
      BasesMroMembers(c, 0, c.bases[i]);
      assert c.bases[i] in MroSet(c.bases[i]);
    }
  }

  /**
   * The loop over the bases from index `i` never fails, collects exactly the
   * remaining bases' handler sets and registers the missing ones.
   */
  lemma {:induction false} RegisterParentsGrows(m: Manager, c: Cls, i: nat)
    requires Inv(m) && WellFormed(c) && i <= |c.bases|
    requires c !in m.sets.Keys + BasesMro(c, i)
    ensures RegisterParents(m, c, i).Ok?
    ensures Grown(m, BasesMro(c, i), RegisterParents(m, c, i).value.0)
    ensures RegisterParents(m, c, i).value.1 == c.bases[i..]
    decreases c, 0, |c.bases| - i, 1
  {
    if i < |c.bases| {
      HandleBaseGrows(m, c, i);
      var (m1, _) := HandleBase(m, c, i).value;
      RegisterParentsGrows(m1, c, i + 1);
      var (m2, rest) := RegisterParents(m1, c, i + 1).value;
      ParentsStep(m, m1, m2, c, i, rest);
    }
  }

  /** One iteration never fails, yields base `i` and keeps the invariant. */
  lemma {:induction false} HandleBaseGrows(m: Manager, c: Cls, i: nat)
    requires Inv(m) && WellFormed(c) && i < |c.bases|
    requires c !in m.sets.Keys + BasesMro(c, i)
    ensures HandleBase(m, c, i).Ok? && HandleBase(m, c, i).value.1 == c.bases[i]
    ensures var m1 := HandleBase(m, c, i).value.0;
            && Inv(m1) && Extends(m, m1)
            && m1.sets.Keys + BasesMro(c, i + 1) == m.sets.Keys + BasesMro(c, i)
            && c !in m1.sets.Keys + BasesMro(c, i + 1)
    decreases c, 0, |c.bases| - i, 0
  {
    var p := c.bases[i];
    GetRegistrationOfClass(m, p);
    if p in m.sets {
      BaseStep(m, m, c, i);
    } else {
      RegisterHandlersGrows(m, p);
      BaseStep(m, RegisterHandlers(m, p).value, c, i);
    }
  }

  /** Chaining one base's step with the rest of the loop. */
  lemma ParentsStep(m: Manager, m1: Manager, m2: Manager, c: Cls, i: nat, rest: seq<Cls>)
    requires i < |c.bases| && Extends(m, m1) && Grown(m1, BasesMro(c, i + 1), m2)
    requires m1.sets.Keys + BasesMro(c, i + 1) == m.sets.Keys + BasesMro(c, i)
    requires rest == c.bases[i + 1..]
    ensures Grown(m, BasesMro(c, i), m2)
    ensures [c.bases[i]] + rest == c.bases[i..]
  {
  }

  /** After handling base `i`, the keys so far cover the MROs of the bases up to `i`. */
  lemma BaseStep(m: Manager, m1: Manager, c: Cls, i: nat)
    requires WellFormed(c) && i < |c.bases| && SetsClosed(m.sets)
    requires m1.sets.Keys == m.sets.Keys + (if c.bases[i] in m.sets then {} else MroSet(c.bases[i]))
    requires c !in m.sets.Keys + BasesMro(c, i)
    ensures m1.sets.Keys + BasesMro(c, i + 1) == m.sets.Keys + BasesMro(c, i)
    ensures c !in m1.sets.Keys + BasesMro(c, i + 1)
  {
    assert WellFormed(c.bases[i]);
    if c.bases[i] in m.sets {
      RegisteredMro(m.sets, c.bases[i]);
    }
  }


  // ---------------------------------------------------------------------------
  // Subscribing and unsubscribing
  // ---------------------------------------------------------------------------

  /** `handlers.add(h)` on a set: adding a present handler changes nothing. */
  function AddHandler(hs: seq<Handler>, h: Handler): (r: seq<Handler>)
    ensures forall x :: x in r <==> x in hs || x == h
    ensures NoDuplicates(hs) ==> NoDuplicates(r)
    ensures h in hs ==> r == hs
  {
    if h in hs then hs else hs + [h]
  }

  /**
   * `handlers.remove(h)` on a set: the others stay, in order. `unsubscribe`
   * calls it only when `h` is present; Python's `remove` would raise otherwise.
   */
  function RemoveHandler(hs: seq<Handler>, h: Handler): (r: seq<Handler>)
    ensures forall x :: x in r <==> x in hs && x != h
    ensures NoDuplicates(hs) ==> NoDuplicates(r)
    ensures h !in hs ==> r == hs
    decreases |hs|
  {
    if hs == [] then []
    else
      var rest := RemoveHandler(hs[1..], h);
      assert NoDuplicates(hs) ==> NoDuplicates(hs[1..]) && hs[0] !in hs[1..];
      if hs[0] == h then rest else [hs[0]] + rest
  }

  /** Removing a handler undoes adding it, when it was not there before. */
  lemma {:induction false} RemoveUndoesAdd(hs: seq<Handler>, h: Handler)
    requires h !in hs
    ensures RemoveHandler(AddHandler(hs, h), h) == hs
    decreases |hs|
  {
    if hs != [] {
      assert (hs + [h])[1..] == hs[1..] + [h];
      RemoveUndoesAdd(hs[1..], h);
    }
  }

  /** Replacing the handlers of a registered type keeps the invariant. */
  function WithHandlers(m: Manager, c: Cls, hs: seq<Handler>): (r: Manager)
    requires Inv(m) && c in m.sets && NoDuplicates(hs)
    ensures Inv(r) && r.registry == m.registry && r.sets.Keys == m.sets.Keys
    ensures r.sets[c] == HandlerSet(m.sets[c].parents, hs)
    ensures forall x :: x in m.sets && x != c ==> r.sets[x] == m.sets[x]
  {
    m.(sets := m.sets[c := m.sets[c].(handlers := hs)])
  }

  /** The handlers subscribed to exactly `c` (none when it has no handler set). */
  function Own(m: Manager, c: Cls): seq<Handler>
  {
    if c in m.sets then m.sets[c].handlers else []
  }

  /**
   * `subscribe(h, c)`: create the handler set of `c` (and of its supertypes)
   * on first use, then add `h` to it. Handler sets of other types keep their
   * handlers; those created on the way are empty.
   */
  function Subscribe(m: Manager, h: Handler, c: Cls): (r: Result<Manager, RegistryError<Cls>>)
    requires Inv(m) && WellFormed(c)
    ensures r.Ok? && Inv(r.value)
    ensures r.value.sets.Keys == m.sets.Keys + MroSet(c)
    ensures r.value.sets[c].handlers == AddHandler(Own(m, c), h)
    ensures forall x :: x in r.value.sets && x != c ==> Own(r.value, x) == Own(m, x)
  {
    GetRegistrationOfClass(m, c);
    match GetRegistration(m.registry, [ClassObj(c)], [])
    case Err(e) => Err(e)
    case Ok(found) =>
      var created := if found.Some? then Ok(m) else RegisterHandlers(m, c);
      CreateOnFirstUse(m, c);
      match created
      case Err(e) => Err(e)
      case Ok(m1) =>
        // the handler set found or created has identity `c`
        SubscribeKeys(m, m1, c);
        Ok(WithHandlers(m1, c, AddHandler(m1.sets[c].handlers, h)))
  }

  /** The handler set `subscribe` finds or creates: creating it never fails. */
  lemma CreateOnFirstUse(m: Manager, c: Cls)
    requires Inv(m) && WellFormed(c)
    ensures var created := if c in m.sets then Ok(m) else RegisterHandlers(m, c);
            created.Ok? && Grown(m, if c in m.sets then {} else MroSet(c), created.value)
  {
    if c !in m.sets {
      RegisterHandlersGrows(m, c);
    }
  }

  lemma SubscribeKeys(m: Manager, m1: Manager, c: Cls)
    requires Inv(m) && WellFormed(c) && Extends(m, m1)
    requires m1.sets.Keys == m.sets.Keys + (if c in m.sets then {} else MroSet(c))
    ensures c in m1.sets && m1.sets.Keys == m.sets.Keys + MroSet(c)
    ensures m1.sets[c].handlers == Own(m, c)
    ensures forall x :: x in m1.sets ==> Own(m1, x) == Own(m, x)
  {
    assert c in MroSet(c);
    if c in m.sets {
      RegisteredMro(m.sets, c);
    }
  }

  /** Subscribing a handler already subscribed to the type changes no handler set. */
  lemma SubscribePresent(m: Manager, h: Handler, c: Cls)
    requires Inv(m) && WellFormed(c) && c in m.sets && h in m.sets[c].handlers
    ensures Subscribe(m, h, c).value.sets == m.sets
  {
    var r := Subscribe(m, h, c).value;
    RegisteredMro(m.sets, c);
    PresentUnchanged(m, h, c, r);
  }

  /** Any outcome Subscribe may produce for a handler already in its set changes nothing. */
  lemma PresentUnchanged(m: Manager, h: Handler, c: Cls, r: Manager)
    requires SetsClosed(m.sets) && SetsClosed(r.sets) && c in m.sets && h in m.sets[c].handlers
    requires r.sets.Keys == m.sets.Keys && r.sets[c].handlers == AddHandler(Own(m, c), h)
    requires forall x :: x in r.sets && x != c ==> Own(r, x) == Own(m, x)
    ensures r.sets == m.sets
  {
    forall x | x in m.sets ensures r.sets[x].handlers == m.sets[x].handlers {
      assert Own(r, x) == Own(m, x);
    }
    SameOwnSameSets(m.sets, r.sets);
  }

  /** Two closed collections of handler sets over the same types with the same handlers are equal. */
  lemma SameOwnSameSets(sets: map<Cls, HandlerSet>, sets1: map<Cls, HandlerSet>)
    requires SetsClosed(sets) && SetsClosed(sets1) && sets1.Keys == sets.Keys
    requires forall x :: x in sets ==> sets1[x].handlers == sets[x].handlers
    ensures sets1 == sets
  {
    forall x | x in sets ensures sets1[x] == sets[x] {
      assert sets1[x].parents == x.bases == sets[x].parents;
    }
  }

  /** Subscribing twice is subscribing once. */
  lemma SubscribeIdempotent(m: Manager, h: Handler, c: Cls)
    requires Inv(m) && WellFormed(c)
    ensures var m1 := Subscribe(m, h, c).value;
            Subscribe(m1, h, c).value.sets == m1.sets
  {
    var m1 := Subscribe(m, h, c).value;
    SubscribePresent(m1, h, c);
  }

  /**
   * `unsubscribe(h, c)`: remove `h` from the handler set of exactly `c` when
   * it is there; otherwise nothing changes.
   */
  function Unsubscribe(m: Manager, h: Handler, c: Cls): (r: Result<Manager, RegistryError<Cls>>)
    requires Inv(m)
    ensures r.Ok? && Inv(r.value) && r.value.sets.Keys == m.sets.Keys
    ensures Own(r.value, c) == RemoveHandler(Own(m, c), h)
    ensures forall x :: x != c ==> Own(r.value, x) == Own(m, x)
    ensures (c !in m.sets || h !in m.sets[c].handlers) ==> r.value == m
  {
    GetRegistrationOfClass(m, c);
    match GetRegistration(m.registry, [ClassObj(c)], [])
    case Err(e) => Err(e)
    case Ok(found) =>
      if found.Some? && h in m.sets[found.value].handlers then
        Ok(WithHandlers(m, found.value, RemoveHandler(m.sets[found.value].handlers, h)))
      else
        Ok(m)
  }

  /** Unsubscribing a handler just subscribed restores the type's handlers. */
  lemma UnsubscribeUndoesSubscribe(m: Manager, h: Handler, c: Cls)
    requires Inv(m) && WellFormed(c) && h !in Own(m, c)
    ensures var m1 := Subscribe(m, h, c).value;
            Own(Unsubscribe(m1, h, c).value, c) == Own(m, c)
  {
    RemoveUndoesAdd(Own(m, c), h);
  }

  // ---------------------------------------------------------------------------
  // Collecting handlers
  // ---------------------------------------------------------------------------

  /** Append, in order, the handlers of `hs` not yet in `acc` (the `seen` test). */
  function AddNew(acc: seq<Handler>, hs: seq<Handler>): (r: seq<Handler>)
    ensures forall x :: x in r <==> x in acc || x in hs
    ensures |acc| <= |r| && r[..|acc|] == acc
    ensures NoDuplicates(acc) ==> NoDuplicates(r)
    decreases |hs|
  {
    if hs == [] then acc
    else
      var acc1 := if hs[0] in acc then acc else acc + [hs[0]];
      assert acc1[..|acc|] == acc;
      var r := AddNew(acc1, hs[1..]);
      assert r[..|acc|] == r[..|acc1|][..|acc|];
      r
  }

  /**
   * `all_handlers` of the handler set of `c`: its own handlers, then those of
   * each parent set in turn, skipping handlers already produced.
   */
  function AllHandlers(sets: map<Cls, HandlerSet>, c: Cls): (hs: seq<Handler>)
    requires SetsClosed(sets) && c in sets
    ensures |sets[c].handlers| <= |hs| && hs[..|sets[c].handlers|] == sets[c].handlers
    ensures HandlersDistinct(sets) ==> NoDuplicates(hs)
    decreases c, 1
  {
    ParentHandlers(sets, c, 0, sets[c].handlers)
  }

  /** The loop over the parent sets from index `i`, `acc` being what was produced so far. */
  function ParentHandlers(sets: map<Cls, HandlerSet>, c: Cls, i: nat, acc: seq<Handler>): (hs: seq<Handler>)
    requires SetsClosed(sets) && c in sets && i <= |sets[c].parents|
    ensures |acc| <= |hs| && hs[..|acc|] == acc
    ensures HandlersDistinct(sets) && NoDuplicates(acc) ==> NoDuplicates(hs)
    decreases c, 0, |sets[c].parents| - i
  {
    if i == |sets[c].parents| then acc
    else
      var acc1 := AddNew(acc, AllHandlers(sets, sets[c].parents[i]));
      var r := ParentHandlers(sets, c, i + 1, acc1);
      assert r[..|acc|] == r[..|acc1|][..|acc|];
      r
  }

  /** `h` is subscribed to some type of `xs` that has a handler set. */
  ghost predicate HeardBy(sets: map<Cls, HandlerSet>, xs: set<Cls>, h: Handler)
  {
    exists x :: x in xs && x in sets && h in sets[x].handlers
  }

  /** `h` comes out of `all_handlers` of some parent set from index `i` on. */
  ghost predicate ParentsHear(sets: map<Cls, HandlerSet>, c: Cls, i: nat, h: Handler)
    requires SetsClosed(sets) && c in sets
  {
    exists j :: i <= j < |c.bases| && h in AllHandlers(sets, c.bases[j])
  }

  lemma {:induction false} ParentsHearStep(sets: map<Cls, HandlerSet>, c: Cls, i: nat, h: Handler)
    requires SetsClosed(sets) && c in sets && i < |c.bases|
    ensures ParentsHear(sets, c, i, h) <==> h in AllHandlers(sets, c.bases[i]) || ParentsHear(sets, c, i + 1, h)
  {
    if ParentsHear(sets, c, i, h) {
      var j :| i <= j < |c.bases| && h in AllHandlers(sets, c.bases[j]);
      if j > i {
        assert i + 1 <= j < |c.bases|;
      }
    }
  }

  lemma {:induction false} ParentHandlersMembers(sets: map<Cls, HandlerSet>, c: Cls, i: nat, acc: seq<Handler>, h: Handler)
    requires SetsClosed(sets) && c in sets && i <= |c.bases|
    ensures h in ParentHandlers(sets, c, i, acc) <==> h in acc || ParentsHear(sets, c, i, h)
    decreases |c.bases| - i
  {
    assert sets[c].parents == c.bases;
    if i < |c.bases| {
      var acc1 := AddNew(acc, AllHandlers(sets, c.bases[i]));
      assert ParentHandlers(sets, c, i, acc) == ParentHandlers(sets, c, i + 1, acc1);
      ParentHandlersMembers(sets, c, i + 1, acc1, h);
      ParentsHearStep(sets, c, i, h);
    }
  }

  /**
   * A handler comes out of `all_handlers` for `c` exactly when it is
   * subscribed to a class of `c`'s MRO.
   */
  lemma {:induction false} AllHandlersMembers(sets: map<Cls, HandlerSet>, c: Cls, h: Handler)
    requires SetsClosed(sets) && c in sets && WellFormed(c)
    ensures h in AllHandlers(sets, c) <==> HeardBy(sets, MroSet(c), h)
    decreases c
  {
    ParentHandlersMembers(sets, c, 0, sets[c].handlers, h);
    forall j | 0 <= j < |c.bases|
      ensures h in AllHandlers(sets, c.bases[j]) <==> HeardBy(sets, MroSet(c.bases[j]), h)
    {
      AllHandlersMembers(sets, c.bases[j], h);
    }
    ParentsHearBases(sets, c, h);
    HeardSplit(sets, c, h);
  }

  /** Some base's MRO has a handler set holding `h`. */
  ghost predicate BasesHear(sets: map<Cls, HandlerSet>, c: Cls, h: Handler)
  {
    exists j :: 0 <= j < |c.bases| && HeardBy(sets, MroSet(c.bases[j]), h)
  }

  lemma ParentsHearBases(sets: map<Cls, HandlerSet>, c: Cls, h: Handler)
    requires SetsClosed(sets) && c in sets
    requires forall j :: 0 <= j < |c.bases| ==>
               (h in AllHandlers(sets, c.bases[j]) <==> HeardBy(sets, MroSet(c.bases[j]), h))
    ensures ParentsHear(sets, c, 0, h) <==> BasesHear(sets, c, h)
  {
  }

  /** `h` is heard on `c`'s MRO when `c` itself or one of its bases' MROs hears it. */
  lemma HeardSplit(sets: map<Cls, HandlerSet>, c: Cls, h: Handler)
    requires WellFormed(c)
    ensures HeardBy(sets, MroSet(c), h) <==> (c in sets && h in sets[c].handlers) || BasesHear(sets, c, h)
  {
    MroSetSplit(c);
    if HeardBy(sets, MroSet(c), h) {
      HeardByBases(sets, c, h);
    }
    if BasesHear(sets, c, h) {
      BasesHeard(sets, c, h);
    }
  }

  lemma HeardByBases(sets: map<Cls, HandlerSet>, c: Cls, h: Handler)
    requires WellFormed(c) && HeardBy(sets, MroSet(c), h)
    ensures (c in sets && h in sets[c].handlers) || BasesHear(sets, c, h)
  {
    MroSetSplit(c);
    var x :| x in MroSet(c) && x in sets && h in sets[x].handlers;
    if x != c {
      BasesMroMembers(c, 0, x);
      var j :| 0 <= j < |c.bases| && x in MroSet(c.bases[j]);
      assert HeardBy(sets, MroSet(c.bases[j]), h);
    }
  }

  lemma BasesHeard(sets: map<Cls, HandlerSet>, c: Cls, h: Handler)
    requires WellFormed(c) && BasesHear(sets, c, h)
    ensures HeardBy(sets, MroSet(c), h)
  {
    MroSetSplit(c);
    var j :| 0 <= j < |c.bases| && HeardBy(sets, MroSet(c.bases[j]), h);
    var x :| x in MroSet(c.bases[j]) && x in sets && h in sets[x].handlers;
    BasesMroMembers(c, 0, x);
  }

  // ---------------------------------------------------------------------------
  // Firing
  // ---------------------------------------------------------------------------

  /** The first class of `mro` that has a handler set. */
  function Nearest(mro: seq<Cls>, registered: set<Cls>): (r: Option<Cls>)
    ensures r.None? <==> forall x :: x in mro ==> x !in registered
    ensures r.Some? ==> exists k :: 0 <= k < |mro| && mro[k] == r.value && r.value in registered &&
                                    forall j :: 0 <= j < k ==> mro[j] !in registered
    decreases |mro|
  {
    if mro == [] then None
    else if mro[0] in registered then Some(mro[0])
    else
      var r := Nearest(mro[1..], registered);
      NearestStep(mro, registered, r);
      r
  }

  lemma NearestStep(mro: seq<Cls>, registered: set<Cls>, r: Option<Cls>)
    requires mro != [] && mro[0] !in registered
    requires r.None? <==> forall x :: x in mro[1..] ==> x !in registered
    requires r.Some? ==> exists k :: 0 <= k < |mro[1..]| && mro[1..][k] == r.value && r.value in registered &&
                                     forall j :: 0 <= j < k ==> mro[1..][j] !in registered
    ensures r.None? <==> forall x :: x in mro ==> x !in registered
    ensures r.Some? ==> exists k :: 0 <= k < |mro| && mro[k] == r.value && r.value in registered &&
                                    forall j :: 0 <= j < k ==> mro[j] !in registered
  {
    if r.Some? {
      var k :| 0 <= k < |mro[1..]| && mro[1..][k] == r.value && r.value in registered &&
               forall j :: 0 <= j < k ==> mro[1..][j] !in registered;
      assert mro[k + 1] == r.value;
      forall j | 0 <= j < k + 1 ensures mro[j] !in registered {
        if j > 0 { assert mro[j] == mro[1..][j - 1]; }
      }
    } else {
      forall x | x in mro ensures x !in registered {
        assert x == mro[0] || x in mro[1..];
      }
    }
  }

  /** The first registered match of an MRO is the class object of its nearest registered class. */
  lemma {:induction false} MroMatchesHead(mro: seq<Cls>, keys: set<Obj>, registered: set<Cls>)
    requires forall x :: ClassObj(x) in keys <==> x in registered
    ensures MroMatches(mro, keys) == [] <==> Nearest(mro, registered).None?
    ensures MroMatches(mro, keys) != [] ==> MroMatches(mro, keys)[0] == ClassObj(Nearest(mro, registered).value)
    decreases |mro|
  {
    if mro != [] && mro[0] !in registered {
      MroMatchesHead(mro[1..], keys, registered);
    }
  }

  /**
   * `registry.lookup(event)` finds the handler set of the first class of the
   * event's MRO that has one; a `None` event aligns to no key and finds the
   * root's empty target.
   */
  lemma LookupEvent(m: Manager, ev: Obj)
    requires Inv(m)
    ensures Lookup(m.registry, [ev], []) ==
              Ok(if ev == NoneObj then None else Nearest(Mro(TypeOf(ev)), m.sets.Keys))
  {
    var r := m.registry;
    assert DistinctAxisNames(r.axes);
    PositionalAlign(r, [ev]);
    var keys := r.tree.children.Keys;
    if ev != NoneObj {
      assert TrimTrailingNones([ev]) == [ev];
      var ms := TypeMatches(ev, keys);
      forall x ensures ClassObj(x) in keys <==> x in m.sets.Keys { }
      MroMatchesHead(Mro(TypeOf(ev)), keys, m.sets.Keys);
      var q := QueryNode(r.tree, [ev], AxisList(r.axes));
      assert q == QueryEach(r.tree, ms, [ev], AxisList(r.axes));
      if ms != [] {
        assert q[0] == r.tree.children[ms[0]].target;
      }
    } else {
      assert TrimTrailingNones([ev]) == [];
    }
  }

  /** `registry.lookup(event)` is never an alignment failure: one positional argument, one axis. */
  function LookupSet(m: Manager, ev: Obj): (r: Option<Cls>)
    requires Inv(m)
    ensures r.Some? ==> r.value in m.sets && r.value in Mro(TypeOf(ev))
    ensures r.None? <==> ev == NoneObj || forall x :: x in Mro(TypeOf(ev)) ==> x !in m.sets
  {
    LookupEvent(m, ev);
    if ev == NoneObj then None else Nearest(Mro(TypeOf(ev)), m.sets.Keys)
  }

  /**
   * `fire(event)` as written: the handlers `all_handlers` yields for the
   * handler set `lookup` finds, in the order they are called. When there is
   * none, `None.all_handlers` raises.
   */
  function FireAsWritten(m: Manager, ev: Obj): (r: Result<seq<Handler>, EventError>)
    requires Inv(m)
    ensures r.Err? <==> LookupSet(m, ev).None?
    ensures r.Err? ==> r.error == NoHandlerSet
  {
    LookupEvent(m, ev);
    match Lookup(m.registry, [ev], [])
    case Err(e) => Err(EventError.RegistryFailure(e))
    case Ok(None) => Err(NoHandlerSet)
    case Ok(Some(c)) => Ok(AllHandlers(m.sets, c))
  }

  /** The handlers of the classes of `mro` that have handler sets, after `acc`, each once. */
  function MroHandlers(sets: map<Cls, HandlerSet>, mro: seq<Cls>, acc: seq<Handler>): (r: seq<Handler>)
    ensures |acc| <= |r| && r[..|acc|] == acc
    ensures HandlersDistinct(sets) && NoDuplicates(acc) ==> NoDuplicates(r)
    decreases |mro|
  {
    if mro == [] then acc
    else
      var acc1 := if mro[0] in sets then AddNew(acc, sets[mro[0]].handlers) else acc;
      var r := MroHandlers(sets, mro[1..], acc1);
      assert r[..|acc|] == r[..|acc1|][..|acc|];
      r
  }

  /**
   * `fire(event)` corrected: what the source calls, in the same order, and
   * then every other handler subscribed to a class of the event's MRO that
   * the nearest handler set does not reach, in MRO order.
   */
  function Fire(m: Manager, ev: Obj): (r: Result<seq<Handler>, EventError>)
    requires Inv(m)
    ensures r.Err? <==> LookupSet(m, ev).None?
    ensures r.Err? ==> r.error == NoHandlerSet
  {
    match LookupSet(m, ev)
    case None => Err(NoHandlerSet)
    case Some(c) => Ok(MroHandlers(m.sets, Mro(TypeOf(ev)), AllHandlers(m.sets, c)))
  }

  lemma {:induction false} MroHandlersMembers(sets: map<Cls, HandlerSet>, mro: seq<Cls>, acc: seq<Handler>, h: Handler)
    ensures h in MroHandlers(sets, mro, acc) <==> h in acc || HeardBy(sets, (set x | x in mro), h)
    decreases |mro|
  {
    if mro != [] {
      var acc1 := if mro[0] in sets then AddNew(acc, sets[mro[0]].handlers) else acc;
      MroHandlersMembers(sets, mro[1..], acc1, h);
      var all := set x | x in mro;
      var rest := set x | x in mro[1..];
      assert all == {mro[0]} + rest;
      if HeardBy(sets, all, h) {
        var x :| x in all && x in sets && h in sets[x].handlers;
        if x != mro[0] {
          assert HeardBy(sets, rest, h);
        }
      }
      if HeardBy(sets, rest, h) {
        var x :| x in rest && x in sets && h in sets[x].handlers;
        assert x in all;
      }
    }
  }

  /** Nothing new to add leaves the handler list as it is. */
  lemma {:induction false} AddNewNothingNew(acc: seq<Handler>, hs: seq<Handler>)
    requires forall x :: x in hs ==> x in acc
    ensures AddNew(acc, hs) == acc
    decreases |hs|
  {
    if hs != [] {
      AddNewNothingNew(acc, hs[1..]);
    }
  }

  lemma {:induction false} MroHandlersNothingNew(sets: map<Cls, HandlerSet>, mro: seq<Cls>, acc: seq<Handler>)
    requires forall x, h :: x in mro && x in sets && h in sets[x].handlers ==> h in acc
    ensures MroHandlers(sets, mro, acc) == acc
    decreases |mro|
  {
    if mro != [] {
      if mro[0] in sets {
        AddNewNothingNew(acc, sets[mro[0]].handlers);
      }
      MroHandlersNothingNew(sets, mro[1..], acc);
    }
  }

  /**
   * Firing calls exactly the handlers subscribed to some class of the
   * event's MRO, each once.
   */
  lemma FireMembers(m: Manager, ev: Obj, h: Handler)
    requires Inv(m) && WellFormed(TypeOf(ev)) && Fire(m, ev).Ok?
    ensures h in Fire(m, ev).value <==> HeardBy(m.sets, MroSet(TypeOf(ev)), h)
    ensures NoDuplicates(Fire(m, ev).value)
  {
    var t := TypeOf(ev);
    var c := LookupSet(m, ev).value;
    MroClosed(t, c);
    AllHandlersMembers(m.sets, c, h);
    MroHandlersMembers(m.sets, Mro(t), AllHandlers(m.sets, c), h);
    if HeardBy(m.sets, MroSet(c), h) {
      var x :| x in MroSet(c) && x in m.sets && h in m.sets[x].handlers;
      assert x in MroSet(t);
    }
  }

  /** The corrected firing starts with exactly what the source calls. */
  lemma FireExtendsAsWritten(m: Manager, ev: Obj)
    requires Inv(m)
    ensures FireAsWritten(m, ev).Ok? <==> Fire(m, ev).Ok?
    ensures FireAsWritten(m, ev).Ok? ==>
              var w := FireAsWritten(m, ev).value;
              |w| <= |Fire(m, ev).value| && Fire(m, ev).value[..|w|] == w
  {
    LookupEvent(m, ev);
  }

  /**
   * When every class of the event's MRO with a handler set is on the MRO of
   * the nearest one, the source calls every subscribed handler.
   */
  lemma AsWrittenCompleteWhenCovered(m: Manager, ev: Obj)
    requires Inv(m) && WellFormed(TypeOf(ev)) && LookupSet(m, ev).Some?
    requires forall x :: x in Mro(TypeOf(ev)) && x in m.sets ==> x in Mro(LookupSet(m, ev).value)
    ensures FireAsWritten(m, ev) == Fire(m, ev)
  {
    LookupEvent(m, ev);
    var c := LookupSet(m, ev).value;
    MroClosed(TypeOf(ev), c);
    forall x, h | x in Mro(TypeOf(ev)) && x in m.sets && h in m.sets[x].handlers
      ensures h in AllHandlers(m.sets, c)
    {
      AllHandlersMembers(m.sets, c, h);
      assert x in MroSet(c);
    }
    MroHandlersNothingNew(m.sets, Mro(TypeOf(ev)), AllHandlers(m.sets, c));
  }

  /** An event whose own type has a handler set is fired completely by the source. */
  lemma AsWrittenCompleteForExactType(m: Manager, ev: Obj)
    requires Inv(m) && WellFormed(TypeOf(ev)) && TypeOf(ev) in m.sets && ev != NoneObj
    ensures FireAsWritten(m, ev) == Fire(m, ev)
  {
    LookupEvent(m, ev);
    assert Mro(TypeOf(ev))[0] == TypeOf(ev);
    assert LookupSet(m, ev) == Some(TypeOf(ev));
    AsWrittenCompleteWhenCovered(m, ev);
  }

  /** Every class of the MRO has at most one base. */
  predicate SingleChain(c: Cls)
    decreases c
  {
    |c.bases| <= 1 && (|c.bases| == 1 ==> SingleChain(c.bases[0]))
  }

  /** Under single inheritance every tail of an MRO is the MRO of its head. */
  lemma {:induction false} SingleMroSuffix(c: Cls, k: nat)
    requires WellFormed(c) && SingleChain(c) && k < |Mro(c)|
    ensures Mro(c)[k..] == Mro(Mro(c)[k])
    decreases c
  {
    if k > 0 {
      var b := c.bases[0];
      assert Mro(c) == [c] + Mro(b);
      SingleMroSuffix(b, k - 1);
      assert Mro(c)[k..] == Mro(b)[k - 1..];
    }
  }

  /** Under single inheritance the source calls every subscribed handler. */
  lemma AsWrittenCompleteUnderSingleInheritance(m: Manager, ev: Obj)
    requires Inv(m) && WellFormed(TypeOf(ev)) && SingleChain(TypeOf(ev)) && LookupSet(m, ev).Some?
    ensures FireAsWritten(m, ev) == Fire(m, ev)
  {
    var mro := Mro(TypeOf(ev));
    var c := LookupSet(m, ev).value;
    assert c == Nearest(mro, m.sets.Keys).value;
    var k := NearestIndex(mro, m.sets.Keys);
    SingleMroSuffix(TypeOf(ev), k);
    SuffixCovers(mro, k, m.sets.Keys, Mro(c));
    AsWrittenCompleteWhenCovered(m, ev);
  }

  /** The position of the nearest registered class. */
  lemma NearestIndex(mro: seq<Cls>, registered: set<Cls>) returns (k: nat)
    requires Nearest(mro, registered).Some?
    ensures k < |mro| && mro[k] == Nearest(mro, registered).value
    ensures forall j :: 0 <= j < k ==> mro[j] !in registered
  {
    k :| 0 <= k < |mro| && mro[k] == Nearest(mro, registered).value && Nearest(mro, registered).value in registered &&
         forall j :: 0 <= j < k ==> mro[j] !in registered;
  }

  /** Whatever is registered on `mro` lies in its tail from the first registered position. */
  lemma SuffixCovers(mro: seq<Cls>, k: nat, registered: set<Cls>, tail: seq<Cls>)
    requires k < |mro| && mro[k..] == tail
    requires forall j :: 0 <= j < k ==> mro[j] !in registered
    ensures forall x :: x in mro && x in registered ==> x in tail
  {
    forall x | x in mro && x in registered ensures x in tail {
      var i :| 0 <= i < |mro| && mro[i] == x;
      assert tail[i - k] == x;
    }
  }

  /** Two unrelated event types and a type that inherits from both, in that order. */
  const ExampleA: Cls := Cls(10, [Object], [Object])
  const ExampleS: Cls := Cls(11, [Object], [Object])
  const ExampleC: Cls := Cls(12, [ExampleA, ExampleS], [ExampleA, ExampleS, Object])

  lemma ExampleClassesWellFormed()
    ensures WellFormed(ExampleA) && WellFormed(ExampleS) && WellFormed(ExampleC)
    ensures MroSet(ExampleA) == {ExampleA, Object} && MroSet(ExampleS) == {ExampleS, Object}
  {
    ExampleBasesWellFormed();
    ExampleChildWellFormed();
  }

  lemma ExampleBasesWellFormed()
    ensures WellFormed(ExampleA) && WellFormed(ExampleS)
    ensures MroSet(ExampleA) == {ExampleA, Object} && MroSet(ExampleS) == {ExampleS, Object}
  {
    assert Mro(Object) == [Object];
    assert Mro(ExampleA) == [ExampleA, Object];
    assert Mro(ExampleS) == [ExampleS, Object];
  }

  lemma ExampleChildWellFormed()
    requires WellFormed(ExampleA) && WellFormed(ExampleS)
    ensures WellFormed(ExampleC)
  {
    assert Mro(ExampleA) == [ExampleA, Object];
    assert Mro(ExampleS) == [ExampleS, Object];
    assert InSomeBaseMro(ExampleC, ExampleS) by {
      assert ExampleS in Mro(ExampleC.bases[1]);
    }
  }

  /** What `Subscribe`'s contract says of subscribing `h` to `c`, for `c`'s MRO `mro`. */
  predicate Subscribed(m: Manager, h: Handler, c: Cls, mro: set<Cls>, m1: Manager)
  {
    && m1.sets.Keys == m.sets.Keys + mro
    && c in m1.sets && m1.sets[c].handlers == AddHandler(Own(m, c), h)
    && forall x :: x in m1.sets && x != c ==> Own(m1, x) == Own(m, x)
  }

  lemma ExampleFirstStep(m0: Manager, m1: Manager)
    requires m0.sets == map[] && Subscribed(m0, 1, ExampleA, {ExampleA, Object}, m1)
    ensures m1.sets.Keys == {ExampleA, Object}
    ensures Own(m1, ExampleA) == [1] && Own(m1, ExampleS) == [] && Own(m1, Object) == []
  {
    assert Own(m0, ExampleA) == [];
    assert Own(m1, Object) == Own(m0, Object);
  }

  lemma ExampleSecondStep(m1: Manager, m2: Manager)
    requires m1.sets.Keys == {ExampleA, Object}
    requires Own(m1, ExampleA) == [1] && Own(m1, ExampleS) == [] && Own(m1, Object) == []
    requires Subscribed(m1, 2, ExampleS, {ExampleS, Object}, m2)
    ensures m2.sets.Keys == {ExampleA, ExampleS, Object}
    ensures Own(m2, ExampleA) == [1] && Own(m2, ExampleS) == [2] && Own(m2, Object) == []
  {
    assert Own(m2, ExampleA) == Own(m1, ExampleA);
    assert Own(m2, Object) == Own(m1, Object);
  }

  /** A fresh manager after subscribing handler 1 to `ExampleA` and then handler 2 to `ExampleS`. */
  function ExampleManager(): (m: Manager)
    ensures Inv(m) && m.sets.Keys == {ExampleA, ExampleS, Object}
    ensures Own(m, ExampleA) == [1] && Own(m, ExampleS) == [2] && Own(m, Object) == []
  {
    ExampleClassesWellFormed();
    var m0 := NewManager();
    var m1 := Subscribe(m0, 1, ExampleA).value;
    assert Subscribed(m0, 1, ExampleA, MroSet(ExampleA), m1);
    ExampleFirstStep(m0, m1);
    var m2 := Subscribe(m1, 2, ExampleS).value;
    assert Subscribed(m1, 2, ExampleS, MroSet(ExampleS), m2);
    ExampleSecondStep(m1, m2);
    m2
  }

  /**
   * With multiple inheritance the source skips handlers: with a handler on
   * `ExampleA`, one on `ExampleS` and no handler set for `ExampleC`, firing
   * an `ExampleC` finds `ExampleA`'s handler set, whose `all_handlers` never
   * reaches `ExampleS`.
   */
  lemma AsWrittenSkipsSecondBase()
    ensures FireAsWritten(ExampleManager(), Instance(ExampleC, 0)) == Ok([1])
    ensures Fire(ExampleManager(), Instance(ExampleC, 0)) == Ok([1, 2])
  {
    ExampleFire(ExampleManager());
  }

  lemma ExampleFire(m: Manager)
    requires Inv(m) && m.sets.Keys == {ExampleA, ExampleS, Object}
    requires Own(m, ExampleA) == [1] && Own(m, ExampleS) == [2] && Own(m, Object) == []
    ensures FireAsWritten(m, Instance(ExampleC, 0)) == Ok([1])
    ensures Fire(m, Instance(ExampleC, 0)) == Ok([1, 2])
  {
    ExampleLookup(m.sets.Keys);
    LookupEvent(m, Instance(ExampleC, 0));
    ExampleHandlers(m.sets);
  }

  lemma ExampleLookup(registered: set<Cls>)
    requires registered == {ExampleA, ExampleS, Object}
    ensures Nearest(Mro(TypeOf(Instance(ExampleC, 0))), registered) == Some(ExampleA)
  {
    var mro := Mro(ExampleC);
    assert mro == [ExampleC, ExampleA, ExampleS, Object];
    assert ExampleC.id == 12;
    assert ExampleC !in registered;
    assert mro[1..][0] == ExampleA;
  }

  lemma ExampleHandlers(sets: map<Cls, HandlerSet>)
    requires SetsClosed(sets) && sets.Keys == {ExampleA, ExampleS, Object}
    requires sets[ExampleA].handlers == [1] && sets[ExampleS].handlers == [2] && sets[Object].handlers == []
    ensures AllHandlers(sets, ExampleA) == [1]
    ensures MroHandlers(sets, Mro(ExampleC), [1]) == [1, 2]
  {
    assert AllHandlers(sets, Object) == [];
    assert sets[ExampleA].parents == [Object];
    assert ParentHandlers(sets, ExampleA, 1, [1]) == [1];
    assert MroHandlers(sets, [Object], [1, 2]) == [1, 2];
    assert AddNew([1], [2]) == [1, 2] by {
      assert AddNew([1, 2], []) == [1, 2];
      assert [2][1..] == [];
    }
    assert [ExampleS, Object][1..] == [Object];
    assert MroHandlers(sets, [ExampleS, Object], [1]) == [1, 2];
    assert Mro(ExampleC) == [ExampleC, ExampleA, ExampleS, Object];
  }
}
