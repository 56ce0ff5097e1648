/**
 * The part of Python's object model the registry depends on: objects, their
 * run-time type, and each class's method resolution order (MRO), given as an
 * explicit precomputed linearization instead of run-time reflection.
 */
module PyTypes {

  /**
   * A class: an identity, its direct bases (`__bases__`), and its MRO after
   * itself. Two classes are the same class only if all three agree.
   */
  datatype Cls = Cls(id: nat, bases: seq<Cls>, ancestors: seq<Cls>)

  /** A Python object as seen by the registry: `None`, a class object, or an instance. */
  datatype Obj = NoneObj | ClassObj(cls: Cls) | Instance(cls: Cls, id: nat)

  /** `object`, the root of every MRO. */
  const Object: Cls := Cls(0, [], [])

  /** `type(None)`. */
  const NoneType: Cls := Cls(1, [Object], [Object])

  /** `type`, the class of every class object (metaclasses are not modelled). */
  const TypeType: Cls := Cls(2, [Object], [Object])

  /** `c.mro()`: the class itself followed by its ancestors. */
  function Mro(c: Cls): (m: seq<Cls>)
    ensures |m| == |c.ancestors| + 1 && m[0] == c && m[1..] == c.ancestors
  {
    [c] + c.ancestors
  }

  /** `type(o)`. */
  function TypeOf(o: Obj): Cls
  {
    match o
    case NoneObj => NoneType
    case ClassObj(_) => TypeType
    case Instance(c, _) => c
  }

  predicate NoDuplicates<X(==)>(s: seq<X>)
  {
    forall i, j :: 0 <= i < j < |s| ==> s[i] != s[j]
  }

  /**
   * What Python guarantees of every class: only `object` has no bases; the MRO
   * has no repetitions, ends in `object`, and is made of exactly the classes of
   * the bases' MROs; a class with one base has that base's MRO as its tail
   * (which is what C3 linearization gives for single inheritance).
   */
  predicate WellFormed(c: Cls)
    decreases c
  {
    && (c.bases == [] <==> c == Object)
    && (c.bases != [] ==>
          && |c.ancestors| > 0
          && c.ancestors[|c.ancestors| - 1] == Object
          && NoDuplicates(Mro(c))
          && (forall i :: 0 <= i < |c.bases| ==> WellFormed(c.bases[i]))
          && (forall x :: x in c.ancestors ==> InSomeBaseMro(c, x))
          && (forall i, x :: 0 <= i < |c.bases| && x in Mro(c.bases[i]) ==> x in c.ancestors)
          && (|c.bases| == 1 ==> c.ancestors == Mro(c.bases[0])))
  }

  predicate InSomeBaseMro(c: Cls, x: Cls)
  {
    exists i :: 0 <= i < |c.bases| && x in Mro(c.bases[i])
  }

  /** Every well-formed MRO starts at the class itself and ends at `object`. */
  lemma MroEndsInObject(c: Cls)
    requires WellFormed(c)
    ensures Mro(c)[0] == c
    ensures Mro(c)[|Mro(c)| - 1] == Object
    ensures NoDuplicates(Mro(c))
  {
  }
}
