/**
 * Function declarations and the rules that keep their overload sets
 * unambiguous: the assignability relation between types, the overlap test
 * between two overload signatures, insertion of an overload into a
 * function's overload set, and the type parameters a signature mentions.
 */
module Decl {
  import opened Types

  // ---------------------------------------------------------------------------
  // Assignability
  // ---------------------------------------------------------------------------

  /**
   * Whether a value of type `from` may be used where `to` is expected.
   * A wrapper target recurses on a fixed primitive (or null) target with the
   * same source, so the measure is the source first and the wrapper-ness of
   * the target second.
   */
  function Assignable(to: Type, from: Type): bool
    decreases from, if to.kind.IsWrapper() then 1 else 0
  {
    if to == from then true
    else if to.kind == DynKind then true
    else if to.kind.IsWrapper() then
      Assignable(NullType, from) || Assignable(Unwrapped(to.kind), from)
    else
      && to.kind == from.kind
      && to.name == from.name
      && |to.params| == |from.params|
      && forall i :: 0 <= i < |to.params| ==> Assignable(to.params[i], from.params[i])
  }

  /**
   * The assignability check: equality, dyn and the wrappers first, then
   * kind, name and arity, then the parameters pairwise, stopping at the
   * first that is not assignable.
   */
  method TypeIsAssignable(to: Type, from: Type) returns (assignable: bool)
    ensures assignable == Assignable(to, from)
    decreases from, if to.kind.IsWrapper() then 1 else 0
  {
    if to == from {
      return true;
    }
    if to.kind == DynKind {
      return true;
    }
    if to.kind.IsWrapper() {
      assignable := TypeIsAssignable(NullType, from);
      if !assignable {
        assignable := TypeIsAssignable(Unwrapped(to.kind), from);
      }
      return;
    }
    if to.kind != from.kind || to.name != from.name {
      return false;
    }
    if |to.params| != |from.params| {
      return false;
    }
    for i := 0 to |to.params|
      invariant forall j :: 0 <= j < i ==> Assignable(to.params[j], from.params[j])
    {
      var paramAssignable := TypeIsAssignable(to.params[i], from.params[i]);
      if !paramAssignable {
        return false;
      }
    }
    return true;
  }

  /** A target without parameters that is neither dyn nor a wrapper accepts only itself. */
  lemma LeafAcceptsOnlyItself(leaf: Type, from: Type)
    requires leaf.params == [] && leaf.kind != DynKind && !leaf.kind.IsWrapper()
    ensures Assignable(leaf, from) <==> from == leaf
  {
  }

  /** Every type is assignable to itself and to dyn. */
  lemma AssignableReflexiveAndDynIsTop(t: Type, from: Type)
    ensures Assignable(t, t)
    ensures Assignable(DynType, from)
  {
  }

  /**
   * Nothing but a dyn-kinded target accepts dyn, so the relation is not
   * symmetric: dyn accepts int, int does not accept dyn.
   */
  lemma AssignableFromDyn(to: Type)
    ensures Assignable(to, DynType) <==> to.kind == DynKind
    ensures Assignable(DynType, IntType) && !Assignable(IntType, DynType)
  {
    if to.kind.IsWrapper() {
      LeafAcceptsOnlyItself(NullType, DynType);
      LeafAcceptsOnlyItself(Unwrapped(to.kind), DynType);
    }
  }

  /** A wrapper target accepts exactly null, its underlying primitive and itself. */
  lemma WrapperAccepts(to: Type, from: Type)
    requires to.kind.IsWrapper()
    ensures Assignable(to, from) <==> from == to || from == NullType || from == Unwrapped(to.kind)
  {
    LeafAcceptsOnlyItself(NullType, from);
    LeafAcceptsOnlyItself(Unwrapped(to.kind), from);
  }

  /**
   * Every other target requires the same kind, name and arity and
   * parameters assignable pairwise in the same direction; type parameters
   * are not special and match by name.
   */
  lemma {:induction false} StructuralAssignability(to: Type, from: Type)
    requires to.kind != DynKind && !to.kind.IsWrapper()
    ensures Assignable(to, from) <==>
      && to.kind == from.kind
      && to.name == from.name
      && |to.params| == |from.params|
      && forall i :: 0 <= i < |to.params| ==> Assignable(to.params[i], from.params[i])
    ensures to.kind == TypeParamKind && from.kind == TypeParamKind && to.params == from.params == [] ==>
      (Assignable(to, from) <==> to.name == from.name)
  {
    if to == from {
      forall i | 0 <= i < |to.params|
        ensures Assignable(to.params[i], from.params[i])
      {
        AssignableReflexiveAndDynIsTop(to.params[i], from.params[i]);
      }
    }
  }

  lemma {:induction false} AssignableTransitive(a: Type, b: Type, c: Type)
    requires Assignable(a, b) && Assignable(b, c)
    ensures Assignable(a, c)
    decreases a
  {
    if a == b || a.kind == DynKind {
    } else if a.kind.IsWrapper() {
      WrapperAccepts(a, b);
      WrapperAccepts(a, c);
      if b == NullType {
        LeafAcceptsOnlyItself(NullType, c);
      } else {
        LeafAcceptsOnlyItself(Unwrapped(a.kind), c);
      }
    } else if b != c {
      forall i | 0 <= i < |a.params|
        ensures Assignable(a.params[i], c.params[i])
      {
        AssignableTransitive(a.params[i], b.params[i], c.params[i]);
      }
    }
  }

  /** On the types the factories build, mutual assignability is equality. */
  lemma {:induction false} AssignableAntisymmetric(a: Type, b: Type)
    requires WellFormed(a) && WellFormed(b)
    requires Assignable(a, b) && Assignable(b, a)
    ensures a == b
    decreases a
  {
    if a.kind.IsWrapper() {
      WrapperAccepts(a, b);
      if b != a {
        LeafAcceptsOnlyItself(b, a);
      }
    } else if b.kind.IsWrapper() {
      WrapperAccepts(b, a);
      if b != a {
        LeafAcceptsOnlyItself(a, b);
      }
    } else if a.kind != DynKind && b.kind != DynKind {
      StructuralAssignability(a, b);
      StructuralAssignability(b, a);
      forall i | 0 <= i < |a.params|
        ensures a.params[i] == b.params[i]
      {
        AssignableAntisymmetric(a.params[i], b.params[i]);
      }
    }
  }

  // ---------------------------------------------------------------------------
  // Overloads
  // ---------------------------------------------------------------------------

  datatype OverloadDecl = OverloadDecl(id: string, member: bool, args: seq<Type>, result: Type)

  /**
   * Two signatures are ambiguous when some call could match both: same
   * member flag, same arity, and at every position one argument type is
   * assignable to the other in some direction.
   */
  predicate Overlapping(lhs: OverloadDecl, rhs: OverloadDecl) {
    && lhs.member == rhs.member
    && |lhs.args| == |rhs.args|
    && forall i :: 0 <= i < |lhs.args| ==>
         Assignable(lhs.args[i], rhs.args[i]) || Assignable(rhs.args[i], lhs.args[i])
  }

  /** The overlap test, folding a single flag over the argument positions. */
  method SignaturesOverlap(lhs: OverloadDecl, rhs: OverloadDecl) returns (overlap: bool)
    ensures overlap == Overlapping(lhs, rhs)
  {
    if lhs.member != rhs.member {
      return false;
    }
    if |lhs.args| != |rhs.args| {
      return false;
    }
    var argsOverlap := true;
    for i := 0 to |lhs.args|
      invariant argsOverlap <==> forall j :: 0 <= j < i ==>
        Assignable(lhs.args[j], rhs.args[j]) || Assignable(rhs.args[j], lhs.args[j])
    {
      if argsOverlap {
        argsOverlap := TypeIsAssignable(lhs.args[i], rhs.args[i]);
        if !argsOverlap {
          argsOverlap := TypeIsAssignable(rhs.args[i], lhs.args[i]);
        }
      }
    }
    return argsOverlap;
  }

  /** Overlap does not depend on the order of the two signatures; nullary overloads of one member flag always overlap. */
  lemma OverlappingSymmetric(lhs: OverloadDecl, rhs: OverloadDecl)
    ensures Overlapping(lhs, rhs) <==> Overlapping(rhs, lhs)
    ensures lhs.args == [] && rhs.args == [] ==> (Overlapping(lhs, rhs) <==> lhs.member == rhs.member)
  {
  }

  // ---------------------------------------------------------------------------
  // Function declarations
  // ---------------------------------------------------------------------------

  /** The outcome carried by the status out-parameter. */
  datatype Status = Ok | AlreadyExists(message: string) | InvalidArgument(message: string)

  function AlreadyExistsMessage(id: string): string {
    "overload already exists: " + id
  }

  function CollisionMessage(existing: string, incoming: string): string {
    "overload signature collision: " + existing + " collides with " + incoming
  }

  /**
   * A function name with its overload set. The set is keyed by overload id,
   * as the id-hashed set of the implementation is.
   */
  class FunctionDecl {
    var name: string
    var overloads: map<string, OverloadDecl>

    /** Ids are unique keys and no two distinct overloads overlap. */
    ghost predicate Valid()
      reads this
    {
      && (forall id :: id in overloads ==> overloads[id].id == id)
      && (forall a, b :: a in overloads && b in overloads && a != b ==> !Overlapping(overloads[a], overloads[b]))
    }

    constructor (name: string)
      ensures Valid()
      ensures this.name == name && overloads == map[]
    {
      this.name := name;
      overloads := map[];
    }

    /**
     * Adds `overload` unless `status` already holds an error, its id is
     * taken, or it overlaps an existing overload; on every failure the set
     * is left as it was. Which of several overlapping overloads the message
     * names depends on the hash set's iteration order, chosen arbitrarily here.
     */
    method AddOverloadImpl(overload: OverloadDecl, status: Status) returns (status': Status)
      requires Valid()
      modifies this
      ensures Valid()
      ensures name == old(name)
      ensures status != Ok ==> status' == status && overloads == old(overloads)
      ensures status == Ok && overload.id in old(overloads) ==>
        status' == AlreadyExists(AlreadyExistsMessage(overload.id)) && overloads == old(overloads)
      ensures status == Ok && overload.id !in old(overloads) ==>
        if exists e :: e in old(overloads) && Overlapping(overload, old(overloads)[e]) then
          && overloads == old(overloads)
          && status'.InvalidArgument?
          && exists e :: e in old(overloads) && Overlapping(overload, old(overloads)[e])
                         && status'.message == CollisionMessage(e, overload.id)
        else
          && status' == Ok
          && overloads == old(overloads)[overload.id := overload]
          && |overloads| == |old(overloads)| + 1
    {
      if status != Ok {
        return status;
      }
      if overload.id in overloads {
        return AlreadyExists(AlreadyExistsMessage(overload.id));
      }
      var unvisited := overloads.Keys;
      while unvisited != {}
        invariant unchanged(this)
        invariant unvisited <= overloads.Keys
        invariant forall e :: e in overloads && e !in unvisited ==> !Overlapping(overload, overloads[e])
        decreases unvisited
      {
        var e :| e in unvisited;
        var overlap := SignaturesOverlap(overload, overloads[e]);
        if overlap {
          assert overloads[e].id == e;
          return InvalidArgument(CollisionMessage(overloads[e].id, overload.id));
        }
        unvisited := unvisited - {e};
      }
      var grown := overloads[overload.id := overload];
      forall a, b | a in grown && b in grown && a != b
        ensures !Overlapping(grown[a], grown[b])
      {
        OverlappingSymmetric(overload, grown[if a == overload.id then b else a]);
      }
      overloads := grown;
      status' := Ok;
    }
  }

  /**
   * An example of a collision: foo(int, int) -> int and then
   * foo(int, int) -> bool differ only in their result, so the second is
   * refused, naming the first, and only the first stays registered.
   */
  method CollidingRegistration() returns (first: Status, second: Status, registered: map<string, OverloadDecl>)
    ensures first == Ok
    ensures second == InvalidArgument(CollisionMessage("foo_int_int", "foo_int_int_bool"))
    ensures registered == map["foo_int_int" := OverloadDecl("foo_int_int", false, [IntType, IntType], IntType)]
  {
    var foo := new FunctionDecl("foo");
    var intOverload := OverloadDecl("foo_int_int", false, [IntType, IntType], IntType);
    var boolOverload := OverloadDecl("foo_int_int_bool", false, [IntType, IntType], BoolType);
    first := foo.AddOverloadImpl(intOverload, Ok);
    assert Overlapping(boolOverload, intOverload);
    second := foo.AddOverloadImpl(boolOverload, first);
    registered := foo.overloads;
  }

  // ---------------------------------------------------------------------------
  // Type parameters of a signature
  // ---------------------------------------------------------------------------

  /** Names of the type parameters in `t`, looking through list, map, opaque and function parameters only. */
  function TypeParamsOf(t: Type): set<string>
    decreases t, 1
  {
    if t.kind == TypeParamKind then {t.name}
    else if t.kind.HasTypeArguments() then TypeParamsOfFirst(t, |t.params|)
    else {}
  }

  /** The type parameters of the first `k` parameters of `t`. */
  function TypeParamsOfFirst(t: Type, k: nat): set<string>
    requires k <= |t.params|
    decreases t, 0, k
  {
    if k == 0 then {} else TypeParamsOfFirst(t, k - 1) + TypeParamsOf(t.params[k - 1])
  }

  lemma {:induction false} TypeParamsOfFirstMembership(t: Type, k: nat, n: string)
    requires k <= |t.params|
    ensures n in TypeParamsOfFirst(t, k) <==> exists i :: 0 <= i < k && n in TypeParamsOf(t.params[i])
  {
    if k > 0 {
      TypeParamsOfFirstMembership(t, k - 1, n);
    }
  }

  /**
   * `path` leads from `t` to a type parameter named `n`, each step choosing
   * a parameter of a list, map, opaque or function type.
   */
  predicate ReachesTypeParam(t: Type, path: seq<nat>, n: string)
    decreases |path|
  {
    if path == [] then t.kind == TypeParamKind && t.name == n
    else t.kind.HasTypeArguments() && path[0] < |t.params| && ReachesTypeParam(t.params[path[0]], path[1..], n)
  }

  lemma {:induction false} TypeParamsAreReachable(t: Type, n: string)
    ensures n in TypeParamsOf(t) ==> exists path :: ReachesTypeParam(t, path, n)
    ensures (exists path :: ReachesTypeParam(t, path, n)) ==> n in TypeParamsOf(t)
  {
    if n in TypeParamsOf(t) {
      var path := CollectedTypeParamIsReached(t, n);
      assert ReachesTypeParam(t, path, n);
    }
    if exists path :: ReachesTypeParam(t, path, n) {
      var path :| ReachesTypeParam(t, path, n);
      ReachedTypeParamIsCollected(t, path, n);
      assert n in TypeParamsOf(t);
    }
  }

  lemma {:induction false} CollectedTypeParamIsReached(t: Type, n: string) returns (path: seq<nat>)
    requires n in TypeParamsOf(t)
    ensures ReachesTypeParam(t, path, n)
    decreases t
  {
    if t.kind == TypeParamKind {
      path := [];
    } else {
      TypeParamsOfFirstMembership(t, |t.params|, n);
      var i :| 0 <= i < |t.params| && n in TypeParamsOf(t.params[i]);
      var rest := CollectedTypeParamIsReached(t.params[i], n);
      path := [i] + rest;
      assert path[1..] == rest;
    }
  }

  lemma {:induction false} ReachedTypeParamIsCollected(t: Type, path: seq<nat>, n: string)
    requires ReachesTypeParam(t, path, n)
    ensures n in TypeParamsOf(t)
    decreases |path|
  {
    if path != [] {
      ReachedTypeParamIsCollected(t.params[path[0]], path[1..], n);
      TypeParamsOfFirstMembership(t, |t.params|, n);
    }
  }

  /** Adds the type parameters of `t` to `typeParams`, as the by-reference set of the implementation. */
  method CollectTypeParams(typeParams: set<string>, t: Type) returns (collected: set<string>)
    ensures collected == typeParams + TypeParamsOf(t)
    decreases t
  {
    collected := typeParams;
    if t.kind.HasTypeArguments() {
      for i := 0 to |t.params|
        invariant collected == typeParams + TypeParamsOfFirst(t, i)
      {
        collected := CollectTypeParams(collected, t.params[i]);
      }
    } else if t.kind == TypeParamKind {
      collected := collected + {t.name};
    }
  }

  /** The type parameters of an overload: those of its result and of each argument. */
  method GetTypeParams(overload: OverloadDecl) returns (typeParams: set<string>)
    ensures typeParams == TypeParamsOf(FunctionType(overload.result, overload.args))
  {
    ghost var signature := FunctionType(overload.result, overload.args);
    typeParams := CollectTypeParams({}, overload.result);
    for i := 0 to |overload.args|
      invariant typeParams == TypeParamsOfFirst(signature, i + 1)
    {
      typeParams := CollectTypeParams(typeParams, overload.args[i]);
    }
  }
}
