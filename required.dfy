/**
 * The required-field analysis: does a message type, or any type reachable
 * from it through message and group fields, need an isInitialized check?
 * The analysis is a depth-first search over a possibly cyclic type graph
 * that records every type it enters in an `already_seen` set.
 */
module Required {
  import opened Wire
  import opened Schema

  /** A type needs checking by itself: it has extension ranges, a required field or a "[required=true]" field. */
  predicate Direct(m: MessageType)
  {
    |m.ranges| > 0 ||
    exists k :: 0 <= k < |m.fields| && (m.fields[k].occurrence == Required || HasRequiredTag(m.fields[k]))
  }

  /** u is the type of a message-typed field of t. */
  predicate Edge(types: seq<MessageType>, t: nat, u: nat)
    requires t < |types|
  {
    exists k :: 0 <= k < |types[t].fields| && IsMessageField(types[t].fields[k]) && types[t].fields[k].msgType == u
  }

  /** A walk through message-typed fields. */
  predicate IsPath(types: seq<MessageType>, p: seq<nat>)
  {
    |p| > 0 &&
    (forall k :: 0 <= k < |p| ==> p[k] < |types|) &&
    (forall k :: 0 <= k < |p| - 1 ==> Edge(types, p[k], p[k + 1]))
  }

  /** Some type reachable from t (t included) needs checking by itself. */
  ghost predicate RequiresInit(types: seq<MessageType>, t: nat)
  {
    exists p :: IsPath(types, p) && p[0] == t && Direct(types[p[|p| - 1]])
  }

  /** already_seen: the types the search has entered. */
  class TypeSet {
    var elems: set<nat>

    constructor ()
      ensures elems == {}
    {
      elems := {};
    }

    method Insert(t: nat)
      modifies this
      ensures elems == old(elems) + {t}
    {
      elems := elems + {t};
    }

    method Contains(t: nat) returns (b: bool)
      ensures b <==> t in elems
    {
      b := t in elems;
    }
  }

  /** The type indices 0 .. n - 1. */
  function AllTypes(n: nat): (r: set<nat>)
    ensures forall t :: t in r <==> 0 <= t < n
  {
    if n == 0 then {} else AllTypes(n - 1) + {n - 1}
  }

  /** u has been fully explored: it needs no check by itself and all its successors are in s. */
  predicate Closed(types: seq<MessageType>, u: nat, s: set<nat>)
  {
    u < |types| && !Direct(types[u]) &&
    forall k :: 0 <= k < |types[u].fields| && IsMessageField(types[u].fields[k]) ==> types[u].fields[k].msgType in s
  }

  /** Every seen type is either still being explored (on the stack) or closed. */
  predicate SeenInvariant(types: seq<MessageType>, s: set<nat>, stack: set<nat>)
  {
    forall u :: u in s ==> u in stack || Closed(types, u, s)
  }

  lemma PathCons(types: seq<MessageType>, t: nat, p: seq<nat>)
    requires t < |types| && IsPath(types, p) && Edge(types, t, p[0])
    ensures IsPath(types, [t] + p)
  {
    var q := [t] + p;
    forall k | 0 <= k < |q| - 1
      ensures Edge(types, q[k], q[k + 1])
    {
      if k > 0 {
        assert q[k] == p[k - 1] && q[k + 1] == p[k];
      }
    }
  }

  /** A type needs checking when the type of one of its message fields does. */
  lemma RequiresInitThroughField(types: seq<MessageType>, t: nat, k: nat)
    requires t < |types| && k < |types[t].fields|
    requires IsMessageField(types[t].fields[k]) && RequiresInit(types, types[t].fields[k].msgType)
    ensures RequiresInit(types, t)
  {
    var p :| IsPath(types, p) && p[0] == types[t].fields[k].msgType && Direct(types[p[|p| - 1]]);
    assert Edge(types, t, p[0]);
    PathCons(types, t, p);
    assert ([t] + p)[|[t] + p| - 1] == p[|p| - 1];
  }

  /**
   * The recursive HasRequiredFields(type, already_seen). A true answer comes
   * with a witness; a false answer leaves every type it entered closed,
   * except those still on the caller's stack.
   */
  method HasRequiredFieldsFrom(types: seq<MessageType>, t: nat, seen: TypeSet, ghost stack: set<nat>) returns (b: bool)
    requires ValidTypes(types) && t < |types|
    requires seen.elems <= AllTypes(|types|) && stack <= seen.elems
    requires SeenInvariant(types, seen.elems, stack)
    modifies seen
    ensures old(seen.elems) <= seen.elems <= AllTypes(|types|)
    ensures b ==> RequiresInit(types, t)
    ensures !b ==> t in seen.elems && SeenInvariant(types, seen.elems, stack)
    decreases AllTypes(|types|) - seen.elems
  {
    var already := seen.Contains(t);
    if already {
      return false;
    }
    seen.Insert(t);
    ghost var inner := stack + {t};
    var m := types[t];
    if |m.ranges| > 0 {
      DirectRequiresInit(types, t);
      return true;
    }
    var i := 0;
    while i < |m.fields|
      invariant 0 <= i <= |m.fields|
      invariant old(seen.elems) + {t} <= seen.elems <= AllTypes(|types|)
      invariant SeenInvariant(types, seen.elems, inner)
      invariant forall k :: 0 <= k < i ==> m.fields[k].occurrence != Required && !HasRequiredTag(m.fields[k])
      invariant forall k :: 0 <= k < i && IsMessageField(m.fields[k]) ==> m.fields[k].msgType in seen.elems
    {
      var f := m.fields[i];
      if f.occurrence == Required || HasRequiredTag(f) {
        DirectRequiresInit(types, t);
        return true;
      }
      if IsMessageField(f) {
        assert ValidField(f, |types|);
        var sub := HasRequiredFieldsFrom(types, f.msgType, seen, inner);
        if sub {
          RequiresInitThroughField(types, t, i);
          return true;
        }
      }
      i := i + 1;
    }
    assert Closed(types, t, seen.elems);
    ClosedLeavesStack(types, seen.elems, stack, t);
    return false;
  }

  /** A type that needs checking by itself needs checking. */
  lemma DirectRequiresInit(types: seq<MessageType>, t: nat)
    requires t < |types| && Direct(types[t])
    ensures RequiresInit(types, t)
  {
    assert IsPath(types, [t]);
  }

  /** Once t is closed, it may leave the stack. */
  lemma ClosedLeavesStack(types: seq<MessageType>, s: set<nat>, stack: set<nat>, t: nat)
    requires SeenInvariant(types, s, stack + {t}) && Closed(types, t, s)
    ensures SeenInvariant(types, s, stack)
  {
  }

  /** A walk that starts at a closed type stays among closed types and never meets a Direct one. */
  lemma {:induction false} ClosedWalk(types: seq<MessageType>, s: set<nat>, p: seq<nat>)
    requires IsPath(types, p) && p[0] in s
    requires forall u :: u in s ==> Closed(types, u, s)
    ensures !Direct(types[p[|p| - 1]])
  {
    if |p| > 1 {
      assert Edge(types, p[0], p[1]);
      var tail := p[1..];
      assert IsPath(types, tail) by {
        forall k | 0 <= k < |tail| - 1
          ensures Edge(types, tail[k], tail[k + 1])
        {
          assert tail[k] == p[k + 1] && tail[k + 1] == p[k + 2];
        }
      }
      ClosedWalk(types, s, tail);
    }
  }

  /** HasRequiredFields(type) with a fresh set: true exactly when some reachable type needs checking. */
  method HasRequiredFields(types: seq<MessageType>, t: nat) returns (b: bool)
    requires ValidTypes(types) && t < |types|
    ensures b <==> RequiresInit(types, t)
  {
    var seen := new TypeSet();
    b := HasRequiredFieldsFrom(types, t, seen, {});
    if !b {
      forall p | IsPath(types, p) && p[0] == t
        ensures !Direct(types[p[|p| - 1]])
      {
        ClosedWalk(types, seen.elems, p);
      }
    }
  }
}
