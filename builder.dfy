/**
 * The emitted builder class: `builder_result` (None once buildPartial has
 * handed it out, after which every message sent to it is a no-op, as a
 * message to nil is), the per-field setters the field generators emit, and
 * the lifecycle methods build, buildPartial, mergeFrom and
 * partiallyMergeFrom. Also the runtime meaning of the checks isInitialized makes.
 */
module Builders {
  import opened Wrappers
  import opened Wire
  import opened Schema
  import opened Ordering
  import opened Required
  import opened Records
  import opened MessageGen

  // ---------------------------------------------------------------------------
  // isInitialized at run time

  /**
   * The shared default instance of type u has nothing set and every list nil,
   * so it passes its own isInitialized exactly when that makes no has-check
   * and no non-nil check (a nested check only follows a has-check that fails).
   */
  ghost predicate DefaultInitialized(types: seq<MessageType>, u: nat)
    requires u < |types|
  {
    var checks := InitChecks(types, u);
    forall k :: 0 <= k < |checks| ==> !checks[k].HasCheck? && !checks[k].NonNilCheck?
  }

  /** A value stored in a message field of type u passes isInitialized. */
  ghost predicate ValueInitialized(types: seq<MessageType>, u: nat, v: Value)
    requires u < |types|
    decreases v, 0
  {
    match v
    case Sub(msg) => Initialized(types, u, msg)
    case DefaultInstance => DefaultInitialized(types, u)
    case _ => false
  }

  /** What one emitted check demands of the record. */
  ghost predicate CheckHolds(types: seq<MessageType>, c: InitCheck, r: Record)
    decreases r, 2
  {
    match c
    case HasCheck(f) => f.number in r.has
    case NonNilCheck(f) => List(r, f).Some?
    case SubCheck(f) => f.msgType < |types| && StoredInitialized(types, f, r)
    case GuardedSubCheck(f) => f.msgType < |types| && (f.number in r.has ==> StoredInitialized(types, f, r))
    case EachElementCheck(f) =>
      f.msgType < |types| &&
      (f.number in r.lists ==>
        ElementsInitialized(types, f.msgType, r.lists[f.number].items))
    case ExtensionsCheck => forall n :: n in r.extensions ==> r.extensions[n].initialized
  }

  /** Every element of a list passes isInitialized. */
  ghost predicate ElementsInitialized(types: seq<MessageType>, u: nat, vs: seq<Value>)
    requires u < |types|
    decreases vs, 1
  {
    forall k :: 0 <= k < |vs| ==> ValueInitialized(types, u, vs[k])
  }

  /** The nested check of a singular message field: the stored value, or the default instance. */
  ghost predicate StoredInitialized(types: seq<MessageType>, f: Field, r: Record)
    requires f.msgType < |types|
    decreases r, 1
  {
    if f.number in r.values then ValueInitialized(types, f.msgType, r.values[f.number])
    else DefaultInitialized(types, f.msgType)
  }

  /** isInitialized of a message of type t: every check the generator emitted for t passes. */
  ghost predicate Initialized(types: seq<MessageType>, t: nat, r: Record)
    requires t < |types|
    decreases r, 3
  {
    var checks := InitChecks(types, t);
    forall k :: 0 <= k < |checks| ==> CheckHolds(types, checks[k], r)
  }

  /** isInitialized of the default instance: no has-check and no non-nil check. */
  method DefaultIsInitialized(types: seq<MessageType>, u: nat) returns (b: bool)
    requires ValidTypes(types) && u < |types|
    ensures b <==> DefaultInitialized(types, u)
  {
    var checks := GenerateIsInitialized(types, u);
    var k := 0;
    while k < |checks|
      invariant 0 <= k <= |checks|
      invariant forall i :: 0 <= i < k ==> !checks[i].HasCheck? && !checks[i].NonNilCheck?
    {
      if checks[k].HasCheck? || checks[k].NonNilCheck? {
        return false;
      }
      k := k + 1;
    }
    return true;
  }

  /** The generated isInitialized, run: the checks in order, NO at the first that fails. */
  method IsInitialized(types: seq<MessageType>, t: nat, r: Record) returns (b: bool)
    requires ValidTypes(types) && t < |types|
    ensures b <==> Initialized(types, t, r)
    decreases r, 3
  {
    var checks := GenerateIsInitialized(types, t);
    var k := 0;
    while k < |checks|
      invariant 0 <= k <= |checks|
      invariant forall i :: 0 <= i < k ==> CheckHolds(types, checks[i], r)
    {
      var ok := CheckPasses(types, checks[k], r);
      if !ok {
        return false;
      }
      k := k + 1;
    }
    return true;
  }

  method CheckPasses(types: seq<MessageType>, c: InitCheck, r: Record) returns (b: bool)
    requires ValidTypes(types)
    ensures b <==> CheckHolds(types, c, r)
    decreases r, 2
  {
    match c {
      case HasCheck(f) => b := f.number in r.has;
      case NonNilCheck(f) => b := f.number in r.lists;
      case SubCheck(f) =>
        if f.msgType >= |types| {
          return false;
        }
        b := StoredPasses(types, f, r);
      case GuardedSubCheck(f) =>
        if f.msgType >= |types| {
          return false;
        }
        if f.number !in r.has {
          return true;
        }
        b := StoredPasses(types, f, r);
      case EachElementCheck(f) =>
        if f.msgType >= |types| {
          return false;
        }
        if f.number !in r.lists {
          return true;
        }
        var vs := r.lists[f.number].items;
        var k := 0;
        while k < |vs|
          invariant 0 <= k <= |vs|
          invariant forall i :: 0 <= i < k ==> ValueInitialized(types, f.msgType, vs[i])
        {
          var ok := ValuePasses(types, f.msgType, vs[k]);
          if !ok {
            return false;
          }
          k := k + 1;
        }
        b := true;
      case ExtensionsCheck =>
        b := forall n | n in r.extensions :: r.extensions[n].initialized;
    }
  }

  method StoredPasses(types: seq<MessageType>, f: Field, r: Record) returns (b: bool)
    requires ValidTypes(types) && f.msgType < |types|
    ensures b <==> StoredInitialized(types, f, r)
    decreases r, 1
  {
    if f.number in r.values {
      b := ValuePasses(types, f.msgType, r.values[f.number]);
    } else {
      b := DefaultIsInitialized(types, f.msgType);
    }
  }

  method ValuePasses(types: seq<MessageType>, u: nat, v: Value) returns (b: bool)
    requires ValidTypes(types) && u < |types|
    ensures b <==> ValueInitialized(types, u, v)
    decreases v, 0
  {
    match v {
      case Sub(msg) => b := IsInitialized(types, u, msg);
      case DefaultInstance => b := DefaultIsInitialized(types, u);
      case _ => b := false;
    }
  }

  /** A type that needs no checking at all accepts every record. */
  lemma UncheckedTypeAlwaysInitialized(types: seq<MessageType>, t: nat, r: Record)
    requires t < |types| && !RequiresInit(types, t)
    ensures Initialized(types, t, r)
  {
    var m := types[t];
    assert !Direct(m) by {
      assert IsPath(types, [t]);
    }
    forall f | f in m.fields
      ensures RequiredFieldCheck(f) == [] && EmbeddedCheck(types, f) == []
    {
      var k :| 0 <= k < |m.fields| && m.fields[k] == f;
      if IsMessageField(f) && RequiresInit(types, f.msgType) {
        RequiresInitThroughField(types, t, k);
      }
    }
    var second := EmbeddedChecks(types);
    ConcatNone(m.fields, RequiredFieldCheck);
    ConcatNone(m.fields, second);
    assert InitChecks(types, t) == [];
  }

  /** Every check other than the extensions check is about one of the type's fields, made by its own passes. */
  lemma InitChecksAreAboutFields(types: seq<MessageType>, t: nat, c: InitCheck)
    requires t < |types| && c in InitChecks(types, t) && c != ExtensionsCheck
    ensures c.field in types[t].fields && (c in RequiredFieldCheck(c.field) || c in EmbeddedCheck(types, c.field))
  {
    var fs := types[t].fields;
    if c in FirstPass(fs) {
      ConcatMembers(fs, RequiredFieldCheck, c);
      var k :| 0 <= k < |fs| && c in RequiredFieldCheck(fs[k]);
      assert c.field == fs[k];
    } else {
      var second := EmbeddedChecks(types);
      assert c in SecondPass(types, fs);
      ConcatMembers(fs, second, c);
      var k :| 0 <= k < |fs| && c in second(fs[k]);
      assert c in EmbeddedCheck(types, fs[k]);
      EmbeddedCheckNamesField(types, fs[k], c);
    }
  }

  // ---------------------------------------------------------------------------
  // The builder

  /** The unknown-field set builder the parsing method fills. */
  class UnknownFieldSetBuilder {
    var fields: seq<UnknownField>

    constructor (seed: seq<UnknownField>)
      ensures fields == seed
    {
      fields := seed;
    }

    /** mergeVarintField:value: */
    method MergeVarintField(number: nat, value: int)
      modifies this
      ensures fields == old(fields) + [VarintField(number, value)]
    {
      fields := fields + [VarintField(number, value)];
    }
  }

  /** One generated <Message>_Builder. */
  class Builder {
    const types: seq<MessageType>
    const t: nat
    /** builder_result; None is nil. */
    var result: Option<Record>

    ghost predicate Valid()
      reads this
    {
      ValidTypes(types) && t < |types|
    }

    /** init: a fresh message, nothing set. */
    constructor (types: seq<MessageType>, t: nat)
      requires ValidTypes(types) && t < |types|
      ensures Valid() && this.types == types && this.t == t && result == Some(EmptyRecord)
    {
      this.types := types;
      this.t := t;
      result := Some(EmptyRecord);
    }

    /** set<Field>: has = YES and the value stored. */
    method Set(f: Field, v: Value)
      modifies this
      ensures result == if old(result).Some? then Some(SetValue(old(result).value, f, v)) else None
    {
      if result.Some? {
        result := Some(SetValue(result.value, f, v));
      }
    }

    /** clear<Field>: has = NO and the default stored, or the list set to nil. */
    method Clear(f: Field)
      modifies this
      ensures result == if old(result).None? then None
                        else if IsRepeated(f) then Some(ClearList(old(result).value, f))
                        else Some(ClearValue(old(result).value, f))
    {
      if result.Some? {
        if IsRepeated(f) {
          result := Some(ClearList(result.value, f));
        } else {
          result := Some(ClearValue(result.value, f));
        }
      }
    }

    /** add<Field>: the list is created when nil, then v is appended. */
    method Add(f: Field, v: Value)
      modifies this
      ensures result == if old(result).Some? then Some(AddElement(old(result).value, f, v)) else None
    {
      if result.Some? {
        result := Some(AddElement(result.value, f, v));
      }
    }

    /** set<Field>Array: the list becomes a copy of vs. */
    method SetArrayOf(f: Field, vs: seq<Value>)
      modifies this
      ensures result == if old(result).Some? then Some(SetArray(old(result).value, f, vs)) else None
    {
      if result.Some? {
        result := Some(SetArray(result.value, f, vs));
      }
    }

    /**
     * merge<Field>: an existing non-default value is merged with v (a copy of
     * it, merged with v, rebuilt); otherwise v is stored. has is YES either way.
     * It is exactly what mergeFrom does for the field when other holds v.
     */
    method MergeValue(f: Field, v: Value)
      requires !IsRepeated(f) && IsMessageField(f)
      modifies this
      ensures old(result).None? ==> result == None
      ensures old(result).Some? ==>
                result == Some(MergeField(types, f, old(result).value, SetValue(EmptyRecord, f, v)))
      ensures result.Some? ==> f.number in result.value.has
    {
      if result.Some? {
        var self := result.value;
        var existing := Get(self, f);
        ghost var other := SetValue(EmptyRecord, f, v);
        assert Get(other, f) == v && f.number in other.has && f.number in other.values;
        if f.number in self.has && existing.Sub? && f.msgType < |types| {
          var copy := PrototypeCopy(types[f.msgType], existing.msg);
          if v.Sub? {
            result := Some(SetValue(self, f, Sub(MergeRecord(types, types[f.msgType], copy, v.msg))));
          } else {
            result := Some(SetValue(self, f, Sub(copy)));
          }
        } else {
          result := Some(SetValue(self, f, v));
        }
      }
    }

    /** buildPartial: hands out builder_result and sets it to nil. */
    method BuildPartial() returns (r: Option<Record>)
      modifies this
      ensures r == old(result) && result == None
    {
      r := result;
      result := None;
    }

    /**
     * build: checkInitialized, then buildPartial. checkInitialized fails on a
     * result that is not initialized, and on a builder already built: its
     * result is nil, and a message sent to nil answers NO.
     */
    method Build() returns (r: Result<Record, string>)
      requires Valid()
      modifies this
      ensures old(result).None? ==> r.Failure? && result == None
      ensures old(result).Some? && !Initialized(types, t, old(result).value) ==>
                r.Failure? && result == old(result)
      ensures old(result).Some? && Initialized(types, t, old(result).value) ==>
                r == Success(old(result).value) && result == None
    {
      if result.None? {
        return Failure("Uninitialized message");
      }
      var ok := IsInitialized(types, t, result.value);
      if !ok {
        return Failure("Uninitialized message");
      }
      var built := BuildPartial();
      r := Success(built.value);
    }

    /** mergeFrom: the emitted steps, run; nothing for the default instance. */
    method MergeFromValue(other: Value)
      modifies this
      ensures result == if old(result).Some? then Some(MergeFrom(types, types[t], old(result).value, other)) else None
      requires Valid()
    {
      if result.Some? {
        var steps := GenerateMergeFrom(types[t]);
        EmittedMergeFromMeaning(types, types[t], result.value, other);
        result := Some(RunMergeFrom(types, steps, result.value, other));
      }
    }

    /**
     * partiallyMergeFrom:fieldIDs: for each field in ascending number order
     * whose number is listed, copy other's state (clearing what other lacks);
     * extensions and unknown fields stay as they were.
     */
    method PartiallyMergeFrom(other: Record, fieldIDs: set<nat>)
      requires Valid()
      modifies this
      ensures old(result).None? ==> result == None
      ensures old(result).Some? ==> result.Some?
      ensures old(result).Some? ==>
                forall f :: f in types[t].fields ==>
                  (f.number in fieldIDs ==> CopiedFrom(f, result.value, other)) &&
                  (f.number !in fieldIDs ==> FieldState(result.value, f) == FieldState(old(result).value, f))
      ensures old(result).Some? ==>
                result.value.extensions == old(result).value.extensions && result.value.unknown == old(result).value.unknown
    {
      if result.Some? {
        var code := GeneratePartiallyMerge(types[t], true);
        var fs := code.value;
        ghost var start := result.value;
        var i := 0;
        while i < |fs|
          invariant 0 <= i <= |fs| && result.Some?
          invariant result.value == PartiallyMergeFields(fs[..i], start, other, fieldIDs)
        {
          var f := fs[i];
          if f.number in fieldIDs {
            if IsRepeated(f) {
              if f.number in other.lists {
                SetArrayOf(f, other.lists[f.number].items);
              } else {
                Clear(f);
              }
            } else if f.number in other.has {
              Set(f, Get(other, f));
            } else {
              Clear(f);
            }
          }
          PartiallyMergeFieldsSnoc(fs[..i], f, start, other, fieldIDs);
          assert fs[..i + 1] == fs[..i] + [f];
          i := i + 1;
        }
        assert fs[..i] == fs;
        assert ValidMessage(types[t], |types|);
        PartiallyMergeAll(types[t], fs, start, other, fieldIDs);
      }
    }
  }

  /** Over an ordering of a type's fields, partiallyMergeFrom copies the listed ones and keeps the rest. */
  lemma PartiallyMergeAll(m: MessageType, fs: seq<Field>, start: Record, other: Record, fieldIDs: set<nat>)
    requires DistinctNumbers(m.fields) && multiset(fs) == multiset(m.fields)
    ensures forall f :: f in m.fields ==>
              (f.number in fieldIDs ==> CopiedFrom(f, PartiallyMergeFields(fs, start, other, fieldIDs), other)) &&
              (f.number !in fieldIDs ==>
                 FieldState(PartiallyMergeFields(fs, start, other, fieldIDs), f) == FieldState(start, f))
  {
    NumbersAreDistinctKeys(m.fields);
    PermutationKeepsDistinctKeys(m.fields, fs, NumberKey);
    forall f | f in m.fields
      ensures (f.number in fieldIDs ==> CopiedFrom(f, PartiallyMergeFields(fs, start, other, fieldIDs), other)) &&
              (f.number !in fieldIDs ==>
                 FieldState(PartiallyMergeFields(fs, start, other, fieldIDs), f) == FieldState(start, f))
    {
      assert f in multiset(fs) by {
        assert f in multiset(m.fields);
      }
      var k :| 0 <= k < |fs| && fs[k] == f;
      PartiallyMergeCopies(fs, k, start, other, fieldIDs);
    }
  }

  lemma {:induction false} PartiallyMergeFieldsSnoc(fs: seq<Field>, f: Field, self: Record, other: Record, fieldIDs: set<nat>)
    ensures PartiallyMergeFields(fs + [f], self, other, fieldIDs) ==
            PartiallyMergeField(f, PartiallyMergeFields(fs, self, other, fieldIDs), other, fieldIDs)
  {
    if |fs| > 0 {
      assert (fs + [f])[0] == fs[0] && (fs + [f])[1..] == fs[1..] + [f];
      PartiallyMergeFieldsSnoc(fs[1..], f, PartiallyMergeField(fs[0], self, other, fieldIDs), other, fieldIDs);
    } else {
      assert (fs + [f])[1..] == [];
    }
  }
}
