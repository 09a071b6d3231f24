/**
 * The runtime meaning of the generated code: a message object as a record
 * of has-flags, singular values, repeated lists (absent = nil), extension
 * entries and the unknown-field store, and what the emitted set, clear,
 * add, setArray, mergeFrom, isEqual and hash fragments do to it.
 */
module Records {
  import opened Wrappers
  import opened Wire
  import opened Schema
  import opened Interleave

  /**
   * A field value: a number (integers, enums, BOOL as 0/1, float and double
   * as their bit patterns), the bytes of a string or NSData, a nested
   * message, or the shared default instance of a message class.
   */
  datatype Value = Num(n: int) | Data(bytes: seq<byte>) | Sub(msg: Record) | DefaultInstance

  /** An entry of the unknown-field store, in arrival order. */
  datatype UnknownField =
    | VarintField(number: nat, value: int)
    | RawField(number: nat, wire: WireType, payload: seq<byte>)

  /** An extension value, with what the runtime's own initialization check reports about it. */
  datatype ExtensionEntry = ExtensionEntry(value: Value, initialized: bool)

  /** The array object a repeated field's ivar points to. */
  datatype ArrayObject = ArrayObject(items: seq<Value>)

  datatype Record = Record(
    has: set<nat>,
    values: map<nat, Value>,
    lists: map<nat, ArrayObject>,
    extensions: map<nat, ExtensionEntry>,
    unknown: seq<UnknownField>)

  /** A freshly allocated message: nothing set, every list nil. */
  const EmptyRecord: Record := Record({}, map[], map[], map[], [])

  /** The value `init` gives a field: the default instance, the default bytes, or the default number. */
  function DefaultValue(f: Field): Value
  {
    if IsMessageField(f) then DefaultInstance
    else if f.kind == String || f.kind == Bytes then Data(f.defaultData)
    else Num(f.defaultNum)
  }

  /** The property getter of a singular field. */
  function Get(r: Record, f: Field): Value
  {
    if f.number in r.values then r.values[f.number] else DefaultValue(f)
  }

  /** The list ivar of a repeated field: None is nil. */
  function List(r: Record, f: Field): Option<seq<Value>>
  {
    if f.number in r.lists then Some(r.lists[f.number].items) else None
  }

  /** What iterating the list (or asking its count) sees: nil behaves as empty. */
  function Elements(r: Record, f: Field): seq<Value>
  {
    if f.number in r.lists then r.lists[f.number].items else []
  }

  /** has-flag, value and list of one field. */
  function FieldState(r: Record, f: Field): (bool, Value, Option<seq<Value>>)
  {
    (f.number in r.has, Get(r, f), List(r, f))
  }

  // ---------------------------------------------------------------------------
  // The builder's per-field fragments

  /** set<Field>: has = YES and the value stored; nothing else changes. */
  function SetValue(r: Record, f: Field, v: Value): (s: Record)
    ensures s.has == r.has + {f.number} && Get(s, f) == v
    ensures s.lists == r.lists && s.extensions == r.extensions && s.unknown == r.unknown
    ensures forall g: Field :: g.number != f.number ==> Get(s, g) == Get(r, g)
  {
    r.(has := r.has + {f.number}, values := r.values[f.number := v])
  }

  /** clear<Field> of a singular field: has = NO and the default stored; nothing else changes. */
  function ClearValue(r: Record, f: Field): (s: Record)
    ensures s.has == r.has - {f.number} && Get(s, f) == DefaultValue(f)
    ensures s.lists == r.lists && s.extensions == r.extensions && s.unknown == r.unknown
    ensures forall g: Field :: g.number != f.number ==> Get(s, g) == Get(r, g)
  {
    r.(has := r.has - {f.number}, values := r.values[f.number := DefaultValue(f)])
  }

  /** clear<Field> of a repeated field: the list becomes nil; nothing else changes. */
  function ClearList(r: Record, f: Field): (s: Record)
    ensures List(s, f) == None && Elements(s, f) == []
    ensures s.has == r.has && s.values == r.values && s.extensions == r.extensions && s.unknown == r.unknown
    ensures forall g: Field :: g.number != f.number ==> List(s, g) == List(r, g)
  {
    r.(lists := r.lists - {f.number})
  }

  /** add<Field>: the list is created when nil, then v is appended; nothing else changes. */
  function AddElement(r: Record, f: Field, v: Value): (s: Record)
    ensures List(s, f) == Some(Elements(r, f) + [v])
    ensures s.has == r.has && s.values == r.values && s.extensions == r.extensions && s.unknown == r.unknown
    ensures forall g: Field :: g.number != f.number ==> List(s, g) == List(r, g)
  {
    r.(lists := r.lists[f.number := ArrayObject(Elements(r, f) + [v])])
  }

  /** set<Field>Array: the list becomes a copy of vs; nothing else changes. */
  function SetArray(r: Record, f: Field, vs: seq<Value>): (s: Record)
    ensures List(s, f) == Some(vs)
    ensures s.has == r.has && s.values == r.values && s.extensions == r.extensions && s.unknown == r.unknown
    ensures forall g: Field :: g.number != f.number ==> List(s, g) == List(r, g)
  {
    r.(lists := r.lists[f.number := ArrayObject(vs)])
  }

  /** mergeVarintField: an entry appended to the unknown-field store. */
  function AddUnknown(r: Record, u: UnknownField): (s: Record)
    ensures s.unknown == r.unknown + [u]
    ensures s.has == r.has && s.values == r.values && s.lists == r.lists && s.extensions == r.extensions
  {
    r.(unknown := r.unknown + [u])
  }

  /** Appending to a list one element at a time is setting it to the longer list. */
  lemma AddAfterSetArray(r: Record, f: Field, vs: seq<Value>, v: Value)
    ensures AddElement(SetArray(r, f, vs), f, v) == SetArray(r, f, vs + [v])
  {
  }

  /** Setting a list to the elements it already holds changes nothing. */
  lemma SetArrayToOwnElements(r: Record, f: Field)
    requires f.number in r.lists
    ensures SetArray(r, f, Elements(r, f)) == r
  {
    assert r.lists[f.number := ArrayObject(Elements(r, f))] == r.lists;
  }

  /** Setting a list twice is setting it to the second list. */
  lemma SetArrayTwice(r: Record, f: Field, vs: seq<Value>, ws: seq<Value>)
    ensures SetArray(SetArray(r, f, vs), f, ws) == SetArray(r, f, ws)
  {
    assert r.lists[f.number := ArrayObject(vs)][f.number := ArrayObject(ws)] == r.lists[f.number := ArrayObject(ws)];
  }

  // ---------------------------------------------------------------------------
  // mergeFrom

  /**
   * One field's merging code where no deep merge happens: a repeated field
   * takes a copy of other's list when that list is non-empty, a singular
   * field is set to other's value when other has it.
   */
  function CopyField(f: Field, self: Record, other: Record): Record
  {
    if IsRepeated(f) then
      if |Elements(other, f)| > 0 then SetArray(self, f, Elements(other, f)) else self
    else if f.number in other.has then SetValue(self, f, Get(other, f))
    else self
  }

  /** Does mergeFrom merge f deeply: a singular message field both sides hold, self a non-default one? */
  predicate MergesDeeply(types: seq<MessageType>, f: Field, self: Record, other: Record)
  {
    !IsRepeated(f) && IsMessageField(f) && f.number in other.has &&
    f.number in self.has && Get(self, f).Sub? && f.msgType < |types|
  }

  /**
   * One field's merging code. A message field that self holds as a
   * non-default value is rebuilt: a copy of that value (builderWithPrototype:)
   * with other's value merged in; a default incoming value leaves the copy as
   * it is. Every other case is CopyField.
   */
  function MergeField(types: seq<MessageType>, f: Field, self: Record, other: Record): (s: Record)
    decreases other, 0
  {
    if MergesDeeply(types, f, self, other) then
      var m := types[f.msgType];
      var copy := PrototypeCopy(m, Get(self, f).msg);
      var incoming := Get(other, f);
      if incoming.Sub? then
        assert f.number in other.values;
        SetValue(self, f, Sub(MergeRecord(types, m, copy, incoming.msg)))
      else SetValue(self, f, Sub(copy))
    else CopyField(f, self, other)
  }

  /** The merging code of fields fs, in declaration order. */
  function MergeFields(types: seq<MessageType>, fs: seq<Field>, self: Record, other: Record): Record
    decreases other, 1, |fs|
  {
    if |fs| == 0 then self else MergeFields(types, fs[1..], MergeField(types, fs[0], self, other), other)
  }

  /** After the fields: other's extensions when the type has ranges, then other's unknown fields. */
  function MergeTail(m: MessageType, merged: Record, other: Record): Record
  {
    var withExtensions := if |m.ranges| > 0 then merged.(extensions := merged.extensions + other.extensions) else merged;
    withExtensions.(unknown := withExtensions.unknown + other.unknown)
  }

  /**
   * The body of mergeFrom after the default-instance test: every field in
   * declaration order, then the extensions when the type has ranges, then the
   * unknown fields.
   */
  function MergeRecord(types: seq<MessageType>, m: MessageType, self: Record, other: Record): Record
    decreases other, 2
  {
    MergeTail(m, MergeFields(types, m.fields, self, other), other)
  }

  /** CopyField over fields fs, in declaration order. */
  function CopyFields(fs: seq<Field>, self: Record, other: Record): Record
  {
    if |fs| == 0 then self else CopyFields(fs[1..], CopyField(fs[0], self, other), other)
  }

  /**
   * builderWithPrototype: a fresh builder merged from the prototype. A fresh
   * builder holds no field, so no field merges deeply: the merge is a
   * field-by-field copy in which an empty list becomes nil.
   */
  function PrototypeCopy(m: MessageType, r: Record): Record
  {
    MergeTail(m, CopyFields(m.fields, EmptyRecord, r), r)
  }

  /** mergeFrom: other may be the default instance, in which case nothing happens. */
  function MergeFrom(types: seq<MessageType>, m: MessageType, self: Record, other: Value): Record
  {
    if other.Sub? then MergeRecord(types, m, self, other.msg) else self
  }

  /** Merging an empty record changes nothing, so the default-instance shortcut loses nothing. */
  lemma {:induction false} MergeFieldsEmpty(types: seq<MessageType>, fs: seq<Field>, self: Record)
    ensures MergeFields(types, fs, self, EmptyRecord) == self
  {
    if |fs| > 0 {
      assert MergeField(types, fs[0], self, EmptyRecord) == self;
      MergeFieldsEmpty(types, fs[1..], self);
    }
  }

  lemma DefaultShortcutSound(types: seq<MessageType>, m: MessageType, self: Record)
    ensures MergeRecord(types, m, self, EmptyRecord) == self
  {
    MergeFieldsEmpty(types, m.fields, self);
  }

  /** MergeField touches only f's own state (and the has-set only at f's number). */
  lemma MergeFieldFrame(types: seq<MessageType>, f: Field, g: Field, self: Record, other: Record)
    requires g.number != f.number
    ensures FieldState(MergeField(types, f, self, other), g) == FieldState(self, g)
    ensures MergeField(types, f, self, other).unknown == self.unknown
    ensures MergeField(types, f, self, other).extensions == self.extensions
  {
  }

  /** Before the remaining fields fs are merged, g's state is untouched by all of them. */
  lemma {:induction false} MergeFieldsFrame(types: seq<MessageType>, fs: seq<Field>, g: Field, self: Record, other: Record)
    requires forall k :: 0 <= k < |fs| ==> fs[k].number != g.number
    ensures FieldState(MergeFields(types, fs, self, other), g) == FieldState(self, g)
    ensures MergeFields(types, fs, self, other).unknown == self.unknown
    ensures MergeFields(types, fs, self, other).extensions == self.extensions
  {
    if |fs| > 0 {
      MergeFieldFrame(types, fs[0], g, self, other);
      MergeFieldsFrame(types, fs[1..], g, MergeField(types, fs[0], self, other), other);
    }
  }

  /** The state one field's merging code produces for it depends only on that field's own state. */
  lemma MergeFieldLocal(types: seq<MessageType>, f: Field, a: Record, b: Record, other: Record)
    requires FieldState(a, f) == FieldState(b, f)
    ensures FieldState(MergeField(types, f, a, other), f) == FieldState(MergeField(types, f, b, other), f)
  {
    if !IsRepeated(f) && f.number in other.has && IsMessageField(f) {
      MessageMergeLocal(types, f, a, b, other);
    }
  }

  lemma MessageMergeLocal(types: seq<MessageType>, f: Field, a: Record, b: Record, other: Record)
    requires FieldState(a, f) == FieldState(b, f)
    requires !IsRepeated(f) && f.number in other.has && IsMessageField(f)
    ensures FieldState(MergeField(types, f, a, other), f) == FieldState(MergeField(types, f, b, other), f)
  {
    assert (f.number in a.has <==> f.number in b.has) && Get(a, f) == Get(b, f);
    if MergesDeeply(types, f, a, other) {
      assert MergesDeeply(types, f, b, other);
      var copy := PrototypeCopy(types[f.msgType], Get(a, f).msg);
      var v := if Get(other, f).Sub? then Sub(MergeRecord(types, types[f.msgType], copy, Get(other, f).msg)) else Sub(copy);
      assert MergeField(types, f, a, other) == SetValue(a, f, v);
      assert MergeField(types, f, b, other) == SetValue(b, f, v);
    } else {
      assert !MergesDeeply(types, f, b, other);
    }
  }

  /**
   * With distinct field numbers, mergeFrom treats the fields independently:
   * each field of the result is what that field's own merging code makes of
   * the builder's state, whatever order the fields come in.
   */
  lemma {:induction false} MergeFieldsIndependent(types: seq<MessageType>, fs: seq<Field>, k: nat, self: Record, other: Record)
    requires DistinctNumbers(fs) && k < |fs|
    ensures FieldState(MergeFields(types, fs, self, other), fs[k]) ==
            FieldState(MergeField(types, fs[k], self, other), fs[k])
  {
    var next := MergeField(types, fs[0], self, other);
    if k == 0 {
      assert forall p :: 0 <= p < |fs[1..]| ==> fs[1..][p].number != fs[0].number by {
        forall p | 0 <= p < |fs[1..]|
          ensures fs[1..][p].number != fs[0].number
        {
          assert fs[1..][p] == fs[p + 1];
        }
      }
      MergeFieldsFrame(types, fs[1..], fs[0], next, other);
    } else {
      assert DistinctNumbers(fs[1..]) by {
        forall p | 0 <= p < |fs[1..]|
          ensures fs[1..][p] == fs[p + 1]
        {
        }
      }
      assert fs[1..][k - 1] == fs[k];
      MergeFieldsIndependent(types, fs[1..], k - 1, next, other);
      MergeFieldFrame(types, fs[0], fs[k], self, other);
      MergeFieldLocal(types, fs[k], next, self, other);
    }
  }

  /**
   * What mergeFrom does to one singular scalar or enum field: set when other
   * has it, untouched otherwise.
   */
  lemma MergeScalarField(types: seq<MessageType>, f: Field, self: Record, other: Record)
    requires !IsRepeated(f) && !IsMessageField(f)
    ensures f.number in other.has ==> FieldState(MergeField(types, f, self, other), f) == (true, Get(other, f), List(self, f))
    ensures f.number !in other.has ==> MergeField(types, f, self, other) == self
  {
  }

  /** What mergeFrom does to a repeated field: replaced by a copy of a non-empty list, untouched otherwise. */
  lemma MergeRepeatedField(types: seq<MessageType>, f: Field, self: Record, other: Record)
    requires IsRepeated(f)
    ensures |Elements(other, f)| > 0 ==> List(MergeField(types, f, self, other), f) == Some(Elements(other, f))
    ensures |Elements(other, f)| == 0 ==> MergeField(types, f, self, other) == self
  {
  }

  /**
   * What mergeFrom does to a singular message field that other has: when
   * self holds a non-default value, a copy of it (builderWithPrototype:)
   * with other's value merged in, which is the copy itself when other's
   * value is the default instance; an assignment otherwise. has is YES
   * either way.
   */
  lemma MergeMessageField(types: seq<MessageType>, f: Field, self: Record, other: Record)
    requires !IsRepeated(f) && IsMessageField(f) && f.number in other.has && f.msgType < |types|
    ensures f.number in MergeField(types, f, self, other).has
    ensures f.number in self.has && Get(self, f).Sub? ==>
              Get(MergeField(types, f, self, other), f) ==
              Sub(MergeFrom(types, types[f.msgType], PrototypeCopy(types[f.msgType], Get(self, f).msg), Get(other, f)))
    ensures !(f.number in self.has && Get(self, f).Sub?) ==> Get(MergeField(types, f, self, other), f) == Get(other, f)
  {
  }

  /** Copying into a record that holds none of the fields is merging into it. */
  lemma {:induction false} CopyFieldsIsMerge(types: seq<MessageType>, fs: seq<Field>, self: Record, other: Record)
    requires DistinctNumbers(fs)
    requires forall k :: 0 <= k < |fs| ==> fs[k].number !in self.has
    ensures CopyFields(fs, self, other) == MergeFields(types, fs, self, other)
  {
    if |fs| > 0 {
      assert !MergesDeeply(types, fs[0], self, other);
      var next := CopyField(fs[0], self, other);
      assert DistinctNumbers(fs[1..]) by {
        forall p | 0 <= p < |fs[1..]|
          ensures fs[1..][p] == fs[p + 1]
        {
        }
      }
      forall p | 0 <= p < |fs[1..]|
        ensures fs[1..][p].number !in next.has
      {
        assert fs[1..][p] == fs[p + 1];
      }
      CopyFieldsIsMerge(types, fs[1..], next, other);
    }
  }

  /**
   * builderWithPrototype: is mergeFrom into a fresh builder: with distinct
   * field numbers, PrototypeCopy is MergeFrom from the empty record.
   */
  lemma PrototypeCopyIsMerge(types: seq<MessageType>, m: MessageType, r: Record)
    requires DistinctNumbers(m.fields)
    ensures PrototypeCopy(m, r) == MergeFrom(types, m, EmptyRecord, Sub(r))
  {
    CopyFieldsIsMerge(types, m.fields, EmptyRecord, r);
  }

  /**
   * What the copy holds, field by field: a repeated field keeps a non-empty
   * list and is nil otherwise (an empty list is dropped); a singular field
   * keeps its has-flag and, when set, its value.
   */
  lemma PrototypeCopyField(m: MessageType, r: Record, k: nat)
    requires DistinctNumbers(m.fields) && k < |m.fields|
    ensures IsRepeated(m.fields[k]) ==>
              List(PrototypeCopy(m, r), m.fields[k]) ==
              (if |Elements(r, m.fields[k])| > 0 then Some(Elements(r, m.fields[k])) else None)
    ensures !IsRepeated(m.fields[k]) ==>
              (m.fields[k].number in PrototypeCopy(m, r).has <==> m.fields[k].number in r.has) &&
              (m.fields[k].number in r.has ==> Get(PrototypeCopy(m, r), m.fields[k]) == Get(r, m.fields[k]))
  {
    var g := m.fields[k];
    CopyFieldsIsMerge([], m.fields, EmptyRecord, r);
    MergeFieldsIndependent([], m.fields, k, EmptyRecord, r);
    assert !MergesDeeply([], g, EmptyRecord, r);
    var merged := CopyFields(m.fields, EmptyRecord, r);
    assert FieldState(PrototypeCopy(m, r), g) == FieldState(merged, g);
  }

  // ---------------------------------------------------------------------------
  // isEqual and hash

  /** The slice of the extension store one range covers. */
  function Slice(ext: map<nat, ExtensionEntry>, range: ExtensionRange): map<nat, ExtensionEntry>
  {
    map k | k in ext && range.start <= k < range.end :: ext[k]
  }

  /** Is the field type a float or a double, whose values are IEEE 754 bit patterns? */
  predicate IsFloating(t: FieldType)
  {
    t == Float || t == Double
  }

  /** A NaN: every exponent bit set (8 of binary32, 11 of binary64) and a non-zero fraction. */
  predicate IsNaN(t: FieldType, bits: int)
  {
    if t == Float then (bits / 0x80_0000) % 0x100 == 0xFF && bits % 0x80_0000 != 0
    else (bits / 0x10_0000_0000_0000) % 0x800 == 0x7FF && bits % 0x10_0000_0000_0000 != 0
  }

  /** +0.0 or -0.0: every bit but the sign clear. */
  predicate IsZero(t: FieldType, bits: int)
  {
    if t == Float then bits % TWO_31 == 0 else bits % 0x8000_0000_0000_0000 == 0
  }

  /**
   * C `==` on two scalar getter results: for a float or double, NaN equals
   * nothing and +0.0 equals -0.0; any other value equals only itself (enums
   * and integers by `==`, NSString and NSData by content).
   */
  predicate ScalarEqual(t: FieldType, x: Value, y: Value)
  {
    if IsFloating(t) && x.Num? && y.Num? then
      !IsNaN(t, x.n) && !IsNaN(t, y.n) && (x.n == y.n || (IsZero(t, x.n) && IsZero(t, y.n)))
    else x == y
  }

  /**
   * The isEqual a nested message object reports, for two values of one
   * message or group field: the generated isEqual of the field's class
   * (whose identity shortcut a value cannot see). The field fixes the class.
   */
  type ObjectEqual = (Field, Value, Value) -> bool

  /** The isEqual test of two set singular values: the nested object's isEqual for a message, C `==` otherwise. */
  predicate ValueEqual(f: Field, x: Value, y: Value, objectEqual: ObjectEqual)
  {
    if IsMessageField(f) then objectEqual(f, x, y) else ScalarEqual(f.kind, x, y)
  }

  /** `isEqual:` on two list elements: the nested object's isEqual for a message, equal values otherwise. */
  predicate ElementEqual(f: Field, x: Value, y: Value, objectEqual: ObjectEqual)
  {
    if IsMessageField(f) then objectEqual(f, x, y) else x == y
  }

  /** `isEqualToArray:` on two lists: the same length and, position by position, equal elements. */
  predicate ElementsEqual(f: Field, xs: seq<Value>, ys: seq<Value>, objectEqual: ObjectEqual)
  {
    |xs| == |ys| && forall i :: 0 <= i < |xs| ==> ElementEqual(f, xs[i], ys[i], objectEqual)
  }

  /**
   * One field's isEqual conjunct: for a singular field, equal has-flags and,
   * when set, equal values; for a repeated field, both lists nil, or both
   * present with equal elements (`[nil isEqualToArray:]` is NO).
   */
  predicate FieldEqual(f: Field, a: Record, b: Record, objectEqual: ObjectEqual)
  {
    if IsRepeated(f) then
      (List(a, f).None? && List(b, f).None?) ||
      (List(a, f).Some? && List(b, f).Some? && ElementsEqual(f, List(a, f).value, List(b, f).value, objectEqual))
    else (f.number in a.has <==> f.number in b.has) && (f.number in a.has ==> ValueEqual(f, Get(a, f), Get(b, f), objectEqual))
  }

  /**
   * C `==` on floats and doubles: the quiet NaN is not equal to itself, and
   * +0.0 equals -0.0 although their bit patterns differ.
   */
  lemma FloatComparison()
    ensures !ScalarEqual(Float, Num(0x7FC0_0000), Num(0x7FC0_0000))
    ensures !ScalarEqual(Double, Num(0x7FF8_0000_0000_0000), Num(0x7FF8_0000_0000_0000))
    ensures ScalarEqual(Float, Num(0), Num(0x8000_0000))
    ensures ScalarEqual(Double, Num(0), Num(0x8000_0000_0000_0000))
    ensures ScalarEqual(Float, Num(0x3F80_0000), Num(0x3F80_0000))
  {
  }

  /** A set singular float or double field holding a NaN. */
  predicate HoldsNaN(f: Field, r: Record)
  {
    !IsRepeated(f) && IsFloating(f.kind) && f.number in r.has && Get(r, f).Num? && IsNaN(f.kind, Get(r, f).n)
  }

  /** One visit of the isEqual pass. */
  predicate VisitEqual(v: Visit, a: Record, b: Record, objectEqual: ObjectEqual)
  {
    match v
    case FieldCode(_, f) => FieldEqual(f, a, b, objectEqual)
    case RangeCode(_, range) => Slice(a.extensions, range) == Slice(b.extensions, range)
  }

  /**
   * The generated isEqual of two messages of its class: YES at once when
   * they are the same object (`identical`), otherwise every visited
   * conjunct and then the unknown fields.
   */
  predicate IsEqual(code: seq<Visit>, a: Record, b: Record, identical: bool, objectEqual: ObjectEqual)
  {
    identical || ((forall k :: 0 <= k < |code| ==> VisitEqual(code[k], a, b, objectEqual)) && a.unknown == b.unknown)
  }

  /** hashCode * 31 + x in NSUInteger arithmetic (64 bits, wrapping). */
  function Mix(h: nat, x: int): (r: nat)
    ensures r < TWO_64
  {
    (h * 31 + x) % TWO_64
  }

  /** Does the getter return a C scalar (so hashing adds the value itself)? */
  predicate ReturnsPrimitive(f: Field)
  {
    !IsMessageField(f) && f.kind != String && f.kind != Bytes
  }

  /**
   * The hash runtime objects report (NSNumber, NSString, NSData and nested
   * messages) for a value of a field; the field fixes the object's class.
   */
  type ObjectHash = (Field, Value) -> int

  /**
   * The runtime's hash agrees with its isEqual, class by class: two values
   * of one field that compare equal hash equally (the NSObject contract).
   */
  ghost predicate HashAgreesWithEqual(objectEqual: ObjectEqual, objectHash: ObjectHash)
  {
    forall f: Field, x: Value, y: Value :: ValueEqual(f, x, y, objectEqual) ==> objectHash(f, x) == objectHash(f, y)
  }

  /** What one list element adds: the number itself for C scalars, the object's hash otherwise. */
  function ElementHash(f: Field, v: Value, objectHash: ObjectHash): int
  {
    if ReturnsPrimitive(f) && v.Num? then v.n else objectHash(f, v)
  }

  function HashElements(f: Field, vs: seq<Value>, h: nat, objectHash: ObjectHash): nat
    decreases |vs|
  {
    if |vs| == 0 then h else HashElements(f, vs[1..], Mix(h, ElementHash(f, vs[0], objectHash)), objectHash)
  }

  /**
   * One field's hash code: a repeated field folds in each element in list
   * order; a singular one adds its value (an enum's number, another value's
   * hash) only when it is set.
   */
  function FieldHash(f: Field, r: Record, h: nat, objectHash: ObjectHash): nat
  {
    if IsRepeated(f) then HashElements(f, Elements(r, f), h, objectHash)
    else if f.number !in r.has then h
    else if f.kind == Enum && Get(r, f).Num? then Mix(h, Get(r, f).n)
    else Mix(h, objectHash(f, Get(r, f)))
  }

  /** The hash the runtime reports for a slice of the extension store. */
  type ExtensionHash = map<nat, ExtensionEntry> -> int

  function VisitHash(v: Visit, r: Record, h: nat, objectHash: ObjectHash, extensionHash: ExtensionHash): nat
  {
    match v
    case FieldCode(_, f) => FieldHash(f, r, h, objectHash)
    case RangeCode(_, range) => Mix(h, extensionHash(Slice(r.extensions, range)))
  }

  function HashVisits(code: seq<Visit>, r: Record, h: nat, objectHash: ObjectHash, extensionHash: ExtensionHash): nat
    decreases |code|
  {
    if |code| == 0 then h
    else HashVisits(code[1..], r, VisitHash(code[0], r, h, objectHash, extensionHash), objectHash, extensionHash)
  }

  /** The generated hash: 7, each visit, then the unknown fields' hash. */
  function Hash(code: seq<Visit>, r: Record, objectHash: ObjectHash, extensionHash: ExtensionHash,
                unknownHash: seq<UnknownField> -> int): nat
  {
    Mix(HashVisits(code, r, 7, objectHash, extensionHash), unknownHash(r.unknown))
  }

  /** An unset singular field contributes nothing, whatever value it holds. */
  lemma UnsetFieldHash(f: Field, r: Record, h: nat, objectHash: ObjectHash)
    requires !IsRepeated(f) && f.number !in r.has
    ensures FieldHash(f, r, h, objectHash) == h
  {
  }

  /** Lists that are `isEqualToArray:` fold into the same hash. */
  lemma {:induction false} EqualElementsHash(f: Field, xs: seq<Value>, ys: seq<Value>, h: nat,
                                             objectEqual: ObjectEqual, objectHash: ObjectHash)
    requires ElementsEqual(f, xs, ys, objectEqual) && HashAgreesWithEqual(objectEqual, objectHash)
    ensures HashElements(f, xs, h, objectHash) == HashElements(f, ys, h, objectHash)
    decreases |xs|
  {
    if |xs| > 0 {
      assert ElementEqual(f, xs[0], ys[0], objectEqual);
      if IsMessageField(f) {
        assert ValueEqual(f, xs[0], ys[0], objectEqual);
      }
      assert ElementHash(f, xs[0], objectHash) == ElementHash(f, ys[0], objectHash);
      assert ElementsEqual(f, xs[1..], ys[1..], objectEqual) by {
        forall i | 0 <= i < |xs[1..]|
          ensures ElementEqual(f, xs[1..][i], ys[1..][i], objectEqual)
        {
          assert ElementEqual(f, xs[i + 1], ys[i + 1], objectEqual);
        }
      }
      EqualElementsHash(f, xs[1..], ys[1..], Mix(h, ElementHash(f, xs[0], objectHash)), objectEqual, objectHash);
    }
  }

  lemma FieldEqualHash(f: Field, a: Record, b: Record, h: nat, objectEqual: ObjectEqual, objectHash: ObjectHash)
    requires FieldEqual(f, a, b, objectEqual) && HashAgreesWithEqual(objectEqual, objectHash)
    ensures FieldHash(f, a, h, objectHash) == FieldHash(f, b, h, objectHash)
  {
    if IsRepeated(f) {
      if List(a, f).Some? {
        EqualElementsHash(f, Elements(a, f), Elements(b, f), h, objectEqual, objectHash);
      }
    } else if f.number in a.has {
      assert ValueEqual(f, Get(a, f), Get(b, f), objectEqual);
    }
  }

  lemma {:induction false} EqualVisitsHash(code: seq<Visit>, a: Record, b: Record, h: nat, objectEqual: ObjectEqual,
                                           objectHash: ObjectHash, extensionHash: ExtensionHash)
    requires forall k :: 0 <= k < |code| ==> VisitEqual(code[k], a, b, objectEqual)
    requires HashAgreesWithEqual(objectEqual, objectHash)
    ensures HashVisits(code, a, h, objectHash, extensionHash) == HashVisits(code, b, h, objectHash, extensionHash)
  {
    if |code| > 0 {
      assert VisitEqual(code[0], a, b, objectEqual);
      if code[0].FieldCode? {
        FieldEqualHash(code[0].field, a, b, h, objectEqual, objectHash);
      }
      var h' := VisitHash(code[0], a, h, objectHash, extensionHash);
      assert forall k :: 0 <= k < |code[1..]| ==> VisitEqual(code[1..][k], a, b, objectEqual) by {
        forall k | 0 <= k < |code[1..]|
          ensures VisitEqual(code[1..][k], a, b, objectEqual)
        {
          assert code[1..][k] == code[k + 1];
        }
      }
      EqualVisitsHash(code[1..], a, b, h', objectEqual, objectHash, extensionHash);
    }
  }

  /** The isEqual conjuncts of a schedule hold exactly when those of any other pass over it do. */
  lemma RenderedEqualAcrossPasses(p1: Pass, p2: Pass, fs: seq<Field>, rs: seq<ExtensionRange>,
                                  s: seq<Slot>, a: Record, b: Record, objectEqual: ObjectEqual)
    requires SlotsInBounds(s, |fs|, |rs|)
    ensures (forall k :: 0 <= k < |s| ==> VisitEqual(Render(p1, fs, rs, s)[k], a, b, objectEqual)) ==>
            (forall k :: 0 <= k < |s| ==> VisitEqual(Render(p2, fs, rs, s)[k], a, b, objectEqual))
  {
    var r1, r2 := Render(p1, fs, rs, s), Render(p2, fs, rs, s);
    if forall k :: 0 <= k < |s| ==> VisitEqual(r1[k], a, b, objectEqual) {
      forall k | 0 <= k < |s|
        ensures VisitEqual(r2[k], a, b, objectEqual)
      {
        assert VisitEqual(r1[k], a, b, objectEqual);
        RenderAt(p1, fs, rs, s, k);
        RenderAt(p2, fs, rs, s, k);
        match s[k]
        case FieldSlot(i) =>
          assert r1[k] == FieldCode(p1, fs[i]);
          assert r2[k] == FieldCode(p2, fs[i]);
        case RangeSlot(j) =>
          assert r1[k] == RangeCode(p1, rs[j]);
          assert r2[k] == RangeCode(p2, rs[j]);
      }
    }
  }

  /**
   * The generated isEqual and hash agree: messages the isEqual pass over a
   * schedule (such as the merge loop's) calls equal get the same hash from
   * the hash pass over it. `identical` says the two are one object.
   */
  lemma EqualMessagesHashEqual(fs: seq<Field>, rs: seq<ExtensionRange>, s: seq<Slot>, a: Record, b: Record,
                               identical: bool, objectEqual: ObjectEqual, objectHash: ObjectHash,
                               extensionHash: ExtensionHash, unknownHash: seq<UnknownField> -> int)
    requires SlotsInBounds(s, |fs|, |rs|)
    requires identical ==> a == b
    requires IsEqual(Render(IsEqualPass, fs, rs, s), a, b, identical, objectEqual)
    requires HashAgreesWithEqual(objectEqual, objectHash)
    ensures Hash(Render(HashPass, fs, rs, s), a, objectHash, extensionHash, unknownHash) ==
            Hash(Render(HashPass, fs, rs, s), b, objectHash, extensionHash, unknownHash)
  {
    if !identical {
      RenderedEqualAcrossPasses(IsEqualPass, HashPass, fs, rs, s, a, b, objectEqual);
      EqualVisitsHash(Render(HashPass, fs, rs, s), a, b, 7, objectEqual, objectHash, extensionHash);
    }
  }

  /** The nested objects' isEqual is symmetric. */
  ghost predicate ObjectEqualSymmetric(objectEqual: ObjectEqual)
  {
    forall f: Field, x: Value, y: Value :: objectEqual(f, x, y) ==> objectEqual(f, y, x)
  }

  /** The nested objects' isEqual holds between a value and itself. */
  ghost predicate ObjectEqualReflexive(objectEqual: ObjectEqual)
  {
    forall f: Field, x: Value :: objectEqual(f, x, x)
  }

  lemma FieldEqualSymmetric(f: Field, a: Record, b: Record, objectEqual: ObjectEqual)
    requires ObjectEqualSymmetric(objectEqual) && FieldEqual(f, a, b, objectEqual)
    ensures FieldEqual(f, b, a, objectEqual)
  {
    if IsRepeated(f) && List(a, f).Some? {
      var xs, ys := List(a, f).value, List(b, f).value;
      forall i | 0 <= i < |ys|
        ensures ElementEqual(f, ys[i], xs[i], objectEqual)
      {
        assert ElementEqual(f, xs[i], ys[i], objectEqual);
      }
    }
  }

  /** Without a NaN, a field is isEqual to itself when the nested objects' isEqual is reflexive. */
  lemma FieldEqualReflexive(f: Field, a: Record, objectEqual: ObjectEqual)
    requires ObjectEqualReflexive(objectEqual) && !HoldsNaN(f, a)
    ensures FieldEqual(f, a, a, objectEqual)
  {
    if IsRepeated(f) && List(a, f).Some? {
      var xs := List(a, f).value;
      forall i | 0 <= i < |xs|
        ensures ElementEqual(f, xs[i], xs[i], objectEqual)
      {
      }
    }
  }

  /**
   * isEqual answers YES for one object compared with itself. It is symmetric
   * when the nested objects' isEqual is. For two distinct objects with the
   * same contents, with a reflexive nested isEqual, it holds exactly when no
   * float or double field the pass visits holds a NaN.
   */
  lemma IsEqualReflexiveSymmetric(code: seq<Visit>, a: Record, b: Record, identical: bool, objectEqual: ObjectEqual)
    ensures IsEqual(code, a, a, true, objectEqual)
    ensures ObjectEqualSymmetric(objectEqual) ==>
              (IsEqual(code, a, b, identical, objectEqual) ==> IsEqual(code, b, a, identical, objectEqual))
    ensures ObjectEqualReflexive(objectEqual) ==>
              (IsEqual(code, a, a, false, objectEqual) <==>
               forall k :: 0 <= k < |code| && code[k].FieldCode? ==> !HoldsNaN(code[k].field, a))
  {
    if ObjectEqualSymmetric(objectEqual) && !identical && IsEqual(code, a, b, identical, objectEqual) {
      forall k | 0 <= k < |code|
        ensures VisitEqual(code[k], b, a, objectEqual)
      {
        assert VisitEqual(code[k], a, b, objectEqual);
        if code[k].FieldCode? {
          FieldEqualSymmetric(code[k].field, a, b, objectEqual);
        }
      }
    }
    if ObjectEqualReflexive(objectEqual) {
      if forall k :: 0 <= k < |code| && code[k].FieldCode? ==> !HoldsNaN(code[k].field, a) {
        forall k | 0 <= k < |code|
          ensures VisitEqual(code[k], a, a, objectEqual)
        {
          if code[k].FieldCode? {
            FieldEqualReflexive(code[k].field, a, objectEqual);
          }
        }
      }
      if IsEqual(code, a, a, false, objectEqual) {
        forall k | 0 <= k < |code| && code[k].FieldCode?
          ensures !HoldsNaN(code[k].field, a)
        {
          assert VisitEqual(code[k], a, a, objectEqual);
        }
      }
    }
  }
}
