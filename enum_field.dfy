/**
 * The generator of enum fields: the template variables of one field and the
 * runtime meaning of the fragments it emits. An enum value read from the
 * wire that the enum does not declare is never stored: it goes to the
 * unknown-field set as a varint under the field's number.
 */
module EnumField {
  import opened Wrappers
  import opened Wire
  import opened Schema
  import opened Records
  import opened Text
  import opened Streams
  import opened Serialization
  import opened Builders
  import PrimitiveField
  import Vars

  // ---------------------------------------------------------------------------
  // Template variables

  /**
   * What the helper functions that are not part of this model answer for an
   * enum field: its message's class name, its camel-case names, the class
   * name of its enum type and the name of its default enum value.
   */
  datatype EnumNaming = EnumNaming(
    className: string,
    camelName: string,
    capitalizedCamelName: string,
    enumClassName: string,
    defaultValueName: string)

  const EnumKeys: set<Vars.Key> := {Vars.Classname, Vars.Name, Vars.CapitalizedName, Vars.ListName, Vars.Number,
    Vars.Type, Vars.Default, Vars.Tag, Vars.TagSize}

  /** The variables of the templates for an enum field. */
  function EnumVariables(f: Field, h: EnumNaming): map<Vars.Key, string>
  {
    map[
      Vars.Classname := h.className,
      Vars.Name := h.camelName,
      Vars.CapitalizedName := h.capitalizedCamelName,
      Vars.ListName := h.camelName + "Array",
      Vars.Number := Itoa(f.number),
      Vars.Type := h.enumClassName,
      Vars.Default := h.defaultValueName,
      Vars.Tag := Itoa(MakeTag(f.number, WireTypeForField(f.kind, f.packed))),
      Vars.TagSize := Itoa(TagSize(f.number, f.kind))]
  }

  /** SetEnumVariables: fills the field generator's variable map one entry at a time. */
  method SetEnumVariables(f: Field, h: EnumNaming) returns (vars: map<Vars.Key, string>)
    ensures vars == EnumVariables(f, h)
  {
    vars := map[];
    vars := vars[Vars.Classname := h.className];
    vars := vars[Vars.Name := h.camelName];
    vars := vars[Vars.CapitalizedName := h.capitalizedCamelName];
    vars := vars[Vars.ListName := h.camelName + "Array"];
    vars := vars[Vars.Number := Itoa(f.number)];
    vars := vars[Vars.Type := h.enumClassName];
    vars := vars[Vars.Default := h.defaultValueName];
    vars := vars[Vars.Tag := Itoa(MakeTag(f.number, WireTypeForField(f.kind, f.packed)))];
    vars := vars[Vars.TagSize := Itoa(TagSize(f.number, f.kind))];
  }

  /** Exactly nine variables are set: no storage, array-type or fixed-size variables. */
  lemma EnumVariableKeys(f: Field, h: EnumNaming)
    ensures EnumVariables(f, h).Keys == EnumKeys
  {
  }

  /**
   * name and capitalized_name are the camel-case names as they are (no
   * "Property" suffix for enum fields); list_name adds "Array".
   */
  lemma EnumVariableNames(f: Field, h: EnumNaming)
    ensures Vars.Name in EnumVariables(f, h) && Vars.CapitalizedName in EnumVariables(f, h) &&
            Vars.ListName in EnumVariables(f, h) && Vars.Classname in EnumVariables(f, h)
    ensures EnumVariables(f, h)[Vars.Name] == h.camelName
    ensures EnumVariables(f, h)[Vars.CapitalizedName] == h.capitalizedCamelName
    ensures EnumVariables(f, h)[Vars.ListName] == h.camelName + "Array"
    ensures EnumVariables(f, h)[Vars.Classname] == h.className
  {
  }

  /** type is the enum's class name and default the name of its default value. */
  lemma EnumVariableTypes(f: Field, h: EnumNaming)
    ensures Vars.Type in EnumVariables(f, h) && Vars.Default in EnumVariables(f, h)
    ensures EnumVariables(f, h)[Vars.Type] == h.enumClassName
    ensures EnumVariables(f, h)[Vars.Default] == h.defaultValueName
  {
  }

  /**
   * number, tag and tag_size are decimal numerals of the field number, of the
   * tag (length-delimited when packed) and of the element tag's size.
   */
  lemma EnumVariableTag(f: Field, h: EnumNaming)
    ensures Vars.Number in EnumVariables(f, h) && Vars.Tag in EnumVariables(f, h) && Vars.TagSize in EnumVariables(f, h)
    ensures IsNumeral(EnumVariables(f, h)[Vars.Number]) && NumeralValue(EnumVariables(f, h)[Vars.Number]) == f.number
    ensures IsNumeral(EnumVariables(f, h)[Vars.Tag]) &&
            NumeralValue(EnumVariables(f, h)[Vars.Tag]) == MakeTag(f.number, WireTypeForField(f.kind, f.packed))
    ensures IsNumeral(EnumVariables(f, h)[Vars.TagSize]) &&
            NumeralValue(EnumVariables(f, h)[Vars.TagSize]) == TagSize(f.number, f.kind)
  {
    var vars := EnumVariables(f, h);
    assert vars[Vars.Number] == Itoa(f.number);
    assert vars[Vars.Tag] == Itoa(MakeTag(f.number, WireTypeForField(f.kind, f.packed)));
    assert vars[Vars.TagSize] == Itoa(TagSize(f.number, f.kind));
    NumeralOf(f.number);
    NumeralOf(MakeTag(f.number, WireTypeForField(f.kind, f.packed)));
    NumeralOf(TagSize(f.number, f.kind));
  }

  // ---------------------------------------------------------------------------
  // A singular enum field

  /** A set enum field holds a number its enum declares (what `<Type>IsValidValue` accepts). */
  predicate HoldsDeclared(f: Field, r: Record)
  {
    f.number in r.has ==> Get(r, f).Num? && Get(r, f).n in f.enumValues
  }

  /** Initialization and clear<Field> both leave the default enum value; clear also makes has NO. */
  lemma EnumDefaults(f: Field, r: Record)
    requires f.kind == Enum
    ensures Get(EmptyRecord, f) == Num(f.defaultNum) && f.number !in EmptyRecord.has
    ensures Get(ClearValue(r, f), f) == Num(f.defaultNum) && f.number !in ClearValue(r, f).has
  {
  }

  /** set<Field>: the NSAssert demands a declared value; has becomes YES and the value is stored. */
  method SetEnum(b: Builder, f: Field, v: int)
    requires v in f.enumValues
    modifies b
    ensures b.result == if old(b.result).Some? then Some(SetValue(old(b.result).value, f, Num(v))) else None
  {
    b.Set(f, Num(v));
  }

  /** What the builder's field becomes after one value v is read: set when declared, untouched otherwise. */
  function StoreEnum(f: Field, r: Record, v: int): Record
  {
    if v in f.enumValues then SetValue(r, f, Num(v)) else r
  }

  /** What the unknown-field set becomes after one value v is read: v appended when it is not declared. */
  function RouteUnknown(f: Field, unknown: seq<UnknownField>, v: int): seq<UnknownField>
  {
    if v in f.enumValues then unknown else unknown + [VarintField(f.number, v)]
  }

  /**
   * Reading a value keeps the field holding a declared value; a declared value
   * is stored with has YES and leaves the unknown fields alone, any other
   * value leaves the record alone and is kept, under the field's number, as
   * an unknown varint.
   */
  lemma EnumReadRouting(f: Field, r: Record, unknown: seq<UnknownField>, v: int)
    ensures HoldsDeclared(f, r) ==> HoldsDeclared(f, StoreEnum(f, r, v))
    ensures v in f.enumValues ==>
              f.number in StoreEnum(f, r, v).has && Get(StoreEnum(f, r, v), f) == Num(v) &&
              RouteUnknown(f, unknown, v) == unknown
    ensures v !in f.enumValues ==>
              StoreEnum(f, r, v) == r && RouteUnknown(f, unknown, v) == unknown + [VarintField(f.number, v)]
  {
  }

  /**
   * The parsing code of a singular enum field: readEnum, then set<Field> for
   * a declared value or mergeVarintField into the unknown fields otherwise.
   */
  method ParseSingularEnum(b: Builder, unknown: UnknownFieldSetBuilder, input: CodedInput, f: Field) returns (ok: bool)
    requires input.Valid() && f.kind == Enum
    modifies b, unknown, input
    ensures input.Valid() && input.data == old(input.data) && input.limit == old(input.limit)
    ensures ok <==> DecodeNoTag(Enum, old(input.Window())).Some?
    ensures ok ==> var v := DecodeNoTag(Enum, old(input.Window())).value.0;
                   b.result == (if old(b.result).Some? then Some(StoreEnum(f, old(b.result).value, v)) else None) &&
                   unknown.fields == RouteUnknown(f, old(unknown.fields), v)
    ensures !ok ==> b.result == old(b.result) && unknown.fields == old(unknown.fields)
  {
    var x := input.ReadNoTag(Enum);
    if x.None? {
      return false;
    }
    if x.value in f.enumValues {
      b.Set(f, Num(x.value));
    } else {
      unknown.MergeVarintField(f.number, x.value);
    }
    ok := true;
  }

  /**
   * A set enum field holding a declared value is written as its tag and the
   * value's varint, and the parsing code reads that varint back as the same
   * declared value, so it is stored again and nothing goes to the unknown fields.
   */
  lemma SingularEnumRoundTrip(f: Field, r: Record, unknown: seq<UnknownField>, rest: seq<byte>)
    requires f.kind == Enum && f.number in r.has && HoldsDeclared(f, r) && InRange(Enum, Get(r, f).n)
    ensures PrimitiveField.SingularBytes(f, r) == EncodeVarint(FieldTag(f)) + EncodeNoTag(Enum, Get(r, f).n)
    ensures DecodeNoTag(Enum, EncodeNoTag(Enum, Get(r, f).n) + rest) == Some((Get(r, f).n, SizeNoTag(Enum, Get(r, f).n)))
    ensures StoreEnum(f, r, Get(r, f).n) == SetValue(r, f, Get(r, f)) && RouteUnknown(f, unknown, Get(r, f).n) == unknown
  {
    ElementRoundTrip(Enum, Get(r, f).n, rest);
  }

  /** mergeFrom of an enum field copies only declared values when both records hold declared values. */
  lemma MergeKeepsDeclared(types: seq<MessageType>, f: Field, self: Record, other: Record)
    requires f.kind == Enum && !IsRepeated(f) && HoldsDeclared(f, self) && HoldsDeclared(f, other)
    ensures HoldsDeclared(f, MergeField(types, f, self, other))
  {
  }

  // ---------------------------------------------------------------------------
  // isEqual and hash

  /** `hashCode = hashCode * 31 + value` over a run of enum numbers, in list order. */
  function HashNumbers(ns: seq<int>, h: nat): (r: nat)
    ensures r < TWO_64 || (|ns| == 0 && r == h)
    decreases |ns|
  {
    if |ns| == 0 then h else HashNumbers(ns[1..], Mix(h, ns[0]))
  }

  /**
   * The hash of an enum field uses the numbers themselves and never an
   * object's hash: a set singular field adds its number, a repeated one
   * folds in each number in list order.
   */
  lemma {:induction false} EnumHash(f: Field, ns: seq<int>, h: nat, objectHash: ObjectHash)
    requires f.kind == Enum
    ensures HashElements(f, AsValues(ns), h, objectHash) == HashNumbers(ns, h)
  {
    if |ns| > 0 {
      assert AsValues(ns)[1..] == AsValues(ns[1..]);
      EnumHash(f, ns[1..], Mix(h, ns[0]), objectHash);
    }
  }

  /** A set singular enum field adds exactly its number; equal fields hash alike. */
  lemma EnumSingularHash(f: Field, a: Record, b: Record, h: nat, objectEqual: ObjectEqual, objectHash: ObjectHash)
    requires f.kind == Enum && !IsRepeated(f) && f.number in a.has && Get(a, f).Num?
    ensures FieldHash(f, a, h, objectHash) == Mix(h, Get(a, f).n)
    ensures FieldEqual(f, a, b, objectEqual) ==> FieldHash(f, b, h, objectHash) == Mix(h, Get(a, f).n)
  {
  }

  // ---------------------------------------------------------------------------
  // A repeated enum field: parsing

  /** The declared values among ns, in order: what the parsing code appends to the list. */
  function DeclaredOnes(f: Field, ns: seq<int>): seq<int>
  {
    if |ns| == 0 then []
    else DeclaredOnes(f, ns[..|ns| - 1]) + (if ns[|ns| - 1] in f.enumValues then [ns[|ns| - 1]] else [])
  }

  /** The other values among ns, in order, as the unknown varints the parsing code records. */
  function UndeclaredEntries(f: Field, ns: seq<int>): seq<UnknownField>
  {
    if |ns| == 0 then []
    else UndeclaredEntries(f, ns[..|ns| - 1]) +
         (if ns[|ns| - 1] in f.enumValues then [] else [VarintField(f.number, ns[|ns| - 1])])
  }

  /** The list after appending vs with add<Field>: created when nil, but only if something is added. */
  function Appended(r: Record, f: Field, vs: seq<Value>): Record
  {
    if |vs| == 0 then r else SetArray(r, f, Elements(r, f) + vs)
  }

  /**
   * Every value read goes to exactly one place: the declared ones to the
   * list and the others, under the field's number, to the unknown fields.
   */
  lemma {:induction false} EnumRunPartition(f: Field, ns: seq<int>)
    ensures |DeclaredOnes(f, ns)| + |UndeclaredEntries(f, ns)| == |ns|
    ensures forall k :: 0 <= k < |DeclaredOnes(f, ns)| ==> DeclaredOnes(f, ns)[k] in f.enumValues
    ensures forall k :: 0 <= k < |UndeclaredEntries(f, ns)| ==>
              UndeclaredEntries(f, ns)[k].VarintField? && UndeclaredEntries(f, ns)[k].number == f.number &&
              UndeclaredEntries(f, ns)[k].value !in f.enumValues
  {
    if |ns| > 0 {
      EnumRunPartition(f, ns[..|ns| - 1]);
    }
  }

  /** A run of declared values is appended whole and records no unknown field. */
  lemma {:induction false} AllDeclaredKept(f: Field, ns: seq<int>)
    requires forall k :: 0 <= k < |ns| ==> ns[k] in f.enumValues
    ensures DeclaredOnes(f, ns) == ns && UndeclaredEntries(f, ns) == []
  {
    if |ns| > 0 {
      AllDeclaredKept(f, ns[..|ns| - 1]);
      assert ns[..|ns| - 1] + [ns[|ns| - 1]] == ns;
    }
  }

  lemma RoutingSnoc(f: Field, ns: seq<int>, x: int)
    ensures DeclaredOnes(f, ns + [x]) == DeclaredOnes(f, ns) + (if x in f.enumValues then [x] else [])
    ensures UndeclaredEntries(f, ns + [x]) ==
            UndeclaredEntries(f, ns) + (if x in f.enumValues then [] else [VarintField(f.number, x)])
  {
    assert (ns + [x])[..|ns|] == ns;
  }

  /** What the builder's list becomes after one value x is read: x appended when declared, untouched otherwise. */
  function AddEnum(f: Field, r: Record, x: int): Record
  {
    if x in f.enumValues then AddElement(r, f, Num(x)) else r
  }

  lemma AppendedSnoc(r: Record, f: Field, vs: seq<Value>, v: Value)
    ensures AddElement(Appended(r, f, vs), f, v) == Appended(r, f, vs + [v])
  {
    if |vs| > 0 {
      AddAfterSetArray(r, f, Elements(r, f) + vs, v);
      AppendTwice(Elements(r, f), vs, [v]);
    } else {
      assert vs + [v] == [v];
    }
  }

  /** Reading one more value extends what the run so far added to the list. */
  lemma AddEnumStep(f: Field, r: Record, ns: seq<int>, x: int)
    ensures AddEnum(f, Appended(r, f, AsValues(DeclaredOnes(f, ns))), x) ==
            Appended(r, f, AsValues(DeclaredOnes(f, ns + [x])))
  {
    RoutingSnoc(f, ns, x);
    var before := DeclaredOnes(f, ns);
    if x in f.enumValues {
      assert DeclaredOnes(f, ns + [x]) == before + [x];
      AppendedSnoc(r, f, AsValues(before), Num(x));
      AsValuesSnoc(before, x);
    } else {
      assert DeclaredOnes(f, ns + [x]) == before + [];
      assert before + [] == before;
    }
  }

  /** Reading one more value extends what the run so far recorded as unknown. */
  lemma RouteUnknownStep(f: Field, seed: seq<UnknownField>, ns: seq<int>, x: int)
    ensures RouteUnknown(f, seed + UndeclaredEntries(f, ns), x) == seed + UndeclaredEntries(f, ns + [x])
  {
    RoutingSnoc(f, ns, x);
    AppendTwice(seed, UndeclaredEntries(f, ns), [VarintField(f.number, x)]);
  }

  /** One step of the repeated parsing code: add<Field> for a declared value, mergeVarintField otherwise. */
  method AddOrRoute(b: Builder, unknown: UnknownFieldSetBuilder, f: Field, x: int)
    modifies b, unknown
    ensures b.result == if old(b.result).Some? then Some(AddEnum(f, old(b.result).value, x)) else None
    ensures unknown.fields == RouteUnknown(f, old(unknown.fields), x)
  {
    if x in f.enumValues {
      b.Add(f, Num(x));
    } else {
      unknown.MergeVarintField(f.number, x);
    }
  }

  /** The parsing code of an unpacked repeated enum field: one value, added or routed. */
  method ParseEnumElement(b: Builder, unknown: UnknownFieldSetBuilder, input: CodedInput, f: Field) returns (ok: bool)
    requires input.Valid() && f.kind == Enum
    modifies b, unknown, input
    ensures input.Valid() && input.data == old(input.data) && input.limit == old(input.limit)
    ensures ok <==> DecodeNoTag(Enum, old(input.Window())).Some?
    ensures ok ==> var v := DecodeNoTag(Enum, old(input.Window())).value.0;
                   b.result == (if old(b.result).Some? then Some(AddEnum(f, old(b.result).value, v)) else None) &&
                   unknown.fields == RouteUnknown(f, old(unknown.fields), v)
    ensures !ok ==> b.result == old(b.result) && unknown.fields == old(unknown.fields)
  {
    var x := input.ReadNoTag(Enum);
    if x.None? {
      return false;
    }
    AddOrRoute(b, unknown, f, x.value);
    ok := true;
  }

  /**
   * A declared value added by the unpacked parsing code lands at the end of
   * the list, with the list created when nil; any other value leaves the
   * list alone (nil stays nil) and is recorded as an unknown varint.
   */
  lemma AddEnumRouting(f: Field, r: Record, unknown: seq<UnknownField>, x: int)
    ensures x in f.enumValues ==> List(AddEnum(f, r, x), f) == Some(Elements(r, f) + [Num(x)]) &&
                                  RouteUnknown(f, unknown, x) == unknown
    ensures x !in f.enumValues ==> AddEnum(f, r, x) == r &&
                                   RouteUnknown(f, unknown, x) == unknown + [VarintField(f.number, x)]
    ensures AddEnum(f, r, x) == Appended(r, f, AsValues(DeclaredOnes(f, [x])))
  {
    AddEnumStep(f, r, [], x);
    assert [] + [x] == [x];
  }

  /**
   * The parsing code of a packed repeated enum field: read the length, push
   * it as the limit, route every value until the limit is reached, pop the
   * limit. The declared values are appended in order; the list is not
   * created when none is.
   */
  method ParsePackedEnum(b: Builder, unknown: UnknownFieldSetBuilder, input: CodedInput, f: Field) returns (ok: bool)
    requires input.Valid() && f.kind == Enum
    modifies b, unknown, input
    ensures input.Valid() && input.data == old(input.data)
    ensures ok <==> PackedPayload(old(input.Window())).Some? &&
                    DecodeRun(Enum, PackedPayload(old(input.Window())).value.0).Some?
    ensures ok ==> var (payload, n) := PackedPayload(old(input.Window())).value;
                   var ns := DecodeRun(Enum, payload).value;
                   input.pos == old(input.pos) + n + |payload| && input.limit == old(input.limit) &&
                   b.result == (if old(b.result).Some? then Some(Appended(old(b.result).value, f, AsValues(DeclaredOnes(f, ns))))
                                else None) &&
                   unknown.fields == old(unknown.fields) + UndeclaredEntries(f, ns)
  {
    ghost var window := input.Window();
    var length := input.ReadRawVarint32();
    if length.None? {
      return false;
    }
    ghost var n := DecodeVarint(window).value.1;
    assert input.Window() == window[n..];
    var saved := input.PushLimit(length.value);
    if saved.None? {
      return false;
    }
    assert input.Window() == PackedPayload(window).value.0 by {
      assert input.Window() == window[n..][..length.value];
    }
    ok := RouteUntilLimit(b, unknown, input, f);
    if ok {
      input.PopLimit(saved.value);
    }
  }

  /** `while (input.bytesUntilLimit > 0)`: every value of the window, added or routed in order. */
  method RouteUntilLimit(b: Builder, unknown: UnknownFieldSetBuilder, input: CodedInput, f: Field) returns (ok: bool)
    requires input.Valid() && f.kind == Enum
    modifies b, unknown, input
    ensures input.Valid() && input.data == old(input.data) && input.limit == old(input.limit)
    ensures ok <==> DecodeRun(Enum, old(input.Window())).Some?
    ensures ok ==> var ns := DecodeRun(Enum, old(input.Window())).value;
                   input.pos == input.limit &&
                   b.result == (if old(b.result).Some? then Some(Appended(old(b.result).value, f, AsValues(DeclaredOnes(f, ns))))
                                else None) &&
                   unknown.fields == old(unknown.fields) + UndeclaredEntries(f, ns)
  {
    ghost var base := b.result;
    ghost var seed := unknown.fields;
    ghost var whole := input.Window();
    ghost var added: seq<int> := [];
    assert Prepend(added, DecodeRun(Enum, input.Window())) == DecodeRun(Enum, whole) by {
      if DecodeRun(Enum, whole).Some? {
        assert added + DecodeRun(Enum, whole).value == DecodeRun(Enum, whole).value;
      }
    }
    assert unknown.fields == seed + UndeclaredEntries(f, added);
    while input.BytesUntilLimit() > 0
      invariant input.Valid() && input.data == old(input.data) && input.limit == old(input.limit)
      invariant Prepend(added, DecodeRun(Enum, input.Window())) == DecodeRun(Enum, whole)
      invariant b.result == if base.Some? then Some(Appended(base.value, f, AsValues(DeclaredOnes(f, added)))) else None
      invariant unknown.fields == seed + UndeclaredEntries(f, added)
      decreases input.limit - input.pos
    {
      ghost var rest := input.Window();
      var x := input.ReadNoTag(Enum);
      if x.None? {
        return false;
      }
      ghost var k := DecodeNoTag(Enum, rest).value.1;
      assert input.Window() == rest[k..];
      PrependStep(added, x.value, DecodeRun(Enum, rest[k..]));
      RouteUnknownStep(f, seed, added, x.value);
      if base.Some? {
        AddEnumStep(f, base.value, added, x.value);
      }
      AddOrRoute(b, unknown, f, x.value);
      added := added + [x.value];
    }
    assert DecodeRun(Enum, input.Window()) == Some([]);
    assert added + [] == added;
    ok := true;
  }

  /** Every element of the list is a number its enum declares. */
  predicate ListDeclared(f: Field, r: Record)
  {
    forall k :: 0 <= k < |Elements(r, f)| ==> Elements(r, f)[k].Num? && Elements(r, f)[k].n in f.enumValues
  }

  /**
   * Whatever the wire holds, the parsing code keeps a list of declared
   * values a list of declared values, and so does mergeFrom when the other
   * message's list is one too.
   */
  lemma ParsingKeepsListDeclared(f: Field, r: Record, ns: seq<int>)
    requires ListDeclared(f, r)
    ensures ListDeclared(f, Appended(r, f, AsValues(DeclaredOnes(f, ns))))
  {
    EnumRunPartition(f, ns);
    var added := AsValues(DeclaredOnes(f, ns));
    if |added| > 0 {
      var all := Elements(r, f) + added;
      assert Elements(Appended(r, f, added), f) == all;
      forall k | 0 <= k < |all|
        ensures all[k].Num? && all[k].n in f.enumValues
      {
        if k >= |Elements(r, f)| {
          assert all[k] == added[k - |Elements(r, f)|];
        }
      }
    }
  }

  lemma MergeKeepsListDeclared(types: seq<MessageType>, f: Field, self: Record, other: Record)
    requires IsRepeated(f) && ListDeclared(f, self) && ListDeclared(f, other)
    ensures ListDeclared(f, MergeField(types, f, self, other))
  {
    if |Elements(other, f)| > 0 {
      assert Elements(MergeField(types, f, self, other), f) == Elements(other, f);
    }
  }

  // ---------------------------------------------------------------------------
  // A repeated enum field: size and write

  /**
   * The size pass of a repeated enum field: dataSize by the loop over the
   * values, then one tag and computeRawVarint32Size(dataSize) for a
   * non-empty packed list, or one tag per value; a packed field's dataSize
   * is left in its memo.
   */
  method SizeRepeatedEnum(f: Field, vs: seq<Value>, memo: SizeMemo) returns (size: nat)
    requires f.kind == Enum && AllWellTyped(Enum, vs)
    modifies memo
    ensures size == ListSize(f, vs, RawVarint32)
    ensures memo.memo == if f.packed then old(memo.memo)[f.number := DataSize(Enum, vs)] else old(memo.memo)
  {
    var dataSize := PrimitiveField.SumSizes(Enum, vs);
    size := dataSize;
    if f.packed {
      if |vs| > 0 {
        size := size + TagSize(f.number, f.kind) + RawVarint32Size(dataSize);
      }
    } else {
      size := size + TagsSize(f, |vs|);
    }
    if f.packed {
      memo.Write(f.number, dataSize);
    }
  }

  /**
   * The write pass of a repeated enum field: when packed, the tag and the
   * memoized length for a non-empty list and then every value untagged;
   * otherwise every value under its own tag.
   */
  method WriteRepeatedEnum(output: CodedOutput, f: Field, vs: seq<Value>, memo: SizeMemo)
    requires f.kind == Enum && AllWellTyped(Enum, vs) && f.number <= MAX_FIELD_NUMBER
    modifies output
    ensures output.bytes == old(output.bytes) + ListBytes(f, vs, memo.Read(f.number))
  {
    if f.packed {
      NumbersOfScalars(Enum, vs);
      WritePackedEnum(output, f, NumbersOf(vs), memo.Read(f.number));
    } else {
      PrimitiveField.WriteEachTagged(output, f, vs);
    }
  }

  /** `if (count > 0) { tag; memo }` and then the loop of writeEnumNoTag. */
  method WritePackedEnum(output: CodedOutput, f: Field, ns: seq<int>, memo: int)
    requires f.kind == Enum && AllInRange(Enum, ns) && f.number <= MAX_FIELD_NUMBER
    modifies output
    ensures output.bytes == old(output.bytes) + PackedBytes(f, ns, memo)
  {
    if |ns| > 0 {
      TagFitsWord(f.number, LengthDelimited);
      ghost var tag := EncodeVarint(PackedTag(f));
      ghost var length := EncodeVarint(memo % TWO_32);
      assert PackedTag(f) % TWO_32 == PackedTag(f);
      output.WriteRawVarint32(PackedTag(f));
      ghost var afterTag := output.bytes;
      output.WriteRawVarint32(memo);
      PrimitiveField.WriteRun(output, Enum, ns);
      AppendTwice(afterTag, length, EncodeRun(Enum, ns));
      AppendTwice(old(output.bytes), tag, length + EncodeRun(Enum, ns));
      AppendTwice(tag, length, EncodeRun(Enum, ns));
    } else {
      PrimitiveField.WriteRun(output, Enum, ns);
      assert EncodeRun(Enum, ns) == [];
    }
  }

  /**
   * With the memo holding dataSize (an int32 in the generated code), the
   * size pass counts exactly the bytes the write pass writes.
   */
  lemma EnumSizeMatchesWrite(f: Field, vs: seq<Value>)
    requires f.kind == Enum && AllWellTyped(Enum, vs) && DataSize(Enum, vs) < TWO_31
    ensures ListSize(f, vs, RawVarint32) == |ListBytes(f, vs, DataSize(Enum, vs))|
  {
    ListSizeMatchesBytes(f, vs);
  }

  /**
   * A non-empty packed list of declared values, written with the memo
   * holding its dataSize, reads back (after the tag) as a payload that the
   * packed parsing code appends whole, recording no unknown field.
   */
  lemma PackedEnumWriteThenParse(f: Field, vs: seq<Value>, d: nat, rest: seq<byte>)
    requires f.kind == Enum && f.packed && AllWellTyped(Enum, vs) && |vs| > 0
    requires forall k :: 0 <= k < |vs| ==> vs[k].Num? && vs[k].n in f.enumValues
    requires d == DataSize(Enum, vs) && d < TWO_31
    ensures ListBytes(f, vs, d) == EncodeVarint(PackedTag(f)) + EncodeVarint(d) + EncodeRun(Enum, NumbersOf(vs))
    ensures PackedPayload(EncodeVarint(d) + EncodeRun(Enum, NumbersOf(vs)) + rest) ==
            Some((EncodeRun(Enum, NumbersOf(vs)), VarintSize(d)))
    ensures DecodeRun(Enum, EncodeRun(Enum, NumbersOf(vs))) == Some(NumbersOf(vs))
    ensures AsValues(DeclaredOnes(f, NumbersOf(vs))) == vs && UndeclaredEntries(f, NumbersOf(vs)) == []
  {
    PrimitiveField.PackedWriteThenParse(f, vs, d, rest);
    AllDeclaredKept(f, NumbersOf(vs));
  }
}
