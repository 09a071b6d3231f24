/**
 * The generator of scalar, string and bytes fields: the type-name tables,
 * the template variables of one field, and the runtime meaning of the
 * fragments it emits for a singular and for a repeated field (parse,
 * write, size).
 */
module PrimitiveField {
  import opened Wrappers
  import opened Wire
  import opened Schema
  import opened Records
  import opened Text
  import opened Streams
  import opened Serialization
  import opened Builders
  import Vars

  // ---------------------------------------------------------------------------
  // Type-name tables

  /** The Objective-C storage type of a field; NULL for enum, group and message fields. */
  function PrimitiveTypeName(t: FieldType): (name: Option<string>)
    ensures name.None? <==> t == Enum || t == Group || t == Message
  {
    match t
    case Int32 | Sint32 | Sfixed32 => Some("int32_t")
    case Uint32 | Fixed32 => Some("uint32_t")
    case Int64 | Sint64 | Sfixed64 => Some("int64_t")
    case Uint64 | Fixed64 => Some("uint64_t")
    case Float => Some("Float32")
    case Double => Some("Float64")
    case Bool => Some("BOOL")
    case String => Some("NSString")
    case Bytes => Some("NSData")
    case _ => None
  }

  /** The element accessor stem of a PBArray (`int32AtIndex:`); "object" for object arrays. */
  function ArrayValueTypeName(t: FieldType): (name: string)
    ensures name == "object" <==> !IsScalarType(t) || t == Enum
  {
    match t
    case Int32 | Sint32 | Sfixed32 => "int32"
    case Uint32 | Fixed32 => "uint32"
    case Int64 | Sint64 | Sfixed64 => "int64"
    case Uint64 | Fixed64 => "uint64"
    case Float => "float"
    case Double => "double"
    case Bool => "bool"
    case _ => "object"
  }

  /** The element appender stem of a PBAppendableArray (`addInt32:`). */
  function CapitalizedArrayValueTypeName(t: FieldType): string
  {
    match t
    case Int32 | Sint32 | Sfixed32 => "Int32"
    case Uint32 | Fixed32 => "Uint32"
    case Int64 | Sint64 | Sfixed64 => "Int64"
    case Uint64 | Fixed64 => "Uint64"
    case Float => "Float"
    case Double => "Double"
    case Bool => "Bool"
    case _ => "Object"
  }

  /** The stream selector stem (`readSInt32`, `writeFixed64:value:`, `computeDataSize`). */
  function CapitalizedType(t: FieldType): string
  {
    match t
    case Int32 => "Int32"
    case Uint32 => "UInt32"
    case Sint32 => "SInt32"
    case Fixed32 => "Fixed32"
    case Sfixed32 => "SFixed32"
    case Int64 => "Int64"
    case Uint64 => "UInt64"
    case Sint64 => "SInt64"
    case Fixed64 => "Fixed64"
    case Sfixed64 => "SFixed64"
    case Float => "Float"
    case Double => "Double"
    case Bool => "Bool"
    case String => "String"
    case Bytes => "Data"
    case Enum => "Enum"
    case Group => "Group"
    case Message => "Message"
  }

  /** The inverse of CapitalizedType: which type a selector stem stands for. */
  function TypeOfSelector(s: string): Option<FieldType>
  {
    if s == "Int32" then Some(Int32) else if s == "UInt32" then Some(Uint32)
    else if s == "SInt32" then Some(Sint32) else if s == "Fixed32" then Some(Fixed32)
    else if s == "SFixed32" then Some(Sfixed32) else if s == "Int64" then Some(Int64)
    else if s == "UInt64" then Some(Uint64) else if s == "SInt64" then Some(Sint64)
    else if s == "Fixed64" then Some(Fixed64) else if s == "SFixed64" then Some(Sfixed64)
    else if s == "Float" then Some(Float) else if s == "Double" then Some(Double)
    else if s == "Bool" then Some(Bool) else if s == "String" then Some(String)
    else if s == "Data" then Some(Bytes) else if s == "Enum" then Some(Enum)
    else if s == "Group" then Some(Group) else if s == "Message" then Some(Message)
    else None
  }

  /**
   * Every type gets its own stream selector, so the emitted read and write
   * calls always use the encoding of the declared type.
   */
  lemma SelectorNamesType(t: FieldType)
    ensures TypeOfSelector(CapitalizedType(t)) == Some(t)
  {
  }

  lemma SelectorInjective(a: FieldType, b: FieldType)
    requires CapitalizedType(a) == CapitalizedType(b)
    ensures a == b
  {
    SelectorNamesType(a);
    SelectorNamesType(b);
  }

  function UpperCase(c: char): char
  {
    if 'a' <= c <= 'z' then (c as int - 32) as char else c
  }

  function Capitalize(s: string): string
  {
    if |s| == 0 then s else [UpperCase(s[0])] + s[1..]
  }

  /** The two array tables agree: the appender stem is the accessor stem with its first letter capitalised. */
  lemma ArrayTablesAgree(t: FieldType)
    ensures CapitalizedArrayValueTypeName(t) == Capitalize(ArrayValueTypeName(t))
  {
    var w := ArrayValueTypeName(t);
    var cw := CapitalizedArrayValueTypeName(t);
    assert |w| == |cw| > 0 && w[1..] == cw[1..];
    assert UpperCase(w[0]) == cw[0];
  }

  /** For the integer types the storage type is the accessor stem's C type. */
  lemma IntegerStorageMatchesArray(t: FieldType)
    requires t in {Int32, Sint32, Sfixed32, Uint32, Fixed32, Int64, Sint64, Sfixed64, Uint64, Fixed64}
    ensures PrimitiveTypeName(t) == Some(ArrayValueTypeName(t) + "_t")
  {
    match t {
      case Int32 | Sint32 | Sfixed32 => assert "int32" + "_t" == "int32_t";
      case Uint32 | Fixed32 => assert "uint32" + "_t" == "uint32_t";
      case Int64 | Sint64 | Sfixed64 => assert "int64" + "_t" == "int64_t";
      case Uint64 | Fixed64 => assert "uint64" + "_t" == "uint64_t";
    }
  }

  /** Types sharing a storage type accept the same values, so the ivar holds whatever the reader returns. */
  lemma SharedStorageSameRange(a: FieldType, b: FieldType, v: int)
    requires PrimitiveTypeName(a).Some? && PrimitiveTypeName(a) == PrimitiveTypeName(b)
    ensures InRange(a, v) <==> InRange(b, v)
  {
  }

  // ---------------------------------------------------------------------------
  // Template variables

  /**
   * What the helper functions that are not part of this model answer for a
   * field: its camel-case names, its message's class name, whether the name
   * is reserved or retained, whether its Objective-C type is a C primitive,
   * whether its list is an NSMutableArray, the PBArray value-type constant
   * and the default-value expression.
   */
  datatype Naming = Naming(
    camelName: string,
    capitalizedCamelName: string,
    className: string,
    reservedName: bool,
    retainedName: bool,
    primitiveType: bool,
    objectArray: bool,
    arrayValueType: string,
    defaultValue: string)

  const BaseKeys: set<Vars.Key> := {Vars.Classname, Vars.Name, Vars.CapitalizedName, Vars.ListName, Vars.Number,
    Vars.Type, Vars.StorageType, Vars.StorageAttribute, Vars.Default, Vars.CapitalizedType, Vars.Tag, Vars.TagSize}
  const ArrayKeys: set<Vars.Key> := {Vars.ArrayValueType, Vars.ArrayValueTypeName, Vars.ArrayValueTypeNameCap}

  /**
   * The variables of the templates for a scalar, string or bytes field, in
   * the order they are filled in. The PBArray names are there only for a
   * PBArray list and fixed_size only for a fixed-width type.
   */
  function PrimitiveVariables(f: Field, h: Naming): map<Vars.Key, string>
    requires PrimitiveTypeName(f.kind).Some?
  {
    var typeName := PrimitiveTypeName(f.kind).value;
    var named := map[
      Vars.Classname := h.className,
      Vars.Name := if h.reservedName then h.camelName + "Property" else h.camelName,
      Vars.CapitalizedName := if h.reservedName then h.capitalizedCamelName + "Property" else h.capitalizedCamelName,
      Vars.ListName := h.camelName + "Array",
      Vars.Number := Itoa(f.number),
      Vars.Type := typeName,
      Vars.StorageType := if h.primitiveType then typeName else typeName + "*",
      Vars.StorageAttribute := if !h.primitiveType && h.retainedName then " NS_RETURNS_NOT_RETAINED" else ""];
    var arrays := if h.objectArray then named
                  else named[Vars.ArrayValueType := h.arrayValueType]
                            [Vars.ArrayValueTypeName := ArrayValueTypeName(f.kind)]
                            [Vars.ArrayValueTypeNameCap := CapitalizedArrayValueTypeName(f.kind)];
    var typed := arrays[Vars.Default := h.defaultValue][Vars.CapitalizedType := CapitalizedType(f.kind)]
                       [Vars.Tag := Itoa(MakeTag(f.number, WireTypeForField(f.kind, f.packed)))]
                       [Vars.TagSize := Itoa(TagSize(f.number, f.kind))];
    if FixedSize(f.kind) != -1 then typed[Vars.FixedSize := Itoa(FixedSize(f.kind))] else typed
  }

  /** SetPrimitiveVariables: fills the field generator's variable map one entry at a time. */
  method SetPrimitiveVariables(f: Field, h: Naming) returns (vars: map<Vars.Key, string>)
    requires PrimitiveTypeName(f.kind).Some?
    ensures vars == PrimitiveVariables(f, h)
  {
    var typeName := PrimitiveTypeName(f.kind).value;
    vars := map[Vars.Classname := h.className];
    if h.reservedName {
      vars := vars[Vars.Name := h.camelName + "Property"];
      vars := vars[Vars.CapitalizedName := h.capitalizedCamelName + "Property"];
    } else {
      vars := vars[Vars.Name := h.camelName];
      vars := vars[Vars.CapitalizedName := h.capitalizedCamelName];
    }
    vars := vars[Vars.ListName := h.camelName + "Array"];
    vars := vars[Vars.Number := Itoa(f.number)];
    vars := vars[Vars.Type := typeName];
    if h.primitiveType {
      vars := vars[Vars.StorageType := typeName];
      vars := vars[Vars.StorageAttribute := ""];
    } else {
      vars := vars[Vars.StorageType := typeName + "*"];
      if h.retainedName {
        vars := vars[Vars.StorageAttribute := " NS_RETURNS_NOT_RETAINED"];
      } else {
        vars := vars[Vars.StorageAttribute := ""];
      }
    }
    if !h.objectArray {
      vars := vars[Vars.ArrayValueType := h.arrayValueType];
      vars := vars[Vars.ArrayValueTypeName := ArrayValueTypeName(f.kind)];
      vars := vars[Vars.ArrayValueTypeNameCap := CapitalizedArrayValueTypeName(f.kind)];
    }
    vars := vars[Vars.Default := h.defaultValue];
    vars := vars[Vars.CapitalizedType := CapitalizedType(f.kind)];
    vars := vars[Vars.Tag := Itoa(MakeTag(f.number, WireTypeForField(f.kind, f.packed)))];
    vars := vars[Vars.TagSize := Itoa(TagSize(f.number, f.kind))];
    if FixedSize(f.kind) != -1 {
      vars := vars[Vars.FixedSize := Itoa(FixedSize(f.kind))];
    }
  }

  /**
   * Which variables are set: all the common ones, the three PBArray names
   * exactly when the list is a PBArray, and fixed_size exactly when the type
   * has a fixed width.
   */
  lemma PrimitiveVariableKeys(f: Field, h: Naming)
    requires PrimitiveTypeName(f.kind).Some?
    ensures PrimitiveVariables(f, h).Keys == BaseKeys + (if h.objectArray then {} else ArrayKeys)
                                             + (if FixedSize(f.kind) != -1 then {Vars.FixedSize} else {})
  {
  }

  /**
   * A reserved name gets "Property" on both name and capitalized_name;
   * list_name is always the plain camel-case name plus "Array".
   */
  lemma PrimitiveVariableNames(f: Field, h: Naming)
    requires PrimitiveTypeName(f.kind).Some?
    ensures Vars.Name in PrimitiveVariables(f, h) && Vars.CapitalizedName in PrimitiveVariables(f, h)
    ensures PrimitiveVariables(f, h)[Vars.Name] == if h.reservedName then h.camelName + "Property" else h.camelName
    ensures PrimitiveVariables(f, h)[Vars.CapitalizedName] ==
            if h.reservedName then h.capitalizedCamelName + "Property" else h.capitalizedCamelName
  {
  }

  lemma PrimitiveVariableListName(f: Field, h: Naming)
    requires PrimitiveTypeName(f.kind).Some?
    ensures Vars.ListName in PrimitiveVariables(f, h) && Vars.Classname in PrimitiveVariables(f, h)
    ensures PrimitiveVariables(f, h)[Vars.ListName] == h.camelName + "Array"
    ensures PrimitiveVariables(f, h)[Vars.Classname] == h.className
  {
  }

  /**
   * The C type from the table; a pointer to it for an object type; the
   * not-retained attribute only for an object type with a retained name.
   */
  lemma PrimitiveVariableStorage(f: Field, h: Naming)
    requires PrimitiveTypeName(f.kind).Some?
    ensures Vars.Type in PrimitiveVariables(f, h) && Vars.StorageType in PrimitiveVariables(f, h) &&
            Vars.StorageAttribute in PrimitiveVariables(f, h)
    ensures PrimitiveVariables(f, h)[Vars.Type] == PrimitiveTypeName(f.kind).value
    ensures PrimitiveVariables(f, h)[Vars.StorageType] ==
            if h.primitiveType then PrimitiveTypeName(f.kind).value else PrimitiveTypeName(f.kind).value + "*"
    ensures PrimitiveVariables(f, h)[Vars.StorageAttribute] ==
            if !h.primitiveType && h.retainedName then " NS_RETURNS_NOT_RETAINED" else ""
  {
  }

  /** A PBArray list gets the value-type constant and the two PBArray type names from the tables. */
  lemma PrimitiveVariableArrayNames(f: Field, h: Naming)
    requires PrimitiveTypeName(f.kind).Some? && !h.objectArray
    ensures Vars.ArrayValueType in PrimitiveVariables(f, h) && Vars.ArrayValueTypeName in PrimitiveVariables(f, h) &&
            Vars.ArrayValueTypeNameCap in PrimitiveVariables(f, h)
    ensures PrimitiveVariables(f, h)[Vars.ArrayValueType] == h.arrayValueType
    ensures PrimitiveVariables(f, h)[Vars.ArrayValueTypeName] == ArrayValueTypeName(f.kind)
    ensures PrimitiveVariables(f, h)[Vars.ArrayValueTypeNameCap] == CapitalizedArrayValueTypeName(f.kind)
  {
  }

  lemma PrimitiveVariableDefault(f: Field, h: Naming)
    requires PrimitiveTypeName(f.kind).Some?
    ensures Vars.Default in PrimitiveVariables(f, h) && Vars.CapitalizedType in PrimitiveVariables(f, h)
    ensures PrimitiveVariables(f, h)[Vars.Default] == h.defaultValue
    ensures PrimitiveVariables(f, h)[Vars.CapitalizedType] == CapitalizedType(f.kind)
  {
  }

  /** number and tag are decimal numerals of the field number and of the tag (packed wire type when packed). */
  lemma PrimitiveVariableTag(f: Field, h: Naming)
    requires PrimitiveTypeName(f.kind).Some?
    ensures Vars.Number in PrimitiveVariables(f, h) && Vars.Tag in PrimitiveVariables(f, h)
    ensures IsNumeral(PrimitiveVariables(f, h)[Vars.Number]) && NumeralValue(PrimitiveVariables(f, h)[Vars.Number]) == f.number
    ensures IsNumeral(PrimitiveVariables(f, h)[Vars.Tag]) &&
            NumeralValue(PrimitiveVariables(f, h)[Vars.Tag]) == MakeTag(f.number, WireTypeForField(f.kind, f.packed))
  {
    var vars := PrimitiveVariables(f, h);
    assert vars[Vars.Number] == Itoa(f.number);
    assert vars[Vars.Tag] == Itoa(MakeTag(f.number, WireTypeForField(f.kind, f.packed)));
    NumeralOf(f.number);
    NumeralOf(MakeTag(f.number, WireTypeForField(f.kind, f.packed)));
  }

  /** tag_size and, for a fixed-width type, fixed_size are decimal numerals of those sizes. */
  lemma PrimitiveVariableSizes(f: Field, h: Naming)
    requires PrimitiveTypeName(f.kind).Some?
    ensures Vars.TagSize in PrimitiveVariables(f, h)
    ensures IsNumeral(PrimitiveVariables(f, h)[Vars.TagSize]) &&
            NumeralValue(PrimitiveVariables(f, h)[Vars.TagSize]) == TagSize(f.number, f.kind)
    ensures FixedSize(f.kind) != -1 ==>
              Vars.FixedSize in PrimitiveVariables(f, h) &&
              IsNumeral(PrimitiveVariables(f, h)[Vars.FixedSize]) &&
              NumeralValue(PrimitiveVariables(f, h)[Vars.FixedSize]) == FixedSize(f.kind)
  {
    var vars := PrimitiveVariables(f, h);
    assert vars[Vars.TagSize] == Itoa(TagSize(f.number, f.kind));
    NumeralOf(TagSize(f.number, f.kind));
    if FixedSize(f.kind) != -1 {
      assert vars[Vars.FixedSize] == Itoa(FixedSize(f.kind));
      NumeralOf(FixedSize(f.kind));
    }
  }

  // ---------------------------------------------------------------------------
  // Reading one value

  /** A type the stream reads and writes directly: a scalar, a string or bytes. */
  predicate Readable(t: FieldType)
  {
    IsScalarType(t) || t == String || t == Bytes
  }

  /** `[input readX]`: None where the runtime raises (input cut short, negative length). */
  method ReadValue(input: CodedInput, t: FieldType) returns (r: Option<Value>)
    requires input.Valid() && Readable(t)
    modifies input
    ensures input.Valid() && input.data == old(input.data) && input.limit == old(input.limit)
    ensures r.None? <==> DecodeValue(t, old(input.Window())).None?
    ensures r.Some? ==> r.value == DecodeValue(t, old(input.Window())).value.0 &&
                        input.pos == old(input.pos) + DecodeValue(t, old(input.Window())).value.1
  {
    ghost var window := input.Window();
    if IsScalarType(t) {
      var x := input.ReadNoTag(t);
      if x.None? {
        return None;
      }
      r := Some(Num(x.value));
    } else {
      var length := input.ReadRawVarint32();
      if length.None? {
        return None;
      }
      ghost var n := DecodeVarint(window).value.1;
      assert input.Window() == window[n..];
      var b := input.ReadRawBytes(length.value);
      if b.None? {
        return None;
      }
      assert b.value == window[n..n + length.value];
      r := Some(Data(b.value));
    }
  }

  // ---------------------------------------------------------------------------
  // A singular field

  /** The field's value, when it is set, has the field's type. */
  predicate TypedWhenSet(f: Field, r: Record)
  {
    f.number in r.has ==> WellTyped(f.kind, Get(r, f))
  }

  /** The write pass of a singular field: `writeX:number value:` when has is YES. */
  function SingularBytes(f: Field, r: Record): seq<byte>
    requires TypedWhenSet(f, r)
  {
    if f.number in r.has then TaggedBytes(f, Get(r, f)) else []
  }

  /** The size pass of a singular field, `computeXSize(number, value)` when has is YES: the bytes the write pass writes. */
  function SingularSize(f: Field, r: Record): (size: nat)
    requires TypedWhenSet(f, r)
    ensures size == |SingularBytes(f, r)|
  {
    if f.number in r.has then TagSize(f.number, f.kind) + ValueSize(f.kind, Get(r, f)) else 0
  }

  method WriteSingular(output: CodedOutput, f: Field, r: Record)
    requires TypedWhenSet(f, r)
    modifies output
    ensures output.bytes == old(output.bytes) + SingularBytes(f, r)
  {
    if f.number in r.has {
      WriteTagged(output, f, Get(r, f));
    }
  }

  /** `[output writeX:number value:v]`. */
  method WriteTagged(output: CodedOutput, f: Field, v: Value)
    requires WellTyped(f.kind, v)
    modifies output
    ensures output.bytes == old(output.bytes) + TaggedBytes(f, v)
  {
    ghost var tag := EncodeVarint(FieldTag(f));
    output.WriteTag(f.number, WireTypeForType(f.kind));
    AppendTwice(old(output.bytes), tag, ValueBytes(f.kind, v));
    if IsScalarType(f.kind) {
      output.WriteNoTag(f.kind, v.n);
    } else {
      ghost var length := EncodeVarint(|v.bytes|);
      ghost var mid := output.bytes;
      output.WriteRawBytes(EncodeVarint(|v.bytes|));
      output.WriteRawBytes(v.bytes);
      AppendTwice(mid, length, v.bytes);
    }
  }

  /** The parsing code of a singular field: `[self setX:[input readX]]`. */
  method ParseSingular(b: Builder, input: CodedInput, f: Field) returns (ok: bool)
    requires input.Valid() && Readable(f.kind)
    modifies b, input
    ensures input.Valid() && input.data == old(input.data) && input.limit == old(input.limit)
    ensures ok <==> DecodeValue(f.kind, old(input.Window())).Some?
    ensures ok ==> b.result == if old(b.result).Some?
                               then Some(SetValue(old(b.result).value, f, DecodeValue(f.kind, old(input.Window())).value.0))
                               else None
    ensures !ok ==> b.result == old(b.result)
  {
    var v := ReadValue(input, f.kind);
    if v.None? {
      return false;
    }
    b.Set(f, v.value);
    ok := true;
  }

  /**
   * After the tag, the bytes the write pass produced for a set field read
   * back as the field's value, and the reader stops where they end.
   */
  lemma SingularRoundTrip(f: Field, r: Record, rest: seq<byte>)
    requires TypedWhenSet(f, r) && f.number in r.has
    requires Get(r, f).Data? ==> |Get(r, f).bytes| < TWO_31
    ensures SingularBytes(f, r) == EncodeVarint(FieldTag(f)) + ValueBytes(f.kind, Get(r, f))
    ensures DecodeValue(f.kind, ValueBytes(f.kind, Get(r, f)) + rest) == Some((Get(r, f), ValueSize(f.kind, Get(r, f))))
  {
    ValueRoundTrip(f.kind, Get(r, f), rest);
  }

  // ---------------------------------------------------------------------------
  // A repeated field

  /**
   * The size pass of a repeated field: dataSize by a loop over the elements
   * (or fixed_size * count), then the tags and, for a packed field, the
   * length prefix; a packed field's dataSize is left in its memo.
   */
  method SizeRepeated(f: Field, vs: seq<Value>, objectArray: bool, memo: SizeMemo) returns (size: nat)
    requires AllWellTyped(f.kind, vs)
    modifies memo
    ensures size == ListSize(f, vs, Int32NoTag)
    ensures memo.memo == if f.packed then old(memo.memo)[f.number := DataSize(f.kind, vs)] else old(memo.memo)
  {
    var dataSize := ComputeDataSize(f.kind, vs, objectArray);
    if f.packed {
      size := dataSize;
      if |vs| > 0 {
        size := size + TagSize(f.number, f.kind) + Int32SizeNoTag(dataSize);
      }
      memo.Write(f.number, dataSize);
    } else {
      size := dataSize + TagsSize(f, |vs|);
    }
  }

  /** dataSize: `fixed_size * count` for a fixed-width PBArray, otherwise the loop over the elements. */
  method ComputeDataSize(t: FieldType, vs: seq<Value>, objectArray: bool) returns (dataSize: nat)
    requires AllWellTyped(t, vs)
    ensures dataSize == DataSize(t, vs)
  {
    if !objectArray && FixedSize(t) != -1 {
      FixedDataSize(t, vs);
      dataSize := FixedSize(t) * |vs|;
    } else {
      dataSize := SumSizes(t, vs);
    }
  }

  /** For a fixed-width type, `dataSize = fixed_size * count` is the loop's sum. */
  lemma FixedDataSize(t: FieldType, vs: seq<Value>)
    requires AllWellTyped(t, vs) && FixedSize(t) != -1
    ensures FixedSize(t) * |vs| == DataSize(t, vs)
  {
    NumbersOfScalars(t, vs);
    FixedRunSize(t, NumbersOf(vs));
  }

  /** The untagged sizes of the first i elements of a list. */
  ghost function SizePrefix(t: FieldType, vs: seq<Value>, i: nat): nat
    requires AllWellTyped(t, vs) && i <= |vs|
  {
    DataSize(t, vs[..i])
  }

  lemma SizePrefixStep(t: FieldType, vs: seq<Value>, i: nat)
    requires AllWellTyped(t, vs) && i < |vs|
    ensures SizePrefix(t, vs, i + 1) == SizePrefix(t, vs, i) + ValueSize(t, vs[i])
  {
    DataSizeSnoc(t, vs[..i], vs[i]);
    assert vs[..i + 1] == vs[..i] + [vs[i]];
  }

  /** `dataSize += computeXSizeNoTag(element)` over the list. */
  method SumSizes(t: FieldType, vs: seq<Value>) returns (dataSize: nat)
    requires AllWellTyped(t, vs)
    ensures dataSize == DataSize(t, vs)
  {
    dataSize := 0;
    var i := 0;
    while i < |vs|
      invariant 0 <= i <= |vs|
      invariant dataSize == SizePrefix(t, vs, i)
    {
      SizePrefixStep(t, vs, i);
      dataSize := dataSize + ValueSize(t, vs[i]);
      i := i + 1;
    }
    assert vs[..i] == vs;
  }

  /**
   * The write pass of a repeated field: an object array writes each element
   * under its tag; a PBAppendableArray writes, when non-empty, either the
   * packed run (tag, memoized length, untagged elements) or each element
   * under its tag.
   */
  method WriteRepeated(output: CodedOutput, f: Field, vs: seq<Value>, objectArray: bool, memo: SizeMemo)
    requires AllWellTyped(f.kind, vs) && (!objectArray ==> IsScalarType(f.kind))
    requires f.number <= MAX_FIELD_NUMBER
    modifies output
    ensures output.bytes == old(output.bytes) + if objectArray then TaggedList(f, vs) else ListBytes(f, vs, memo.Read(f.number))
  {
    if objectArray || !f.packed {
      WriteEachTagged(output, f, vs);
    } else if |vs| > 0 {
      NumbersOfScalars(f.kind, vs);
      var ns := NumbersOf(vs);
      TagFitsWord(f.number, LengthDelimited);
      ghost var tag := EncodeVarint(PackedTag(f));
      ghost var length := EncodeVarint(memo.Read(f.number) % TWO_32);
      assert PackedTag(f) % TWO_32 == PackedTag(f);
      output.WriteRawVarint32(PackedTag(f));
      ghost var afterTag := output.bytes;
      output.WriteRawVarint32(memo.Read(f.number));
      WriteRun(output, f.kind, ns);
      AppendTwice(afterTag, length, EncodeRun(f.kind, ns));
      AppendTwice(old(output.bytes), tag, length + EncodeRun(f.kind, ns));
      assert PackedBytes(f, ns, memo.Read(f.number)) == tag + length + EncodeRun(f.kind, ns);
      AppendTwice(tag, length, EncodeRun(f.kind, ns));
    }
  }

  /** The encodings of the first i numbers of a run. */
  ghost function RunPrefix(t: FieldType, ns: seq<int>, i: nat): seq<byte>
    requires IsScalarType(t) && AllInRange(t, ns) && i <= |ns|
  {
    EncodeRun(t, ns[..i])
  }

  lemma RunPrefixStep(t: FieldType, ns: seq<int>, i: nat)
    requires IsScalarType(t) && AllInRange(t, ns) && i < |ns|
    ensures RunPrefix(t, ns, i + 1) == RunPrefix(t, ns, i) + EncodeNoTag(t, ns[i])
  {
    EncodeRunSnoc(t, ns[..i], ns[i]);
    assert ns[..i + 1] == ns[..i] + [ns[i]];
  }

  /** `for (i < count) [output writeXNoTag:values[i]]`. */
  method WriteRun(output: CodedOutput, t: FieldType, ns: seq<int>)
    requires IsScalarType(t) && AllInRange(t, ns)
    modifies output
    ensures output.bytes == old(output.bytes) + EncodeRun(t, ns)
  {
    var i := 0;
    while i < |ns|
      invariant 0 <= i <= |ns|
      invariant output.bytes == old(output.bytes) + RunPrefix(t, ns, i)
    {
      RunPrefixStep(t, ns, i);
      AppendTwice(old(output.bytes), RunPrefix(t, ns, i), EncodeNoTag(t, ns[i]));
      output.WriteNoTag(t, ns[i]);
      i := i + 1;
    }
    assert ns[..i] == ns;
  }

  /** The tagged encodings of the first i elements of a list. */
  ghost function TaggedPrefix(f: Field, vs: seq<Value>, i: nat): seq<byte>
    requires AllWellTyped(f.kind, vs) && i <= |vs|
  {
    TaggedList(f, vs[..i])
  }

  lemma TaggedPrefixStep(f: Field, vs: seq<Value>, i: nat)
    requires AllWellTyped(f.kind, vs) && i < |vs|
    ensures TaggedPrefix(f, vs, i + 1) == TaggedPrefix(f, vs, i) + TaggedBytes(f, vs[i])
  {
    TaggedListSnoc(f, vs[..i], vs[i]);
    assert vs[..i + 1] == vs[..i] + [vs[i]];
  }

  /** `for (element in list) [output writeX:number value:element]`. */
  method WriteEachTagged(output: CodedOutput, f: Field, vs: seq<Value>)
    requires AllWellTyped(f.kind, vs)
    modifies output
    ensures output.bytes == old(output.bytes) + TaggedList(f, vs)
  {
    var i := 0;
    while i < |vs|
      invariant 0 <= i <= |vs|
      invariant output.bytes == old(output.bytes) + TaggedPrefix(f, vs, i)
    {
      TaggedPrefixStep(f, vs, i);
      AppendTwice(old(output.bytes), TaggedPrefix(f, vs, i), TaggedBytes(f, vs[i]));
      WriteTagged(output, f, vs[i]);
      i := i + 1;
    }
    assert vs[..i] == vs;
  }

  /** The parsing code of an unpacked repeated field: `[self addX:[input readX]]`. */
  method ParseElement(b: Builder, input: CodedInput, f: Field) returns (ok: bool)
    requires input.Valid() && Readable(f.kind)
    modifies b, input
    ensures input.Valid() && input.data == old(input.data) && input.limit == old(input.limit)
    ensures ok <==> DecodeValue(f.kind, old(input.Window())).Some?
    ensures ok ==> b.result == if old(b.result).Some?
                               then Some(AddElement(old(b.result).value, f, DecodeValue(f.kind, old(input.Window())).value.0))
                               else None
    ensures !ok ==> b.result == old(b.result)
  {
    var v := ReadValue(input, f.kind);
    if v.None? {
      return false;
    }
    b.Add(f, v.value);
    ok := true;
  }

  /**
   * The parsing code of a packed field: read the length, push it as the
   * limit, create the list when it is nil, add elements until the limit is
   * reached, pop the limit. It appends exactly what the payload decodes to.
   */
  method ParsePacked(b: Builder, input: CodedInput, f: Field) returns (ok: bool)
    requires input.Valid() && IsScalarType(f.kind)
    modifies b, input
    ensures input.Valid() && input.data == old(input.data)
    ensures ok <==> PackedPayload(old(input.Window())).Some? &&
                    DecodeRun(f.kind, PackedPayload(old(input.Window())).value.0).Some?
    ensures ok ==> var (payload, n) := PackedPayload(old(input.Window())).value;
                   input.pos == old(input.pos) + n + |payload| && input.limit == old(input.limit) &&
                   b.result == if old(b.result).Some?
                               then Some(SetArray(old(b.result).value, f,
                                         Elements(old(b.result).value, f) + AsValues(DecodeRun(f.kind, payload).value)))
                               else None
  {
    ghost var window := input.Window();
    var length := input.ReadRawVarint32();
    if length.None? {
      return false;
    }
    ghost var n := DecodeVarint(window).value.1;
    assert input.Window() == window[n..];
    var saved := input.PushLimit(length.value);
    if saved.None? {
      return false;
    }
    ghost var payload := PackedPayload(window).value.0;
    assert input.Window() == payload by {
      assert input.Window() == window[n..][..length.value];
    }
    ghost var base := b.result;
    if b.result.Some? && f.number !in b.result.value.lists {
      b.SetArrayOf(f, []);
    }
    ghost var created := b.result;
    ok := AddUntilLimit(b, input, f);
    if ok {
      input.PopLimit(saved.value);
      if base.Some? {
        ghost var added := AsValues(DecodeRun(f.kind, payload).value);
        assert Elements(base.value, f) + added == if f.number in base.value.lists then Elements(base.value, f) + added else added;
        if f.number !in base.value.lists {
          assert Elements(created.value, f) + added == added;
          SetArrayTwice(base.value, f, [], added);
        }
      }
    }
  }

  /**
   * `while (input.bytesUntilLimit > 0) [list addX:[input readX]]`: the
   * elements of the window, in order, appended to the list; fails when the
   * last element runs past the limit.
   */
  method AddUntilLimit(b: Builder, input: CodedInput, f: Field) returns (ok: bool)
    requires input.Valid() && IsScalarType(f.kind)
    requires b.result.Some? ==> f.number in b.result.value.lists
    modifies b, input
    ensures input.Valid() && input.data == old(input.data) && input.limit == old(input.limit)
    ensures ok <==> DecodeRun(f.kind, old(input.Window())).Some?
    ensures ok ==> input.pos == input.limit &&
                   b.result == if old(b.result).Some?
                               then Some(SetArray(old(b.result).value, f,
                                         Elements(old(b.result).value, f) + AsValues(DecodeRun(f.kind, old(input.Window())).value)))
                               else None
  {
    ghost var base := b.result;
    ghost var whole := input.Window();
    ghost var added: seq<int> := [];
    if base.Some? {
      SetArrayToOwnElements(base.value, f);
      assert Elements(base.value, f) + AsValues(added) == Elements(base.value, f);
    }
    assert Prepend(added, DecodeRun(f.kind, input.Window())) == DecodeRun(f.kind, whole) by {
      if DecodeRun(f.kind, whole).Some? {
        assert added + DecodeRun(f.kind, whole).value == DecodeRun(f.kind, whole).value;
      }
    }
    while input.BytesUntilLimit() > 0
      invariant input.Valid() && input.data == old(input.data) && input.limit == old(input.limit)
      invariant Prepend(added, DecodeRun(f.kind, input.Window())) == DecodeRun(f.kind, whole)
      invariant b.result == if base.Some? then Some(SetArray(base.value, f, Elements(base.value, f) + AsValues(added))) else None
      decreases input.limit - input.pos
    {
      ghost var rest := input.Window();
      var x := input.ReadNoTag(f.kind);
      if x.None? {
        return false;
      }
      ghost var k := DecodeNoTag(f.kind, rest).value.1;
      assert input.Window() == rest[k..];
      PrependStep(added, x.value, DecodeRun(f.kind, rest[k..]));
      if base.Some? {
        AddAfterSetArray(base.value, f, Elements(base.value, f) + AsValues(added), Num(x.value));
        AsValuesSnoc(added, x.value);
        AppendTwice(Elements(base.value, f), AsValues(added), [Num(x.value)]);
      }
      b.Add(f, Num(x.value));
      added := added + [x.value];
    }
    assert DecodeRun(f.kind, input.Window()) == Some([]);
    assert added + [] == added;
    ok := true;
  }

  /**
   * What the write pass produced for a non-empty packed field, after its
   * tag, is read by the packed parsing code as exactly the list: the payload
   * is the run and the run decodes to the list's numbers.
   */
  lemma PackedWriteThenParse(f: Field, vs: seq<Value>, d: nat, rest: seq<byte>)
    requires IsScalarType(f.kind) && f.packed && AllWellTyped(f.kind, vs) && |vs| > 0
    requires d == DataSize(f.kind, vs) && d < TWO_31
    ensures AllInRange(f.kind, NumbersOf(vs))
    ensures ListBytes(f, vs, d) == EncodeVarint(PackedTag(f)) + EncodeVarint(d) + EncodeRun(f.kind, NumbersOf(vs))
    ensures PackedPayload(EncodeVarint(d) + EncodeRun(f.kind, NumbersOf(vs)) + rest) ==
            Some((EncodeRun(f.kind, NumbersOf(vs)), VarintSize(d)))
    ensures DecodeRun(f.kind, EncodeRun(f.kind, NumbersOf(vs))) == Some(NumbersOf(vs))
    ensures AsValues(NumbersOf(vs)) == vs
  {
    NumbersOfScalars(f.kind, vs);
    PackedRoundTrip(f, NumbersOf(vs), d, rest);
  }
}
