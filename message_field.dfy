/**
 * The generator of message and group fields: the template variables of one
 * field and the runtime meaning of the fragments it emits. A nested message
 * is read through a sub-builder, seeded with the existing value for a
 * singular field; a group differs from a message only in the stream calls
 * used, which the group_or_message variable selects.
 */
module MessageField {
  import opened Wrappers
  import opened Wire
  import opened Schema
  import opened Records
  import opened Text
  import opened Builders
  import Vars

  // ---------------------------------------------------------------------------
  // Template variables

  /**
   * What the helper functions that are not part of this model answer for a
   * message field: its message's class name, its camel-case names, the class
   * name of its message type, whether the name is reserved or retained, and
   * whether its Objective-C type counts as a C primitive.
   */
  datatype MessageNaming = MessageNaming(
    className: string,
    camelName: string,
    capitalizedCamelName: string,
    messageClassName: string,
    reservedName: bool,
    retainedName: bool,
    primitiveType: bool)

  const MessageKeys: set<Vars.Key> := {Vars.Classname, Vars.Name, Vars.CapitalizedName, Vars.ListName, Vars.Number,
    Vars.Type, Vars.StorageType, Vars.StorageAttribute, Vars.GroupOrMessage}

  /** The word the stream selectors of a field are built from. */
  function GroupOrMessage(t: FieldType): string
  {
    if t == Group then "Group" else "Message"
  }

  /** The variables of the templates for a message or group field. */
  function MessageVariables(f: Field, h: MessageNaming): map<Vars.Key, string>
  {
    map[
      Vars.Classname := h.className,
      Vars.Name := if h.reservedName then h.camelName + "Property" else h.camelName,
      Vars.CapitalizedName := if h.reservedName then h.capitalizedCamelName + "Property" else h.capitalizedCamelName,
      Vars.ListName := h.camelName + "Array",
      Vars.Number := Itoa(f.number),
      Vars.Type := h.messageClassName,
      Vars.StorageType := if h.primitiveType then h.messageClassName else h.messageClassName + "*",
      Vars.StorageAttribute := if !h.primitiveType && h.retainedName then " NS_RETURNS_NOT_RETAINED" else "",
      Vars.GroupOrMessage := GroupOrMessage(f.kind)]
  }

  /** SetMessageVariables: fills the field generator's variable map one entry at a time. */
  method SetMessageVariables(f: Field, h: MessageNaming) returns (vars: map<Vars.Key, string>)
    ensures vars == MessageVariables(f, h)
  {
    vars := map[];
    vars := vars[Vars.Classname := h.className];
    if h.reservedName {
      vars := vars[Vars.Name := h.camelName + "Property"];
      vars := vars[Vars.CapitalizedName := h.capitalizedCamelName + "Property"];
    } else {
      vars := vars[Vars.Name := h.camelName];
      vars := vars[Vars.CapitalizedName := h.capitalizedCamelName];
    }
    vars := vars[Vars.ListName := h.camelName + "Array"];
    vars := vars[Vars.Number := Itoa(f.number)];
    vars := vars[Vars.Type := h.messageClassName];
    if h.primitiveType {
      vars := vars[Vars.StorageType := h.messageClassName];
      vars := vars[Vars.StorageAttribute := ""];
    } else {
      vars := vars[Vars.StorageType := h.messageClassName + "*"];
      if h.retainedName {
        vars := vars[Vars.StorageAttribute := " NS_RETURNS_NOT_RETAINED"];
      } else {
        vars := vars[Vars.StorageAttribute := ""];
      }
    }
    vars := vars[Vars.GroupOrMessage := if f.kind == Group then "Group" else "Message"];
  }

  /** Exactly nine variables are set: no default, tag or array-type variables. */
  lemma MessageVariableKeys(f: Field, h: MessageNaming)
    ensures MessageVariables(f, h).Keys == MessageKeys
  {
  }

  /**
   * A reserved name gets "Property" appended to name and capitalized_name;
   * list_name is the plain camel-case name with "Array" either way.
   */
  lemma MessageVariableNames(f: Field, h: MessageNaming)
    ensures Vars.Name in MessageVariables(f, h) && Vars.CapitalizedName in MessageVariables(f, h) &&
            Vars.ListName in MessageVariables(f, h)
    ensures h.reservedName ==> MessageVariables(f, h)[Vars.Name] == h.camelName + "Property" &&
                               MessageVariables(f, h)[Vars.CapitalizedName] == h.capitalizedCamelName + "Property"
    ensures !h.reservedName ==> MessageVariables(f, h)[Vars.Name] == h.camelName &&
                                MessageVariables(f, h)[Vars.CapitalizedName] == h.capitalizedCamelName
    ensures MessageVariables(f, h)[Vars.ListName] == h.camelName + "Array"
  {
  }

  /**
   * storage_type is the message class, with a `*` unless it counts as a C
   * primitive; storage_attribute is NS_RETURNS_NOT_RETAINED exactly for a
   * pointer whose name is retained.
   */
  lemma MessageVariableStorage(f: Field, h: MessageNaming)
    ensures Vars.StorageType in MessageVariables(f, h) && Vars.StorageAttribute in MessageVariables(f, h)
    ensures MessageVariables(f, h)[Vars.StorageType] ==
            if h.primitiveType then h.messageClassName else h.messageClassName + "*"
    ensures MessageVariables(f, h)[Vars.StorageAttribute] == " NS_RETURNS_NOT_RETAINED" <==> !h.primitiveType && h.retainedName
    ensures MessageVariables(f, h)[Vars.StorageAttribute] != " NS_RETURNS_NOT_RETAINED" ==>
              MessageVariables(f, h)[Vars.StorageAttribute] == ""
  {
  }

  /** number is the decimal numeral of the field number. */
  lemma MessageVariableNumber(f: Field, h: MessageNaming)
    ensures Vars.Number in MessageVariables(f, h)
    ensures IsNumeral(MessageVariables(f, h)[Vars.Number]) && NumeralValue(MessageVariables(f, h)[Vars.Number]) == f.number
  {
    assert MessageVariables(f, h)[Vars.Number] == Itoa(f.number);
    NumeralOf(f.number);
  }

  /** group_or_message is "Group" exactly for a group field and "Message" for every other one. */
  lemma GroupOrMessageVariable(f: Field, h: MessageNaming)
    ensures Vars.GroupOrMessage in MessageVariables(f, h)
    ensures MessageVariables(f, h)[Vars.GroupOrMessage] == "Group" <==> f.kind == Group
    ensures MessageVariables(f, h)[Vars.GroupOrMessage] == "Message" <==> f.kind != Group
  {
    var word := MessageVariables(f, h)[Vars.GroupOrMessage];
    if f.kind != Group {
      assert word == "Message";
      assert word[0] != "Group"[0];
    } else {
      assert word == "Group";
      assert word[0] != "Message"[0];
    }
  }

  // ---------------------------------------------------------------------------
  // Stream calls chosen by group_or_message

  /** The call that reads a nested value: a group needs its number to find its end tag. */
  datatype ReadCall = ReadGroup(number: nat) | ReadMessage

  /** The call that writes a nested value under the field's number. */
  datatype WriteCall = WriteGroup(number: nat, value: Value) | WriteMessage(number: nat, value: Value)

  function ReadCallFor(f: Field): ReadCall
  {
    if f.kind == Group then ReadGroup(f.number) else ReadMessage
  }

  /** `[output write$group_or_message$:$number$ value:v]`. */
  function WriteCallFor(f: Field, v: Value): WriteCall
  {
    if f.kind == Group then WriteGroup(f.number, v) else WriteMessage(f.number, v)
  }

  function WriteSelector(c: WriteCall): string
  {
    match c
    case WriteGroup(_, _) => "writeGroup"
    case WriteMessage(_, _) => "writeMessage"
  }

  /**
   * The write call the template text names is the one chosen for the field,
   * and the group calls are chosen exactly for the field whose wire type
   * opens a group: a group is read with its own number and written between
   * a start and an end tag.
   */
  lemma GroupCallsAgree(f: Field, h: MessageNaming, v: Value)
    requires IsMessageField(f)
    ensures Vars.GroupOrMessage in MessageVariables(f, h)
    ensures WriteSelector(WriteCallFor(f, v)) == "write" + MessageVariables(f, h)[Vars.GroupOrMessage]
    ensures WriteCallFor(f, v).WriteGroup? <==> WireTypeForType(f.kind) == StartGroup
    ensures ReadCallFor(f).ReadGroup? <==> WireTypeForType(f.kind) == StartGroup
    ensures ReadCallFor(f).ReadGroup? ==> ReadCallFor(f).number == f.number
    ensures WireTypeForType(f.kind) != StartGroup ==> WireTypeForType(f.kind) == LengthDelimited
  {
  }

  // ---------------------------------------------------------------------------
  // A singular message field

  /** Initialization and clear<Field> both leave the type's default instance; clear also makes has NO. */
  lemma MessageDefaults(f: Field, r: Record)
    requires IsMessageField(f)
    ensures Get(EmptyRecord, f) == DefaultInstance && f.number !in EmptyRecord.has
    ensures Get(ClearValue(r, f), f) == DefaultInstance && f.number !in ClearValue(r, f).has
  {
  }

  /**
   * set<Field>Builder: set<Field> with what build of the other builder
   * returns; nothing is set when build fails, on an uninitialized message or
   * on a builder already built.
   */
  method SetFromBuilder(b: Builder, f: Field, sub: Builder) returns (ok: bool)
    requires sub.Valid() && sub != b
    modifies b, sub
    ensures ok <==> old(sub.result).Some? && Initialized(sub.types, sub.t, old(sub.result).value)
    ensures ok ==> sub.result == None &&
                   b.result == if old(b.result).Some? then Some(SetValue(old(b.result).value, f, Sub(old(sub.result).value))) else None
    ensures !ok ==> sub.result == old(sub.result) && b.result == old(b.result)
  {
    var built := sub.Build();
    if built.Failure? {
      return false;
    }
    b.Set(f, Sub(built.value));
    ok := true;
  }

  /**
   * readMessage: or readGroup:, outside this model: the nested message read
   * from the input and merged into the sub-builder's message, or None when
   * the input is malformed.
   */
  type NestedRead = (ReadCall, Record) -> Option<Record>

  method ReadInto(sub: Builder, call: ReadCall, read: NestedRead) returns (ok: bool)
    requires sub.result.Some?
    modifies sub
    ensures ok <==> read(call, old(sub.result).value).Some?
    ensures sub.result == if ok then read(call, old(sub.result).value) else old(sub.result)
  {
    var parsed := read(call, sub.result.value);
    if parsed.None? {
      return false;
    }
    sub.result := parsed;
    ok := true;
  }

  /**
   * What the sub-builder holds before the nested read: a fresh message,
   * with the field's existing value merged in when the builder has it.
   */
  function SubBuilderSeed(types: seq<MessageType>, f: Field, r: Option<Record>): Record
    requires f.msgType < |types|
  {
    if r.Some? && f.number in r.value.has then MergeFrom(types, types[f.msgType], EmptyRecord, Get(r.value, f))
    else EmptyRecord
  }

  /**
   * A value read for a field that is already set is merged into the old
   * value: the sub-builder starts from the old message. An unset field, or
   * one holding the default instance, starts from a fresh message.
   */
  lemma SubBuilderSeeded(types: seq<MessageType>, f: Field, r: Record)
    requires f.msgType < |types|
    ensures f.number !in r.has ==> SubBuilderSeed(types, f, Some(r)) == EmptyRecord
    ensures f.number in r.has && Get(r, f) == DefaultInstance ==> SubBuilderSeed(types, f, Some(r)) == EmptyRecord
    ensures f.number in r.has && Get(r, f).Sub? ==>
              SubBuilderSeed(types, f, Some(r)) == MergeRecord(types, types[f.msgType], EmptyRecord, Get(r, f).msg)
    ensures f.number in r.has && Get(r, f).Sub? && DistinctNumbers(types[f.msgType].fields) ==>
              SubBuilderSeed(types, f, Some(r)) == PrototypeCopy(types[f.msgType], Get(r, f).msg)
    ensures SubBuilderSeed(types, f, None) == EmptyRecord
  {
    if f.number in r.has && Get(r, f).Sub? && DistinctNumbers(types[f.msgType].fields) {
      PrototypeCopyIsMerge(types, types[f.msgType], Get(r, f).msg);
    }
  }

  /**
   * The parsing code of a singular message or group field: a fresh
   * sub-builder, seeded with the existing value when has is YES, the nested
   * read, then set<Field> with what buildPartial returns.
   */
  method ParseSingularMessage(b: Builder, f: Field, read: NestedRead) returns (ok: bool)
    requires b.Valid() && IsMessageField(f) && f.msgType < |b.types|
    modifies b
    ensures ok <==> read(ReadCallFor(f), SubBuilderSeed(b.types, f, old(b.result))).Some?
    ensures ok ==> b.result == if old(b.result).Some?
                               then Some(SetValue(old(b.result).value, f,
                                         Sub(read(ReadCallFor(f), SubBuilderSeed(b.types, f, old(b.result))).value)))
                               else None
    ensures !ok ==> b.result == old(b.result)
  {
    var sub := new Builder(b.types, f.msgType);
    if b.result.Some? && f.number in b.result.value.has {
      sub.MergeFromValue(Get(b.result.value, f));
    }
    ok := ReadInto(sub, if f.kind == Group then ReadGroup(f.number) else ReadMessage, read);
    if !ok {
      return false;
    }
    var built := sub.BuildPartial();
    b.Set(f, Sub(built.value));
  }

  // ---------------------------------------------------------------------------
  // A repeated message field

  /**
   * The parsing code of a repeated message or group field: a fresh
   * sub-builder, the nested read, then add<Field> with what buildPartial
   * returns.
   */
  method ParseRepeatedMessage(b: Builder, f: Field, read: NestedRead) returns (ok: bool)
    requires b.Valid() && IsMessageField(f) && f.msgType < |b.types|
    modifies b
    ensures ok <==> read(ReadCallFor(f), EmptyRecord).Some?
    ensures ok ==> b.result == if old(b.result).Some?
                               then Some(AddElement(old(b.result).value, f, Sub(read(ReadCallFor(f), EmptyRecord).value)))
                               else None
    ensures !ok ==> b.result == old(b.result)
  {
    var sub := new Builder(b.types, f.msgType);
    ok := ReadInto(sub, if f.kind == Group then ReadGroup(f.number) else ReadMessage, read);
    if !ok {
      return false;
    }
    var built := sub.BuildPartial();
    b.Add(f, Sub(built.value));
  }

  /**
   * Each element read is appended at the end of the list (created when nil),
   * earlier elements stay where they were, and no other field changes.
   */
  lemma RepeatedParseAppends(f: Field, r: Record, v: Value)
    ensures |Elements(AddElement(r, f, v), f)| == |Elements(r, f)| + 1
    ensures Elements(AddElement(r, f, v), f)[|Elements(r, f)|] == v
    ensures Elements(AddElement(r, f, v), f)[..|Elements(r, f)|] == Elements(r, f)
    ensures forall g: Field :: g.number != f.number ==> FieldState(AddElement(r, f, v), g) == FieldState(r, g)
  {
    assert Elements(AddElement(r, f, v), f) == Elements(r, f) + [v];
  }

  /** The write pass of a singular field: one call when has is YES. */
  function SingularWrites(f: Field, r: Record): seq<WriteCall>
  {
    if f.number in r.has then [WriteCallFor(f, Get(r, f))] else []
  }

  /** `for (element in list) [output write$group_or_message$:$number$ value:element]`. */
  method WriteRepeatedMessage(f: Field, vs: seq<Value>) returns (calls: seq<WriteCall>)
    ensures |calls| == |vs|
    ensures forall k :: 0 <= k < |vs| ==> calls[k] == WriteCallFor(f, vs[k])
  {
    calls := [];
    var i := 0;
    while i < |vs|
      invariant 0 <= i <= |vs| && |calls| == i
      invariant forall k :: 0 <= k < i ==> calls[k] == WriteCallFor(f, vs[k])
    {
      calls := calls + [WriteCallFor(f, vs[i])];
      i := i + 1;
    }
  }

  /**
   * compute$group_or_message$Size(number, v), given the nested message's own
   * serialized size: a group sits between a start and an end tag, a message
   * after one tag and its length.
   */
  function ElementSize(f: Field, body: nat): nat
  {
    if f.kind == Group then TagSize(f.number, f.kind) + body
    else TagSize(f.number, f.kind) + VarintSize(body) + body
  }

  /** The sizes of the elements, added up. */
  function ElementsSize(f: Field, vs: seq<Value>, bodySize: Value -> nat): nat
  {
    if |vs| == 0 then 0 else ElementsSize(f, vs[..|vs| - 1], bodySize) + ElementSize(f, bodySize(vs[|vs| - 1]))
  }

  /** `for (element in list) size_ += compute$group_or_message$Size(number, element)`. */
  method SizeRepeatedMessage(f: Field, vs: seq<Value>, bodySize: Value -> nat) returns (size: nat)
    ensures size == ElementsSize(f, vs, bodySize)
  {
    size := 0;
    var i := 0;
    while i < |vs|
      invariant 0 <= i <= |vs|
      invariant size == ElementsSize(f, vs[..i], bodySize)
    {
      assert vs[..i + 1][..i] == vs[..i];
      size := size + ElementSize(f, bodySize(vs[i]));
      i := i + 1;
    }
    assert vs[..i] == vs;
  }

  /**
   * Every element costs at least the tags around it and its own body; a
   * group costs exactly two tags and its body, and a list costs nothing
   * only when it is empty.
   */
  lemma {:induction false} ElementsSizeBounds(f: Field, vs: seq<Value>, bodySize: Value -> nat)
    requires f.number >= 1
    ensures ElementsSize(f, vs, bodySize) >= |vs|
    ensures f.kind == Group ==> ElementsSize(f, vs, bodySize) == 2 * |vs| * VarintSize(f.number * 8) + BodiesSize(vs, bodySize)
    ensures ElementsSize(f, vs, bodySize) >= BodiesSize(vs, bodySize)
  {
    if |vs| > 0 {
      ElementsSizeBounds(f, vs[..|vs| - 1], bodySize);
      assert VarintSize(f.number * 8) >= 1;
      GroupElementsStep(f, |vs| - 1, VarintSize(f.number * 8));
    }
  }

  lemma GroupElementsStep(f: Field, k: nat, tag: nat)
    ensures 2 * (k + 1) * tag == 2 * k * tag + 2 * tag
  {
  }

  function BodiesSize(vs: seq<Value>, bodySize: Value -> nat): nat
  {
    if |vs| == 0 then 0 else BodiesSize(vs[..|vs| - 1], bodySize) + bodySize(vs[|vs| - 1])
  }

  // ---------------------------------------------------------------------------
  // isEqual and hash

  /** `hashCode = hashCode * 31 + [element hash]` over the list of field f, in order. */
  function HashObjects(f: Field, vs: seq<Value>, h: nat, objectHash: ObjectHash): nat
    decreases |vs|
  {
    if |vs| == 0 then h else HashObjects(f, vs[1..], Mix(h, objectHash(f, vs[0])), objectHash)
  }

  /**
   * The hashing code of a repeated message field: the elements' hashes
   * folded in for an NSMutableArray list; the generator gives up (a fatal
   * log) for any other list kind.
   */
  function RepeatedMessageHash(f: Field, objectArray: bool): Result<(seq<Value>, nat, ObjectHash) -> nat, string>
  {
    if objectArray then Success((vs: seq<Value>, h: nat, objectHash: ObjectHash) => HashObjects(f, vs, h, objectHash))
    else Failure("Can't get here: GenerateHashCodeSource")
  }

  /**
   * The generated hash of a message field uses the objects' own hash: a set
   * singular field adds its value's hash, a repeated one folds in each
   * element's hash in list order, and generation succeeds for a repeated
   * field only over an object array.
   */
  lemma {:induction false} MessageHash(f: Field, vs: seq<Value>, h: nat, objectHash: ObjectHash, objectArray: bool)
    requires IsMessageField(f)
    ensures RepeatedMessageHash(f, objectArray).Success? <==> objectArray
    ensures objectArray ==> RepeatedMessageHash(f, objectArray).value(vs, h, objectHash) == HashElements(f, vs, h, objectHash)
  {
    if objectArray {
      MessageElementsHash(f, vs, h, objectHash);
    }
  }

  lemma {:induction false} MessageElementsHash(f: Field, vs: seq<Value>, h: nat, objectHash: ObjectHash)
    requires IsMessageField(f)
    ensures HashObjects(f, vs, h, objectHash) == HashElements(f, vs, h, objectHash)
  {
    if |vs| > 0 {
      assert ElementHash(f, vs[0], objectHash) == objectHash(f, vs[0]);
      MessageElementsHash(f, vs[1..], Mix(h, objectHash(f, vs[0])), objectHash);
    }
  }

  /**
   * A set singular message field adds its value's hash. Two records whose
   * field is isEqual (the nested class's isEqual on the values) fold the
   * same hash when the nested class's hash agrees with its isEqual.
   */
  lemma MessageSingularHash(f: Field, a: Record, b: Record, h: nat, objectEqual: ObjectEqual, objectHash: ObjectHash)
    requires IsMessageField(f) && !IsRepeated(f) && f.number in a.has
    ensures FieldHash(f, a, h, objectHash) == Mix(h, objectHash(f, Get(a, f)))
    ensures FieldEqual(f, a, b, objectEqual) ==> (f.number in b.has && objectEqual(f, Get(a, f), Get(b, f)))
    ensures FieldEqual(f, a, b, objectEqual) && HashAgreesWithEqual(objectEqual, objectHash) ==>
              FieldHash(f, b, h, objectHash) == FieldHash(f, a, h, objectHash)
  {
    if FieldEqual(f, a, b, objectEqual) && HashAgreesWithEqual(objectEqual, objectHash) {
      assert ValueEqual(f, Get(a, f), Get(b, f), objectEqual);
    }
  }
}
