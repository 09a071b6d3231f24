/**
 * The message schema the generator reads: fields with their declared type,
 * label and options, extension ranges, and the message types of one file as
 * a graph whose edges are message-typed fields.
 */
module Schema {
  import opened Wrappers
  import opened Wire

  datatype Label = Optional | Required | Repeated

  /** An extension range [start, end) of a message. */
  datatype ExtensionRange = ExtensionRange(start: nat, end: nat)

  datatype Field = Field(
    name: string,
    number: nat,
    kind: FieldType,
    occurrence: Label,
    /** The `packed` option. */
    packed: bool,
    /** The field's trailing comment, or None when no source location is recorded. */
    trailingComment: Option<string>,
    /** For a message or group field: the index of its type in the file's type list. */
    msgType: nat,
    /** For an enum field: the numbers its enum type declares (what IsValidValue accepts). */
    enumValues: set<int>,
    /** The numeric default (the default enum value's number for an enum field). */
    defaultNum: int,
    /** The default of a string or bytes field. */
    defaultData: seq<byte>)

  /**
   * A message type: its full name, its fields in declaration order, its
   * extension ranges in declaration order, and the message_set_wire_format option.
   */
  datatype MessageType = MessageType(fullName: string, fields: seq<Field>, ranges: seq<ExtensionRange>, messageSet: bool)

  predicate IsRepeated(f: Field)
  {
    f.occurrence == Repeated
  }

  /** Fields whose C++ type is "message": message and group fields. */
  predicate IsMessageField(f: Field)
  {
    IsMessageType(f.kind)
  }

  /** Does p occur as a contiguous piece of s? */
  predicate Contains(s: string, p: string)
    decreases |s|
  {
    |p| <= |s| && (s[..|p|] == p || Contains(s[1..], p))
  }

  /** p occurs in s starting at position i. */
  predicate OccursAt(s: string, p: string, i: int)
  {
    0 <= i && i + |p| <= |s| && s[i..i + |p|] == p
  }

  /** Contains agrees with a search over every start position (std::string::find). */
  lemma {:induction false} ContainsIff(s: string, p: string)
    ensures Contains(s, p) <==> exists i :: OccursAt(s, p, i)
  {
    if |p| <= |s| {
      if s[..|p|] == p {
        assert OccursAt(s, p, 0);
      } else {
        ContainsIff(s[1..], p);
        if exists i :: OccursAt(s, p, i) {
          var i :| OccursAt(s, p, i);
          assert i != 0;
          assert s[1..][i - 1..i - 1 + |p|] == s[i..i + |p|];
          assert OccursAt(s[1..], p, i - 1);
        }
        if exists k :: OccursAt(s[1..], p, k) {
          var k :| OccursAt(s[1..], p, k);
          assert s[k + 1..k + 1 + |p|] == s[1..][k..k + |p|];
          assert OccursAt(s, p, k + 1);
        }
      }
    }
  }

  const REQUIRED_MARKER: string := "[required=true]"

  /** A field carries the required marker when its trailing comment contains "[required=true]". */
  predicate HasRequiredTag(f: Field)
  {
    f.trailingComment.Some? && Contains(f.trailingComment.value, REQUIRED_MARKER)
  }

  /** Field numbers are positive and distinct within a message. */
  predicate DistinctNumbers(fields: seq<Field>)
  {
    (forall i :: 0 <= i < |fields| ==> fields[i].number >= 1) &&
    (forall i, j :: 0 <= i < j < |fields| ==> fields[i].number != fields[j].number)
  }

  /** What a valid descriptor guarantees about one field of a file with `count` message types. */
  predicate ValidField(f: Field, count: nat)
  {
    (IsMessageField(f) ==> f.msgType < count) &&
    (f.packed ==> IsRepeated(f) && IsScalarType(f.kind))
  }

  predicate ValidMessage(m: MessageType, count: nat)
  {
    DistinctNumbers(m.fields) &&
    forall i :: 0 <= i < |m.fields| ==> ValidField(m.fields[i], count)
  }

  /**
   * Every message type reachable from the file being generated, those of
   * imported files included, every message-typed field pointing into the list.
   */
  predicate ValidTypes(types: seq<MessageType>)
  {
    forall t :: 0 <= t < |types| ==> ValidMessage(types[t], |types|)
  }
}
