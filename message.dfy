/**
 * The message generator's decisions: the file-scope identifier, the checks
 * isInitialized makes, the tag switch of the parsing method, the steps of
 * mergeFrom and partiallyMergeFrom, and the four passes that interleave
 * fields with extension ranges plus the serializedSize pass. Emitted code is
 * an abstract sequence of fragments; what a fragment does to a message is
 * given by Records.
 */
module MessageGen {
  import opened Wrappers
  import opened Wire
  import opened Schema
  import opened Ordering
  import opened Interleave
  import opened Required
  import opened Records

  // ---------------------------------------------------------------------------
  // UniqueFileScopeIdentifier

  /** StringReplace(name, ".", "_", true): every dot becomes an underscore. */
  function ReplaceDots(s: string): (r: string)
    ensures |r| == |s|
    ensures forall i :: 0 <= i < |s| ==> r[i] == (if s[i] == '.' then '_' else s[i])
  {
    if |s| == 0 then [] else [if s[0] == '.' then '_' else s[0]] + ReplaceDots(s[1..])
  }

  /** "static_" followed by the full name with its dots replaced: no dot survives. */
  function UniqueFileScopeIdentifier(fullName: string): (id: string)
    ensures |id| == 7 + |fullName| && id[..7] == "static_"
    ensures id[7..] == ReplaceDots(fullName)
    ensures '.' !in id
  {
    "static_" + ReplaceDots(fullName)
  }

  /**
   * Two full names that may live in one file (a top-level "A_B" and a type
   * "B" nested in "A") get the same identifier.
   */
  lemma IdentifierCollision()
    ensures "pkg.A_B" != "pkg.A.B"
    ensures UniqueFileScopeIdentifier("pkg.A_B") == UniqueFileScopeIdentifier("pkg.A.B")
  {
    assert "pkg.A_B"[5] != "pkg.A.B"[5];
    assert ReplaceDots("pkg.A_B") == "pkg_A_B";
    assert ReplaceDots("pkg.A.B") == "pkg_A_B";
  }

  /** An escape in which no character's code is a prefix of another's: '_' as "_1", '.' as "_0". */
  function EscapeChar(c: char): (r: string)
    ensures |r| >= 1 && '.' !in r
    ensures (c == '_' || c == '.') <==> r[0] == '_'
  {
    if c == '_' then "_1" else if c == '.' then "_0" else [c]
  }

  function Escape(s: string): (r: string)
    ensures '.' !in r
    ensures |s| == 0 <==> |r| == 0
  {
    if |s| == 0 then [] else EscapeChar(s[0]) + Escape(s[1..])
  }

  /** The identifier with the separator escaped, which keeps distinct names apart. */
  function EscapedFileScopeIdentifier(fullName: string): (id: string)
    ensures |id| >= 7 && id[..7] == "static_" && '.' !in id
  {
    "static_" + Escape(fullName)
  }

  lemma {:induction false} EscapeInjective(s: string, t: string)
    requires Escape(s) == Escape(t)
    ensures s == t
  {
    if |s| > 0 {
      var a, b := EscapeChar(s[0]), EscapeChar(t[0]);
      assert Escape(s) == a + Escape(s[1..]) && Escape(t) == b + Escape(t[1..]);
      assert Escape(s)[0] == a[0] && Escape(t)[0] == b[0];
      if a[0] == '_' {
        assert Escape(s)[1] == a[1] && Escape(t)[1] == b[1];
      }
      assert s[0] == t[0];
      assert Escape(s)[|a|..] == Escape(s[1..]) && Escape(t)[|a|..] == Escape(t[1..]);
      EscapeInjective(s[1..], t[1..]);
      assert s == [s[0]] + s[1..] && t == [t[0]] + t[1..];
    }
  }

  /** Distinct full names get distinct escaped identifiers. */
  lemma EscapedIdentifierUnique(a: string, b: string)
    requires a != b
    ensures EscapedFileScopeIdentifier(a) != EscapedFileScopeIdentifier(b)
  {
    if EscapedFileScopeIdentifier(a) == EscapedFileScopeIdentifier(b) {
      assert EscapedFileScopeIdentifier(a)[7..] == Escape(a);
      assert EscapedFileScopeIdentifier(b)[7..] == Escape(b);
      EscapeInjective(a, b);
    }
  }

  // ---------------------------------------------------------------------------
  // isInitialized

  datatype InitCheck =
    | HasCheck(field: Field)          // the has-flag must be set
    | NonNilCheck(field: Field)       // the list must not be nil
    | SubCheck(field: Field)          // the nested message must be initialized
    | GuardedSubCheck(field: Field)   // if the has-flag is set, the nested message must be initialized
    | EachElementCheck(field: Field)  // every element of the list must be initialized
    | ExtensionsCheck                 // the extensions must be initialized

  /** The first pass for one field: the required check, or GenerateRequiredFieldCheckSourceIfNeeded. */
  function RequiredFieldCheck(f: Field): seq<InitCheck>
  {
    if f.occurrence == Required then [HasCheck(f)]
    else if !HasRequiredTag(f) then []
    else match f.occurrence
      case Required => []
      case Optional => [HasCheck(f)]
      case Repeated => [NonNilCheck(f)]
  }

  /** The second pass for one field: a nested check when its type (transitively) needs one. */
  ghost function EmbeddedCheck(types: seq<MessageType>, f: Field): seq<InitCheck>
  {
    if !(IsMessageField(f) && RequiresInit(types, f.msgType)) then []
    else match f.occurrence
      case Required => [SubCheck(f)]
      case Optional => if HasRequiredTag(f) then [SubCheck(f)] else [GuardedSubCheck(f)]
      case Repeated => [EachElementCheck(f)]
  }

  /** The checks one pass makes over fs, in declaration order. */
  function Concat(fs: seq<Field>, check: Field -> seq<InitCheck>): seq<InitCheck>
  {
    if |fs| == 0 then [] else Concat(fs[..|fs| - 1], check) + check(fs[|fs| - 1])
  }

  function FirstPass(fs: seq<Field>): seq<InitCheck>
  {
    Concat(fs, RequiredFieldCheck)
  }

  /** EmbeddedCheck for the message types at hand, as a per-field pass. */
  ghost function EmbeddedChecks(types: seq<MessageType>): Field -> seq<InitCheck>
  {
    f => EmbeddedCheck(types, f)
  }

  ghost function SecondPass(types: seq<MessageType>, fs: seq<Field>): seq<InitCheck>
  {
    Concat(fs, EmbeddedChecks(types))
  }

  /** Every check isInitialized makes for type t, in order. */
  ghost function InitChecks(types: seq<MessageType>, t: nat): seq<InitCheck>
    requires t < |types|
  {
    FirstPass(types[t].fields) + SecondPass(types, types[t].fields) +
    (if |types[t].ranges| > 0 then [ExtensionsCheck] else [])
  }

  /** The first pass: GenerateRequiredFieldCheckSourceIfNeeded for each field. */
  method RequiredFieldChecks(fs: seq<Field>) returns (checks: seq<InitCheck>)
    ensures checks == FirstPass(fs)
  {
    checks := [];
    var i := 0;
    while i < |fs|
      invariant 0 <= i <= |fs|
      invariant checks == Concat(fs[..i], RequiredFieldCheck)
    {
      var f := fs[i];
      assert fs[..i + 1][..i] == fs[..i];
      if f.occurrence == Required {
        checks := checks + [HasCheck(f)];
      } else if HasRequiredTag(f) {
        if f.occurrence == Optional {
          checks := checks + [HasCheck(f)];
        } else {
          checks := checks + [NonNilCheck(f)];
        }
      }
      i := i + 1;
    }
    assert fs[..i] == fs;
  }

  /** The check for one message field whose type HasRequiredFields reports on. */
  method EmbeddedFieldCheck(types: seq<MessageType>, f: Field) returns (checks: seq<InitCheck>)
    requires ValidTypes(types) && (IsMessageField(f) ==> f.msgType < |types|)
    ensures checks == EmbeddedCheck(types, f)
  {
    checks := [];
    if IsMessageField(f) {
      var needed := HasRequiredFields(types, f.msgType);
      if needed {
        if f.occurrence == Required || (f.occurrence == Optional && HasRequiredTag(f)) {
          checks := [SubCheck(f)];
        } else if f.occurrence == Optional {
          checks := [GuardedSubCheck(f)];
        } else {
          checks := [EachElementCheck(f)];
        }
      }
    }
  }

  /** GenerateIsInitializedSource: two passes over the fields in declaration order, then extensions. */
  method GenerateIsInitialized(types: seq<MessageType>, t: nat) returns (checks: seq<InitCheck>)
    requires ValidTypes(types) && t < |types|
    ensures checks == InitChecks(types, t)
  {
    var fs := types[t].fields;
    checks := RequiredFieldChecks(fs);
    ghost var first := checks;
    var i := 0;
    while i < |fs|
      invariant 0 <= i <= |fs|
      invariant checks == first + Concat(fs[..i], EmbeddedChecks(types))
    {
      var f := fs[i];
      assert ValidField(f, |types|);
      ConcatStep(fs, i, EmbeddedChecks(types));
      var c := EmbeddedFieldCheck(types, f);
      AppendTwice(first, Concat(fs[..i], EmbeddedChecks(types)), c);
      checks := checks + c;
      i := i + 1;
    }
    assert fs[..i] == fs;
    if |types[t].ranges| > 0 {
      checks := checks + [ExtensionsCheck];
    }
  }

  /** One more field adds that field's checks at the end. */
  lemma ConcatStep(fs: seq<Field>, i: nat, check: Field -> seq<InitCheck>)
    requires i < |fs|
    ensures Concat(fs[..i + 1], check) == Concat(fs[..i], check) + check(fs[i])
  {
    assert fs[..i + 1][..i] == fs[..i];
  }

  /** A pass whose every field contributes nothing emits nothing. */
  lemma {:induction false} ConcatNone(fs: seq<Field>, check: Field -> seq<InitCheck>)
    requires forall k :: 0 <= k < |fs| ==> check(fs[k]) == []
    ensures Concat(fs, check) == []
  {
    if |fs| > 0 {
      ConcatNone(fs[..|fs| - 1], check);
    }
  }

  lemma {:induction false} ConcatMembers(fs: seq<Field>, check: Field -> seq<InitCheck>, x: InitCheck)
    ensures x in Concat(fs, check) <==> exists k :: 0 <= k < |fs| && x in check(fs[k])
  {
    if |fs| > 0 {
      var init := fs[..|fs| - 1];
      ConcatMembers(init, check, x);
      assert forall k :: 0 <= k < |init| ==> init[k] == fs[k];
      if x in check(fs[|fs| - 1]) {
      } else if exists k :: 0 <= k < |fs| && x in check(fs[k]) {
        var k :| 0 <= k < |fs| && x in check(fs[k]);
        assert k < |init|;
        assert x in check(init[k]);
      }
    }
  }

  /**
   * Which checks isInitialized makes for a field f of type t: a has-check for
   * a required or a tagged optional field, a non-nil check for a tagged
   * repeated field, and, for a message field whose type needs checking, a
   * nested check that is unconditional (required or tagged optional),
   * guarded by the has-flag (plain optional) or per element (repeated).
   */
  lemma InitCheckRules(types: seq<MessageType>, t: nat, f: Field)
    requires t < |types| && f in types[t].fields
    ensures HasCheck(f) in InitChecks(types, t) <==>
              f.occurrence == Required || (f.occurrence == Optional && HasRequiredTag(f))
    ensures NonNilCheck(f) in InitChecks(types, t) <==> f.occurrence == Repeated && HasRequiredTag(f)
    ensures SubCheck(f) in InitChecks(types, t) <==>
              IsMessageField(f) && RequiresInit(types, f.msgType) &&
              (f.occurrence == Required || (f.occurrence == Optional && HasRequiredTag(f)))
    ensures GuardedSubCheck(f) in InitChecks(types, t) <==>
              IsMessageField(f) && RequiresInit(types, f.msgType) && f.occurrence == Optional && !HasRequiredTag(f)
    ensures EachElementCheck(f) in InitChecks(types, t) <==>
              IsMessageField(f) && RequiresInit(types, f.msgType) && f.occurrence == Repeated
  {
    CheckForField(types, t, f, HasCheck(f));
    CheckForField(types, t, f, NonNilCheck(f));
    CheckForField(types, t, f, SubCheck(f));
    CheckForField(types, t, f, GuardedSubCheck(f));
    CheckForField(types, t, f, EachElementCheck(f));
  }

  /** A check about field f is made exactly when one of f's own two passes makes it. */
  lemma CheckForField(types: seq<MessageType>, t: nat, f: Field, x: InitCheck)
    requires t < |types| && f in types[t].fields && !x.ExtensionsCheck? && x.field == f
    ensures x in InitChecks(types, t) <==> x in RequiredFieldCheck(f) || x in EmbeddedCheck(types, f)
  {
    var fs := types[t].fields;
    assert x in InitChecks(types, t) <==> x in FirstPass(fs) || x in SecondPass(types, fs);
    FirstPassFor(fs, f, x);
    SecondPassFor(types, fs, f, x);
  }

  /** A first-pass check about f is one RequiredFieldCheck(f) makes. */
  lemma FirstPassFor(fs: seq<Field>, f: Field, x: InitCheck)
    requires f in fs && !x.ExtensionsCheck? && x.field == f
    ensures x in FirstPass(fs) <==> x in RequiredFieldCheck(f)
  {
    ConcatMembers(fs, RequiredFieldCheck, x);
    var k :| 0 <= k < |fs| && fs[k] == f;
    if x in FirstPass(fs) {
      var j :| 0 <= j < |fs| && x in RequiredFieldCheck(fs[j]);
      assert x.field == fs[j];
    }
  }

  /** A second-pass check about f is one EmbeddedCheck(types, f) makes. */
  lemma SecondPassFor(types: seq<MessageType>, fs: seq<Field>, f: Field, x: InitCheck)
    requires f in fs && !x.ExtensionsCheck? && x.field == f
    ensures x in SecondPass(types, fs) <==> x in EmbeddedCheck(types, f)
  {
    var second := EmbeddedChecks(types);
    ConcatMembers(fs, second, x);
    var k :| 0 <= k < |fs| && fs[k] == f;
    assert second(fs[k]) == EmbeddedCheck(types, f);
    if x in SecondPass(types, fs) {
      var j :| 0 <= j < |fs| && x in second(fs[j]);
      EmbeddedCheckNamesField(types, fs[j], x);
    }
  }

  /** Every nested check is about the field it was made for. */
  lemma EmbeddedCheckNamesField(types: seq<MessageType>, g: Field, x: InitCheck)
    requires x in EmbeddedCheck(types, g)
    ensures !x.ExtensionsCheck? && x.field == g
  {
  }

  /** The extensions check is made exactly when the type has ranges, and it comes last. */
  lemma ExtensionsCheckLast(types: seq<MessageType>, t: nat)
    requires t < |types|
    ensures ExtensionsCheck in InitChecks(types, t) <==> |types[t].ranges| > 0
    ensures |types[t].ranges| > 0 ==> InitChecks(types, t)[|InitChecks(types, t)| - 1] == ExtensionsCheck
  {
    var fs := types[t].fields;
    ConcatMembers(fs, RequiredFieldCheck, ExtensionsCheck);
    ConcatMembers(fs, EmbeddedChecks(types), ExtensionsCheck);
  }

  // ---------------------------------------------------------------------------
  // The parsing switch

  /** `case tag:` followed by the field's parsing code. */
  datatype SwitchCase = SwitchCase(tag: nat, field: Field)

  /** The label of a field's case: the tag its (packed or unpacked) encoding starts with. */
  function CaseTag(f: Field): nat
  {
    MakeTag(f.number, WireTypeForField(f.kind, f.packed))
  }

  /** What the switch emitted by GenerateBuilderParsingMethodsSource is, for message type m. */
  predicate SwitchFor(m: MessageType, cases: seq<SwitchCase>, sorted: seq<Field>)
  {
    |cases| == |sorted| &&
    multiset(sorted) == multiset(m.fields) &&
    (forall k :: 0 <= k < |cases| ==> cases[k] == SwitchCase(CaseTag(sorted[k]), sorted[k])) &&
    (forall p, q :: 0 <= p < q < |sorted| ==> sorted[p].number <= sorted[q].number)
  }

  /** One case per field, in ascending field-number order; distinct numbers give distinct labels. */
  method GenerateParsingSwitch(m: MessageType) returns (cases: seq<SwitchCase>, ghost sorted: seq<Field>)
    ensures SwitchFor(m, cases, sorted)
    ensures forall p, q :: 0 <= p < |cases| && 0 <= q < |cases| && cases[p].field.number != cases[q].field.number ==>
              cases[p].tag != cases[q].tag
    ensures DistinctNumbers(m.fields) ==> forall p, q :: 0 <= p < q < |cases| ==> cases[p].tag != cases[q].tag
  {
    var fs := SortFieldsByNumber(m);
    sorted := fs;
    cases := [];
    var i := 0;
    while i < |fs|
      invariant 0 <= i <= |fs| && |cases| == i
      invariant forall k :: 0 <= k < i ==> cases[k] == SwitchCase(CaseTag(fs[k]), fs[k])
    {
      var f := fs[i];
      var tag := MakeTag(f.number, WireTypeForField(f.kind, f.packed));
      cases := cases + [SwitchCase(tag, f)];
      i := i + 1;
    }
    forall p, q | 0 <= p < |cases| && 0 <= q < |cases|
      ensures cases[p].field.number != cases[q].field.number ==> cases[p].tag != cases[q].tag
    {
      var a, b := cases[p].field, cases[q].field;
      MakeTagInjective(a.number, WireTypeForField(a.kind, a.packed), b.number, WireTypeForField(b.kind, b.packed));
    }
    if DistinctNumbers(m.fields) {
      NumbersAreDistinctKeys(m.fields);
      PermutationKeepsDistinctKeys(m.fields, fs, NumberKey);
      forall p, q | 0 <= p < q < |cases|
        ensures cases[p].tag != cases[q].tag
      {
        assert NumberKey(fs[p]) != NumberKey(fs[q]);
      }
    }
  }

  /** What the loop does with one tag read from the stream. */
  datatype Action =
    | Finish                            // case 0: install the unknown fields and return
    | ParseField(field: Field)          // the field's case
    | SkipUnknown(continues: bool)      // default: parseUnknownField; return unless it went on

  /** The first case labelled tag. */
  function FindCase(cases: seq<SwitchCase>, tag: nat): (r: Option<SwitchCase>)
    ensures r.Some? ==> r.value in cases && r.value.tag == tag
    ensures r.None? <==> forall k :: 0 <= k < |cases| ==> cases[k].tag != tag
  {
    if |cases| == 0 then None
    else if cases[0].tag == tag then Some(cases[0])
    else FindCase(cases[1..], tag)
  }

  /**
   * The switch on a tag: 0 ends the message; a case label runs that field's
   * code; anything else goes to parseUnknownField, which reports an end-group
   * tag by returning NO, and then the method returns too.
   */
  function Dispatch(cases: seq<SwitchCase>, tag: nat): (a: Action)
    ensures tag == 0 ==> a == Finish
    ensures a.ParseField? ==> exists k :: 0 <= k < |cases| && cases[k] == SwitchCase(tag, a.field)
    ensures tag != 0 && (forall k :: 0 <= k < |cases| ==> cases[k].tag != tag) ==>
              a == SkipUnknown(TagWireType(tag) != Some(EndGroup))
  {
    if tag == 0 then Finish
    else match FindCase(cases, tag)
      case Some(c) => ParseField(c.field)
      case None => SkipUnknown(TagWireType(tag) != Some(EndGroup))
  }

  /** In a message with distinct field numbers, every field's own tag reaches that field's code. */
  lemma DispatchFindsField(m: MessageType, cases: seq<SwitchCase>, sorted: seq<Field>, f: Field)
    requires SwitchFor(m, cases, sorted) && DistinctNumbers(m.fields) && f in m.fields
    ensures Dispatch(cases, CaseTag(f)) == ParseField(f)
  {
    assert CaseTag(f) >= 8;
    var a := Dispatch(cases, CaseTag(f));
    assert f in multiset(sorted) by {
      assert f in multiset(m.fields);
    }
    var i :| 0 <= i < |sorted| && sorted[i] == f;
    assert cases[i].tag == CaseTag(f);
    assert a.ParseField?;
    var k :| 0 <= k < |cases| && cases[k] == SwitchCase(CaseTag(f), a.field);
    var g := sorted[k];
    MakeTagInjective(g.number, WireTypeForField(g.kind, g.packed), f.number, WireTypeForField(f.kind, f.packed));
    assert g in multiset(m.fields) by {
      assert g in multiset(sorted);
    }
    var p :| 0 <= p < |m.fields| && m.fields[p] == g;
    var q :| 0 <= q < |m.fields| && m.fields[q] == f;
    assert p == q;
  }

  /** A tag whose field number belongs to no field is always unknown. */
  lemma DispatchUnknownNumber(m: MessageType, cases: seq<SwitchCase>, sorted: seq<Field>, tag: nat)
    requires SwitchFor(m, cases, sorted) && tag != 0
    requires forall k :: 0 <= k < |m.fields| ==> m.fields[k].number != TagFieldNumber(tag)
    ensures Dispatch(cases, tag) == SkipUnknown(TagWireType(tag) != Some(EndGroup))
  {
    forall k | 0 <= k < |cases|
      ensures cases[k].tag != tag
    {
      var g := sorted[k];
      assert g in multiset(m.fields) by {
        assert g in multiset(sorted);
      }
    }
  }

  /**
   * A packed field has only the length-delimited case, so its elements sent
   * unpacked (each under the element type's own tag) go to the unknown fields.
   */
  lemma PackedFieldUnpackedTag(types: seq<MessageType>, t: nat, cases: seq<SwitchCase>, sorted: seq<Field>, f: Field)
    requires ValidTypes(types) && t < |types| && SwitchFor(types[t], cases, sorted)
    requires f in types[t].fields && f.packed
    ensures Dispatch(cases, MakeTag(f.number, WireTypeForType(f.kind))) == SkipUnknown(true)
  {
    var m := types[t];
    assert ValidMessage(m, |types|);
    assert ValidField(f, |types|);
    NoCaseForUnpackedTag(m, cases, sorted, f);
  }

  /** No case of the switch is labelled with a packed field's unpacked element tag. */
  lemma NoCaseForUnpackedTag(m: MessageType, cases: seq<SwitchCase>, sorted: seq<Field>, f: Field)
    requires DistinctNumbers(m.fields) && SwitchFor(m, cases, sorted)
    requires f in m.fields && f.packed && IsScalarType(f.kind)
    ensures forall k :: 0 <= k < |cases| ==> cases[k].tag != MakeTag(f.number, WireTypeForType(f.kind))
  {
    forall k | 0 <= k < |cases|
      ensures cases[k].tag != MakeTag(f.number, WireTypeForType(f.kind))
    {
      var g := sorted[k];
      MakeTagInjective(g.number, WireTypeForField(g.kind, g.packed), f.number, WireTypeForType(f.kind));
      if g.number == f.number {
        SameNumberSameField(m, sorted, k, f);
      }
    }
  }

  /** In an ordering of a message's fields, a field with f's number is f. */
  lemma SameNumberSameField(m: MessageType, sorted: seq<Field>, k: nat, f: Field)
    requires DistinctNumbers(m.fields) && multiset(sorted) == multiset(m.fields)
    requires k < |sorted| && f in m.fields && sorted[k].number == f.number
    ensures sorted[k] == f
  {
    var g := sorted[k];
    assert g in multiset(m.fields) by {
      assert g in multiset(sorted);
    }
    var p :| 0 <= p < |m.fields| && m.fields[p] == g;
    var q :| 0 <= q < |m.fields| && m.fields[q] == f;
    assert p == q;
  }

  // ---------------------------------------------------------------------------
  // mergeFrom

  /** A statement of the emitted mergeFrom. */
  datatype MergeStep =
    | ReturnIfDefaultInstance
    | MergeFieldCode(field: Field)
    | MergeExtensionFields
    | MergeUnknownFields

  function FieldSteps(fs: seq<Field>): (steps: seq<MergeStep>)
    ensures |steps| == |fs|
    ensures forall k :: 0 <= k < |fs| ==> steps[k] == MergeFieldCode(fs[k])
  {
    if |fs| == 0 then [] else FieldSteps(fs[..|fs| - 1]) + [MergeFieldCode(fs[|fs| - 1])]
  }

  /**
   * GenerateCommonBuilderMethodsSource's mergeFrom: the default-instance
   * test, each field's merging code in declaration order, mergeExtensionFields
   * when the type has ranges, and mergeUnknownFields last.
   */
  method GenerateMergeFrom(m: MessageType) returns (steps: seq<MergeStep>)
    ensures steps == [ReturnIfDefaultInstance] + FieldSteps(m.fields) +
                     (if |m.ranges| > 0 then [MergeExtensionFields] else []) + [MergeUnknownFields]
  {
    steps := [ReturnIfDefaultInstance];
    var i := 0;
    while i < |m.fields|
      invariant 0 <= i <= |m.fields|
      invariant steps == [ReturnIfDefaultInstance] + FieldSteps(m.fields[..i])
    {
      assert m.fields[..i + 1][..i] == m.fields[..i];
      steps := steps + [MergeFieldCode(m.fields[i])];
      i := i + 1;
    }
    assert m.fields[..i] == m.fields;
    if |m.ranges| > 0 {
      steps := steps + [MergeExtensionFields];
    }
    steps := steps + [MergeUnknownFields];
  }

  /** What one statement does to the builder's record, other's contents being o. */
  function RunStep(types: seq<MessageType>, step: MergeStep, self: Record, o: Record): Record
  {
    match step
    case ReturnIfDefaultInstance => self
    case MergeFieldCode(f) => MergeField(types, f, self, o)
    case MergeExtensionFields => self.(extensions := self.extensions + o.extensions)
    case MergeUnknownFields => self.(unknown := self.unknown + o.unknown)
  }

  function RunSteps(types: seq<MessageType>, steps: seq<MergeStep>, self: Record, o: Record): Record
  {
    if |steps| == 0 then self else RunSteps(types, steps[1..], RunStep(types, steps[0], self, o), o)
  }

  /** The emitted mergeFrom run against other: the leading test returns at once for the default instance. */
  function RunMergeFrom(types: seq<MessageType>, steps: seq<MergeStep>, self: Record, other: Value): Record
  {
    if |steps| > 0 && steps[0] == ReturnIfDefaultInstance && !other.Sub? then self
    else RunSteps(types, steps, self, if other.Sub? then other.msg else EmptyRecord)
  }

  lemma {:induction false} RunStepsAppend(types: seq<MessageType>, a: seq<MergeStep>, b: seq<MergeStep>, self: Record, o: Record)
    ensures RunSteps(types, a + b, self, o) == RunSteps(types, b, RunSteps(types, a, self, o), o)
  {
    if |a| > 0 {
      assert (a + b)[0] == a[0] && (a + b)[1..] == a[1..] + b;
      RunStepsAppend(types, a[1..], b, RunStep(types, a[0], self, o), o);
    } else {
      assert a + b == b;
    }
  }

  lemma {:induction false} MergeFieldsSnoc(types: seq<MessageType>, fs: seq<Field>, f: Field, self: Record, o: Record)
    ensures MergeFields(types, fs + [f], self, o) == MergeField(types, f, MergeFields(types, fs, self, o), o)
  {
    if |fs| > 0 {
      assert (fs + [f])[0] == fs[0] && (fs + [f])[1..] == fs[1..] + [f];
      MergeFieldsSnoc(types, fs[1..], f, MergeField(types, fs[0], self, o), o);
    } else {
      assert (fs + [f])[1..] == [];
    }
  }

  lemma {:induction false} FieldStepsMeaning(types: seq<MessageType>, fs: seq<Field>, self: Record, o: Record)
    ensures RunSteps(types, FieldSteps(fs), self, o) == MergeFields(types, fs, self, o)
  {
    if |fs| > 0 {
      var init, last := fs[..|fs| - 1], fs[|fs| - 1];
      FieldStepsMeaning(types, init, self, o);
      RunStepsAppend(types, FieldSteps(init), [MergeFieldCode(last)], self, o);
      assert init + [last] == fs;
      MergeFieldsSnoc(types, init, last, self, o);
    }
  }

  /** The emitted mergeFrom does what mergeFrom means: nothing for the default instance, MergeRecord otherwise. */
  lemma EmittedMergeFromMeaning(types: seq<MessageType>, m: MessageType, self: Record, other: Value)
    ensures RunMergeFrom(types, [ReturnIfDefaultInstance] + FieldSteps(m.fields) +
                                (if |m.ranges| > 0 then [MergeExtensionFields] else []) + [MergeUnknownFields],
                         self, other) == MergeFrom(types, m, self, other)
  {
    var ext: seq<MergeStep> := if |m.ranges| > 0 then [MergeExtensionFields] else [];
    var steps := [ReturnIfDefaultInstance] + FieldSteps(m.fields) + ext + [MergeUnknownFields];
    if other.Sub? {
      var o := other.msg;
      RunStepsAppend(types, [ReturnIfDefaultInstance] + FieldSteps(m.fields) + ext, [MergeUnknownFields], self, o);
      RunStepsAppend(types, [ReturnIfDefaultInstance] + FieldSteps(m.fields), ext, self, o);
      RunStepsAppend(types, [ReturnIfDefaultInstance], FieldSteps(m.fields), self, o);
      FieldStepsMeaning(types, m.fields, self, o);
    }
  }

  // ---------------------------------------------------------------------------
  // partiallyMergeFrom

  /**
   * One field's code in partiallyMergeFrom, when fieldIDs holds its number: a
   * repeated field takes other's list (or is cleared when that is nil), a
   * singular one takes other's value (or is cleared when other lacks it).
   * Extensions and unknown fields are left as they are.
   */
  function PartiallyMergeField(f: Field, self: Record, other: Record, fieldIDs: set<nat>): (r: Record)
    ensures r.extensions == self.extensions && r.unknown == self.unknown
  {
    if f.number !in fieldIDs then self
    else if IsRepeated(f) then
      match List(other, f)
      case Some(vs) => SetArray(self, f, vs)
      case None => ClearList(self, f)
    else if f.number in other.has then SetValue(self, f, Get(other, f))
    else ClearValue(self, f)
  }

  function PartiallyMergeFields(fs: seq<Field>, self: Record, other: Record, fieldIDs: set<nat>): (r: Record)
    ensures r.extensions == self.extensions && r.unknown == self.unknown
  {
    if |fs| == 0 then self else PartiallyMergeFields(fs[1..], PartiallyMergeField(fs[0], self, other, fieldIDs), other, fieldIDs)
  }

  /**
   * GenerateBuilderPartiallyMergeMethodSource: the fields in ascending number
   * order, each guarded by the fieldIDs test (None when the class has no such method).
   */
  method GeneratePartiallyMerge(m: MessageType, enabled: bool) returns (code: Option<seq<Field>>)
    ensures enabled <==> code.Some?
    ensures code.Some? ==> multiset(code.value) == multiset(m.fields) && SortedBy(code.value, NumberKey)
  {
    if !enabled {
      return None;
    }
    var fs := SortFieldsByNumber(m);
    assert SortedBy(fs, NumberKey) by {
      forall i, j | 0 <= i < j < |fs|
        ensures NumberKey(fs[i]) <= NumberKey(fs[j])
      {
        assert !ByNumber(fs[j], fs[i]);
      }
    }
    code := Some(fs);
  }

  lemma PartiallyMergeFieldFrame(f: Field, g: Field, self: Record, other: Record, fieldIDs: set<nat>)
    requires g.number != f.number
    ensures FieldState(PartiallyMergeField(f, self, other, fieldIDs), g) == FieldState(self, g)
  {
    var s := PartiallyMergeField(f, self, other, fieldIDs);
    if f.number in fieldIDs {
      if IsRepeated(f) {
        assert s.has == self.has && s.values == self.values;
        assert List(s, g) == List(self, g);
      } else {
        assert s.lists == self.lists;
        assert Get(s, g) == Get(self, g);
      }
    }
  }

  lemma {:induction false} PartiallyMergeFieldsFrame(fs: seq<Field>, g: Field, self: Record, other: Record, fieldIDs: set<nat>)
    requires forall k :: 0 <= k < |fs| ==> fs[k].number != g.number
    ensures FieldState(PartiallyMergeFields(fs, self, other, fieldIDs), g) == FieldState(self, g)
    ensures PartiallyMergeFields(fs, self, other, fieldIDs).extensions == self.extensions
    ensures PartiallyMergeFields(fs, self, other, fieldIDs).unknown == self.unknown
  {
    if |fs| > 0 {
      PartiallyMergeFieldFrame(fs[0], g, self, other, fieldIDs);
      PartiallyMergeFieldsFrame(fs[1..], g, PartiallyMergeField(fs[0], self, other, fieldIDs), other, fieldIDs);
    }
  }

  /** What partiallyMergeFrom leaves in a field whose number is in fieldIDs. */
  predicate CopiedFrom(f: Field, r: Record, other: Record)
  {
    if IsRepeated(f) then List(r, f) == List(other, f)
    else (f.number in r.has <==> f.number in other.has) &&
         Get(r, f) == (if f.number in other.has then Get(other, f) else DefaultValue(f))
  }

  /**
   * With distinct field numbers, partiallyMergeFrom copies exactly the listed
   * fields from other (clearing those other lacks) and leaves the rest alone.
   */
  lemma {:induction false} PartiallyMergeCopies(fs: seq<Field>, k: nat, self: Record, other: Record, fieldIDs: set<nat>)
    requires DistinctKeys(fs, NumberKey) && k < |fs|
    ensures fs[k].number in fieldIDs ==> CopiedFrom(fs[k], PartiallyMergeFields(fs, self, other, fieldIDs), other)
    ensures fs[k].number !in fieldIDs ==> FieldState(PartiallyMergeFields(fs, self, other, fieldIDs), fs[k]) == FieldState(self, fs[k])
  {
    var next := PartiallyMergeField(fs[0], self, other, fieldIDs);
    assert forall p :: 0 <= p < |fs[1..]| ==> fs[1..][p] == fs[p + 1];
    if k == 0 {
      PartiallyMergeFieldsFrame(fs[1..], fs[0], next, other, fieldIDs);
    } else {
      assert fs[1..][k - 1] == fs[k];
      PartiallyMergeCopies(fs[1..], k - 1, next, other, fieldIDs);
      PartiallyMergeFieldFrame(fs[0], fs[k], self, other, fieldIDs);
    }
  }

  // ---------------------------------------------------------------------------
  // The four merged passes and serializedSize

  /**
   * One of GenerateMessageSerializationMethodsSource (serialize),
   * GenerateMessageDescriptionSource, GenerateMessageIsEqualSource and
   * GenerateMessageHashSource: sort the fields by number, sort the extension
   * ranges by start, then run the merge loop.
   */
  method GeneratePass(pass: Pass, m: MessageType) returns (code: seq<Visit>, ghost fs: seq<Field>, ghost rs: seq<ExtensionRange>)
    ensures multiset(fs) == multiset(m.fields) && SortedBy(fs, NumberKey)
    ensures multiset(rs) == multiset(m.ranges) && SortedBy(rs, StartKey)
    ensures SlotsInBounds(Schedule(fs, rs, 0, 0), |fs|, |rs|)
    ensures code == Render(pass, fs, rs, Schedule(fs, rs, 0, 0))
    ensures VisitedFields(code) == fs && VisitedRanges(code) == rs
    ensures multiset(VisitedFields(code)) == multiset(m.fields) && SortedBy(VisitedFields(code), NumberKey)
    ensures multiset(VisitedRanges(code)) == multiset(m.ranges) && SortedBy(VisitedRanges(code), StartKey)
  {
    var sortedFields := SortFieldsByNumber(m);
    var sortedRanges := SortExtensionRanges(m);
    fs, rs := sortedFields, sortedRanges;
    assert SortedBy(fs, NumberKey) by {
      forall i, j | 0 <= i < j < |fs|
        ensures NumberKey(fs[i]) <= NumberKey(fs[j])
      {
        assert !ByNumber(fs[j], fs[i]);
      }
    }
    assert SortedBy(rs, StartKey) by {
      forall i, j | 0 <= i < j < |rs|
        ensures StartKey(rs[i]) <= StartKey(rs[j])
      {
        assert !RangeBefore(rs[j], rs[i]);
      }
    }
    code := EmitPass(pass, sortedFields, sortedRanges);
    PassVisitsEverythingOnce(pass, fs, rs);
  }

  /** Extension ranges of a valid message do not overlap, so their starts are distinct. */
  predicate DistinctStarts(rs: seq<ExtensionRange>)
  {
    DistinctKeys(rs, StartKey)
  }

  /**
   * The passes visit fields and ranges in one and the same order: whatever
   * two passes the sorts fed, with distinct numbers and starts the sorted
   * lists agree, and so do the schedules.
   */
  lemma PassesVisitSameOrder(m: MessageType, fs1: seq<Field>, rs1: seq<ExtensionRange>,
                             fs2: seq<Field>, rs2: seq<ExtensionRange>, p1: Pass, p2: Pass)
    requires DistinctNumbers(m.fields) && DistinctStarts(m.ranges)
    requires multiset(fs1) == multiset(m.fields) && SortedBy(fs1, NumberKey)
    requires multiset(rs1) == multiset(m.ranges) && SortedBy(rs1, StartKey)
    requires multiset(fs2) == multiset(m.fields) && SortedBy(fs2, NumberKey)
    requires multiset(rs2) == multiset(m.ranges) && SortedBy(rs2, StartKey)
    ensures fs1 == fs2 && rs1 == rs2
    ensures SlotsInBounds(Schedule(fs1, rs1, 0, 0), |fs1|, |rs1|)
    ensures Targets(Render(p1, fs1, rs1, Schedule(fs1, rs1, 0, 0))) ==
            Targets(Render(p2, fs2, rs2, Schedule(fs2, rs2, 0, 0)))
  {
    NumbersAreDistinctKeys(m.fields);
    PermutationKeepsDistinctKeys(m.fields, fs1, NumberKey);
    PermutationKeepsDistinctKeys(m.ranges, rs1, StartKey);
    SortedUnique(fs1, fs2, NumberKey);
    SortedUnique(rs1, rs2, StartKey);
    ScheduleInBounds(fs1, rs1);
    PassesAgree(p1, p2, fs1, rs1, Schedule(fs1, rs1, 0, 0));
  }

  /** A statement of the emitted serializedSize. */
  datatype SizeStep =
    | FieldSize(field: Field)
    | ExtensionsSize
    | UnknownFieldsSize(asMessageSet: bool)

  function SizeFieldSteps(fs: seq<Field>): (steps: seq<SizeStep>)
    ensures |steps| == |fs|
    ensures forall k :: 0 <= k < |fs| ==> steps[k] == FieldSize(fs[k])
  {
    if |fs| == 0 then [] else SizeFieldSteps(fs[..|fs| - 1]) + [FieldSize(fs[|fs| - 1])]
  }

  /**
   * serializedSize: each field in ascending number order, then
   * extensionsSerializedSize once when the type has ranges, then the unknown
   * fields (as a message set under message_set_wire_format).
   */
  method GenerateSerializedSize(m: MessageType) returns (steps: seq<SizeStep>, ghost fs: seq<Field>)
    ensures multiset(fs) == multiset(m.fields) && SortedBy(fs, NumberKey)
    ensures steps == SizeFieldSteps(fs) + (if |m.ranges| > 0 then [ExtensionsSize] else []) +
                     [UnknownFieldsSize(m.messageSet)]
    ensures multiset(SizedFields(steps)) == multiset(m.fields) && SortedBy(SizedFields(steps), NumberKey)
    ensures |steps| == |m.fields| + (if |m.ranges| > 0 then 2 else 1) && steps[|steps| - 1] == UnknownFieldsSize(m.messageSet)
  {
    var sorted := SortFieldsByNumber(m);
    fs := sorted;
    assert SortedBy(fs, NumberKey) by {
      forall i, j | 0 <= i < j < |fs|
        ensures NumberKey(fs[i]) <= NumberKey(fs[j])
      {
        assert !ByNumber(fs[j], fs[i]);
      }
    }
    steps := [];
    var i := 0;
    while i < |sorted|
      invariant 0 <= i <= |sorted|
      invariant steps == SizeFieldSteps(sorted[..i])
    {
      assert sorted[..i + 1][..i] == sorted[..i];
      steps := steps + [FieldSize(sorted[i])];
      i := i + 1;
    }
    assert sorted[..i] == sorted;
    if |m.ranges| > 0 {
      steps := steps + [ExtensionsSize];
    }
    steps := steps + [UnknownFieldsSize(m.messageSet)];
    SizedFieldsOfSteps(fs, if |m.ranges| > 0 then [ExtensionsSize] else [], m.messageSet);
    assert |fs| == |multiset(fs)| == |multiset(m.fields)| == |m.fields|;
  }

  function SizedFields(steps: seq<SizeStep>): seq<Field>
  {
    if |steps| == 0 then [] else (if steps[0].FieldSize? then [steps[0].field] else []) + SizedFields(steps[1..])
  }

  lemma {:induction false} SizedFieldsAppend(a: seq<SizeStep>, b: seq<SizeStep>)
    ensures SizedFields(a + b) == SizedFields(a) + SizedFields(b)
  {
    if |a| > 0 {
      assert (a + b)[0] == a[0] && (a + b)[1..] == a[1..] + b;
      SizedFieldsAppend(a[1..], b);
    } else {
      assert a + b == b;
    }
  }

  lemma {:induction false} SizedFieldSteps(fs: seq<Field>)
    ensures SizedFields(SizeFieldSteps(fs)) == fs
  {
    if |fs| > 0 {
      SizedFieldSteps(fs[..|fs| - 1]);
      SizedFieldsAppend(SizeFieldSteps(fs[..|fs| - 1]), [FieldSize(fs[|fs| - 1])]);
      assert fs[..|fs| - 1] + [fs[|fs| - 1]] == fs;
    }
  }

  /**
   * serializedSize sizes exactly the fields writeTo writes, in the same
   * order, and counts the extensions once exactly when writeTo writes some ranges.
   */
  lemma SizeMatchesSerialize(m: MessageType, steps: seq<SizeStep>, fsSize: seq<Field>,
                             code: seq<Visit>, fsWrite: seq<Field>)
    requires DistinctNumbers(m.fields)
    requires multiset(fsSize) == multiset(m.fields) && SortedBy(fsSize, NumberKey)
    requires steps == SizeFieldSteps(fsSize) + (if |m.ranges| > 0 then [ExtensionsSize] else []) +
                      [UnknownFieldsSize(m.messageSet)]
    requires multiset(fsWrite) == multiset(m.fields) && SortedBy(fsWrite, NumberKey)
    requires VisitedFields(code) == fsWrite
    ensures SizedFields(steps) == VisitedFields(code)
  {
    SameSortedFields(m, fsSize, fsWrite);
    SizedFieldsOfSteps(fsSize, if |m.ranges| > 0 then [ExtensionsSize] else [], m.messageSet);
  }

  /** Two orderings of the same distinct-numbered fields by number are one ordering. */
  lemma SameSortedFields(m: MessageType, a: seq<Field>, b: seq<Field>)
    requires DistinctNumbers(m.fields)
    requires multiset(a) == multiset(m.fields) && SortedBy(a, NumberKey)
    requires multiset(b) == multiset(m.fields) && SortedBy(b, NumberKey)
    ensures a == b
  {
    NumbersAreDistinctKeys(m.fields);
    PermutationKeepsDistinctKeys(m.fields, a, NumberKey);
    SortedUnique(a, b, NumberKey);
  }

  /** The steps of serializedSize size exactly its fields, whatever follows them. */
  lemma SizedFieldsOfSteps(fs: seq<Field>, ext: seq<SizeStep>, messageSet: bool)
    requires ext == [] || ext == [ExtensionsSize]
    ensures SizedFields(SizeFieldSteps(fs) + ext + [UnknownFieldsSize(messageSet)]) == fs
  {
    SizedFieldsAppend(SizeFieldSteps(fs) + ext, [UnknownFieldsSize(messageSet)]);
    SizedFieldsAppend(SizeFieldSteps(fs), ext);
    SizedFieldSteps(fs);
  }

  /** serializedSize counts the extensions exactly when writeTo visits some extension range. */
  lemma SizeCountsExtensionsWhenWritten(m: MessageType, steps: seq<SizeStep>, fsSize: seq<Field>,
                                        code: seq<Visit>, rsWrite: seq<ExtensionRange>)
    requires steps == SizeFieldSteps(fsSize) + (if |m.ranges| > 0 then [ExtensionsSize] else []) +
                      [UnknownFieldsSize(m.messageSet)]
    requires multiset(rsWrite) == multiset(m.ranges) && VisitedRanges(code) == rsWrite
    ensures ExtensionsSize in steps <==> |VisitedRanges(code)| > 0
  {
    assert |rsWrite| == |multiset(rsWrite)| == |m.ranges|;
    assert ExtensionsSize !in SizeFieldSteps(fsSize);
  }
}
