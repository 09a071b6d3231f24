# Objective-C protobuf code generator: a Dafny model of its core

This project models the core of `protoc-gen-objc`, the Objective-C generator plugin for
Protocol Buffers. The model has two layers.

1. **The decisions the generator makes when it prints code.** These are:
   - how the fields and extension ranges of a message are sorted;
   - the two-cursor merge that the serialize, description, isEqual and hash passes share;
   - the `isInitialized` checks emitted for each field label;
   - the decode switch, with one case per field tag;
   - the builder methods `build`, `buildPartial`, `mergeFrom` and `partiallyMergeFrom`;
   - the substitution variables each field generator fills in;
   - the option check and the output file names of `ObjectiveCGenerator::Generate`.

   Emitted code is modelled as abstract tokens (visits, checks, switch cases, merge steps,
   size steps), not as text.
2. **What the emitted fragments do at run time.** A builder's `builder_result` is a `Record`:
   - has-flags, values and lists;
   - extensions and the unknown-field store.

   The emitted setters, clears, merges, parsers, writers, size computations, equality tests
   and hashes are functions on that record, or methods of the `Builder`, `CodedInput`,
   `CodedOutput` and `SizeMemo` classes. The wire format is the one in the Protocol Buffers
   Encoding guide, sections "Message Structure", "Base 128 Varints" and "Packed Repeated
   Fields":
   - tags are `number << 3 | wire type`;
   - varints use groups of 7 bits;
   - fixed-width values are little-endian;
   - a packed list is one tag, a varint length and the untagged elements.

Modules, one per file:
- `wire`: field types, wire types, tags, varints, fixed widths, single-element codec.
- `schema`: fields, messages, labels, the `[required=true]` comment tag.
- `ordering`: the comparators and the in-place sorts.
- `interleave`: the field/extension-range merge schedule.
- `required`: the `HasRequiredFields` search.
- `message`: the message generator's passes.
- `records`: the runtime record, mergeFrom, isEqual and hash.
- `builder`: the emitted builder class and isInitialized at run time.
- `streams`: coded input and output streams.
- `serialization`: size and byte images of fields.
- `vars`, `text`: substitution keys and `SimpleItoa`.
- `primitive_field`, `enum_field`, `message_field`: the six field-generator variants.
- `generator`: the entry point.

## Model

| member | source | states |
|---|---|---|
| Wire.TypeCode | src/compiler/objc_message.cc:70 | Each of the 18 field types has a code in 1..18, and the code determines the type. |
| Wire.WireTypeCode | src/compiler/objc_message.cc:901-902 | Each wire type has a code below 8, and the code reads back as that wire type. |
| Wire.WireTypeForField | src/compiler/objc_message.cc:901-902 | A packed field is length-delimited; any other field uses its type's wire type. |
| Wire.MakeTag | src/compiler/objc_message.cc:901-902 | The tag is `number*8 + wire type code`. Both parts can be read back, and a tag for field number 1 or higher is at least 8. |
| Wire.MakeTagInjective | src/compiler/objc_message.cc:901-902 | Two tags are equal iff their numbers and their wire types are equal. |
| Wire.TagFitsWord | src/compiler/objc_message.cc:901 | A tag for a valid field number fits in the `uint32` the generator stores it in. |
| Wire.TagSizeIgnoresWireType | src/compiler/objc_primitive_field.cc:302-303 | The varint size of a tag depends only on the field number. |
| Wire.VarintSize | src/compiler/objc_primitive_field.cc:773-774 | The size of a varint is at least 1, and exactly 1 iff the value is below 128. |
| Wire.EncodeVarint | src/compiler/objc_primitive_field.cc:731-732 | The encoding is `VarintSize` bytes long. Every byte but the last has its continuation bit set; the last does not. |
| Wire.VarintRoundTrip | src/compiler/objc_primitive_field.cc:731-732 | Decoding a varint's encoding gives back the value and its size, whatever follows it. |
| Wire.LengthPrefixSizesAgree | src/compiler/objc_enum_field.cc:415-418 | For a non-negative 32-bit length, `computeInt32SizeNoTag` (scalar lists) and `computeRawVarint32Size` (enum lists) agree. |
| Wire.FixedSize | src/compiler/objc_primitive_field.cc:216-262 | It is total over the 18 types. The result is 4 exactly for the fixed 32-bit wire type, 8 exactly for the fixed 64-bit wire type, 1 exactly for bool, and -1 otherwise. |
| Wire.LittleEndianRoundTrip | src/compiler/objc_primitive_field.cc:733-735 | Little-endian bytes of width k decode back to the word. |
| Wire.WireImageRoundTrip | src/compiler/objc_primitive_field.cc:733-735 | A value in its type's range maps to a 64-bit wire word (32-bit for fixed32 types), and that word maps back to the value. This covers zigzag and two's complement. |
| Wire.SizeNoTag | src/compiler/objc_primitive_field.cc:757-761 | For a fixed-width type, the untagged size is `FixedSize`. |
| Wire.ElementRoundTrip | src/compiler/objc_primitive_field.cc:733-735 | Decoding `writeXNoTag`'s bytes gives back the value and its size. |
| Wire.RunSizeIsEncodedLength | src/compiler/objc_primitive_field.cc:755-765 | The sum of the per-element untagged sizes is the length of the untagged run. |
| Wire.FixedRunSize | src/compiler/objc_primitive_field.cc:762-765 | For a fixed-width type, the run size is `fixed_size * count`. |
| Wire.RunRoundTrip | src/compiler/objc_primitive_field.cc:694-697 | Reading elements until the run is used up gives back the whole list. |
| Wire.TagSize | src/compiler/objc_primitive_field.cc:302-303 | For a non-group field, `TagSize` is the varint size of its tag. A group counts both of its tags. |
| Schema.ContainsIff | src/compiler/objc_message.cc:111-120 | `find(...) != npos`, as used by `HasRequiredTag`, holds iff the pattern occurs at some index of the comment. |
| Ordering.ByTypeIsRankOrder | src/compiler/objc_message.cc:53-72 | `FieldOrderingByType` compares a rank of (repeated, not bool, type code) lexicographically. |
| Ordering.ByTypeStrictWeakOrder | src/compiler/objc_message.cc:53-72 | The order is irreflexive, asymmetric and transitive, and incomparability is transitive, so `std::sort` may use it. |
| Ordering.ByTypeGroups | src/compiler/objc_message.cc:53-72 | Every non-repeated field precedes every repeated one. Within a group, BOOL fields come first; the other fields are ordered by type code. |
| Ordering.SortByKey | src/compiler/objc_message.cc:88 | The in-place sort of an array leaves it sorted by the key and a permutation of what it held. |
| Ordering.InsertLast | src/compiler/objc_message.cc:88 | One insertion step: if the first i elements were sorted, the first i+1 are sorted after it, and the array holds the same elements. |
| Ordering.FieldArray | src/compiler/objc_message.cc:84-87 | A fresh array holds the message's fields in declaration order. |
| Ordering.SortFieldsByNumber | src/compiler/objc_message.cc:83-90 | The result is a permutation of the fields, in ascending field-number order. |
| Ordering.SortFieldsByType | src/compiler/objc_message.cc:94-101 | The result is a permutation of the fields in which no field is `FieldOrderingByType`-less than an earlier one. |
| Ordering.SortExtensionRanges | src/compiler/objc_message.cc:506-512 | The result is a permutation of the extension ranges, in ascending order of start. |
| Ordering.SortedUnique | src/compiler/objc_message.cc:83-90 | Two sorted permutations of a list with distinct keys are equal, so the sort by number is deterministic. |
| Interleave.Schedule | src/compiler/objc_message.cc:519-530 | The merge takes exactly (fields left) + (ranges left) steps; `i+j` grows by one per step. |
| Interleave.ScheduleProjections | src/compiler/objc_message.cc:519-530 | The fields are visited in their sorted order, and so are the ranges. |
| Interleave.ScheduleMember | src/compiler/objc_message.cc:519-530 | A slot is visited iff it names a remaining field or a remaining range. |
| Interleave.ScheduleNoDuplicates | src/compiler/objc_message.cc:519-530 | No field and no range is visited twice. |
| Interleave.FieldFirst | src/compiler/objc_message.cc:523-524 | With sorted fields, a field whose number is below a range's start is visited before that range. |
| Interleave.RangeFirst | src/compiler/objc_message.cc:525-527 | With sorted ranges, a range whose start is at or below a field's number is visited before that field (ties go to the range). |
| Interleave.FieldBeforeRangeIff | src/compiler/objc_message.cc:519-530 | A field precedes a range iff `number < start`. |
| Interleave.PassVisitsEverythingOnce | src/compiler/objc_message.cc:519-530 | A rendered pass visits exactly the sorted fields and exactly the sorted ranges, each once and in order. |
| Interleave.PassesAgree | src/compiler/objc_message.cc:591-602 | Corollary of rendering by slot: two passes over the same sorted inputs and schedule refer to the same fields and ranges in the same order. `MessageGen.PassesVisitSameOrder` states this for passes that sort on their own. |
| Interleave.EmitPass | src/compiler/objc_message.cc:519-530 | The cursor loop emits exactly the rendered schedule. |
| MessageGen.UniqueFileScopeIdentifier | src/compiler/objc_message.cc:106-108 | The identifier is `"static_"` followed by the full name with every `.` replaced by `_`, so it contains no `.`. |
| MessageGen.IdentifierCollision | src/compiler/objc_message.cc:106-108 | The names `pkg.A_B` and `pkg.A.B` differ but get the same identifier. |
| MessageGen.EscapedFileScopeIdentifier | src/compiler/objc_message.cc:106-108 | The corrected identifier also starts with `static_` and contains no `.`. |
| MessageGen.EscapeInjective | src/compiler/objc_message.cc:106-108 | The escaping behind the corrected identifier is injective. |
| MessageGen.EscapedIdentifierUnique | src/compiler/objc_message.cc:104-108 | Distinct full names get distinct corrected identifiers. |
| MessageGen.RequiredFieldChecks | src/compiler/objc_message.cc:990-1003 | The first loop emits `FirstPass`. Required fields get a has-check; `[required=true]` fields get a check chosen by label. |
| MessageGen.EmbeddedFieldCheck | src/compiler/objc_message.cc:1006-1044 | A message field whose type needs initialization gets the nested check chosen by label; any other field gets none. |
| MessageGen.GenerateIsInitialized | src/compiler/objc_message.cc:983-1060 | The method emits the first pass, then the embedded-message pass, then the extensions check. |
| MessageGen.InitCheckRules | src/compiler/objc_message.cc:983-1085 | For every field and every check kind: the check is emitted iff the label and tag rule says so. This covers the has-check, the non-nil check, the unconditional sub-check, the has-guarded sub-check and the per-element check. |
| MessageGen.CheckForField | src/compiler/objc_message.cc:996-1044 | A check naming field f is emitted iff f's own rule emits it. |
| MessageGen.ExtensionsCheckLast | src/compiler/objc_message.cc:1047-1052 | The extensions check is emitted iff the message has ranges, and then it is the last check. |
| MessageGen.GenerateParsingSwitch | src/compiler/objc_message.cc:868-924 | The switch has one case per field, in number order, labelled `MakeTag(number, WireTypeForField)`. Fields with different numbers get different labels; with distinct numbers, all labels are distinct. |
| MessageGen.FindCase | src/compiler/objc_message.cc:897-915 | The lookup finds a case carrying the tag, or reports that no case carries it. |
| MessageGen.Dispatch | src/compiler/objc_message.cc:887-896 | Tag 0 stores the unknown fields and returns. A case label parses its field. Any other tag goes to `parseUnknownField`, and decoding returns only on an end-group tag. |
| MessageGen.DispatchFindsField | src/compiler/objc_message.cc:897-915 | Every field's own tag dispatches to that field's parsing code. |
| MessageGen.DispatchUnknownNumber | src/compiler/objc_message.cc:890-896 | A nonzero tag whose number belongs to no field goes to `parseUnknownField`. |
| MessageGen.PackedFieldUnpackedTag | src/compiler/objc_message.cc:901-902 | A packed field's unpacked tag has no case, so those elements go to the unknown fields. |
| MessageGen.NoCaseForUnpackedTag | src/compiler/objc_message.cc:897-915 | No case label equals the unpacked tag of a packed scalar field. |
| MessageGen.GenerateMergeFrom | src/compiler/objc_message.cc:842-866 | The emitted steps are: the default-instance shortcut, one merge per field in declaration order, `mergeExtensionFields` only when ranges exist, then `mergeUnknownFields`. |
| MessageGen.FieldStepsMeaning | src/compiler/objc_message.cc:851-853 | Running the per-field steps is the field-by-field merge `MergeFields`. A set message field there is rebuilt from a `builderWithPrototype:` copy. |
| MessageGen.EmittedMergeFromMeaning | src/compiler/objc_message.cc:842-866 | Running the emitted mergeFrom is `MergeFrom` on the record. |
| MessageGen.GeneratePartiallyMerge | src/compiler/objc_message.cc:926-981 | The method is emitted iff the class has it. It covers every field, in ascending number order. |
| MessageGen.PartiallyMergeFieldFrame | src/compiler/objc_message.cc:939-976 | The code for field f leaves every other field unchanged. |
| MessageGen.PartiallyMergeField | src/compiler/objc_message.cc:939-976 | One field's code leaves the extensions and unknown fields unchanged. |
| MessageGen.PartiallyMergeFields | src/compiler/objc_message.cc:931-977 | The whole method leaves the extensions and unknown fields unchanged. |
| MessageGen.PartiallyMergeFieldsFrame | src/compiler/objc_message.cc:931-977 | The whole method leaves a field it does not list unchanged, and the extensions and unknown fields too. |
| MessageGen.PartiallyMergeCopies | src/compiler/objc_message.cc:931-977 | A listed field whose number is in fieldIDs is copied from other (set, set array or clear). A listed field not in fieldIDs is unchanged. |
| MessageGen.GeneratePass | src/compiler/objc_message.cc:504-530 | The fields are sorted by number, the ranges by start, and the pass visits each exactly once in the merged order. |
| MessageGen.PassesVisitSameOrder | src/compiler/objc_message.cc:641-652 | The four passes, each sorting on its own, visit the same targets in the same order. |
| MessageGen.GenerateSerializedSize | src/compiler/objc_message.cc:545-568 | `serializedSize` walks the sorted fields, adds `extensionsSerializedSize` once when ranges exist, then adds the unknown fields. |
| MessageGen.SizeMatchesSerialize | src/compiler/objc_message.cc:545-547 | The size pass sizes the fields that the write pass writes, in the same order. |
| MessageGen.SizeCountsExtensionsWhenWritten | src/compiler/objc_message.cc:555-559 | Extensions are sized iff the write pass visits some extension range. |
| Required.TypeSet.Insert | src/compiler/objc_message.cc:141 | The visited set gains exactly the type. |
| Required.TypeSet.Contains | src/compiler/objc_message.cc:130 | `count(type) > 0` iff the type is in the set. |
| Required.RequiresInitThroughField | src/compiler/objc_message.cc:155-159 | A type needs initialization if one of its message fields points to a type that does. |
| Required.DirectRequiresInit | src/compiler/objc_message.cc:146-154 | A type with ranges, a required field or a `[required=true]` field needs initialization. |
| Required.ClosedWalk | src/compiler/objc_message.cc:131-139 | No path from a fully explored visited type reaches a type that needs initialization directly. This is why a visited type may answer false. |
| Required.HasRequiredFieldsFrom | src/compiler/objc_message.cc:127-166 | The search terminates, because the visited set grows toward all types. True means some reachable type needs initialization; false keeps the visited-set invariant. |
| Required.HasRequiredFields | src/compiler/objc_message.cc:168-171 | With a fresh set, the result is true iff some type reachable through message fields (the start included) has ranges, a required field or a `[required=true]` field. Cycles included. |
| Records.SetValue | src/compiler/objc_primitive_field.cc:414-421 | Set makes has=YES and stores the value; nothing else changes. |
| Records.ClearValue | src/compiler/objc_primitive_field.cc:423-430 | Clear makes has=NO and the value the default; nothing else changes. |
| Records.ClearList | src/compiler/objc_primitive_field.cc:622-628 | A repeated clear sets the list to nil; nothing else changes. |
| Records.AddElement | src/compiler/objc_primitive_field.cc:633-640 | Add creates the list if it is nil and appends one element; nothing else changes. |
| Records.SetArray | src/compiler/objc_primitive_field.cc:641-644 | setArray replaces the list with a copy of the array; nothing else changes. |
| Records.AddUnknown | src/compiler/objc_enum_field.cc:364 | The unknown-field store gains exactly one entry at its end. |
| Records.AddAfterSetArray | src/compiler/objc_primitive_field.cc:630-662 | Adding after setArray is the same as setArray of the longer list. |
| Records.SetArrayTwice | src/compiler/objc_primitive_field.cc:641-644 | The second setArray wins. |
| Records.SetArrayToOwnElements | src/compiler/objc_primitive_field.cc:641-644 | Setting a present list to its own elements changes nothing. |
| Records.MergeFieldsEmpty | src/compiler/objc_message.cc:851-853 | Merging fields from a record with nothing set changes nothing. |
| Records.DefaultShortcutSound | src/compiler/objc_message.cc:844-848 | The early return for the default instance is sound: a full merge from it would change nothing. |
| Records.MergeFieldFrame | src/compiler/objc_message.cc:851-853 | One field's merge code touches only that field. |
| Records.MergeFieldsFrame | src/compiler/objc_message.cc:851-853 | Merging a list of fields leaves any field not in the list unchanged, and also the extensions and the unknown fields. |
| Records.MergeFieldLocal | src/compiler/objc_message.cc:851-853 | One field's merge result depends only on that field's own state in self (and on other). |
| Records.MergeFieldsIndependent | src/compiler/objc_message.cc:851-853 | With distinct numbers, each field's final state depends only on its own merge. |
| Records.MergeScalarField | src/compiler/objc_primitive_field.cc:432-437 | A singular scalar merge copies only when other has the field. |
| Records.MergeRepeatedField | src/compiler/objc_primitive_field.cc:664-677 | A repeated merge replaces the list with other's only when other's list is non-empty; otherwise nothing changes. |
| Records.MergeMessageField | src/compiler/objc_message_field.cc:141-151 | When the builder holds a non-default value, `merge<Field>` stores the `builderWithPrototype:` copy of it with the incoming value merged in. A default incoming value leaves just the copy. Otherwise it assigns. has is YES afterwards. |
| Records.CopyFieldsIsMerge | src/compiler/objc_message.cc:851-853 | With distinct numbers, merging into a record that holds none of the fields never merges deeply; it is a field-by-field copy. |
| Records.PrototypeCopyIsMerge | src/compiler/objc_message.cc:366-367 | `builderWithPrototype:` is `mergeFrom:` into a fresh builder: `PrototypeCopy` is `MergeFrom` from the empty record. |
| Records.PrototypeCopyField | src/compiler/objc_message.cc:366-367 | The copy keeps a non-empty list and turns an empty one into nil. A singular field keeps its has-flag and, when set, its value. |
| Records.UnsetFieldHash | src/compiler/objc_primitive_field.cc:483-491 | A field that is not set leaves `hashCode` unchanged. |
| Records.Mix | src/compiler/objc_primitive_field.cc:486 | `hashCode * 31 + x` wraps to the 64-bit `NSUInteger`, so the result is below 2^64. |
| Records.FloatComparison | src/compiler/objc_primitive_field.cc:476-477 | C `==` on a float or double getter: a NaN is not equal to itself, and +0.0 equals -0.0. |
| Records.EqualElementsHash | src/compiler/objc_message_field.cc:462-476 | If each class's hash agrees with its isEqual, two lists that are `isEqualToArray:` (same length, elements pairwise isEqual) fold into the same hash. |
| Records.FieldEqualHash | src/compiler/objc_primitive_field.cc:472-491 | If each class's hash agrees with its isEqual (for a float field, `@(0.0)` and `@(-0.0)`; for a message field, the nested class's own isEqual and hash), two records equal on a field under the emitted isEqual fold that field into the same hash. |
| Records.EqualVisitsHash | src/compiler/objc_message.cc:683-694 | Records equal on every visit hash equally across the whole pass, when each class's hash agrees with its isEqual. |
| Records.RenderedEqualAcrossPasses | src/compiler/objc_message.cc:641-652 | Equality on the isEqual pass's visits carries over to the hash pass's visits. |
| Records.EqualMessagesHashEqual | src/compiler/objc_message.cc:612-703 | If the hash of every field's value class agrees with its isEqual, messages that are `isEqual` have equal `hash`: the same object, or two whose visited conjuncts and unknown fields are equal. |
| Records.IsEqualReflexiveSymmetric | src/compiler/objc_message.cc:612-664 | One object is always isEqual to itself (the `other == self` shortcut). isEqual is symmetric when the nested classes' isEqual is. Two distinct objects with the same contents are isEqual iff no float or double field the pass visits holds a NaN, given a reflexive nested isEqual. |
| Records.FieldEqualSymmetric | src/compiler/objc_primitive_field.cc:472-480 | A field's isEqual conjunct is symmetric when the nested classes' isEqual is, for singular fields and for `isEqualToArray:` lists. |
| Records.FieldEqualReflexive | src/compiler/objc_primitive_field.cc:472-480 | A field without a NaN satisfies its own isEqual conjunct, given a reflexive nested isEqual. |
| Builders.DefaultIsInitialized | src/compiler/objc_message.cc:983-1060 | The default instance passes iff its type's checks contain no has-check and no non-nil check. |
| Builders.IsInitialized | src/compiler/objc_message.cc:983-1060 | Running the emitted checks in order answers YES iff every check holds. |
| Builders.CheckPasses | src/compiler/objc_message.cc:1062-1085 | Each emitted check passes iff it holds on the record. |
| Builders.StoredPasses | src/compiler/objc_message.cc:1017-1031 | The nested check on a singular message field looks at the stored value, or at the default instance when nothing is stored. |
| Builders.ValuePasses | src/compiler/objc_message.cc:1034-1040 | A nested message passes iff its own checks hold. |
| Builders.UncheckedTypeAlwaysInitialized | src/compiler/objc_message.cc:1008 | Skipping the sub-check for a type that does not need initialization is sound: every record of that type passes. |
| Builders.InitChecksAreAboutFields | src/compiler/objc_message.cc:990-1044 | Every emitted check except the extensions check names a field of the type, and it is one of that field's own required or embedded checks. |
| Builders.UnknownFieldSetBuilder.MergeVarintField | src/compiler/objc_enum_field.cc:364 | `mergeVarintField` appends one varint entry under the field number. |
| Builders.Builder.Set | src/compiler/objc_primitive_field.cc:414-421 | The setter stores the value with has=YES; after buildPartial it is a no-op. |
| Builders.Builder.Clear | src/compiler/objc_primitive_field.cc:423-430 | A singular clear resets the value and has-flag. A repeated clear sets the list to nil (lines 622-628). |
| Builders.Builder.Add | src/compiler/objc_primitive_field.cc:633-640 | `add<Field>` appends one element. |
| Builders.Builder.SetArrayOf | src/compiler/objc_primitive_field.cc:641-644 | `set<Field>Array` replaces the list. |
| Builders.Builder.MergeValue | src/compiler/objc_message_field.cc:141-151 | `merge<Field>` is what mergeFrom does to the field when other holds the value: a prototype copy with the value merged in, or an assignment. has is YES afterwards. |
| Builders.Builder.BuildPartial | src/compiler/objc_message.cc:835-837 | `buildPartial` returns `builder_result` and sets it to nil. |
| Builders.Builder.Build | src/compiler/objc_message.cc:821-824 | `build` fails and changes nothing when the result is not initialized, or when the builder was already built (its result is nil). Otherwise it is `buildPartial`. |
| Builders.Builder.MergeFromValue | src/compiler/objc_message.cc:842-866 | `mergeFrom:` applies `MergeFrom`. |
| Builders.Builder.PartiallyMergeFrom | src/compiler/objc_message.cc:926-981 | Every field of the type is copied from other when its number is in fieldIDs, and kept otherwise. Extensions and unknown fields are unchanged. |
| Builders.PartiallyMergeAll | src/compiler/objc_message.cc:931-977 | For the sorted field list the per-field rule holds for every field of the message. |
| Text.Itoa | src/compiler/objc_primitive_field.cc:277 | `SimpleItoa` gives a non-empty string of digits with no leading zero. |
| Text.ItoaRoundTrip | src/compiler/objc_primitive_field.cc:277 | The digits read back as the number. |
| Text.ItoaInjective | src/compiler/objc_primitive_field.cc:277 | Different numbers print differently. |
| Vars.SpellingInjective | src/compiler/objc_primitive_field.cc:264-309 | The substitution keys are distinct strings. |
| Streams.CodedOutput.WriteRawVarint32 | src/compiler/objc_primitive_field.cc:731-732 | `writeRawVarint32` appends the varint of the value's 32-bit image. |
| Streams.CodedOutput.WriteNoTag | src/compiler/objc_primitive_field.cc:733-735 | `writeXNoTag` appends the element's bytes. |
| Streams.CodedOutput.WriteField | src/compiler/objc_primitive_field.cc:447-452 | `writeX:number value:` appends the tag, then the element. |
| Streams.CodedInput.BytesUntilLimit | src/compiler/objc_primitive_field.cc:694 | The result is 0 exactly at the limit. |
| Streams.CodedInput.ReadRawVarint32 | src/compiler/objc_primitive_field.cc:686 | It reads one varint and returns its `int32` image, or fails without moving. |
| Streams.CodedInput.ReadNoTag | src/compiler/objc_primitive_field.cc:443-444 | `readX` decodes one element, or fails without moving. |
| Streams.CodedInput.PushLimit | src/compiler/objc_primitive_field.cc:687 | `pushLimit:` returns the old limit and sets `pos+length`. It fails for a negative length or one past the current limit. |
| Streams.CodedInput.PopLimit | src/compiler/objc_primitive_field.cc:697 | `popLimit:` restores the given limit. |
| Serialization.SizeMemo.Write | src/compiler/objc_primitive_field.cc:776 | Storing into `<name>MemoizedSerializedSize` changes that entry only. |
| Serialization.ValueRoundTrip | src/compiler/objc_primitive_field.cc:442-452 | The bytes written for a value read back as the value. This covers scalars, strings and bytes. |
| Serialization.LengthThenPayload | src/compiler/objc_primitive_field.cc:686-687 | After a varint length, the pushed limit covers exactly the payload. |
| Serialization.TaggedBytes | src/compiler/objc_primitive_field.cc:739-741 | A tagged element is `TagSize` plus the element's size. |
| Serialization.NumbersOfScalars | src/compiler/objc_primitive_field.cc:730 | The raw `values` array of a scalar list holds the list's numbers, and `dataSize` is their run size. |
| Serialization.TaggedListLength | src/compiler/objc_primitive_field.cc:778-781 | A non-packed list is `dataSize + tag_size*count` bytes. |
| Serialization.ListSizeMatchesBytes | src/compiler/objc_primitive_field.cc:714-785 | The size pass equals the length of what the write pass emits, packed or not. |
| Serialization.PackedSizeMatchesBytes | src/compiler/objc_primitive_field.cc:771-777 | When the memo holds `dataSize`, the packed size is the length of the packed bytes. |
| Serialization.PackedRoundTrip | src/compiler/objc_primitive_field.cc:682-743 | Packed bytes are tag, length, run; the length frames the run, and the run reads back as the numbers. |
| PrimitiveField.PrimitiveTypeName | src/compiler/objc_primitive_field.cc:42-76 | The name is NULL exactly for enum, group and message. |
| PrimitiveField.ArrayValueTypeName | src/compiler/objc_primitive_field.cc:82-124 | The name is `object` exactly for non-scalar types and enum. |
| PrimitiveField.SelectorNamesType | src/compiler/objc_primitive_field.cc:170-214 | The `read/write/compute` stem names its type. |
| PrimitiveField.SelectorInjective | src/compiler/objc_primitive_field.cc:170-214 | Distinct types get distinct stems. |
| PrimitiveField.ArrayTablesAgree | src/compiler/objc_primitive_field.cc:126-168 | The capitalized array name is the array name with its first letter upper-cased. |
| PrimitiveField.IntegerStorageMatchesArray | src/compiler/objc_primitive_field.cc:42-76 | An integer type's C type is its array stem plus `_t`. |
| PrimitiveField.SharedStorageSameRange | src/compiler/objc_primitive_field.cc:42-76 | Types sharing a C type share a value range. |
| PrimitiveField.SetPrimitiveVariables | src/compiler/objc_primitive_field.cc:264-309 | The method fills the variable map as `PrimitiveVariables` describes. |
| PrimitiveField.PrimitiveVariableKeys | src/compiler/objc_primitive_field.cc:292-308 | The keys are the base set, plus the array keys unless object array, plus `fixed_size` iff `FixedSize != -1`. |
| PrimitiveField.PrimitiveVariableNames | src/compiler/objc_primitive_field.cc:268-274 | For a reserved name, both `name` and `capitalized_name` get `Property` appended. |
| PrimitiveField.PrimitiveVariableListName | src/compiler/objc_primitive_field.cc:267-276 | `list_name` is the unsuffixed camel name plus `Array`. |
| PrimitiveField.PrimitiveVariableStorage | src/compiler/objc_primitive_field.cc:278-290 | This covers `type`, the pointer form of `storage_type`, and `NS_RETURNS_NOT_RETAINED` only for retained reference names. |
| PrimitiveField.PrimitiveVariableArrayNames | src/compiler/objc_primitive_field.cc:292-296 | The three array entries for primitive arrays. |
| PrimitiveField.PrimitiveVariableDefault | src/compiler/objc_primitive_field.cc:298-299 | The `default` and `capitalized_type` entries. |
| PrimitiveField.PrimitiveVariableTag | src/compiler/objc_primitive_field.cc:277-301 | `number` and `tag` are numerals of the number and of `MakeTag`. |
| PrimitiveField.PrimitiveVariableSizes | src/compiler/objc_primitive_field.cc:302-308 | `tag_size` is a numeral of `TagSize`; `fixed_size` is present for fixed widths. |
| PrimitiveField.ReadValue | src/compiler/objc_primitive_field.cc:443-444 | `read<Type>` decodes one value at the cursor, or fails without moving. |
| PrimitiveField.SingularSize | src/compiler/objc_primitive_field.cc:454-459 | The size fragment gives the length of what the serialize fragment writes. |
| PrimitiveField.WriteSingular | src/compiler/objc_primitive_field.cc:447-452 | The field is written, tagged, only when has is set. |
| PrimitiveField.WriteTagged | src/compiler/objc_primitive_field.cc:739-741 | It writes the tag, then the element. |
| PrimitiveField.ParseSingular | src/compiler/objc_primitive_field.cc:442-445 | The parse fragment sets the decoded value (has=YES), or fails and changes nothing. |
| PrimitiveField.SingularRoundTrip | src/compiler/objc_primitive_field.cc:442-452 | What serialize writes, parse reads back. |
| PrimitiveField.SizeRepeated | src/compiler/objc_primitive_field.cc:745-785 | The size is `dataSize` plus the tag and length when packed and non-empty, or plus `tag_size*count` when not packed. The memo is written iff packed. |
| PrimitiveField.ComputeDataSize | src/compiler/objc_primitive_field.cc:750-765 | `dataSize` is the sum of the untagged sizes, whichever of the three loops computes it. |
| PrimitiveField.FixedDataSize | src/compiler/objc_primitive_field.cc:762-765 | `fixed_size * count` is the sum of the untagged sizes. |
| PrimitiveField.SumSizes | src/compiler/objc_primitive_field.cc:757-761 | The loop accumulates the untagged sizes. |
| PrimitiveField.WriteRepeated | src/compiler/objc_primitive_field.cc:714-743 | An object array is written tagged per element. A primitive array is written packed (tag, memo, run; nothing when empty) or tagged per element. |
| PrimitiveField.WriteRun | src/compiler/objc_primitive_field.cc:733-735 | The `NoTag` loop writes the untagged run. |
| PrimitiveField.WriteEachTagged | src/compiler/objc_primitive_field.cc:739-741 | The tagged loop writes each element with its tag. |
| PrimitiveField.ParseElement | src/compiler/objc_primitive_field.cc:707-710 | A non-packed occurrence appends one decoded element. |
| PrimitiveField.ParsePacked | src/compiler/objc_primitive_field.cc:682-706 | Packed parse reads the length and pushes the limit, appends every element of the payload to the existing list, and pops back to the old limit. |
| PrimitiveField.AddUntilLimit | src/compiler/objc_primitive_field.cc:700-705 | The `bytesUntilLimit` loop appends the whole run up to the limit. |
| PrimitiveField.PackedWriteThenParse | src/compiler/objc_primitive_field.cc:682-743 | A non-empty packed list, written with the memo from the size pass, parses back to the same list. |
| EnumField.SetEnumVariables | src/compiler/objc_enum_field.cc:36-53 | The method fills the enum variable map. |
| EnumField.EnumVariableKeys | src/compiler/objc_enum_field.cc:43-52 | There are exactly nine keys. |
| EnumField.EnumVariableNames | src/compiler/objc_enum_field.cc:43-46 | The name entries, without a reserved-name suffix. |
| EnumField.EnumVariableTypes | src/compiler/objc_enum_field.cc:48-49 | `type` is the enum class, and `default` is the default value's name. |
| EnumField.EnumVariableTag | src/compiler/objc_enum_field.cc:47-52 | `number`, `tag` and `tag_size` are numerals of the number, `MakeTag` and `TagSize`. |
| EnumField.EnumDefaults | src/compiler/objc_enum_field.cc:134-141 | Both initialization and clear give the default enum value with has=NO. |
| EnumField.SetEnum | src/compiler/objc_enum_field.cc:124-132 | The setter requires a declared value, then sets has=YES and stores the value. |
| EnumField.EnumReadRouting | src/compiler/objc_enum_field.cc:162-170 | A declared value is stored. An undeclared one goes to the unknown fields as a varint under the field number, and the field is unchanged. |
| EnumField.ParseSingularEnum | src/compiler/objc_enum_field.cc:162-170 | The parse fragment reads one enum value and routes it. |
| EnumField.SingularEnumRoundTrip | src/compiler/objc_enum_field.cc:162-180 | A set declared value, written and read back, is stored again and nothing goes to the unknown fields. |
| EnumField.MergeKeepsDeclared | src/compiler/objc_enum_field.cc:146-151 | Merging keeps a singular enum field declared. |
| EnumField.EnumHash | src/compiler/objc_enum_field.cc:451-463 | The hash folds `hashCode*31+value` over the list in order. |
| EnumField.EnumSingularHash | src/compiler/objc_enum_field.cc:199-210 | A set field folds its number; a record equal on the field under the emitted isEqual (the same number) gives the same fold. |
| EnumField.EnumRunPartition | src/compiler/objc_enum_field.cc:359-365 | Each value of a run goes either to the list (declared) or to the unknown store (undeclared). |
| EnumField.AllDeclaredKept | src/compiler/objc_enum_field.cc:359-365 | A run of declared values is kept whole. |
| EnumField.RoutingSnoc | src/compiler/objc_enum_field.cc:359-365 | Routing one more value extends exactly one side. |
| EnumField.AddOrRoute | src/compiler/objc_enum_field.cc:361-365 | A valid value is added; any other value is merged into `unknownFields`. |
| EnumField.ParseEnumElement | src/compiler/objc_enum_field.cc:359-365 | A non-packed occurrence reads one value and routes it. |
| EnumField.AddEnumRouting | src/compiler/objc_enum_field.cc:359-365 | The per-element rule for added and routed values. |
| EnumField.ParsePackedEnum | src/compiler/objc_enum_field.cc:349-373 | Packed parse appends the declared values in order, routes the rest, and restores the old limit. |
| EnumField.RouteUntilLimit | src/compiler/objc_enum_field.cc:355-371 | The bounded loop routes the whole run. |
| EnumField.ParsingKeepsListDeclared | src/compiler/objc_enum_field.cc:349-373 | After parsing, the list holds only declared values. |
| EnumField.MergeKeepsListDeclared | src/compiler/objc_enum_field.cc:339-344 | The repeated merge keeps the list declared. |
| EnumField.SizeRepeatedEnum | src/compiler/objc_enum_field.cc:397-431 | The size is `dataSize` plus the tag and `computeRawVarint32Size` when packed and non-empty, or plus `tag_size*count` otherwise. The memo is written iff packed. |
| EnumField.WriteRepeatedEnum | src/compiler/objc_enum_field.cc:375-395 | Packed writes the tag and memo only when non-empty, then `writeEnumNoTag` per value. Otherwise it writes `writeEnum` per value. |
| EnumField.WritePackedEnum | src/compiler/objc_enum_field.cc:380-388 | The packed branch emits the packed image for the memo. |
| EnumField.EnumSizeMatchesWrite | src/compiler/objc_enum_field.cc:375-431 | The size pass equals the written length when the memo holds `dataSize`. |
| EnumField.PackedEnumWriteThenParse | src/compiler/objc_enum_field.cc:349-395 | A packed list of declared values reads back whole, and nothing goes to the unknown fields. |
| MessageField.SetMessageVariables | src/compiler/objc_message_field.cc:35-62 | The method fills the message-field variable map. |
| MessageField.MessageVariableKeys | src/compiler/objc_message_field.cc:38-61 | There are exactly nine keys. |
| MessageField.MessageVariableNames | src/compiler/objc_message_field.cc:39-47 | Reserved names get a `Property` suffix; `list_name` does not. |
| MessageField.MessageVariableStorage | src/compiler/objc_message_field.cc:50-60 | `storage_type` is the class or a pointer to it, and the attribute is set only for retained names. |
| MessageField.MessageVariableNumber | src/compiler/objc_message_field.cc:48 | `number` is a numeral of the field number. |
| MessageField.GroupOrMessageVariable | src/compiler/objc_message_field.cc:61 | `group_or_message` is "Group" iff the type is TYPE_GROUP. |
| MessageField.GroupCallsAgree | src/compiler/objc_message_field.cc:189-195 | The variable picks `readGroup:number` and `writeGroup` exactly for the start-group wire type, and `readMessage`/`writeMessage` for length-delimited. |
| MessageField.MessageDefaults | src/compiler/objc_message_field.cc:154-161 | Initialization and clear give the default instance with has=NO. |
| MessageField.SetFromBuilder | src/compiler/objc_message_field.cc:138-140 | `set<Field>Builder:` succeeds iff the other builder still holds an initialized result, and then sets the field to it. When build fails, nothing is set. |
| MessageField.ReadInto | src/compiler/objc_message_field.cc:189-195 | `readGroup`/`readMessage` fills the sub-builder, or fails and leaves it as it was. |
| MessageField.SubBuilderSeeded | src/compiler/objc_message_field.cc:182-188 | The sub-builder starts empty, or merged with the existing value when has is set. That merge is the `builderWithPrototype:` copy of the value. |
| MessageField.ParseSingularMessage | src/compiler/objc_message_field.cc:182-199 | The parsed message (seeded from the existing value) is stored via set, with has=YES. |
| MessageField.ParseRepeatedMessage | src/compiler/objc_message_field.cc:422-436 | A fresh sub-builder per occurrence; exactly one element is appended. |
| MessageField.RepeatedParseAppends | src/compiler/objc_message_field.cc:368-375 | The list grows by exactly the new element at its end, and every other field is unchanged. |
| MessageField.WriteRepeatedMessage | src/compiler/objc_message_field.cc:438-443 | The method makes one `write<GroupOrMessage>` call per element, in order. |
| MessageField.SizeRepeatedMessage | src/compiler/objc_message_field.cc:445-450 | The size loop sums `compute<GroupOrMessage>Size` over the elements. |
| MessageField.ElementsSizeBounds | src/compiler/objc_message_field.cc:445-450 | Groups cost two tags each, plus their bodies; every element costs at least one byte. |
| MessageField.MessageHash | src/compiler/objc_message_field.cc:466-476 | The repeated hash exists iff the field is an object array (otherwise it is fatal), and then it folds each element in order. |
| MessageField.MessageElementsHash | src/compiler/objc_message_field.cc:468-471 | The emitted loop is the general element fold. |
| MessageField.MessageSingularHash | src/compiler/objc_message_field.cc:231-242 | A set field folds `[value hash]`. An isEqual conjunct that holds means the other record has the field set and the nested class's isEqual holds on the two values; then, if that class's hash agrees with its isEqual, both fold the same hash. |
| Generator.FirstUnknown | src/compiler/objc_generator.cc:47-54 | The index of the first key that is not `output_list_file`. |
| Generator.Generate | src/compiler/objc_generator.cc:38-111 | It returns false with "Unknown generator option: <key>" for the first unknown key, before any output. Otherwise it returns true, keeps the last `output_list_file`, and opens the outputs in order. |
| Generator.FirstUnknownDecides | src/compiler/objc_generator.cc:47-54 | Whatever follows the first unknown key does not matter. |
| Generator.LastListFileWins | src/compiler/objc_generator.cc:47-50 | The last `output_list_file` value wins. |
| Generator.NoListFileEmpty | src/compiler/objc_generator.cc:45-54 | Without `output_list_file`, the value stays empty. |
| Generator.OutputLayout | src/compiler/objc_generator.cc:62-109 | Undivided: `.pb.h` then `.pb.m`. Divided: aggregate header, enums header, per-class headers, `.pb.m`. The file-level names are distinct. |

## Left out

- `io::Printer` text (indentation, Objective-C spelling, format strings): emitted code is abstract tokens.
- The description pass's text. It is modelled only as a pass that visits fields and ranges in the shared order.
- Helpers in `objc_helpers` (camel case, class names, reserved/retained names, `isObjectArray`, `DefaultValue`, `EnumValueName`, `ReturnsPrimitiveType`, `hasPartiallyMerge`). They are not part of this model and enter as parameters (`Naming`, `EnumNaming`, `MessageNaming`, `objectArray`, `enabled`).
- The runtime library `PBCodedInputStream`/`PBCodedOutputStream` is modelled by `Streams` from the Encoding guide. Reading nested messages (`readGroup`/`readMessage`) enters as a `NestedRead` function parameter. The body size of a nested message enters as `bodySize`, and a nested object's hash and isEqual as `objectHash` and `objectEqual`.
- MessageField.WriteRepeatedMessage: nested messages are written as `writeGroup`/`writeMessage` calls, not as bytes, because the nested serializer is another generated class.
- Float and double values are their IEEE 754 bit patterns. Singular isEqual applies C `==` to them (`ScalarEqual`); no other floating-point arithmetic is modelled.
- Records.ElementHash: a repeated float or double element adds its bit pattern to the hash. The emitted `hashCode * 31 + [list floatAtIndex:i]` computes in floating point and converts back to `NSUInteger`, which is not modelled.
- Records.FieldEqual: a repeated scalar, string or bytes field compares its elements as values; a repeated message field asks the nested class's isEqual of each pair. The `PBArray` and `NSArray` classes are not part of this model, so `isEqualToArray:` on NaN and -0.0 elements is not captured. The `self.list == other.list` identity shortcut is treated as the content comparison it implies.
- Records.ValueEqual: a nested message's isEqual, and whether a default instance equals a parsed empty message, enter as the `objectEqual` parameter. The nested class's own identity shortcut is invisible to a value, so the reflexivity in IsEqualReflexiveSymmetric is stated given a reflexive `objectEqual`.
- Records.IsEqual: compares two messages of the generated class. An `other` of another class (the `isKindOfClass:` test answering NO) is not modelled; object identity enters as the `identical` flag.
- Records.EqualMessagesHashEqual: assumes, for each field, that the hash of the value's class agrees with its isEqual (`HashAgreesWithEqual`; the NSObject contract, so NSNumber hashes `@(0.0)` and `@(-0.0)` alike). The runtime's hash functions are not part of this model.
- Extensions are a map from field number to entry. Merging two messages lets other's entry replace self's (`MergeTail`, the `MergeExtensionFields` step). The runtime's `mergeExtensionFields:` appends a repeated extension's values and merges a message extension; that runtime code is not part of this model.
- Unknown fields are a flat sequence in arrival order. A merge appends other's to self's, and isEqual compares the sequences. `PBUnknownFieldSet` groups fields by number and merges by number; that runtime class is not part of this model.
- The message's `memoizedSerializedSize` cache (src/compiler/objc_message.cc:544-547, 570-572). `serializedSize` is modelled as recomputed on each call, which gives the same number for an immutable message.
- 32-bit overflow of the emitted `int32_t dataSize` and `size_`. The size members use unbounded integers; the round-trip lemmas require `dataSize < 2^31`.
- EnumField.ParsePackedEnum: on a failed read, the positions and limits, the builder's list and the unknown-field store are not specified beyond the data being unchanged.
- PrimitiveField.ParsePacked: on a failed read, the positions and limits and the builder's list are not specified beyond the data being unchanged.
- The divide-headers flag comes from the `PROTOC_GEN_OBJC_DIVIDE_HEADERS` environment variable and enters as a parameter. The per-class header names come from `objc_file.cc`, which is not part of this model, and enter as a parameter.
- Opening output streams, and the later use of `output_list_file`: the model returns the names and the stored value.
- Static variables, dependencies, enum headers, extension registration and header/source assembly, which only recurse over nested types to print text. `SortFieldsByType` is modelled, but its result at src/compiler/objc_message.cc:264 feeds only header text.
- Message-set wire format: only the choice of unknown-field size step is kept.
- Memory management (`new[]`, `scoped_array`, ARC), and pointer identity beyond the default instance and the `identical` flag of `Records.IsEqual`.

## Findings

| source | as written | input that shows it | evidently intended | confidence | as-written member | corrected member |
|---|---|---|---|---|---|---|
| src/compiler/objc_message.cc:106-108 | `UniqueFileScopeIdentifier` replaces every `.` of the full name with `_` | messages `pkg.A_B` and `pkg.A.B` (nested `B` inside `A`) in one file both get `static_pkg_A_B` | distinct types get distinct file-scope identifiers | not executed | MessageGen.IdentifierCollision | MessageGen.EscapedIdentifierUnique |
