/**
 * What the size and write passes of a scalar, string or bytes field put on
 * the wire, and what the reader makes of it. A repeated field is written
 * element by element under its own tag, or, when packed, as one tag, the
 * payload length as a varint, then the untagged elements. The length the
 * packed write prints is the one the size pass left in the field's memo.
 */
module Serialization {
  import opened Wrappers
  import opened Wire
  import opened Schema
  import opened Records

  /** The memo ivars of one message object: `<name>MemoizedSerializedSize` per packed field. */
  class SizeMemo {
    var memo: map<nat, int>

    /** A freshly allocated object: every ivar is 0. */
    constructor ()
      ensures memo == map[]
    {
      memo := map[];
    }

    function Read(number: nat): int
      reads this
    {
      if number in memo then memo[number] else 0
    }

    method Write(number: nat, v: int)
      modifies this
      ensures memo == old(memo)[number := v]
    {
      memo := memo[number := v];
    }
  }

  // ---------------------------------------------------------------------------
  // One value

  /** The ivar of a field of type t holds v: a number in the C type's range, or the bytes of a string or NSData. */
  predicate WellTyped(t: FieldType, v: Value)
  {
    if IsScalarType(t) then v.Num? && InRange(t, v.n)
    else if t == String || t == Bytes then v.Data?
    else false
  }

  predicate AllWellTyped(t: FieldType, vs: seq<Value>)
  {
    forall i :: 0 <= i < |vs| ==> WellTyped(t, vs[i])
  }

  /** computeXSizeNoTag: the fixed width or varint length, or the length prefix plus the bytes. */
  function ValueSize(t: FieldType, v: Value): nat
    requires WellTyped(t, v)
  {
    if IsScalarType(t) then SizeNoTag(t, v.n) else VarintSize(|v.bytes|) + |v.bytes|
  }

  /** writeXNoTag. */
  function ValueBytes(t: FieldType, v: Value): (bytes: seq<byte>)
    requires WellTyped(t, v)
    ensures |bytes| == ValueSize(t, v)
  {
    if IsScalarType(t) then EncodeNoTag(t, v.n) else EncodeVarint(|v.bytes|) + v.bytes
  }

  /**
   * readX: a scalar, or a length read as an int32 and that many bytes; None
   * when the input ends early or the length is negative.
   */
  function DecodeValue(t: FieldType, s: seq<byte>): (r: Option<(Value, nat)>)
    requires IsScalarType(t) || t == String || t == Bytes
    ensures r.Some? ==> 1 <= r.value.1 <= |s|
  {
    if IsScalarType(t) then
      match DecodeNoTag(t, s)
      case None => None
      case Some((x, n)) => Some((Num(x), n))
    else
      match DecodeVarint(s)
      case None => None
      case Some((w, n)) =>
        var length := FromWireImage(Int32, w);
        if 0 <= length && n + length <= |s| then Some((Data(s[n..n + length]), n + length)) else None
  }

  /** A value read back after it was written, with the reader stopping where it ends. */
  lemma ValueRoundTrip(t: FieldType, v: Value, rest: seq<byte>)
    requires WellTyped(t, v) && (v.Data? ==> |v.bytes| < TWO_31)
    ensures DecodeValue(t, ValueBytes(t, v) + rest) == Some((v, ValueSize(t, v)))
  {
    if IsScalarType(t) {
      ElementRoundTrip(t, v.n, rest);
    } else {
      var b := v.bytes;
      LengthThenPayload(|b|, b, rest);
    }
  }

  /** A length below 2^31 written as a varint, then that many bytes: the reader takes exactly those bytes. */
  lemma LengthThenPayload(d: nat, run: seq<byte>, rest: seq<byte>)
    requires d < TWO_31 && |run| == d
    ensures DecodeVarint(EncodeVarint(d) + run + rest) == Some((d, VarintSize(d)))
    ensures PackedPayload(EncodeVarint(d) + run + rest) == Some((run, VarintSize(d)))
  {
    var after := EncodeVarint(d) + run + rest;
    assert after == EncodeVarint(d) + (run + rest);
    VarintRoundTrip(d, run + rest);
    assert FromWireImage(Int32, d) == d;
    var n := VarintSize(d);
    assert after[n..n + d] == run;
  }

  /** The tag a field's value is written under when it is not packed. */
  function FieldTag(f: Field): nat
  {
    MakeTag(f.number, WireTypeForType(f.kind))
  }

  /** writeX:number value: the tag, then the value. */
  function TaggedBytes(f: Field, v: Value): (bytes: seq<byte>)
    requires WellTyped(f.kind, v)
    ensures |bytes| == TagSize(f.number, f.kind) + ValueSize(f.kind, v)
  {
    EncodeVarint(FieldTag(f)) + ValueBytes(f.kind, v)
  }

  // ---------------------------------------------------------------------------
  // Lists

  /** dataSize: the elements' untagged sizes added up. */
  function DataSize(t: FieldType, vs: seq<Value>): nat
    requires AllWellTyped(t, vs)
  {
    if |vs| == 0 then 0 else ValueSize(t, vs[0]) + DataSize(t, vs[1..])
  }

  /** The write pass of an unpacked list: each element under its own tag. */
  function TaggedList(f: Field, vs: seq<Value>): seq<byte>
    requires AllWellTyped(f.kind, vs)
  {
    if |vs| == 0 then [] else TaggedBytes(f, vs[0]) + TaggedList(f, vs[1..])
  }

  function NumbersOf(vs: seq<Value>): (ns: seq<int>)
    requires forall i :: 0 <= i < |vs| ==> vs[i].Num?
    ensures |ns| == |vs| && forall i :: 0 <= i < |vs| ==> ns[i] == vs[i].n
  {
    if |vs| == 0 then [] else [vs[0].n] + NumbersOf(vs[1..])
  }

  function AsValues(ns: seq<int>): (vs: seq<Value>)
    ensures |vs| == |ns| && forall i :: 0 <= i < |ns| ==> vs[i] == Num(ns[i])
  {
    if |ns| == 0 then [] else [Num(ns[0])] + AsValues(ns[1..])
  }

  /** The raw C array behind a scalar list holds the same numbers, and dataSize is their run size. */
  lemma NumbersOfScalars(t: FieldType, vs: seq<Value>)
    requires IsScalarType(t) && AllWellTyped(t, vs)
    ensures AllInRange(t, NumbersOf(vs))
    ensures DataSize(t, vs) == RunSize(t, NumbersOf(vs))
    ensures AsValues(NumbersOf(vs)) == vs
  {
    NumbersInRange(t, vs);
    DataSizeIsRunSize(t, vs);
    assert AsValues(NumbersOf(vs)) == vs by {
      forall i | 0 <= i < |vs|
        ensures AsValues(NumbersOf(vs))[i] == vs[i]
      {
        assert WellTyped(t, vs[i]);
      }
    }
  }

  lemma NumbersInRange(t: FieldType, vs: seq<Value>)
    requires IsScalarType(t) && AllWellTyped(t, vs)
    ensures AllInRange(t, NumbersOf(vs))
  {
    forall i | 0 <= i < |vs|
      ensures InRange(t, NumbersOf(vs)[i])
    {
      assert WellTyped(t, vs[i]);
    }
  }

  lemma {:induction false} DataSizeIsRunSize(t: FieldType, vs: seq<Value>)
    requires IsScalarType(t) && AllWellTyped(t, vs)
    ensures AllInRange(t, NumbersOf(vs))
    ensures DataSize(t, vs) == RunSize(t, NumbersOf(vs))
  {
    NumbersInRange(t, vs);
    if |vs| > 0 {
      var ns := NumbersOf(vs);
      DataSizeIsRunSize(t, vs[1..]);
      assert ns[1..] == NumbersOf(vs[1..]);
      assert RunSize(t, ns) == SizeNoTag(t, ns[0]) + RunSize(t, ns[1..]);
    }
  }

  /** The tag a packed field's run starts with. */
  function PackedTag(f: Field): nat
  {
    MakeTag(f.number, LengthDelimited)
  }

  /**
   * The write pass of a packed field: nothing for an empty list, otherwise
   * the tag, the memoized length as a raw 32-bit varint, and the untagged elements.
   */
  function PackedBytes(f: Field, ns: seq<int>, memo: int): seq<byte>
    requires IsScalarType(f.kind) && AllInRange(f.kind, ns)
  {
    if |ns| == 0 then []
    else EncodeVarint(PackedTag(f)) + EncodeVarint(memo % TWO_32) + EncodeRun(f.kind, ns)
  }

  /** The write pass of a repeated field, given what the memo holds. */
  function ListBytes(f: Field, vs: seq<Value>, memo: int): seq<byte>
    requires AllWellTyped(f.kind, vs) && (f.packed ==> IsScalarType(f.kind))
  {
    if f.packed then
      NumbersOfScalars(f.kind, vs);
      PackedBytes(f, NumbersOf(vs), memo)
    else TaggedList(f, vs)
  }

  /**
   * How a size pass sizes a packed length prefix: scalar fields call
   * computeInt32SizeNoTag, enum fields computeRawVarint32Size.
   */
  datatype PrefixSizing = Int32NoTag | RawVarint32

  function PrefixSize(p: PrefixSizing, dataSize: int): nat
  {
    match p
    case Int32NoTag => Int32SizeNoTag(dataSize)
    case RawVarint32 => RawVarint32Size(dataSize)
  }

  /**
   * The size pass of a repeated field: dataSize, plus one tag and the length
   * prefix for a non-empty packed list, or one tag per element otherwise.
   */
  function ListSize(f: Field, vs: seq<Value>, p: PrefixSizing): nat
    requires AllWellTyped(f.kind, vs)
  {
    var dataSize := DataSize(f.kind, vs);
    if f.packed then dataSize + (if |vs| > 0 then TagSize(f.number, f.kind) + PrefixSize(p, dataSize) else 0)
    else dataSize + TagsSize(f, |vs|)
  }

  /** `tag_size * count`: one tag per element of an unpacked list. */
  function TagsSize(f: Field, count: nat): nat
  {
    var each := TagSize(f.number, f.kind);
    ProductOfNaturals(each, count);
    each * count
  }

  lemma ProductOfNaturals(a: nat, b: nat)
    ensures a * b >= 0
  {
  }

  lemma {:induction false} TaggedListLength(f: Field, vs: seq<Value>)
    requires AllWellTyped(f.kind, vs)
    ensures |TaggedList(f, vs)| == DataSize(f.kind, vs) + TagSize(f.number, f.kind) * |vs|
  {
    if |vs| > 0 {
      TaggedListLength(f, vs[1..]);
      TaggedListLengthStep(f, vs);
    }
  }

  lemma TaggedListLengthStep(f: Field, vs: seq<Value>)
    requires AllWellTyped(f.kind, vs) && |vs| > 0
    requires |TaggedList(f, vs[1..])| == DataSize(f.kind, vs[1..]) + TagSize(f.number, f.kind) * |vs[1..]|
    ensures |TaggedList(f, vs)| == DataSize(f.kind, vs) + TagSize(f.number, f.kind) * |vs|
  {
    var ts := TagSize(f.number, f.kind);
    var rest := vs[1..];
    var k := |rest|;
    assert |TaggedList(f, vs)| == |TaggedBytes(f, vs[0])| + |TaggedList(f, rest)|;
    assert DataSize(f.kind, vs) == ValueSize(f.kind, vs[0]) + DataSize(f.kind, rest);
    assert |vs| == k + 1;
    MultiplyStep(ts, k);
  }

  lemma MultiplyStep(a: nat, k: nat)
    ensures a * (k + 1) == a * k + a
  {
  }

  /**
   * With the memo holding dataSize (below 2^31, as the int32 dataSize of the
   * generated code is), the size pass counts exactly the bytes the write pass
   * writes, packed or not, whichever of the two length-prefix sizes is used.
   */
  lemma ListSizeMatchesBytes(f: Field, vs: seq<Value>)
    requires AllWellTyped(f.kind, vs) && (f.packed ==> IsScalarType(f.kind)) && DataSize(f.kind, vs) < TWO_31
    ensures ListSize(f, vs, Int32NoTag) == |ListBytes(f, vs, DataSize(f.kind, vs))|
    ensures ListSize(f, vs, RawVarint32) == |ListBytes(f, vs, DataSize(f.kind, vs))|
  {
    var d := DataSize(f.kind, vs);
    LengthPrefixSizesAgree(d);
    assert PrefixSize(Int32NoTag, d) == PrefixSize(RawVarint32, d);
    if f.packed {
      PackedSizeMatchesBytes(f, vs, d);
    } else {
      TaggedListLength(f, vs);
      assert ListSize(f, vs, Int32NoTag) == d + TagSize(f.number, f.kind) * |vs|;
    }
  }

  lemma PackedSizeMatchesBytes(f: Field, vs: seq<Value>, d: nat)
    requires AllWellTyped(f.kind, vs) && f.packed && IsScalarType(f.kind)
    requires d == DataSize(f.kind, vs) && d < TWO_31
    ensures ListSize(f, vs, Int32NoTag) == |ListBytes(f, vs, d)|
  {
    NumbersOfScalars(f.kind, vs);
    var ns := NumbersOf(vs);
    RunSizeIsEncodedLength(f.kind, ns);
    if |vs| > 0 {
      assert d % TWO_32 == d;
      TagSizeIgnoresWireType(f.number, LengthDelimited);
      TagSizeIgnoresWireType(f.number, WireTypeForType(f.kind));
      assert |PackedBytes(f, ns, d)| == VarintSize(PackedTag(f)) + VarintSize(d) + RunSize(f.kind, ns);
      LengthPrefixSizesAgree(d);
    }
  }

  lemma {:induction false} DataSizeSnoc(t: FieldType, vs: seq<Value>, v: Value)
    requires AllWellTyped(t, vs) && WellTyped(t, v)
    ensures AllWellTyped(t, vs + [v])
    ensures DataSize(t, vs + [v]) == DataSize(t, vs) + ValueSize(t, v)
  {
    if |vs| > 0 {
      assert (vs + [v])[1..] == vs[1..] + [v];
      DataSizeSnoc(t, vs[1..], v);
    }
  }

  lemma {:induction false} TaggedListSnoc(f: Field, vs: seq<Value>, v: Value)
    requires AllWellTyped(f.kind, vs) && WellTyped(f.kind, v)
    ensures AllWellTyped(f.kind, vs + [v])
    ensures TaggedList(f, vs + [v]) == TaggedList(f, vs) + TaggedBytes(f, v)
  {
    if |vs| > 0 {
      var longer := vs + [v];
      assert longer[0] == vs[0] && longer[1..] == vs[1..] + [v];
      TaggedListSnoc(f, vs[1..], v);
      assert TaggedList(f, longer) == TaggedBytes(f, vs[0]) + TaggedList(f, vs[1..] + [v]);
      AppendTwice(TaggedBytes(f, vs[0]), TaggedList(f, vs[1..]), TaggedBytes(f, v));
    } else {
      assert vs + [v] == [v];
    }
  }

  lemma {:induction false} EncodeRunSnoc(t: FieldType, ns: seq<int>, x: int)
    requires IsScalarType(t) && AllInRange(t, ns) && InRange(t, x)
    ensures AllInRange(t, ns + [x])
    ensures EncodeRun(t, ns + [x]) == EncodeRun(t, ns) + EncodeNoTag(t, x)
  {
    if |ns| > 0 {
      assert (ns + [x])[1..] == ns[1..] + [x];
      EncodeRunSnoc(t, ns[1..], x);
    }
  }

  // ---------------------------------------------------------------------------
  // Reading a packed run back

  /** `Some(done + rest)` when the rest decodes, None when it does not. */
  function Prepend(done: seq<int>, rest: Option<seq<int>>): Option<seq<int>>
  {
    match rest
    case None => None
    case Some(r) => Some(done + r)
  }

  lemma PrependStep(done: seq<int>, x: int, rest: Option<seq<int>>)
    ensures Prepend(done + [x], rest) == Prepend(done, match rest case None => None case Some(r) => Some([x] + r))
  {
    if rest.Some? {
      assert done + [x] + rest.value == done + ([x] + rest.value);
    }
  }

  lemma AsValuesSnoc(ns: seq<int>, x: int)
    ensures AsValues(ns + [x]) == AsValues(ns) + [Num(x)]
  {
  }

  /**
   * What the reader makes of a packed run at the front of a window: a varint
   * length read as an int32 and that many bytes after it; None when the
   * length is negative or runs past the window.
   */
  function PackedPayload(window: seq<byte>): (r: Option<(seq<byte>, nat)>)
    ensures r.Some? ==> r.value.1 + |r.value.0| <= |window|
  {
    match DecodeVarint(window)
    case None => None
    case Some((w, n)) =>
      var length := FromWireImage(Int32, w);
      if 0 <= length && n + length <= |window| then Some((window[n..n + length], n)) else None
  }

  /**
   * The bytes the write pass produced for a non-empty packed list, when the
   * memo holds the payload size d: after the tag the reader finds the length
   * d, takes exactly the run, and the run reads back as the list.
   */
  lemma PackedRoundTrip(f: Field, ns: seq<int>, d: nat, rest: seq<byte>)
    requires IsScalarType(f.kind) && AllInRange(f.kind, ns) && |ns| > 0
    requires d == RunSize(f.kind, ns) && d < TWO_31
    ensures PackedBytes(f, ns, d) == EncodeVarint(PackedTag(f)) + EncodeVarint(d) + EncodeRun(f.kind, ns)
    ensures PackedPayload(EncodeVarint(d) + EncodeRun(f.kind, ns) + rest) == Some((EncodeRun(f.kind, ns), VarintSize(d)))
    ensures DecodeRun(f.kind, EncodeRun(f.kind, ns)) == Some(ns)
  {
    assert d % TWO_32 == d;
    RunSizeIsEncodedLength(f.kind, ns);
    LengthThenPayload(d, EncodeRun(f.kind, ns), rest);
    RunRoundTrip(f.kind, ns);
  }
}
