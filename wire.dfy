/**
 * The Protocol Buffers wire format as the generated code relies on it:
 * declared field types, wire types, tags ("Message Structure" in the
 * Protocol Buffers Encoding guide), base-128 varints ("Base 128 Varints"),
 * fixed-width little-endian words, and the packed payload of a repeated
 * scalar field ("Packed Repeated Fields").
 */
module Wire {
  import opened Wrappers

  type byte = x: int | 0 <= x < 256

  /** The eighteen declared field types, in the order of their type codes. */
  datatype FieldType =
    | Double | Float | Int64 | Uint64 | Int32 | Fixed64 | Fixed32 | Bool | String
    | Group | Message | Bytes | Uint32 | Enum | Sfixed32 | Sfixed64 | Sint32 | Sint64

  /** The numeric type code of a declared type (1 for double ... 18 for sint64). */
  function TypeCode(t: FieldType): (c: nat)
    ensures 1 <= c <= 18
    ensures TypeOfCode(c) == Some(t)
  {
    match t
    case Double => 1    case Float => 2     case Int64 => 3     case Uint64 => 4
    case Int32 => 5     case Fixed64 => 6   case Fixed32 => 7   case Bool => 8
    case String => 9    case Group => 10    case Message => 11  case Bytes => 12
    case Uint32 => 13   case Enum => 14     case Sfixed32 => 15 case Sfixed64 => 16
    case Sint32 => 17   case Sint64 => 18
  }

  function TypeOfCode(c: nat): Option<FieldType>
  {
    if c == 1 then Some(Double) else if c == 2 then Some(Float)
    else if c == 3 then Some(Int64) else if c == 4 then Some(Uint64)
    else if c == 5 then Some(Int32) else if c == 6 then Some(Fixed64)
    else if c == 7 then Some(Fixed32) else if c == 8 then Some(Bool)
    else if c == 9 then Some(String) else if c == 10 then Some(Group)
    else if c == 11 then Some(Message) else if c == 12 then Some(Bytes)
    else if c == 13 then Some(Uint32) else if c == 14 then Some(Enum)
    else if c == 15 then Some(Sfixed32) else if c == 16 then Some(Sfixed64)
    else if c == 17 then Some(Sint32) else if c == 18 then Some(Sint64)
    else None
  }

  /** Message and group fields hold a nested message (the C++ "message" cpp type). */
  predicate IsMessageType(t: FieldType)
  {
    t == Message || t == Group
  }

  /** Types whose values are single numbers on the wire: everything but strings, bytes and messages. */
  predicate IsScalarType(t: FieldType)
  {
    !(t == String || t == Bytes || IsMessageType(t))
  }

  // ---------------------------------------------------------------------------
  // Wire types and tags

  datatype WireType = Varint | Fixed64Bit | LengthDelimited | StartGroup | EndGroup | Fixed32Bit

  function WireTypeCode(w: WireType): (c: nat)
    ensures c < 8
    ensures WireTypeOfCode(c) == Some(w)
  {
    match w
    case Varint => 0
    case Fixed64Bit => 1
    case LengthDelimited => 2
    case StartGroup => 3
    case EndGroup => 4
    case Fixed32Bit => 5
  }

  function WireTypeOfCode(c: nat): Option<WireType>
  {
    if c == 0 then Some(Varint) else if c == 1 then Some(Fixed64Bit)
    else if c == 2 then Some(LengthDelimited) else if c == 3 then Some(StartGroup)
    else if c == 4 then Some(EndGroup) else if c == 5 then Some(Fixed32Bit)
    else None
  }

  /** The wire type each declared type is encoded with when it is not packed. */
  function WireTypeForType(t: FieldType): WireType
  {
    match t
    case Int32 | Int64 | Uint32 | Uint64 | Sint32 | Sint64 | Bool | Enum => Varint
    case Fixed64 | Sfixed64 | Double => Fixed64Bit
    case Fixed32 | Sfixed32 | Float => Fixed32Bit
    case String | Bytes | Message => LengthDelimited
    case Group => StartGroup
  }

  /** The wire type of a field: a packed field is one length-delimited run. */
  function WireTypeForField(t: FieldType, packed: bool): (w: WireType)
    ensures packed ==> w == LengthDelimited
    ensures !packed ==> w == WireTypeForType(t)
  {
    if packed then LengthDelimited else WireTypeForType(t)
  }

  /** tag = (field_number << 3) | wire_type. */
  function MakeTag(number: nat, w: WireType): (tag: nat)
    ensures tag / 8 == number && tag % 8 == WireTypeCode(w)
    ensures TagFieldNumber(tag) == number && TagWireType(tag) == Some(w)
    ensures number >= 1 ==> tag >= 8
  {
    number * 8 + WireTypeCode(w)
  }

  function TagFieldNumber(tag: nat): nat
  {
    tag / 8
  }

  function TagWireType(tag: nat): Option<WireType>
  {
    WireTypeOfCode(tag % 8)
  }

  /** Distinct (number, wire type) pairs give distinct tags. */
  lemma MakeTagInjective(n1: nat, w1: WireType, n2: nat, w2: WireType)
    ensures MakeTag(n1, w1) == MakeTag(n2, w2) <==> n1 == n2 && w1 == w2
  {
    if MakeTag(n1, w1) == MakeTag(n2, w2) {
      assert Some(w1) == TagWireType(MakeTag(n1, w1)) == TagWireType(MakeTag(n2, w2)) == Some(w2);
    }
  }

  /** The largest field number a .proto file may declare. */
  const MAX_FIELD_NUMBER: nat := 0x1FFF_FFFF

  /** The tag of a legal field number fits the 32-bit word writeRawVarint32 takes. */
  lemma TagFitsWord(number: nat, w: WireType)
    requires number <= MAX_FIELD_NUMBER
    ensures MakeTag(number, w) < TWO_32
  {
  }

  // ---------------------------------------------------------------------------
  // Base-128 varints

  /** Number of bytes of the varint encoding of v: one per started group of seven bits. */
  function VarintSize(v: nat): (n: nat)
    ensures 1 <= n
    ensures n == 1 <==> v < 128
  {
    if v < 128 then 1 else 1 + VarintSize(v / 128)
  }

  function Pow128(k: nat): (p: nat)
    ensures p >= 1
  {
    if k == 0 then 1 else 128 * Pow128(k - 1)
  }

  /** A value below 128^k fits in k varint bytes. */
  lemma {:induction false} VarintSizeBound(v: nat, k: nat)
    requires 1 <= k && v < Pow128(k)
    ensures VarintSize(v) <= k
  {
    if v >= 128 {
      assert v / 128 < Pow128(k - 1);
      assert Pow128(0) == 1;
      assert k >= 2;
      VarintSizeBound(v / 128, k - 1);
    }
  }

  /** Every 32-bit value, so every tag of a field number below 2^29, takes at most five bytes. */
  lemma VarintSize32(v: nat)
    requires v < 0x1_0000_0000
    ensures VarintSize(v) <= 5
  {
    assert Pow128(5) == 0x8_0000_0000 by {
      assert Pow128(1) == 128;
      assert Pow128(2) == 16384;
      assert Pow128(3) == 2097152;
      assert Pow128(4) == 268435456;
    }
    VarintSizeBound(v, 5);
  }

  /** The low three bits of a tag never change its varint length. */
  lemma TagSizeIgnoresWireType(number: nat, w: WireType)
    ensures VarintSize(MakeTag(number, w)) == VarintSize(number * 8)
  {
    var c := WireTypeCode(w);
    if number * 8 >= 128 {
      assert (number * 8 + c) / 128 == (number * 8) / 128;
    }
  }

  /** Least significant group first; every byte but the last has its high bit set. */
  function EncodeVarint(v: nat): (bytes: seq<byte>)
    ensures |bytes| == VarintSize(v)
    ensures bytes[|bytes| - 1] < 128
    ensures forall i :: 0 <= i < |bytes| - 1 ==> bytes[i] >= 128
  {
    if v < 128 then [v] else [128 + v % 128] + EncodeVarint(v / 128)
  }

  /** Reads one varint from the front of s: its value and the number of bytes it took. */
  function DecodeVarint(s: seq<byte>): (r: Option<(nat, nat)>)
    ensures r.Some? ==> 1 <= r.value.1 <= |s|
  {
    if |s| == 0 then None
    else if s[0] < 128 then Some((s[0], 1))
    else match DecodeVarint(s[1..])
      case None => None
      case Some((v, n)) => Some(((s[0] - 128) + 128 * v, n + 1))
  }

  lemma {:induction false} VarintRoundTrip(v: nat, rest: seq<byte>)
    ensures DecodeVarint(EncodeVarint(v) + rest) == Some((v, VarintSize(v)))
  {
    var s := EncodeVarint(v) + rest;
    if v >= 128 {
      assert s[1..] == EncodeVarint(v / 128) + rest;
      VarintRoundTrip(v / 128, rest);
    }
  }

  /** computeRawVarint32Size: the varint length of the value as an unsigned 32-bit word. */
  function RawVarint32Size(v: int): nat
  {
    VarintSize(v % 0x1_0000_0000)
  }

  /** computeInt32SizeNoTag: a negative int32 is sign-extended to ten bytes. */
  function Int32SizeNoTag(v: int): nat
  {
    if v < 0 then 10 else VarintSize(v)
  }

  /** The two length-prefix sizes used by the packed size passes agree on every payload length. */
  lemma LengthPrefixSizesAgree(dataSize: int)
    requires 0 <= dataSize < 0x8000_0000
    ensures Int32SizeNoTag(dataSize) == RawVarint32Size(dataSize)
  {
  }

  // ---------------------------------------------------------------------------
  // Fixed widths

  /** For encodings with a fixed size, that size in bytes; otherwise -1. */
  function FixedSize(t: FieldType): (size: int)
    ensures size == -1 || size == 1 || size == 4 || size == 8
    ensures size == 4 <==> WireTypeForType(t) == Fixed32Bit
    ensures size == 8 <==> WireTypeForType(t) == Fixed64Bit
    ensures size == 1 <==> t == Bool
  {
    match t
    case Int32 | Int64 | Uint32 | Uint64 | Sint32 | Sint64 | Enum => -1
    case Fixed32 | Sfixed32 | Float => 4
    case Fixed64 | Sfixed64 | Double => 8
    case Bool => 1
    case String | Bytes | Group | Message => -1
  }

  function Pow256(k: nat): (p: nat)
    ensures p >= 1
  {
    if k == 0 then 1 else 256 * Pow256(k - 1)
  }

  lemma Pow256Values()
    ensures Pow256(1) == 256 && Pow256(4) == 0x1_0000_0000 && Pow256(8) == 0x1_0000_0000_0000_0000
  {
    assert Pow256(2) == 65536;
    assert Pow256(3) == 16777216;
    assert Pow256(5) == 0x100_0000_0000;
    assert Pow256(6) == 0x1_0000_0000_0000;
    assert Pow256(7) == 0x100_0000_0000_0000;
  }

  /** The k-byte little-endian encoding of w. */
  function LittleEndian(w: nat, k: nat): (bytes: seq<byte>)
    requires w < Pow256(k)
    ensures |bytes| == k
  {
    if k == 0 then [] else [w % 256] + LittleEndian(w / 256, k - 1)
  }

  function FromLittleEndian(s: seq<byte>): nat
  {
    if |s| == 0 then 0 else s[0] + 256 * FromLittleEndian(s[1..])
  }

  lemma {:induction false} LittleEndianRoundTrip(w: nat, k: nat)
    requires w < Pow256(k)
    ensures FromLittleEndian(LittleEndian(w, k)) == w
  {
    if k > 0 {
      var s := LittleEndian(w, k);
      assert s[1..] == LittleEndian(w / 256, k - 1);
      LittleEndianRoundTrip(w / 256, k - 1);
    }
  }

  // ---------------------------------------------------------------------------
  // Scalar values and their wire images

  const TWO_31: int := 0x8000_0000
  const TWO_32: int := 0x1_0000_0000
  const TWO_63: int := 0x8000_0000_0000_0000
  const TWO_64: int := 0x1_0000_0000_0000_0000

  /**
   * The values a scalar field of type t can hold: the C type's range for the
   * integers and enums, 0/1 for BOOL, and the IEEE bit pattern for float and double.
   */
  predicate InRange(t: FieldType, v: int)
  {
    match t
    case Int32 | Sint32 | Sfixed32 | Enum => -TWO_31 <= v < TWO_31
    case Uint32 | Fixed32 | Float => 0 <= v < TWO_32
    case Int64 | Sint64 | Sfixed64 => -TWO_63 <= v < TWO_63
    case Uint64 | Fixed64 | Double => 0 <= v < TWO_64
    case Bool => 0 <= v <= 1
    case String | Bytes | Group | Message => false
  }

  /** The unsigned word a value is written as (two's complement, or ZigZag for sint). */
  function WireImage(t: FieldType, v: int): (w: nat)
    requires InRange(t, v)
    ensures w < TWO_64
    ensures WireTypeForType(t) == Fixed32Bit ==> w < TWO_32
  {
    match t
    case Int32 | Int64 | Enum => if v >= 0 then v else v + TWO_64
    case Sint32 | Sint64 => if v >= 0 then 2 * v else -2 * v - 1
    case Sfixed32 => if v >= 0 then v else v + TWO_32
    case Sfixed64 => if v >= 0 then v else v + TWO_64
    case _ => v
  }

  /** What the reader returns for a word read from the wire (readInt32, readSInt64, ...). */
  function FromWireImage(t: FieldType, w: nat): int
  {
    match t
    case Int32 | Enum => var x := w % TWO_32; if x >= TWO_31 then x - TWO_32 else x
    case Int64 => var x := w % TWO_64; if x >= TWO_63 then x - TWO_64 else x
    case Uint32 => w % TWO_32
    case Uint64 => w % TWO_64
    case Sint32 => var x := w % TWO_32; if x % 2 == 0 then x / 2 else -(x + 1) / 2
    case Sint64 => var x := w % TWO_64; if x % 2 == 0 then x / 2 else -(x + 1) / 2
    case Sfixed32 => if w >= TWO_31 then w - TWO_32 else w
    case Sfixed64 => if w >= TWO_63 then w - TWO_64 else w
    case Bool => if w % TWO_32 != 0 then 1 else 0
    case _ => w
  }

  lemma WireImageRoundTrip(t: FieldType, v: int)
    requires InRange(t, v)
    ensures FromWireImage(t, WireImage(t, v)) == v
  {
    var w := WireImage(t, v);
    match t {
      case Int32 =>
        if v < 0 {
          assert w == (TWO_32 - 1) * TWO_32 + (v + TWO_32);
        }
      case Enum =>
        if v < 0 {
          assert w == (TWO_32 - 1) * TWO_32 + (v + TWO_32);
        }
      case _ =>
    }
  }

  /** computeXSizeNoTag for a scalar: the fixed width, or the varint length of the wire image. */
  function SizeNoTag(t: FieldType, v: int): (n: nat)
    requires IsScalarType(t) && InRange(t, v)
    ensures FixedSize(t) != -1 ==> n == FixedSize(t)
  {
    if FixedSize(t) != -1 then FixedSize(t) else VarintSize(WireImage(t, v))
  }

  /** writeXNoTag for a scalar. */
  function EncodeNoTag(t: FieldType, v: int): (bytes: seq<byte>)
    requires IsScalarType(t) && InRange(t, v)
    ensures |bytes| == SizeNoTag(t, v)
  {
    Pow256Values();
    match WireTypeForType(t)
    case Fixed32Bit => LittleEndian(WireImage(t, v), 4)
    case Fixed64Bit => LittleEndian(WireImage(t, v), 8)
    case _ => EncodeVarint(WireImage(t, v))
  }

  /** readX for a scalar: the value at the front of s and the bytes it took, or None if s is cut short. */
  function DecodeNoTag(t: FieldType, s: seq<byte>): (r: Option<(int, nat)>)
    requires IsScalarType(t)
    ensures r.Some? ==> 1 <= r.value.1 <= |s|
  {
    match WireTypeForType(t)
    case Fixed32Bit => if |s| < 4 then None else Some((FromWireImage(t, FromLittleEndian(s[..4])), 4))
    case Fixed64Bit => if |s| < 8 then None else Some((FromWireImage(t, FromLittleEndian(s[..8])), 8))
    case _ =>
      match DecodeVarint(s)
      case None => None
      case Some((w, n)) => Some((FromWireImage(t, w), n))
  }

  lemma ElementRoundTrip(t: FieldType, v: int, rest: seq<byte>)
    requires IsScalarType(t) && InRange(t, v)
    ensures DecodeNoTag(t, EncodeNoTag(t, v) + rest) == Some((v, SizeNoTag(t, v)))
  {
    Pow256Values();
    var w := WireImage(t, v);
    var s := EncodeNoTag(t, v) + rest;
    WireImageRoundTrip(t, v);
    match WireTypeForType(t) {
      case Fixed32Bit =>
        assert s[..4] == LittleEndian(w, 4);
        LittleEndianRoundTrip(w, 4);
      case Fixed64Bit =>
        assert s[..8] == LittleEndian(w, 8);
        LittleEndianRoundTrip(w, 8);
      case _ =>
        VarintRoundTrip(w, rest);
    }
  }

  // ---------------------------------------------------------------------------
  // Packed runs: the untagged elements of a packed field, back to back

  predicate AllInRange(t: FieldType, vs: seq<int>)
  {
    forall i :: 0 <= i < |vs| ==> InRange(t, vs[i])
  }

  /** The sum of the elements' untagged sizes: the generated code's dataSize. */
  function RunSize(t: FieldType, vs: seq<int>): nat
    requires IsScalarType(t) && AllInRange(t, vs)
  {
    if |vs| == 0 then 0 else SizeNoTag(t, vs[0]) + RunSize(t, vs[1..])
  }

  function EncodeRun(t: FieldType, vs: seq<int>): seq<byte>
    requires IsScalarType(t) && AllInRange(t, vs)
  {
    if |vs| == 0 then [] else EncodeNoTag(t, vs[0]) + EncodeRun(t, vs[1..])
  }

  /** Reads elements until the run is used up; None if the last element is cut short. */
  function DecodeRun(t: FieldType, s: seq<byte>): Option<seq<int>>
    requires IsScalarType(t)
    decreases |s|
  {
    if |s| == 0 then Some([])
    else match DecodeNoTag(t, s)
      case None => None
      case Some((v, n)) =>
        match DecodeRun(t, s[n..])
        case None => None
        case Some(vs) => Some([v] + vs)
  }

  /** The payload length the size pass computes is the number of bytes the encode pass writes. */
  lemma {:induction false} RunSizeIsEncodedLength(t: FieldType, vs: seq<int>)
    requires IsScalarType(t) && AllInRange(t, vs)
    ensures |EncodeRun(t, vs)| == RunSize(t, vs)
  {
    if |vs| > 0 {
      RunSizeIsEncodedLength(t, vs[1..]);
    }
  }

  /** For fixed-width types the per-element sum is fixed_size * count. */
  lemma {:induction false} FixedRunSize(t: FieldType, vs: seq<int>)
    requires IsScalarType(t) && AllInRange(t, vs) && FixedSize(t) != -1
    ensures RunSize(t, vs) == FixedSize(t) * |vs|
  {
    if |vs| > 0 {
      FixedRunSize(t, vs[1..]);
    }
  }

  lemma {:induction false} RunRoundTrip(t: FieldType, vs: seq<int>)
    requires IsScalarType(t) && AllInRange(t, vs)
    ensures DecodeRun(t, EncodeRun(t, vs)) == Some(vs)
  {
    if |vs| > 0 {
      var head := EncodeNoTag(t, vs[0]);
      var rest := EncodeRun(t, vs[1..]);
      var s := head + rest;
      assert EncodeRun(t, vs) == s;
      ElementRoundTrip(t, vs[0], rest);
      assert s[|head|..] == rest;
      RunRoundTrip(t, vs[1..]);
      DecodeRunCons(t, s, vs[0], |head|, vs[1..]);
      assert [vs[0]] + vs[1..] == vs;
    }
  }

  /** A run whose first element decodes and whose remainder decodes as a run decodes as their sequence. */
  lemma DecodeRunCons(t: FieldType, s: seq<byte>, v: int, n: nat, vs: seq<int>)
    requires IsScalarType(t) && DecodeNoTag(t, s) == Some((v, n)) && DecodeRun(t, s[n..]) == Some(vs)
    ensures DecodeRun(t, s) == Some([v] + vs)
  {
  }

  /** Tag length for a field: one tag, or a start and an end tag for a group. */
  function TagSize(number: nat, t: FieldType): (n: nat)
    ensures t != Group ==> n == VarintSize(MakeTag(number, WireTypeForType(t)))
  {
    TagSizeIgnoresWireType(number, WireTypeForType(t));
    if t == Group then 2 * VarintSize(number * 8) else VarintSize(number * 8)
  }
}
