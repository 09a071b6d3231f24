/**
 * The two coded streams the generated code talks to, reduced to what the
 * emitted fragments use: an output stream that appends encodings, and an
 * input stream with a read position and a pushed limit.
 */
module Streams {
  import opened Wrappers
  import opened Wire

  /** An output stream: the bytes written so far. */
  class CodedOutput {
    var bytes: seq<byte>

    constructor ()
      ensures bytes == []
    {
      bytes := [];
    }

    /** writeRawVarint32: the value as an unsigned 32-bit word, base-128. */
    method WriteRawVarint32(v: int)
      modifies this
      ensures bytes == old(bytes) + EncodeVarint(v % TWO_32)
    {
      bytes := bytes + EncodeVarint(v % TWO_32);
    }

    /** writeTag:format: the tag as a varint. */
    method WriteTag(number: nat, w: WireType)
      modifies this
      ensures bytes == old(bytes) + EncodeVarint(MakeTag(number, w))
    {
      bytes := bytes + EncodeVarint(MakeTag(number, w));
    }

    /** writeRawData: the bytes as they are. */
    method WriteRawBytes(b: seq<byte>)
      modifies this
      ensures bytes == old(bytes) + b
    {
      bytes := bytes + b;
    }

    /** writeXNoTag for a scalar. */
    method WriteNoTag(t: FieldType, v: int)
      requires IsScalarType(t) && InRange(t, v)
      modifies this
      ensures bytes == old(bytes) + EncodeNoTag(t, v)
    {
      bytes := bytes + EncodeNoTag(t, v);
    }

    /** writeX:number value:v for a scalar: the element's own tag, then the value. */
    method WriteField(number: nat, t: FieldType, v: int)
      requires IsScalarType(t) && InRange(t, v)
      modifies this
      ensures bytes == old(bytes) + EncodeVarint(MakeTag(number, WireTypeForType(t))) + EncodeNoTag(t, v)
    {
      bytes := bytes + EncodeVarint(MakeTag(number, WireTypeForType(t))) + EncodeNoTag(t, v);
    }
  }

  /** An input stream over a buffer: the read position and the current limit. */
  class CodedInput {
    var data: seq<byte>
    var pos: nat
    var limit: nat

    ghost predicate Valid()
      reads this
    {
      pos <= limit <= |data|
    }

    constructor (data: seq<byte>)
      ensures Valid() && this.data == data && pos == 0 && limit == |data|
    {
      this.data := data;
      pos := 0;
      limit := |data|;
    }

    /** bytesUntilLimit. */
    function BytesUntilLimit(): (n: nat)
      reads this
      requires Valid()
      ensures n == 0 <==> pos == limit
    {
      limit - pos
    }

    /** The bytes between the position and the limit: what a read may consume. */
    function Window(): seq<byte>
      reads this
      requires Valid()
    {
      data[pos..limit]
    }

    /**
     * readRawVarint32: a varint read from the window, cut to its low 32 bits
     * and read as a signed int32; None when the window ends inside it.
     */
    method ReadRawVarint32() returns (r: Option<int>)
      requires Valid()
      modifies this
      ensures Valid() && data == old(data) && limit == old(limit)
      ensures r.None? <==> DecodeVarint(old(Window())).None?
      ensures r.Some? ==> var (w, n) := DecodeVarint(old(Window())).value;
                          r.value == FromWireImage(Int32, w) && pos == old(pos) + n
      ensures r.None? ==> pos == old(pos)
    {
      var d := DecodeVarint(data[pos..limit]);
      match d {
        case None => r := None;
        case Some((w, n)) =>
          pos := pos + n;
          r := Some(FromWireImage(Int32, w));
      }
    }

    /** readX for a scalar; None when the window ends inside the value. */
    method ReadNoTag(t: FieldType) returns (r: Option<int>)
      requires Valid() && IsScalarType(t)
      modifies this
      ensures Valid() && data == old(data) && limit == old(limit)
      ensures r.None? <==> DecodeNoTag(t, old(Window())).None?
      ensures r.Some? ==> var (v, n) := DecodeNoTag(t, old(Window())).value;
                          r.value == v && pos == old(pos) + n
      ensures r.None? ==> pos == old(pos)
    {
      var d := DecodeNoTag(t, data[pos..limit]);
      match d {
        case None => r := None;
        case Some((v, n)) =>
          pos := pos + n;
          r := Some(v);
      }
    }

    /** readRawData: the next n bytes; None when fewer than n (or a negative n) remain before the limit. */
    method ReadRawBytes(n: int) returns (r: Option<seq<byte>>)
      requires Valid()
      modifies this
      ensures Valid() && data == old(data) && limit == old(limit)
      ensures r.Some? <==> 0 <= n <= |old(Window())|
      ensures r.Some? ==> r.value == old(Window())[..n] && pos == old(pos) + n
      ensures r.None? ==> pos == old(pos)
    {
      if n < 0 || pos + n > limit {
        return None;
      }
      r := Some(data[pos..pos + n]);
      pos := pos + n;
    }

    /**
     * pushLimit: the limit becomes pos + length and the old limit is returned;
     * a negative length or one that reaches past the current limit fails.
     */
    method PushLimit(length: int) returns (r: Option<nat>)
      requires Valid()
      modifies this
      ensures Valid() && data == old(data) && pos == old(pos)
      ensures r.Some? <==> 0 <= length && old(pos) + length <= old(limit)
      ensures r.Some? ==> r.value == old(limit) && limit == old(pos) + length
      ensures r.None? ==> limit == old(limit)
    {
      if length < 0 || pos + length > limit {
        return None;
      }
      r := Some(limit);
      limit := pos + length;
    }

    /** popLimit: the saved limit comes back. */
    method PopLimit(oldLimit: nat)
      requires Valid() && limit <= oldLimit <= |data|
      modifies this
      ensures Valid() && data == old(data) && pos == old(pos) && limit == oldLimit
    {
      limit := oldLimit;
    }
  }
}
