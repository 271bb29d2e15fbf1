/**
  The "Get SEL Time" response (section 31.10 of IPMI v2.0): the body's bytes
  land in `SecondsOffset`, whose first four bytes are a signed 32-bit count of
  seconds, least-significant byte first.
 */
module SelTime {
  import opened Results
  import opened Bytes
  import opened MessageData
  import opened Codec
  import opened Tags

  /** The message is a response of the Storage function, command GetSelTime. */
  function Tag(): (t: MessageTag)
    ensures t.netFn == Storage && t.command == GetSelTime && t.direction == Response
  {
    MessageTag(Storage, GetSelTime, Response)
  }

  /** `SecondsOffset` sits at offset 0 with an inferred length: as a byte array it takes the rest of the body. */
  const SecondsOffsetDescriptor := AtOffset(0)

  /** The exceptions `BitConverter.ToInt32` throws. */
  datatype ConversionError = ArgumentNull | ArgumentOutOfRange | Argument

  /**
    `BitConverter.ToInt32(value, startIndex)` on a little-endian host: a null
    array, a start index outside the array, or fewer than four bytes from the
    start index are refused; otherwise the four bytes are read least-significant
    first as a two's-complement number.
   */
  function ToInt32(value: Option<seq<byte>>, startIndex: int): (r: Result<int32, ConversionError>)
    ensures r.Success? <==> value.Some? && 0 <= startIndex && startIndex + 4 <= |value.value|
    ensures r == Failure(ArgumentNull) <==> value.None?
    ensures r == Failure(ArgumentOutOfRange) <==> value.Some? && (startIndex < 0 || startIndex >= |value.value|)
    ensures r == Failure(Argument) <==> value.Some? && 0 <= startIndex < |value.value| < startIndex + 4
  {
    match value
    case None => Failure(ArgumentNull)
    case Some(bs) =>
      if startIndex < 0 || startIndex >= |bs| then Failure(ArgumentOutOfRange)
      else if startIndex > |bs| - 4 then Failure(Argument)
      else
        Pow256Four();
        Success(ToSigned32(LeValue(bs[startIndex..startIndex + 4])))
  }

  /** The four little-endian bytes of a C# `int` (`BitConverter.GetBytes`), the inverse of ToInt32. */
  function GetBytes(x: int32): (bs: seq<byte>)
    ensures |bs| == 4
    ensures ToInt32(Some(bs), 0) == Success(x)
  {
    var bs := LeBytes(ToUnsigned32(x), 4);
    assert bs[0..4] == bs;
    LeValueOfLeBytesFits(ToUnsigned32(x), 4);
    bs
  }

  /** Byte 0 carries the lowest eight bits and byte 3 the highest (and the sign). */
  lemma ToInt32Weights(bs: seq<byte>)
    requires |bs| >= 4
    ensures ToInt32(Some(bs), 0) == Success(ToSigned32(bs[0] as int + 0x100 * bs[1] as int + 0x1_0000 * bs[2] as int + 0x100_0000 * bs[3] as int))
  {
    var w := bs[..4];
    assert w[1..][1..][1..][1..] == [];
    assert LeValue(w[1..][1..][1..]) == bs[3];
    assert LeValue(w[1..][1..]) == bs[2] as int + 0x100 * bs[3] as int;
    assert LeValue(w[1..]) == bs[1] as int + 0x100 * bs[2] as int + 0x1_0000 * bs[3] as int;
  }

  /** The value is negative exactly when the top bit of byte 3 is set. */
  lemma ToInt32Sign(bs: seq<byte>)
    requires |bs| >= 4
    ensures ToInt32(Some(bs), 0).Success?
    ensures ToInt32(Some(bs), 0).value < 0 <==> bs[3] >= 0x80
  {
    ToInt32Weights(bs);
  }

  /** Only the four bytes at the start index matter: anything after them is ignored. */
  lemma ToInt32IgnoresTail(s: seq<byte>, t: seq<byte>)
    requires |s| >= 4 && |t| >= 4 && s[..4] == t[..4]
    ensures ToInt32(Some(s), 0) == ToInt32(Some(t), 0)
  {
  }

  /** Reading back the bytes of any `int`, followed by anything, gives the `int`. */
  lemma ToInt32OfGetBytes(x: int32, tail: seq<byte>)
    ensures ToInt32(Some(GetBytes(x) + tail), 0) == Success(x)
  {
    var bs := GetBytes(x) + tail;
    assert bs[0..4] == GetBytes(x);
    LeValueOfLeBytesFits(ToUnsigned32(x), 4);
  }

  /** Every four bytes are the image of the `int` they read as. */
  lemma GetBytesOfToInt32(bs: seq<byte>)
    requires |bs| == 4
    ensures ToInt32(Some(bs), 0).Success?
    ensures GetBytes(ToInt32(Some(bs), 0).value) == bs
  {
    assert bs[0..4] == bs;
    var u := LeValue(bs);
    var x := ToSigned32(u);
    assert ToUnsigned32(x) == u;
    LeBytesOfLeValue(bs);
  }

  /** The response message; the codec fills `offset` through the `SecondsOffset` setter. */
  class SelTimeResponse {
    /** The array behind `SecondsOffset`; null (None) until a body has been decoded or set. */
    var offset: Option<seq<byte>>

    constructor ()
      ensures offset == None
    {
      offset := None;
    }

    /** The `SecondsOffset` getter. */
    function SecondsOffset(): (r: Option<seq<byte>>)
      reads this
      ensures r == offset
    {
      offset
    }

    /** The `SecondsOffset` setter: afterwards the getter returns exactly `value`. */
    method SetSecondsOffset(value: Option<seq<byte>>)
      modifies this
      ensures SecondsOffset() == value
    {
      offset := value;
    }

    /** The seconds offset `Time` hands on: the signed 32-bit reading of bytes 0..3. */
    function TimeSeconds(): (r: Result<int32, ConversionError>)
      reads this
      ensures r.Success? <==> offset.Some? && |offset.value| >= 4
      ensures r.Success? ==> r.value == ToSigned32(LeValue(offset.value[..4]))
      ensures r.Failure? ==> r.error == if offset.None? then ArgumentNull else if offset.value == [] then ArgumentOutOfRange else Argument
    {
      ToInt32(offset, 0)
    }

    /**
      The `Time` property: the seconds offset passed to the conversion to a
      date, which is a parameter here; the conversion's failures surface as
      errors instead of exceptions.
     */
    function Time<D>(secondsOffSet: int32 -> D): (r: Result<D, ConversionError>)
      reads this
      ensures r.Success? <==> TimeSeconds().Success?
      ensures r.Success? ==> r.value == secondsOffSet(TimeSeconds().value)
      ensures r.Failure? ==> r.error == TimeSeconds().error
    {
      match ToInt32(offset, 0)
      case Success(seconds) => Success(secondsOffSet(seconds))
      case Failure(e) => Failure(e)
    }

    /** Populate the response from its body: the descriptor's range, the whole body, goes to the setter. */
    method Decode(body: seq<byte>) returns (r: Result<(), CodecError>)
      modifies this
      ensures r.Success?
      ensures SecondsOffset() == Some(body)
    {
      match DecodeField(SecondsOffsetDescriptor, ByteArray, body)
      case Success(v) =>
        SetSecondsOffset(Some(v.bytes));
        r := Success(());
      case Failure(e) =>
        r := Failure(e);
    }
  }

  /** The descriptor gives SecondsOffset every byte of the body, from offset 0 on, whatever its length. */
  lemma SecondsOffsetTakesBody(body: seq<byte>)
    ensures DecodeField(SecondsOffsetDescriptor, ByteArray, body) == Success(BytesValue(body))
  {
  }

  /** An all-zero four-byte body is a seconds offset of 0, the base of the time scale. */
  lemma ZeroBodyIsEpoch<D>(resp: SelTimeResponse, secondsOffSet: int32 -> D)
    requires resp.SecondsOffset() == Some([0x00, 0x00, 0x00, 0x00])
    ensures resp.Time(secondsOffSet) == Success(secondsOffSet(0))
  {
    ToInt32Weights(resp.SecondsOffset().value);
  }

  /** A body shorter than four bytes makes `Time` fail rather than read past the end. */
  lemma ShortBodyFails<D>(resp: SelTimeResponse, secondsOffSet: int32 -> D)
    requires resp.SecondsOffset().Some? && |resp.SecondsOffset().value| < 4
    ensures resp.Time(secondsOffSet).Failure?
    ensures resp.Time(secondsOffSet).error == if resp.SecondsOffset().value == [] then ArgumentOutOfRange else Argument
  {
  }

  /** A fixed four-byte range at offset 0 cannot be read from a two-byte body. */
  lemma FixedRangeTooShort(body: seq<byte>)
    requires |body| == 2
    ensures DecodeField(WithLength(0, 4), ByteArray, body) == Failure(BufferTooShort)
  {
  }
}
