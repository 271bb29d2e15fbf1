/**
  The OEM "Receive Serial Data" request: a body holding the 16-bit length of
  the buffer to read, least-significant byte first.
 */
module ReceiveSerialData {
  import opened Results
  import opened Bytes
  import opened MessageData
  import opened Codec
  import opened Tags

  /** The message is a request of the OEM group function, command ReceiveSerialData. */
  function Tag(): (t: MessageTag)
    ensures t.netFn == OemGroup && t.command == ReceiveSerialData && t.direction == Request
  {
    MessageTag(OemGroup, ReceiveSerialData, Request)
  }

  /** The only property sits at offset 0 and takes its length (2) from its `ushort` type. */
  const BufferLengthDescriptor := AtOffset(0)

  /** The length is fixed when the request is built and never changes: it is a datatype field. */
  datatype ReceiveSerialDataRequest = ReceiveSerialDataRequest(bufferLength: uint16)
  {
    /** The getter gives back the constructor argument: building a request from it yields the same request. */
    function BufferLength(): (n: uint16)
      ensures ReceiveSerialDataRequest(n) == this
    {
      bufferLength
    }

    function Layout(): (l: seq<Field>)
      ensures |l| == 1 && l[0].descriptor == BufferLengthDescriptor && l[0].value == UShortValue(BufferLength())
      ensures Resolvable(l[0].descriptor) && ResolvedLength(l[0]) == 2
      ensures ValidLayout(l)
    {
      [Field("BufferLength", BufferLengthDescriptor, UShortValue(BufferLength()))]
    }
  }

  /** The body is exactly two bytes: the low byte of the length, then the high byte. */
  lemma EncodeLittleEndian(r: ReceiveSerialDataRequest)
    ensures Encode(r.Layout()) == Success([r.bufferLength % 0x100, r.bufferLength / 0x100])
    ensures Encode(r.Layout()) == Success(LeBytes(r.bufferLength, 2))
  {
    var layout := r.Layout();
    var bs := LeBytes(r.bufferLength, 2);
    assert FieldBytes(layout[0]) == Success(bs);
    assert Placements(layout).value == [Placement(0, bs)];
    assert ValidLayout(layout);
    var body := Encode(layout).value;
    EncodeLength(layout);
    EncodePlacesField(layout, 0);
    assert body == body[0..2] == bs;
    var v := r.bufferLength;
    assert LeBytes(v / 0x100, 1) == [(v / 0x100) % 0x100];
    assert bs == [v % 0x100] + LeBytes(v / 0x100, 1);
    assert (v / 0x100) % 0x100 == v / 0x100;
    assert bs == [v % 0x100, v / 0x100];
  }

  /** A buffer length of 300 (0x012C) goes on the wire as 0x2C 0x01. */
  lemma EncodeExample()
    ensures Encode(ReceiveSerialDataRequest(300).Layout()) == Success([0x2C, 0x01])
  {
    EncodeLittleEndian(ReceiveSerialDataRequest(300));
  }

  /** Reading the descriptor back from the encoded body gives the length that was sent. */
  lemma DecodeEncoded(r: ReceiveSerialDataRequest)
    ensures Encode(r.Layout()).Success?
    ensures DecodeField(BufferLengthDescriptor, U16, Encode(r.Layout()).value) == Success(UShortValue(r.bufferLength))
  {
    EncodeLittleEndian(r);
    DecodeEncodedField(r.Layout(), 0);
  }

  /** Every two-byte body is the encoding of exactly one request: the one whose length it decodes to. */
  lemma EncodeDecoded(body: seq<byte>)
    requires |body| == 2
    ensures DecodeField(BufferLengthDescriptor, U16, body).Success?
    ensures var w := DecodeField(BufferLengthDescriptor, U16, body).value.w;
      Encode(ReceiveSerialDataRequest(w).Layout()) == Success(body)
  {
    var v := DecodeField(BufferLengthDescriptor, U16, body);
    assert body[0..2] == body;
    assert LeValue(body) < Pow256(2) == 0x1_0000;
    var w := v.value.w;
    assert w == LeValue(body);
    EncodeLittleEndian(ReceiveSerialDataRequest(w));
    LeBytesOfLeValue(body);
  }
}
