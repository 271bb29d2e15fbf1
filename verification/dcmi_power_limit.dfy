/**
  The DCMI "Get Power Limit" request (section 6.6.2 of DCMI v1.5): a body of
  the group-extension byte 0xDC followed by two reserved zero bytes.
 */
module DcmiPowerLimit {
  import opened Results
  import opened Bytes
  import opened MessageData
  import opened Codec
  import opened Tags

  /** The message is a request of the DCMI group function, command DcmiGetLimit. */
  function Tag(): (t: MessageTag)
    ensures t.netFn == Dcgrp && t.command == DcmiGetLimit && t.direction == Request
  {
    MessageTag(Dcgrp, DcmiGetLimit, Request)
  }

  /** The DCMI group extension identifier. */
  const GroupExtensionId: byte := 0xDC

  /** The request has no settable state: every instance carries the same constants. */
  datatype GetDcmiPowerLimitRequest = GetDcmiPowerLimitRequest
  {
    function GroupExtension(): byte {
      GroupExtensionId
    }

    function Reserved(): seq<byte> {
      [0x00, 0x00]
    }

    /** The `[IpmiMessageData]` properties in declaration order. */
    function Layout(): (l: seq<Field>)
      ensures |l| == 2
      ensures l[0].descriptor == AtOffset(0) && l[0].value == ByteValue(GroupExtension())
      ensures l[1].descriptor == AtOffset(1) && l[1].value == BytesValue(Reserved())
      ensures ValidLayout(l)
    {
      var l := [ Field("GroupExtension", AtOffset(0), ByteValue(GroupExtension())),
                 Field("Reserved", AtOffset(1), BytesValue(Reserved())) ];
      assert FieldBytes(l[0]) == Success(LeBytes(0xDC, 1));
      assert FieldBytes(l[1]) == Success([0x00, 0x00]);
      l
    }
  }

  /** GroupExtension fills [0, 1) and Reserved fills [1, 3): disjoint, back to back, and the layout is encodable. */
  lemma LayoutRanges(r: GetDcmiPowerLimitRequest)
    ensures Placements(r.Layout()) == Success([Placement(0, [0xDC]), Placement(1, [0x00, 0x00])])
    ensures var ps := Placements(r.Layout()).value;
      End(ps[0]) == ps[1].offset && Disjoint(ps[0], ps[1]) && Extent(ps) == 3
  {
    var layout := r.Layout();
    assert LeBytes(0xDC, 1) == [0xDC];
    assert FieldBytes(layout[0]) == Success([0xDC]);
    assert FieldBytes(layout[1]) == Success([0x00, 0x00]);
    assert PlacementOf(layout[0]) == Placement(0, [0xDC]);
    assert PlacementOf(layout[1]) == Placement(1, [0x00, 0x00]);
    var ps := Placements(layout).value;
    assert ps == [ps[0], ps[1]];
  }

  /** Every instance encodes to exactly 0xDC 0x00 0x00. */
  lemma EncodeImage(r: GetDcmiPowerLimitRequest)
    ensures Encode(r.Layout()) == Success([0xDC, 0x00, 0x00])
  {
    var layout := r.Layout();
    LayoutRanges(r);
    var body := Encode(layout).value;
    EncodeLength(layout);
    assert |body| == 3;
    EncodePlacesField(layout, 0);
    EncodePlacesField(layout, 1);
    assert body[0..1] == [0xDC];
    assert body[1..3] == [0x00, 0x00];
    assert body == body[0..1] + body[1..3];
    assert body == [0xDC, 0x00, 0x00];
  }

  /** Reading the descriptors back from the encoded body yields the two constants. */
  lemma DecodeImage(r: GetDcmiPowerLimitRequest)
    ensures Encode(r.Layout()).Success?
    ensures DecodeField(AtOffset(0), U8, Encode(r.Layout()).value) == Success(ByteValue(GroupExtensionId))
    ensures DecodeField(AtOffset(1), ByteArray, Encode(r.Layout()).value) == Success(BytesValue(r.Reserved()))
  {
    EncodeImage(r);
    DecodeEncodedField(r.Layout(), 0);
    DecodeEncodedField(r.Layout(), 1);
  }
}
