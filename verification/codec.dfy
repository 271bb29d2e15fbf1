/**
  The fixed-layout codec the message classes are written for: each property
  carries a field descriptor, encoding places every property's little-endian
  image at its offset, decoding reads a property back from its range.
 */
module Codec {
  import opened Results
  import opened Bytes
  import opened MessageData

  /** The semantic type of a message property. */
  datatype FieldType = U8 | U16 | ByteArray

  /** A property's current value; its constructor fixes its type. */
  datatype Value = ByteValue(b: byte) | UShortValue(w: uint16) | BytesValue(bytes: seq<byte>)
  {
    function Type(): FieldType {
      match this
      case ByteValue(_) => U8
      case UShortValue(_) => U16
      case BytesValue(_) => ByteArray
    }
  }

  /** The numeric value of an integer property. */
  function IntValue(v: Value): nat
    requires !v.BytesValue?
  {
    match v
    case ByteValue(b) => b
    case UShortValue(w) => w
  }

  /** The size in bytes a type determines by itself; a byte array has none. */
  function SizeOf(t: FieldType): (n: Option<nat>)
    ensures n.None? <==> t == ByteArray
    ensures forall v: Value :: v.Type() == t && n.Some? ==> IntValue(v) < Pow256(n.value)
    ensures n.Some? ==> n.value >= 1 && exists v: Value :: v.Type() == t && IntValue(v) >= Pow256(n.value - 1)
  {
    assert ByteValue(255).Type() == U8 && UShortValue(0xFFFF).Type() == U16;
    match t
    case U8 => Some(1)
    case U16 => Some(2)
    case ByteArray => None
  }

  /** A message property: its name, the one descriptor attached to it, and its value. */
  datatype Field = Field(name: string, descriptor: FieldDescriptor, value: Value)

  datatype CodecError =
    | NegativeOffset
    | NegativeLength
    | Overlapping
    | LengthMismatch
    | BufferTooShort
    | TypeConversion

  /** A descriptor whose offset and length can denote a byte range. */
  predicate Resolvable(d: FieldDescriptor) {
    d.offset >= 0 && d.length >= 0
  }

  /** The number of bytes a field occupies: the explicit length, else the type's size, else the array's current length. */
  function ResolvedLength(f: Field): nat
    requires Resolvable(f.descriptor)
  {
    if !f.descriptor.InfersLength() then f.descriptor.length as nat
    else match f.value
      case BytesValue(bs) => |bs|
      case _ => SizeOf(f.value.Type()).value
  }

  /** The bytes a field contributes to the body. */
  function FieldBytes(f: Field): (r: Result<seq<byte>, CodecError>)
    requires Resolvable(f.descriptor)
    ensures r.Success? ==> |r.value| == ResolvedLength(f)
    ensures r.Failure? <==> f.value.BytesValue? && !f.descriptor.InfersLength() && |f.value.bytes| != f.descriptor.length
    ensures r.Failure? ==> r.error == LengthMismatch
    ensures r.Success? && f.value.BytesValue? ==> r.value == f.value.bytes
    ensures r.Success? && !f.value.BytesValue? ==> LeValue(r.value) == IntValue(f.value) % Pow256(ResolvedLength(f))
  {
    match f.value
    case ByteValue(b) =>
      LeValueOfLeBytes(b, ResolvedLength(f));
      Success(LeBytes(b, ResolvedLength(f)))
    case UShortValue(w) =>
      LeValueOfLeBytes(w, ResolvedLength(f));
      Success(LeBytes(w, ResolvedLength(f)))
    case BytesValue(bs) =>
      if f.descriptor.InfersLength() || |bs| == f.descriptor.length as nat then Success(bs) else Failure(LengthMismatch)
  }

  /** A field whose descriptor and value agree, so that it has a byte image. */
  predicate Encodable(f: Field) {
    Resolvable(f.descriptor) && FieldBytes(f).Success?
  }

  /** A run of bytes destined for a given offset of the body. */
  datatype Placement = Placement(offset: nat, bytes: seq<byte>)

  function End(p: Placement): nat {
    p.offset + |p.bytes|
  }

  predicate Covers(p: Placement, k: int) {
    p.offset <= k < End(p)
  }

  /** Two placements claim no common byte (an empty run claims none). */
  predicate Disjoint(p: Placement, q: Placement) {
    |p.bytes| == 0 || |q.bytes| == 0 || End(p) <= q.offset || End(q) <= p.offset
  }

  lemma DisjointCoversNot(p: Placement, q: Placement, k: int)
    requires Disjoint(p, q) && Covers(p, k)
    ensures !Covers(q, k)
  {
  }

  predicate PairwiseDisjoint(ps: seq<Placement>) {
    forall i, j :: 0 <= i < j < |ps| ==> Disjoint(ps[i], ps[j])
  }

  function PlacementOf(f: Field): Placement
    requires Encodable(f)
  {
    Placement(f.descriptor.offset as nat, FieldBytes(f).value)
  }

  /** The byte ranges of a layout's fields, or the first field that has none. */
  function Placements(layout: seq<Field>): (r: Result<seq<Placement>, CodecError>)
    ensures r.Success? <==> forall i :: 0 <= i < |layout| ==> Encodable(layout[i])
    ensures r.Success? ==> |r.value| == |layout| && forall i :: 0 <= i < |layout| ==> r.value[i] == PlacementOf(layout[i])
    ensures r.Failure? ==> r.error in {NegativeOffset, NegativeLength, LengthMismatch}
    ensures r == Failure(NegativeOffset) ==> exists i :: 0 <= i < |layout| && layout[i].descriptor.offset < 0
    ensures r == Failure(NegativeLength) ==> exists i :: 0 <= i < |layout| && layout[i].descriptor.length < 0
    ensures r == Failure(LengthMismatch) ==>
      exists i :: 0 <= i < |layout| && Resolvable(layout[i].descriptor) && FieldBytes(layout[i]).Failure?
  {
    if layout == [] then Success([])
    else
      var f := layout[0];
      if f.descriptor.offset < 0 then Failure(NegativeOffset)
      else if f.descriptor.length < 0 then Failure(NegativeLength)
      else match FieldBytes(f)
        case Failure(e) => Failure(e)
        case Success(bs) =>
          match Placements(layout[1..])
          case Failure(e) => Failure(e)
          case Success(rest) =>
            assert forall i :: 1 <= i < |layout| ==> layout[i] == layout[1..][i - 1];
            Success([Placement(f.descriptor.offset as nat, bs)] + rest)
  }

  /** The layouts the codec can encode: every field has a byte range and no two ranges overlap. */
  predicate ValidLayout(layout: seq<Field>) {
    && (forall i :: 0 <= i < |layout| ==> Encodable(layout[i]))
    && (forall i, j :: 0 <= i < j < |layout| ==> Disjoint(PlacementOf(layout[i]), PlacementOf(layout[j])))
  }

  /** The highest end offset among the placements (0 for none). */
  function Extent(ps: seq<Placement>): (n: nat)
    ensures forall i :: 0 <= i < |ps| ==> End(ps[i]) <= n
    ensures n == 0 || exists i :: 0 <= i < |ps| && End(ps[i]) == n
  {
    if ps == [] then 0
    else
      var e := Extent(ps[1..]);
      assert forall i :: 1 <= i < |ps| ==> ps[i] == ps[1..][i - 1];
      if End(ps[0]) > e then End(ps[0]) else e
  }

  predicate Fits(buf: seq<byte>, ps: seq<Placement>) {
    forall i :: 0 <= i < |ps| ==> End(ps[i]) <= |buf|
  }

  /** buf with p's bytes written over its range. */
  function Write(buf: seq<byte>, p: Placement): (r: seq<byte>)
    requires End(p) <= |buf|
    ensures |r| == |buf|
    ensures forall k :: 0 <= k < |buf| ==> r[k] == if Covers(p, k) then p.bytes[k - p.offset] else buf[k]
  {
    buf[..p.offset] + p.bytes + buf[End(p)..]
  }

  /** buf with every placement written in turn. */
  function WriteAll(buf: seq<byte>, ps: seq<Placement>): (r: seq<byte>)
    requires Fits(buf, ps)
    ensures |r| == |buf|
    decreases ps
  {
    if ps == [] then buf else WriteAll(Write(buf, ps[0]), ps[1..])
  }

  /** The body holding every placement in a zero-filled buffer that ends where the last range ends. */
  function Image(ps: seq<Placement>): (bytes: seq<byte>)
    ensures |bytes| == Extent(ps)
  {
    WriteAll(seq(Extent(ps), _ => 0), ps)
  }

  /** Encode a message's layout into its body bytes. */
  function Encode(layout: seq<Field>): (r: Result<seq<byte>, CodecError>)
    ensures r.Success? <==> ValidLayout(layout)
    ensures r.Failure? ==> r.error in {NegativeOffset, NegativeLength, LengthMismatch, Overlapping}
    ensures r == Failure(Overlapping) <==> (forall i :: 0 <= i < |layout| ==> Encodable(layout[i])) && !ValidLayout(layout)
    ensures r == Failure(NegativeOffset) ==> exists i :: 0 <= i < |layout| && layout[i].descriptor.offset < 0
    ensures r == Failure(NegativeLength) ==> exists i :: 0 <= i < |layout| && layout[i].descriptor.length < 0
    ensures r == Failure(LengthMismatch) ==>
      exists i :: 0 <= i < |layout| && Resolvable(layout[i].descriptor) && FieldBytes(layout[i]).Failure?
  {
    match Placements(layout)
    case Failure(e) => Failure(e)
    case Success(ps) =>
      if PairwiseDisjoint(ps) then Success(Image(ps)) else Failure(Overlapping)
  }

  lemma {:induction false} WriteAllOutside(buf: seq<byte>, ps: seq<Placement>, k: int)
    requires Fits(buf, ps) && 0 <= k < |buf|
    requires forall i :: 0 <= i < |ps| ==> !Covers(ps[i], k)
    ensures WriteAll(buf, ps)[k] == buf[k]
    decreases ps
  {
    if ps != [] {
      assert forall i :: 1 <= i < |ps| ==> ps[i] == ps[1..][i - 1];
      WriteAllOutside(Write(buf, ps[0]), ps[1..], k);
    }
  }

  lemma {:induction false} WriteAllInside(buf: seq<byte>, ps: seq<Placement>, i: nat, k: int)
    requires Fits(buf, ps) && PairwiseDisjoint(ps) && i < |ps| && Covers(ps[i], k)
    ensures WriteAll(buf, ps)[k] == ps[i].bytes[k - ps[i].offset]
    decreases ps
  {
    assert forall j :: 1 <= j < |ps| ==> ps[j] == ps[1..][j - 1];
    var buf' := Write(buf, ps[0]);
    if i == 0 {
      forall j | 0 <= j < |ps[1..]|
        ensures !Covers(ps[1..][j], k)
      {
        DisjointCoversNot(ps[0], ps[j + 1], k);
      }
      WriteAllOutside(buf', ps[1..], k);
    } else {
      WriteAllInside(buf', ps[1..], i - 1, k);
    }
  }

  /** Every byte of a placement's range holds that placement's byte. */
  lemma ImageInside(ps: seq<Placement>, i: nat, k: int)
    requires PairwiseDisjoint(ps) && i < |ps| && Covers(ps[i], k)
    ensures k < |Image(ps)| && Image(ps)[k] == ps[i].bytes[k - ps[i].offset]
  {
    WriteAllInside(seq(Extent(ps), _ => 0), ps, i, k);
  }

  /** A byte that no placement claims is zero. */
  lemma ImageOutside(ps: seq<Placement>, k: int)
    requires 0 <= k < |Image(ps)|
    requires forall i :: 0 <= i < |ps| ==> !Covers(ps[i], k)
    ensures Image(ps)[k] == 0
  {
    WriteAllOutside(seq(Extent(ps), _ => 0), ps, k);
  }

  /** Each field's image sits in the encoded body at exactly its descriptor's range. */
  lemma EncodePlacesField(layout: seq<Field>, i: nat)
    requires Encode(layout).Success? && i < |layout|
    ensures Encodable(layout[i])
    ensures var body, f := Encode(layout).value, layout[i];
      && f.descriptor.offset as nat + ResolvedLength(f) <= |body|
      && body[f.descriptor.offset..f.descriptor.offset as nat + ResolvedLength(f)] == FieldBytes(f).value
  {
    var ps := Placements(layout).value;
    var p := ps[i];
    var body := Encode(layout).value;
    assert body == Image(ps);
    forall k | p.offset <= k < End(p)
      ensures body[k] == p.bytes[k - p.offset]
    {
      ImageInside(ps, i, k);
    }
  }

  /** The encoded body is exactly as long as its furthest-reaching field. */
  lemma EncodeLength(layout: seq<Field>)
    requires Encode(layout).Success?
    ensures var body := Encode(layout).value;
      && (forall i :: 0 <= i < |layout| ==> layout[i].descriptor.offset as nat + ResolvedLength(layout[i]) <= |body|)
      && (|body| == 0 || exists i :: 0 <= i < |layout| && layout[i].descriptor.offset as nat + ResolvedLength(layout[i]) == |body|)
  {
  }

  /** Bytes that lie in no field's range are encoded as zero. */
  lemma EncodeGapsZero(layout: seq<Field>, k: nat)
    requires Encode(layout).Success? && k < |Encode(layout).value|
    requires forall i :: 0 <= i < |layout| ==> !(layout[i].descriptor.offset <= k < layout[i].descriptor.offset as nat + ResolvedLength(layout[i]))
    ensures Encode(layout).value[k] == 0
  {
    var ps := Placements(layout).value;
    assert Encode(layout).value == Image(ps);
    assert forall i :: 0 <= i < |ps| ==> End(ps[i]) == layout[i].descriptor.offset as nat + ResolvedLength(layout[i]);
    ImageOutside(ps, k);
  }

  /** How many bytes a descriptor reads for a type: None for an inferred-length byte array, which reads to the end of the body. */
  function ReadLength(d: FieldDescriptor, t: FieldType): Option<nat>
    requires Resolvable(d)
  {
    if !d.InfersLength() then Some(d.length as nat) else SizeOf(t)
  }

  /** Read one property of type t from the body at the range its descriptor gives. */
  function DecodeField(d: FieldDescriptor, t: FieldType, body: seq<byte>): (r: Result<Value, CodecError>)
    ensures r.Success? ==> Resolvable(d) && r.value.Type() == t
    ensures r.Failure? ==> r.error in {NegativeOffset, NegativeLength, BufferTooShort, TypeConversion}
    ensures r == Failure(NegativeOffset) <==> d.offset < 0
    ensures r == Failure(NegativeLength) <==> d.offset >= 0 && d.length < 0
    ensures r == Failure(TypeConversion) <==>
      && Resolvable(d) && t != ByteArray
      && d.offset as nat + ReadLength(d, t).value <= |body|
      && LeValue(body[d.offset..d.offset as nat + ReadLength(d, t).value]) >= Pow256(SizeOf(t).value)
    ensures r == Failure(BufferTooShort) <==>
      Resolvable(d) && match ReadLength(d, t)
        case None => d.offset > |body|
        case Some(n) => d.offset + n > |body|
    ensures r.Success? && ReadLength(d, t).None? ==> r.value.bytes == body[d.offset..]
    ensures r.Success? && ReadLength(d, t).Some? ==>
      var raw := body[d.offset..d.offset as nat + ReadLength(d, t).value];
      if t == ByteArray then r.value.bytes == raw else IntValue(r.value) == LeValue(raw)
  {
    assert Pow256(1) == 0x100 && Pow256(2) == 0x1_0000;
    if d.offset < 0 then Failure(NegativeOffset)
    else if d.length < 0 then Failure(NegativeLength)
    else
      var start := d.offset as nat;
      match ReadLength(d, t)
      case None =>
        if start <= |body| then Success(BytesValue(body[start..])) else Failure(BufferTooShort)
      case Some(n) =>
        if start + n > |body| then Failure(BufferTooShort)
        else
          var raw := body[start..start + n];
          match t
          case ByteArray => Success(BytesValue(raw))
          case U8 => if LeValue(raw) < 0x100 then Success(ByteValue(LeValue(raw))) else Failure(TypeConversion)
          case U16 => if LeValue(raw) < 0x1_0000 then Success(UShortValue(LeValue(raw))) else Failure(TypeConversion)
  }

  /**
    A field that reads back unchanged from a body of the given length: an
    integer whose range holds all of its type's bytes, an array of explicit
    length, or an inferred-length array that ends the body.
   */
  predicate Recoverable(f: Field, bodyLength: nat)
    requires Resolvable(f.descriptor)
  {
    match f.value
    case ByteValue(_) => true
    case UShortValue(_) => ResolvedLength(f) >= 2
    case BytesValue(_) => !f.descriptor.InfersLength() || f.descriptor.offset as nat + ResolvedLength(f) == bodyLength
  }

  /** A field whose range in the body holds its image reads back as its own value. */
  lemma DecodeFieldImage(f: Field, body: seq<byte>)
    requires Encodable(f) && Recoverable(f, |body|)
    requires f.descriptor.offset as nat + ResolvedLength(f) <= |body|
    requires body[f.descriptor.offset..f.descriptor.offset as nat + ResolvedLength(f)] == FieldBytes(f).value
    ensures DecodeField(f.descriptor, f.value.Type(), body) == Success(f.value)
  {
    var n := ResolvedLength(f);
    var raw := FieldBytes(f).value;
    match f.value
    case ByteValue(b) =>
      assert ReadLength(f.descriptor, U8) == Some(n);
      Pow256Monotone(1, n);
      LeValueOfLeBytesFits(b, n);
      assert LeValue(raw) == b;
    case UShortValue(w) =>
      assert ReadLength(f.descriptor, U16) == Some(n);
      Pow256Monotone(2, n);
      LeValueOfLeBytesFits(w, n);
      assert LeValue(raw) == w;
    case BytesValue(bs) =>
      var start := f.descriptor.offset as nat;
      if f.descriptor.InfersLength() {
        assert ReadLength(f.descriptor, ByteArray) == None;
        assert start + n == |body|;
        assert body[start..] == body[start..start + n];
      } else {
        assert ReadLength(f.descriptor, ByteArray) == Some(n);
      }
  }

  /** Decoding a field from an encoded body gives back the value that was encoded. */
  lemma DecodeEncodedField(layout: seq<Field>, i: nat)
    requires Encode(layout).Success? && i < |layout|
    requires Resolvable(layout[i].descriptor) && Recoverable(layout[i], |Encode(layout).value|)
    ensures DecodeField(layout[i].descriptor, layout[i].value.Type(), Encode(layout).value) == Success(layout[i].value)
  {
    EncodePlacesField(layout, i);
    DecodeFieldImage(layout[i], Encode(layout).value);
  }
}
