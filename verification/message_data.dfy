/**
  The per-property layout descriptor of an IPMI message (the `[IpmiMessageData]`
  attribute): where a field begins in the message body and how long it is.
 */
module MessageData {
  import opened Bytes

  /**
    A field descriptor. Both values are C# `int`s fixed at construction; a
    datatype value cannot change afterwards, which is the attribute's
    `readonly` guarantee. A length of 0 means "take the size from the
    property's type".
   */
  datatype FieldDescriptor = FieldDescriptor(offset: int32, length: int32)
  {
    /** The length is not given explicitly and is derived from the property's type. */
    predicate InfersLength() {
      length == 0
    }
  }

  /** The one-argument constructor `IpmiMessageData(offset)`: an offset and an inferred length. */
  function AtOffset(offset: int32): (d: FieldDescriptor)
    ensures d == WithLength(offset, 0)
    ensures d.offset == offset && d.InfersLength()
  {
    FieldDescriptor(offset, 0)
  }

  /** The two-argument constructor `IpmiMessageData(offset, length)`. */
  function WithLength(offset: int32, length: int32): (d: FieldDescriptor)
    ensures d.offset == offset && d.length == length
    ensures d.InfersLength() <==> length == 0
  {
    FieldDescriptor(offset, length)
  }
}
