# IPMI message layout model

A Dafny model of the declarative message layer of the Open CloudServer chassis
manager's IPMI client. Each property of a message class carries an
`[IpmiMessageData(offset[, length])]` descriptor. The descriptor says where the
property's bytes begin in the message body and how many there are; a length of 0
means the size comes from the property's type. The model covers:

- the descriptor itself (`MessageData`): two 32-bit signed integers fixed at
  construction, and its two constructors;
- a minimal codec over those descriptors (`Codec`). A message's properties
  become a layout, which is a sequence of (name, descriptor, value). `Encode`
  writes each property's little-endian image at its offset into a zero-filled
  body that ends where the furthest field ends. It refuses negative offsets or
  lengths, a byte array whose length differs from an explicit one, and
  overlapping ranges. `DecodeField` reads one property back from its range. An
  inferred-length byte array takes the rest of the body. A range past the end
  of the body is `BufferTooShort`, never an out-of-bounds read;
- the DCMI *Get Power Limit* request (section 6.6.2 of DCMI v1.5). Its body is
  the constant group-extension byte 0xDC and two reserved zero bytes
  (`DcmiPowerLimit`);
- the OEM *Receive Serial Data* request. Its body is one `ushort` buffer length
  at offset 0 (`ReceiveSerialData`);
- the *Get SEL Time* response (section 31.10 of IPMI v2.0). It is a class whose
  `SecondsOffset` array receives the body from offset 0. `Time` reads the
  array's first four bytes with `BitConverter.ToInt32`, modelled with its
  exception cases as errors (`SelTime`);
- the (network function, command, direction) tag of each message (`Tags`),
  returned by each message module's `Tag` function.

Fixed-width C# integers are subset types of `int` (`byte`, `uint16`, `int32`
in `Bytes`). Multi-byte values are little-endian, the IPMI wire order.

## Model

| member | source | states |
|---|---|---|
| MessageData.AtOffset | ChassisManager/Ipmi/Ipmi/Client/IpmiMessage/IpmiMessageDataAttribute.cs:42-45 | the one-argument constructor is the two-argument one with length 0: the given offset, and a length inferred from the type |
| MessageData.WithLength | ChassisManager/Ipmi/Ipmi/Client/IpmiMessage/IpmiMessageDataAttribute.cs:52-72 | `Offset` and `Length` read back exactly the values passed at construction; the length is inferred exactly when it is 0 |
| Codec.SizeOf | ChassisManager/Ipmi/Ipmi/Client/IpmiMessage/IpmiMessageDataAttribute.cs:33-36 | only a byte array has no size of its own; an integer type's size is the least number of bytes that holds every value of the type (1 for `byte`, 2 for `ushort`) |
| Codec.FieldBytes | ChassisManager/Ipmi/Ipmi/Client/IpmiMessage/IpmiMessageDataAttribute.cs:28-36 | a field's image is exactly its resolved length (explicit length, else the type's size, else the array's length); an integer's image reads back as the value modulo the range's capacity; a byte array is copied verbatim, and fails with LengthMismatch exactly when an explicit length differs from it |
| Codec.Placements | ChassisManager/Ipmi/Ipmi/Client/IpmiMessage/IpmiMessageDataAttribute.cs:28-36 | every field gets a range at its offset with its image, exactly when every descriptor is non-negative and every field has an image; NegativeOffset, NegativeLength and LengthMismatch are reported only when some field has that fault |
| Codec.Extent | ChassisManager/Ipmi/Ipmi/Client/IpmiMessage/IpmiMessageDataAttribute.cs:28-31 | the body length is the furthest end of any field's range |
| Codec.Encode | ChassisManager/Ipmi/Ipmi/Client/IpmiMessage/IpmiMessageDataAttribute.cs:28-36 | encoding succeeds exactly when the layout is valid (non-negative, consistent, pairwise non-overlapping ranges); otherwise it gives the matching error: NegativeOffset, NegativeLength or LengthMismatch only when some field has that fault, and Overlapping exactly when every field has an image but two ranges meet |
| Codec.EncodePlacesField | ChassisManager/Ipmi/Ipmi/Client/IpmiMessage/IpmiMessageDataAttribute.cs:28-31 | each field's image sits in the encoded body at exactly [offset, offset + resolved length) |
| Codec.EncodeLength | ChassisManager/Ipmi/Ipmi/Client/IpmiMessage/IpmiMessageDataAttribute.cs:28-36 | every field's range lies within the body, and the body ends exactly where some field's range ends |
| Codec.EncodeGapsZero | ChassisManager/Ipmi/Ipmi/Client/IpmiMessage/IpmiMessageDataAttribute.cs:28-31 | a byte that no field's range covers is encoded as zero |
| Codec.DecodeField | ChassisManager/Ipmi/Ipmi/Client/IpmiMessage/IpmiMessageDataAttribute.cs:28-36 | a read gives a value of the requested type taken from exactly the descriptor's range, or the rest of the body for an inferred-length array; a failure is one of NegativeOffset, NegativeLength, BufferTooShort and TypeConversion: NegativeOffset or NegativeLength exactly for a negative descriptor, BufferTooShort exactly when the range passes the end of the body, and TypeConversion exactly when the bytes read hold a number too large for the integer type; every other read succeeds |
| Codec.DecodeFieldImage | ChassisManager/Ipmi/Ipmi/Client/IpmiMessage/IpmiMessageDataAttribute.cs:28-36 | a range holding a field's image reads back as the field's value, unless the image truncated it |
| Codec.DecodeEncodedField | ChassisManager/Ipmi/Ipmi/Client/IpmiMessage/IpmiMessageDataAttribute.cs:28-36 | decoding any field of an encoded body gives back the encoded value (for integers that were not truncated, explicit-length arrays, and a trailing inferred-length array) |
| DcmiPowerLimit.Tag | ChassisManager/Ipmi/Ipmi/IpmiCommand/Dcmi/GetDcmiPowerLimitRequest.cs:20-24 | the message is a request tagged with the DCMI group function and the DcmiGetLimit command |
| DcmiPowerLimit.GetDcmiPowerLimitRequest.Layout | ChassisManager/Ipmi/Ipmi/IpmiCommand/Dcmi/GetDcmiPowerLimitRequest.cs:43-61 | the two `[IpmiMessageData]` properties: GroupExtension (a byte) at offset 0 and Reserved (a byte array) at offset 1, both with inferred length, holding the class's constants; the layout is valid |
| DcmiPowerLimit.LayoutRanges | ChassisManager/Ipmi/Ipmi/IpmiCommand/Dcmi/GetDcmiPowerLimitRequest.cs:43-61 | GroupExtension occupies [0,1) holding 0xDC, Reserved occupies [1,3) holding two zeros; the first range ends where the second begins, they are disjoint, and the body is 3 bytes long |
| DcmiPowerLimit.EncodeImage | ChassisManager/Ipmi/Ipmi/IpmiCommand/Dcmi/GetDcmiPowerLimitRequest.cs:26-61 | every instance encodes to exactly [0xDC, 0x00, 0x00] |
| DcmiPowerLimit.DecodeImage | ChassisManager/Ipmi/Ipmi/IpmiCommand/Dcmi/GetDcmiPowerLimitRequest.cs:43-61 | reading the two descriptors back from the encoded body gives the constant 0xDC and the reserved [0x00, 0x00] |
| ReceiveSerialData.Tag | ChassisManager/Ipmi/Ipmi/IpmiCommand/Oem/ReceiveSerialDataRequest.cs:21-25 | the message is a request tagged with the OEM group function and the ReceiveSerialData command |
| ReceiveSerialData.ReceiveSerialDataRequest.BufferLength | ChassisManager/Ipmi/Ipmi/IpmiCommand/Oem/ReceiveSerialDataRequest.cs:38-50 | the getter returns exactly the `ushort` passed to the constructor: building a request from it gives the same request |
| ReceiveSerialData.ReceiveSerialDataRequest.Layout | ChassisManager/Ipmi/Ipmi/IpmiCommand/Oem/ReceiveSerialDataRequest.cs:46-50 | the only property is BufferLength at offset 0 with inferred length, which resolves to 2 bytes; the layout is valid |
| ReceiveSerialData.EncodeLittleEndian | ChassisManager/Ipmi/Ipmi/IpmiCommand/Oem/ReceiveSerialDataRequest.cs:38-50 | the body is exactly two bytes: the low byte of the buffer length, then the high byte |
| ReceiveSerialData.EncodeExample | ChassisManager/Ipmi/Ipmi/IpmiCommand/Oem/ReceiveSerialDataRequest.cs:46-50 | a buffer length of 300 encodes to [0x2C, 0x01] |
| ReceiveSerialData.DecodeEncoded | ChassisManager/Ipmi/Ipmi/IpmiCommand/Oem/ReceiveSerialDataRequest.cs:38-50 | for every ushort, reading the descriptor back from the encoded body returns the length passed to the constructor |
| ReceiveSerialData.EncodeDecoded | ChassisManager/Ipmi/Ipmi/IpmiCommand/Oem/ReceiveSerialDataRequest.cs:46-50 | every two-byte body decodes to a length whose request encodes to that same body |
| Bytes.ToUnsigned32 | ChassisManager/Ipmi/Ipmi/IpmiCommand/SystemEventLog/SelTimeResponse.cs:44 | no counterpart in the source: the inverse of the two's-complement reading, the 32-bit pattern of an `int`, which reads back as that `int` |
| SelTime.Tag | ChassisManager/Ipmi/Ipmi/IpmiCommand/SystemEventLog/SelTimeResponse.cs:21-25 | the message is a response tagged with the Storage function and the GetSelTime command |
| SelTime.ToInt32 | ChassisManager/Ipmi/Ipmi/IpmiCommand/SystemEventLog/SelTimeResponse.cs:44 | the conversion succeeds exactly when four bytes are available from the start index; otherwise it is ArgumentNull for a null array, ArgumentOutOfRange for a start index outside the array, and Argument for fewer than four bytes |
| SelTime.ToInt32Weights | ChassisManager/Ipmi/Ipmi/IpmiCommand/SystemEventLog/SelTimeResponse.cs:44 | the four bytes are weighted 1, 2^8, 2^16 and 2^24 (byte 0 least significant) and read in two's complement |
| SelTime.ToInt32Sign | ChassisManager/Ipmi/Ipmi/IpmiCommand/SystemEventLog/SelTimeResponse.cs:44 | the seconds offset is negative exactly when the top bit of byte 3 is set |
| SelTime.ToInt32IgnoresTail | ChassisManager/Ipmi/Ipmi/IpmiCommand/SystemEventLog/SelTimeResponse.cs:44 | bytes from index 4 on do not affect the result |
| SelTime.ToInt32OfGetBytes | ChassisManager/Ipmi/Ipmi/IpmiCommand/SystemEventLog/SelTimeResponse.cs:44 | the little-endian bytes of any `int`, followed by anything, read back as that `int` |
| SelTime.GetBytes | ChassisManager/Ipmi/Ipmi/IpmiCommand/SystemEventLog/SelTimeResponse.cs:44 | no counterpart in the source: the inverse of the reading, four bytes that read back as the given `int`, used to state that the reading is a bijection |
| SelTime.GetBytesOfToInt32 | ChassisManager/Ipmi/Ipmi/IpmiCommand/SystemEventLog/SelTimeResponse.cs:44 | every four-byte array is the image of the `int` it reads as, so the reading is a bijection |
| SelTime.SelTimeResponse.constructor | ChassisManager/Ipmi/Ipmi/IpmiCommand/SystemEventLog/SelTimeResponse.cs:25-27 | a new response's SecondsOffset is null |
| SelTime.SelTimeResponse.SecondsOffset | ChassisManager/Ipmi/Ipmi/IpmiCommand/SystemEventLog/SelTimeResponse.cs:33-35 | the getter returns the backing field |
| SelTime.SelTimeResponse.SetSecondsOffset | ChassisManager/Ipmi/Ipmi/IpmiCommand/SystemEventLog/SelTimeResponse.cs:33-37 | after the setter, the getter returns exactly the value given |
| SelTime.SelTimeResponse.TimeSeconds | ChassisManager/Ipmi/Ipmi/IpmiCommand/SystemEventLog/SelTimeResponse.cs:42-45 | the seconds offset exists exactly when SecondsOffset holds at least four bytes, and is the two's-complement reading of bytes 0..3; otherwise it is the matching conversion error |
| SelTime.SelTimeResponse.Time | ChassisManager/Ipmi/Ipmi/IpmiCommand/SystemEventLog/SelTimeResponse.cs:42-45 | `Time` is the date conversion applied to that seconds offset, and fails exactly when the reading fails, with the same error |
| SelTime.SelTimeResponse.Decode | ChassisManager/Ipmi/Ipmi/IpmiCommand/SystemEventLog/SelTimeResponse.cs:32-37 | populating the response from any body always succeeds and leaves exactly that body in SecondsOffset |
| SelTime.SecondsOffsetTakesBody | ChassisManager/Ipmi/Ipmi/IpmiCommand/SystemEventLog/SelTimeResponse.cs:32-33 | the descriptor at offset 0 with inferred length reads every body byte from offset 0 on, whatever the body's length |
| SelTime.ZeroBodyIsEpoch | ChassisManager/Ipmi/Ipmi/IpmiCommand/SystemEventLog/SelTimeResponse.cs:42-45 | an all-zero four-byte SecondsOffset makes `Time` the conversion of offset 0 |
| SelTime.ShortBodyFails | ChassisManager/Ipmi/Ipmi/IpmiCommand/SystemEventLog/SelTimeResponse.cs:44 | a SecondsOffset of fewer than four bytes makes `Time` fail (ArgumentOutOfRange when empty, Argument otherwise) instead of reading past the end |
| SelTime.FixedRangeTooShort | ChassisManager/Ipmi/Ipmi/Client/IpmiMessage/IpmiMessageDataAttribute.cs:51-56 | a descriptor with offset 0 and explicit length 4 cannot be read from a two-byte body: BufferTooShort |

Properties that hold by construction and need no member:

- A descriptor is a datatype value, so its offset and length never change, as the
  attribute's `readonly` fields promise (IpmiMessageDataAttribute.cs:31,36). A
  `Field` holds exactly one descriptor, as `AllowMultiple = false` promises
  (line 25).
- `GetDcmiPowerLimitRequest` has one nullary constructor, so every instance is
  the same value. `GroupExtension` and `Reserved` have no setter.
- `ReceiveSerialDataRequest(bufferLength)` is a datatype constructor, so
  `BufferLength()` returns the constructor argument and never changes. The
  `uint16` type bounds the value to 0..65535.
- `Encode` is a function, so encoding the same layout twice gives identical
  bytes.
- The classes' tag attributes name the enumerators that `DcmiPowerLimit.Tag`,
  `ReceiveSerialData.Tag` and `SelTime.Tag` return. The source tags the SEL
  time response with the Storage function, and the model follows the source.

## Left out

- The reflective serializer that discovers `[IpmiMessageData]` properties and converts them is not part of this model. Each message states its layout as an explicit list in declaration order instead. `Codec.Encode` and `Codec.DecodeField` follow the descriptor's documented meaning. Because the serializer that would decide them is not modelled, these are the model's own choices: truncating or zero-extending an integer to an explicit length when encoding, reading an explicit-length integer of any width and failing with TypeConversion only when its value is too large for the type, zero-filling gaps, and refusing overlaps.
- `IpmiSharedFunc.SecondsOffSet` and `DateTime` are not part of this model. The conversion from seconds to a date is a function parameter of `Time`.
- The `IpmiRequest`/`IpmiResponse` base classes, the request/response tag attributes, completion codes and any message registry are not part of this model. Tags are names only. Their numeric codes are not modelled, because the `IpmiFunctions` and `IpmiCommand` enumerations are defined in parts of the chassis manager this model does not cover.
- `BitConverter` follows the host's byte order. The model fixes little-endian, the IPMI wire order.
- Transport, sessions, retries and completion-code handling are I/O outside these classes.
- Thread-safety of any schema cache is a concurrency concern outside these classes.
- `SelTime.SelTimeResponse.SetSecondsOffset`: the C# property holds a reference to a mutable `byte[]`, so a caller that keeps the array can change it after setting it. The model stores an immutable sequence and does not capture that aliasing. The same holds for `GetDcmiPowerLimitRequest.Reserved`, whose getter hands out the private `byte[]` itself, so a caller could change the reserved bytes; the model keeps them constant.
- `Codec.Encode` does not refuse an inferred-length byte array that another field follows. Such an array decodes as the rest of the body, including the later fields' bytes, so the round trip `Codec.DecodeEncodedField` covers an inferred-length array only when it ends the body.
