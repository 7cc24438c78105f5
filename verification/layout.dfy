/** The license header as CPython's native-mode `struct` lays out the format
    `b16s16s16sbbb8sQ32s32sLb` on an LP64 little-endian machine: fourteen
    fields one after the other, with four pad bytes that align the `Q`
    field to offset 64 and an eight-byte `L`. Packing concatenates the
    fields; unpacking cuts a 145-byte buffer at the fixed offsets. */
module Layout {
  import opened Packing

  /** The raw bytes of the header fields, in format order. */
  datatype Fields = Fields(
    version: seq<uint8>,            // b    at 0
    model: seq<uint8>,              // 16s  at 1
    systemSerial: seq<uint8>,       // 16s  at 17
    systemSerialHa: seq<uint8>,     // 16s  at 33
    contractType: seq<uint8>,       // b    at 49
    contractHardware: seq<uint8>,   // b    at 50
    contractSoftware: seq<uint8>,   // b    at 51
    contractStart: seq<uint8>,      // 8s   at 52
    pad: seq<uint8>,                // four alignment bytes at 60
    duration: seq<uint8>,           // Q    at 64
    customerName: seq<uint8>,       // 32s  at 72
    customerKey: seq<uint8>,        // 32s  at 104
    features: seq<uint8>,           // L    at 136, eight bytes natively
    addHwCount: seq<uint8>)         // b    at 144

  /** Offset of each field in the header. */
  const VersionAt: nat := 0
  const ModelAt: nat := 1
  const SerialAt: nat := 17
  const SerialHaAt: nat := 33
  const TypeAt: nat := 49
  const HardwareAt: nat := 50
  const SoftwareAt: nat := 51
  const StartAt: nat := 52
  const PadAt: nat := 60
  const DurationAt: nat := 64
  const NameAt: nat := 72
  const KeyAt: nat := 104
  const FeaturesAt: nat := 136
  const CountAt: nat := 144

  /** Native-mode size of the header (a standard-size `=` format would take 137). */
  const HeaderSize: nat := 145

  /** Size of one `bb` add-hw record. */
  const AddHwSize: nat := 2

  /** Every field has the width the format gives it. */
  predicate WellSized(f: Fields) {
    && |f.version| == 1
    && |f.model| == 16
    && |f.systemSerial| == 16
    && |f.systemSerialHa| == 16
    && |f.contractType| == 1
    && |f.contractHardware| == 1
    && |f.contractSoftware| == 1
    && |f.contractStart| == 8
    && |f.pad| == 4
    && |f.duration| == 8
    && |f.customerName| == 32
    && |f.customerKey| == 32
    && |f.features| == 8
    && |f.addHwCount| == 1
  }

  /** `pack`: the fields one after the other, in a buffer that `unpack`
      cuts back into the same fields. */
  function PackFields(f: Fields): (h: seq<uint8>)
    requires WellSized(f)
    ensures |h| == HeaderSize
    ensures UnpackFields(h) == f
  {
    f.version + f.model + f.systemSerial + f.systemSerialHa
    + f.contractType + f.contractHardware + f.contractSoftware
    + f.contractStart + f.pad + f.duration
    + f.customerName + f.customerKey + f.features + f.addHwCount
  }

  /** `unpack`: a header-sized buffer cut at the field offsets into fields
      of their format widths. */
  function UnpackFields(h: seq<uint8>): (f: Fields)
    requires |h| == HeaderSize
    ensures WellSized(f)
  {
    Fields(
      h[VersionAt..ModelAt], h[ModelAt..SerialAt], h[SerialAt..SerialHaAt], h[SerialHaAt..TypeAt],
      h[TypeAt..HardwareAt], h[HardwareAt..SoftwareAt], h[SoftwareAt..StartAt],
      h[StartAt..PadAt], h[PadAt..DurationAt], h[DurationAt..NameAt],
      h[NameAt..KeyAt], h[KeyAt..FeaturesAt], h[FeaturesAt..CountAt], h[CountAt..HeaderSize])
  }

  /** Packing what was unpacked gives back the buffer: no byte of the
      header lies outside a field. */
  lemma PackUnpack(h: seq<uint8>)
    requires |h| == HeaderSize
    ensures PackFields(UnpackFields(h)) == h
  {
  }
}
