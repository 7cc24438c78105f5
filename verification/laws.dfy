/** The round trip of the codec: `load` inverts `dump` on every record it
    can return, and `dump` inverts `load` on every record whose enum
    fields are members. */
module LicenseLaws {
  import opened Results
  import opened Packing
  import opened Utf8
  import opened Layout
  import opened Enums
  import opened Features
  import opened Calendar
  import opened DateFormat
  import opened LicenseCodec

  /** Padding a fitting string to its field and decoding it gives it back. */
  lemma DecodePackedText(s: seq<uint8>, w: nat, field: TextField)
    requires FitsText(s, w)
    ensures DecodeText(PackFixed(s, w), field) == Ok(s)
  {
    var padded := PackFixed(s, w);
    PackFixedPads(s, w);
    ValidPackFixed(s, w);
    StripPadded(s, w - |s|);
    assert StripNul(padded) == s;
    assert DecodeText(padded, field) == Ok(StripNul(padded));
  }

  /** Header fields holding five padded fitting strings decode to them. */
  lemma DecodePackedTexts(fs: Fields, t: Texts)
    requires WellSized(fs) && TextsFit(t)
    requires fs.model == PackFixed(t.model, ShortText)
    requires fs.systemSerial == PackFixed(t.systemSerial, ShortText)
    requires fs.systemSerialHa == PackFixed(t.systemSerialHa, ShortText)
    requires fs.customerName == PackFixed(t.customerName, LongText)
    requires fs.customerKey == PackFixed(t.customerKey, LongText)
    ensures DecodeTexts(fs) == Ok(t)
  {
    DecodePackedText(t.model, ShortText, ModelText);
    DecodePackedText(t.systemSerial, ShortText, SystemSerialText);
    DecodePackedText(t.systemSerialHa, ShortText, SystemSerialHaText);
    DecodePackedText(t.customerName, LongText, CustomerNameText);
    DecodePackedText(t.customerKey, LongText, CustomerKeyText);
  }

  /** The feature mask of a record fits the 8-byte `L` field and decodes
      to the record's features. */
  lemma MaskRoundTrip(fs: seq<Feature>)
    requires Ordered(fs)
    ensures EncodeMask(fs) < Pow256(U64Width)
    ensures DecodeMask(UnpackUnsigned(PackUnsigned(EncodeMask(fs), U64Width))) == fs
  {
    U64Range();
    UnpackPackUnsigned(EncodeMask(fs), U64Width);
    DecodeEncodeMask(fs);
  }

  /** The string fields of a packed header decode to the record's strings. */
  lemma DecodeHeaderTexts(l: License)
    requires HeaderPackable(l)
    requires TextsFit(RecordTexts(l))
    ensures DecodeTexts(HeaderFields(l)) == Ok(RecordTexts(l))
  {
    DecodePackedTexts(HeaderFields(l), RecordTexts(l));
  }

  /** The date field of a packed header parses to the start date. */
  lemma DecodeHeaderDate(l: License)
    requires HeaderPackable(l)
    ensures ParseDate(HeaderFields(l).contractStart) == Some(l.contractStart)
  {
    var text := FormatDate(l.contractStart);
    PackFixedExact(text);
    ParseFormatDate(l.contractStart);
  }

  /** The one-byte enum fields of a packed header resolve to the members. */
  lemma DecodeHeaderEnums(l: License)
    requires HeaderPackable(l)
    ensures var f := HeaderFields(l);
      && DecodeContractType(UnpackInt8(f.contractType[0])) == l.contractType
      && DecodeContractHardware(UnpackInt8(f.contractHardware[0])) == l.contractHardware
      && DecodeContractSoftware(UnpackInt8(f.contractSoftware[0])) == l.contractSoftware
  {
    var t, hw, sw := l.contractType.member, l.contractHardware.member, l.contractSoftware.member;
    DecodeContractTypeCode(t);
    DecodeContractHardwareCode(hw);
    DecodeContractSoftwareCode(sw);
  }

  /** The numeric fields of a packed header decode to the record's values. */
  lemma DecodeHeaderNumbers(l: License)
    requires HeaderPackable(l) && Ordered(l.features)
    ensures var f := HeaderFields(l);
      && UnpackInt8(f.version[0]) == l.version
      && UnpackUnsigned(f.duration) == l.duration
      && DecodeMask(UnpackUnsigned(f.features)) == l.features
      && UnpackInt8(f.addHwCount[0]) == |l.addhw|
  {
    UnpackPackUnsigned(l.duration, U64Width);
    MaskRoundTrip(l.features);
  }

  /** The five strings of a record. */
  function RecordTexts(l: License): Texts {
    Texts(l.model, l.systemSerial, l.systemSerialHa, l.customerName, l.customerKey)
  }

  /** The record `load` assembles from a packed header is the original,
      add-hw entries aside. */
  lemma HeaderRecordOf(l: License)
    requires HeaderPackable(l) && Ordered(l.features) && TextsFit(RecordTexts(l))
    ensures HeaderRecord(HeaderFields(l), RecordTexts(l), l.contractStart) == l.(addhw := [])
  {
    DecodeHeaderEnums(l);
    DecodeHeaderNumbers(l);
  }

  /** A header whose fields are those of a record unpacks to the record. */
  lemma UnpackHeaderFields(h: seq<uint8>, l: License)
    requires |h| == HeaderSize && HeaderPackable(l) && Ordered(l.features)
    requires TextsFit(RecordTexts(l))
    requires UnpackFields(h) == HeaderFields(l)
    ensures UnpackHeader(h) == Ok((l.(addhw := []), |l.addhw|))
  {
    DecodeHeaderTexts(l);
    DecodeHeaderDate(l);
    UnpackHeaderOk(h, RecordTexts(l), l.contractStart);
    HeaderRecordOf(l);
    DecodeHeaderNumbers(l);
  }

  /** Unpacking a packed header gives back the record, without its add-hw
      entries, and their count. */
  lemma UnpackPackHeader(l: License)
    requires Canonical(l) && MembersOnly(l)
    ensures HeaderPackable(l)
    ensures UnpackHeader(PackHeader(l)) == Ok((l.(addhw := []), |l.addhw|))
  {
    UnpackHeaderFields(PackHeader(l), l);
  }

  /** Reading back the packed add-hw pairs gives the entries. */
  lemma ReadPackAddHw(items: seq<AddHw>)
    requires AddHwPackable(items)
    ensures ReadAddHw(PackAddHw(items, 0).value, |items|) == Ok(items)
  {
    var packed := PackAddHw(items, 0).value;
    var read := ReadAddHw(packed, |items|).value;
    forall i | 0 <= i < |items|
      ensures read[i] == items[i]
    {
      assert read[i] == AddHw(UnpackInt8(packed[2 * i]), UnpackInt8(packed[2 * i + 1]));
    }
    assert |read| == |items|;
    assert read == items;
  }

  /** `load` inverts `dump` on every record of the shape `load` returns
      whose enum fields are members. */
  lemma LoadDump(l: License)
    requires Canonical(l) && MembersOnly(l)
    ensures Dump(l).Ok?
    ensures Load(Dump(l).value) == Ok(l)
  {
    var h := PackHeader(l);
    var trailer := PackAddHw(l.addhw, 0).value;
    var data := h + trailer;
    assert Dump(l).value == data;
    assert data[..HeaderSize] == h;
    assert data[HeaderSize..] == trailer;
    UnpackPackHeader(l);
    ReadPackAddHw(l.addhw);
  }

  /** A loaded record whose enum codes were all known dumps again, and
      loading that dump gives the same record. */
  lemma DumpLoad(data: seq<uint8>)
    requires Load(data).Ok? && MembersOnly(Load(data).value)
    ensures Dump(Load(data).value).Ok?
    ensures Load(Dump(Load(data).value).value) == Load(data)
  {
    LoadDump(Load(data).value);
  }
}
