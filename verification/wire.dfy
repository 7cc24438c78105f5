/** The byte layout of a dumped license, field by field at its absolute
    offset, and exactly what `load` reads from where and when it fails. */
module LicenseWire {
  import opened Results
  import opened Packing
  import opened Utf8
  import opened Layout
  import opened Enums
  import opened Features
  import opened Calendar
  import opened DateFormat
  import opened LicenseCodec

  /** A slice of a prefix is the same slice of the whole. */
  lemma PrefixSlice(s: seq<uint8>, n: nat, a: nat, b: nat)
    requires a <= b <= n <= |s|
    ensures s[..n][a..b] == s[a..b]
  {
  }

  /** Appending bytes leaves a prefix alone and extends the suffix. */
  lemma ConcatSplit(s: seq<uint8>, extra: seq<uint8>, n: nat)
    requires n <= |s|
    ensures (s + extra)[..n] == s[..n]
    ensures (s + extra)[n..] == s[n..] + extra
  {
  }

  /** Replacing the first byte leaves every slice after it alone. */
  lemma FirstByteSlice(s: seq<uint8>, x: uint8, a: nat, c: nat)
    requires 1 <= a <= c <= |s|
    ensures s[0 := x][a..c] == s[a..c]
  {
  }

  /** A dump is the packed header followed by the packed add-hw pairs. */
  lemma DumpParts(l: License)
    requires Dumpable(l)
    ensures |Dump(l).value| >= HeaderSize
    ensures Dump(l).value[..HeaderSize] == PackHeader(l)
    ensures Dump(l).value[HeaderSize..] == PackAddHw(l.addhw, 0).value
  {
    ConcatSplit(PackHeader(l), PackAddHw(l.addhw, 0).value, HeaderSize);
  }

  /** Where `dump` writes the strings, the date and the pad bytes. */
  lemma DumpTextLayout(l: License)
    requires Dumpable(l)
    ensures |Dump(l).value| >= HeaderSize
    ensures var d := Dump(l).value;
      && d[ModelAt..SerialAt] == PackFixed(l.model, ShortText)
      && d[SerialAt..SerialHaAt] == PackFixed(l.systemSerial, ShortText)
      && d[SerialHaAt..TypeAt] == PackFixed(l.systemSerialHa, ShortText)
      && d[StartAt..PadAt] == FormatDate(l.contractStart)
      && d[PadAt..DurationAt] == Zeros(4)
      && d[NameAt..KeyAt] == PackFixed(l.customerName, LongText)
      && d[KeyAt..FeaturesAt] == PackFixed(l.customerKey, LongText)
  {
    var d := Dump(l).value;
    DumpParts(l);
    PackFixedExact(FormatDate(l.contractStart));
    PrefixSlice(d, HeaderSize, ModelAt, SerialAt);
    PrefixSlice(d, HeaderSize, SerialAt, SerialHaAt);
    PrefixSlice(d, HeaderSize, SerialHaAt, TypeAt);
    PrefixSlice(d, HeaderSize, StartAt, PadAt);
    PrefixSlice(d, HeaderSize, PadAt, DurationAt);
    PrefixSlice(d, HeaderSize, NameAt, KeyAt);
    PrefixSlice(d, HeaderSize, KeyAt, FeaturesAt);
  }

  /** Where `dump` writes the one-byte fields: the version at byte 0, the
      contract type, hardware and software codes at bytes 49, 50 and 51,
      and the add-hw count at byte 144. */
  lemma DumpByteLayout(l: License)
    requires Dumpable(l)
    ensures |Dump(l).value| >= HeaderSize
    ensures var d := Dump(l).value;
      && d[VersionAt..ModelAt] == [PackInt8(l.version)]
      && d[TypeAt..HardwareAt] == [PackInt8(ContractTypeCode(l.contractType.member))]
      && d[HardwareAt..SoftwareAt] == [PackInt8(ContractHardwareCode(l.contractHardware.member))]
      && d[SoftwareAt..StartAt] == [PackInt8(ContractSoftwareCode(l.contractSoftware.member))]
      && d[CountAt..HeaderSize] == [PackInt8(|l.addhw|)]
  {
    var d := Dump(l).value;
    DumpParts(l);
    PrefixSlice(d, HeaderSize, VersionAt, ModelAt);
    PrefixSlice(d, HeaderSize, TypeAt, HardwareAt);
    PrefixSlice(d, HeaderSize, HardwareAt, SoftwareAt);
    PrefixSlice(d, HeaderSize, SoftwareAt, StartAt);
    PrefixSlice(d, HeaderSize, CountAt, HeaderSize);
  }

  /** Where `dump` writes the eight-byte fields: the duration at 64..72
      and the feature mask at 136..144, both little-endian. */
  lemma DumpWideLayout(l: License)
    requires Dumpable(l)
    ensures |Dump(l).value| >= HeaderSize
    ensures var d := Dump(l).value;
      && d[DurationAt..NameAt] == PackUnsigned(l.duration, U64Width)
      && d[FeaturesAt..CountAt] == PackUnsigned(EncodeMask(l.features), U64Width)
  {
    var d := Dump(l).value;
    DumpParts(l);
    PrefixSlice(d, HeaderSize, DurationAt, NameAt);
    PrefixSlice(d, HeaderSize, FeaturesAt, CountAt);
  }

  /** `dump` writes entry `i` of the add-hw list as the pair at bytes
      145 + 2i and 146 + 2i, right after the header, and nothing after. */
  lemma DumpAddHwLayout(l: License)
    requires Dumpable(l)
    ensures |Dump(l).value| == HeaderSize + AddHwSize * |l.addhw|
    ensures var d := Dump(l).value;
      forall i :: 0 <= i < |l.addhw| ==>
        UnpackInt8(d[HeaderSize + AddHwSize * i]) == l.addhw[i].quantity && UnpackInt8(d[HeaderSize + AddHwSize * i + 1]) == l.addhw[i].hwType
  {
    var d := Dump(l).value;
    var trailer := PackAddHw(l.addhw, 0).value;
    DumpParts(l);
    forall i | 0 <= i < |l.addhw|
      ensures d[HeaderSize + AddHwSize * i] == trailer[2 * i] && d[HeaderSize + AddHwSize * i + 1] == trailer[2 * i + 1]
    {
      assert d[HeaderSize..][2 * i] == d[HeaderSize + AddHwSize * i];
      assert d[HeaderSize..][2 * i + 1] == d[HeaderSize + AddHwSize * i + 1];
    }
  }

  /** The strings `load` returns are the NUL-stripped field bytes. */
  lemma DecodedTexts(f: Fields)
    requires WellSized(f) && DecodeTexts(f).Ok?
    ensures var t := DecodeTexts(f).value;
      && t.model == StripNul(f.model)
      && t.systemSerial == StripNul(f.systemSerial)
      && t.systemSerialHa == StripNul(f.systemSerialHa)
      && t.customerName == StripNul(f.customerName)
      && t.customerKey == StripNul(f.customerKey)
  {
    var model := DecodeText(f.model, ModelText);
    var serial := DecodeText(f.systemSerial, SystemSerialText);
    var serialHa := DecodeText(f.systemSerialHa, SystemSerialHaText);
    var name := DecodeText(f.customerName, CustomerNameText);
    var key := DecodeText(f.customerKey, CustomerKeyText);
    assert model.Ok? && serial.Ok? && serialHa.Ok? && name.Ok? && key.Ok?;
    assert DecodeTexts(f).value == Texts(model.value, serial.value, serialHa.value, name.value, key.value);
  }

  /** Which header field each field of the unpacked record comes from. */
  lemma UnpackHeaderValue(h: seq<uint8>)
    requires |h| == HeaderSize && UnpackHeader(h).Ok?
    ensures var f := UnpackFields(h);
      var (l, count) := UnpackHeader(h).value;
      && l.version == UnpackInt8(f.version[0])
      && l.model == StripNul(f.model)
      && l.systemSerial == StripNul(f.systemSerial)
      && l.systemSerialHa == StripNul(f.systemSerialHa)
      && l.contractType == DecodeContractType(UnpackInt8(f.contractType[0]))
      && l.contractHardware == DecodeContractHardware(UnpackInt8(f.contractHardware[0]))
      && l.contractSoftware == DecodeContractSoftware(UnpackInt8(f.contractSoftware[0]))
      && ParseDate(f.contractStart) == Some(l.contractStart)
      && l.duration == UnpackUnsigned(f.duration)
      && l.customerName == StripNul(f.customerName)
      && l.customerKey == StripNul(f.customerKey)
      && l.features == DecodeMask(UnpackUnsigned(f.features))
      && l.addhw == []
      && count == UnpackInt8(f.addHwCount[0])
  {
    UnpackHeaderShape(h);
    DecodedTexts(UnpackFields(h));
  }

  /** Which bytes of a header the strings and the date come from. */
  lemma UnpackHeaderTexts(h: seq<uint8>)
    requires |h| == HeaderSize && UnpackHeader(h).Ok?
    ensures var l := UnpackHeader(h).value.0;
      && l.model == StripNul(h[ModelAt..SerialAt])
      && l.systemSerial == StripNul(h[SerialAt..SerialHaAt])
      && l.systemSerialHa == StripNul(h[SerialHaAt..TypeAt])
      && ParseDate(h[StartAt..PadAt]) == Some(l.contractStart)
      && l.customerName == StripNul(h[NameAt..KeyAt])
      && l.customerKey == StripNul(h[KeyAt..FeaturesAt])
  {
    UnpackHeaderValue(h);
  }

  /** The one-byte fields of an unpacked header are the bytes at 0, 49,
      50, 51 and 144; the wide numeric fields are the slices at 64 and 136. */
  lemma UnpackedBytes(h: seq<uint8>)
    requires |h| == HeaderSize
    ensures var f := UnpackFields(h);
      && f.version[0] == h[0]
      && f.contractType[0] == h[TypeAt]
      && f.contractHardware[0] == h[HardwareAt]
      && f.contractSoftware[0] == h[SoftwareAt]
      && f.duration == h[DurationAt..NameAt]
      && f.features == h[FeaturesAt..CountAt]
      && f.addHwCount[0] == h[CountAt]
  {
  }

  /** Which bytes of a header the three enum fields come from. */
  lemma UnpackHeaderEnums(h: seq<uint8>)
    requires |h| == HeaderSize && UnpackHeader(h).Ok?
    ensures var l := UnpackHeader(h).value.0;
      && l.contractType == DecodeContractType(UnpackInt8(h[TypeAt]))
      && l.contractHardware == DecodeContractHardware(UnpackInt8(h[HardwareAt]))
      && l.contractSoftware == DecodeContractSoftware(UnpackInt8(h[SoftwareAt]))
  {
    UnpackHeaderValue(h);
    UnpackedBytes(h);
  }

  /** Which bytes of a header the version, duration, mask and count come from. */
  lemma UnpackHeaderNumbers(h: seq<uint8>)
    requires |h| == HeaderSize && UnpackHeader(h).Ok?
    ensures var (l, count) := UnpackHeader(h).value;
      && l.version == UnpackInt8(h[0])
      && l.duration == UnpackUnsigned(h[DurationAt..NameAt])
      && l.features == DecodeMask(UnpackUnsigned(h[FeaturesAt..CountAt]))
      && l.addhw == []
      && count == UnpackInt8(h[CountAt])
  {
    UnpackHeaderValue(h);
    UnpackedBytes(h);
  }

  /** A successful `load` is the unpacked header plus the add-hw pairs its
      count asks for. */
  lemma LoadParts(data: seq<uint8>)
    requires Load(data).Ok?
    ensures |data| >= HeaderSize
    ensures var header := UnpackHeader(data[..HeaderSize]);
      && header.Ok?
      && Load(data).value.(addhw := []) == header.value.0
      && ReadAddHw(data[HeaderSize..], RangeLength(header.value.1)) == Ok(Load(data).value.addhw)
  {
  }

  /** Where `load` reads the strings and the date: NUL-stripped bytes 1..17,
      17..33, 33..49, 72..104 and 104..136, and the text at 52..60. */
  lemma LoadReadsTexts(data: seq<uint8>)
    requires Load(data).Ok?
    ensures |data| >= HeaderSize
    ensures var l := Load(data).value;
      && l.model == StripNul(data[ModelAt..SerialAt])
      && l.systemSerial == StripNul(data[SerialAt..SerialHaAt])
      && l.systemSerialHa == StripNul(data[SerialHaAt..TypeAt])
      && ParseDate(data[StartAt..PadAt]) == Some(l.contractStart)
      && l.customerName == StripNul(data[NameAt..KeyAt])
      && l.customerKey == StripNul(data[KeyAt..FeaturesAt])
  {
    LoadParts(data);
    var h := data[..HeaderSize];
    UnpackHeaderTexts(h);
    PrefixSlice(data, HeaderSize, ModelAt, SerialAt);
    PrefixSlice(data, HeaderSize, SerialAt, SerialHaAt);
    PrefixSlice(data, HeaderSize, SerialHaAt, TypeAt);
    PrefixSlice(data, HeaderSize, StartAt, PadAt);
    PrefixSlice(data, HeaderSize, NameAt, KeyAt);
    PrefixSlice(data, HeaderSize, KeyAt, FeaturesAt);
  }

  /** Where `load` reads the one-byte fields: the version at byte 0, the
      contract type, hardware and software codes at 49, 50 and 51, and the
      add-hw count at 144, which asks for no pairs when negative. */
  lemma LoadReadsBytes(data: seq<uint8>)
    requires Load(data).Ok?
    ensures |data| >= HeaderSize
    ensures var l := Load(data).value;
      && l.version == UnpackInt8(data[0])
      && l.contractType == DecodeContractType(UnpackInt8(data[TypeAt]))
      && l.contractHardware == DecodeContractHardware(UnpackInt8(data[HardwareAt]))
      && l.contractSoftware == DecodeContractSoftware(UnpackInt8(data[SoftwareAt]))
      && |l.addhw| == RangeLength(UnpackInt8(data[CountAt]))
  {
    LoadParts(data);
    var h := data[..HeaderSize];
    UnpackHeaderEnums(h);
    UnpackHeaderNumbers(h);
  }

  /** Where `load` reads the eight-byte fields: the duration at 64..72 and
      the feature mask at 136..144. */
  lemma LoadReadsWide(data: seq<uint8>)
    requires Load(data).Ok?
    ensures |data| >= HeaderSize
    ensures var l := Load(data).value;
      && l.duration == UnpackUnsigned(data[DurationAt..NameAt])
      && l.features == DecodeMask(UnpackUnsigned(data[FeaturesAt..CountAt]))
  {
    LoadParts(data);
    var h := data[..HeaderSize];
    UnpackHeaderNumbers(h);
    PrefixSlice(data, HeaderSize, DurationAt, NameAt);
    PrefixSlice(data, HeaderSize, FeaturesAt, CountAt);
  }

  /** Where `load` reads the add-hw pairs: entry `i` from bytes 145 + 2i
      and 146 + 2i. */
  lemma LoadReadsAddHw(data: seq<uint8>)
    requires Load(data).Ok?
    ensures |data| >= HeaderSize + AddHwSize * |Load(data).value.addhw|
    ensures var l := Load(data).value;
      forall i :: 0 <= i < |l.addhw| ==>
        l.addhw[i] == AddHw(UnpackInt8(data[HeaderSize + AddHwSize * i]), UnpackInt8(data[HeaderSize + AddHwSize * i + 1]))
  {
    LoadParts(data);
    var header := UnpackHeader(data[..HeaderSize]).value;
    ReadAddHwAt(data, RangeLength(header.1), Load(data).value.addhw);
  }

  /** The add-hw pairs read after a header, at their absolute offsets. */
  lemma ReadAddHwAt(data: seq<uint8>, n: nat, items: seq<AddHw>)
    requires |data| >= HeaderSize && ReadAddHw(data[HeaderSize..], n) == Ok(items)
    ensures |items| == n && |data| >= HeaderSize + AddHwSize * n
    ensures forall i :: 0 <= i < n ==>
      items[i] == AddHw(UnpackInt8(data[HeaderSize + AddHwSize * i]), UnpackInt8(data[HeaderSize + AddHwSize * i + 1]))
  {
    var rest := data[HeaderSize..];
    forall i | 0 <= i < n
      ensures items[i] == AddHw(UnpackInt8(data[HeaderSize + AddHwSize * i]), UnpackInt8(data[HeaderSize + AddHwSize * i + 1]))
    {
      assert rest[2 * i] == data[HeaderSize + AddHwSize * i] && rest[2 * i + 1] == data[HeaderSize + AddHwSize * i + 1];
    }
  }

  /** The first of the five string fields, in `load`'s decoding order,
      that is not UTF-8. */
  function FirstInvalid(model: seq<uint8>, serial: seq<uint8>, serialHa: seq<uint8>,
                        name: seq<uint8>, key: seq<uint8>): Option<TextField>
  {
    if !ValidUtf8(model) then Some(ModelText)
    else if !ValidUtf8(serial) then Some(SystemSerialText)
    else if !ValidUtf8(serialHa) then Some(SystemSerialHaText)
    else if !ValidUtf8(name) then Some(CustomerNameText)
    else if !ValidUtf8(key) then Some(CustomerKeyText)
    else None
  }

  /** String decoding fails exactly on the first field that is not UTF-8. */
  lemma DecodeTextsOutcome(f: Fields)
    requires WellSized(f)
    ensures var bad := FirstInvalid(f.model, f.systemSerial, f.systemSerialHa,
                                    f.customerName, f.customerKey);
      && (DecodeTexts(f).Ok? <==> bad.None?)
      && (DecodeTexts(f).Err? ==> bad == Some(DecodeTexts(f).error.field))
  {
    var m := DecodeText(f.model, ModelText);
    var s := DecodeText(f.systemSerial, SystemSerialText);
    var sh := DecodeText(f.systemSerialHa, SystemSerialHaText);
    var n := DecodeText(f.customerName, CustomerNameText);
    var k := DecodeText(f.customerKey, CustomerKeyText);
    if m.Err? {
      assert DecodeTexts(f) == Err(NotUtf8(ModelText));
    } else if s.Err? {
      assert DecodeTexts(f) == Err(NotUtf8(SystemSerialText));
    } else if sh.Err? {
      assert DecodeTexts(f) == Err(NotUtf8(SystemSerialHaText));
    } else if n.Err? {
      assert DecodeTexts(f) == Err(NotUtf8(CustomerNameText));
    } else if k.Err? {
      assert DecodeTexts(f) == Err(NotUtf8(CustomerKeyText));
    } else {
      assert DecodeTexts(f).Ok?;
    }
  }

  /** The string fields of a header, read at their absolute offsets. */
  function HeaderInvalid(h: seq<uint8>): Option<TextField>
    requires |h| >= HeaderSize
  {
    FirstInvalid(h[ModelAt..SerialAt], h[SerialAt..SerialHaAt], h[SerialHaAt..TypeAt], h[NameAt..KeyAt], h[KeyAt..FeaturesAt])
  }

  /** How the header part of `load` ends: the first string field that is
      not UTF-8, else a date text that does not parse, else success. */
  lemma UnpackHeaderOutcome(h: seq<uint8>)
    requires |h| == HeaderSize
    ensures UnpackHeader(h).Ok? <==> HeaderInvalid(h).None? && ParseDate(h[StartAt..PadAt]).Some?
    ensures UnpackHeader(h) == Err(BadDate) <==> HeaderInvalid(h).None? && ParseDate(h[StartAt..PadAt]).None?
    ensures UnpackHeader(h).Err? && UnpackHeader(h).error.NotUtf8? ==>
      HeaderInvalid(h) == Some(UnpackHeader(h).error.field)
  {
    DecodeTextsOutcome(UnpackFields(h));
  }

  /** The header of a buffer holds the same string fields and date text
      as the buffer itself. */
  lemma HeaderPrefix(data: seq<uint8>)
    requires |data| >= HeaderSize
    ensures HeaderInvalid(data[..HeaderSize]) == HeaderInvalid(data)
    ensures data[..HeaderSize][StartAt..PadAt] == data[StartAt..PadAt]
    ensures data[..HeaderSize][CountAt] == data[CountAt]
  {
    PrefixSlice(data, HeaderSize, ModelAt, SerialAt);
    PrefixSlice(data, HeaderSize, SerialAt, SerialHaAt);
    PrefixSlice(data, HeaderSize, SerialHaAt, TypeAt);
    PrefixSlice(data, HeaderSize, StartAt, PadAt);
    PrefixSlice(data, HeaderSize, NameAt, KeyAt);
    PrefixSlice(data, HeaderSize, KeyAt, FeaturesAt);
  }

  /** `load` fails as the header part fails; past a good header it fails
      only when the add-hw pairs run short. */
  lemma LoadSteps(data: seq<uint8>)
    requires |data| >= HeaderSize
    ensures var header := UnpackHeader(data[..HeaderSize]);
      && (header.Err? ==> Load(data) == Err(header.error))
      && (header.Ok? ==>
            && (Load(data).Ok? <==> ReadAddHw(data[HeaderSize..], RangeLength(header.value.1)).Ok?)
            && (Load(data).Err? ==> Load(data).error == ShortAddHw))
  {
  }

  /** `load` fails on a string field exactly when one is not UTF-8, and
      then names the first such field in its decoding order. */
  lemma LoadTextFailure(data: seq<uint8>)
    requires |data| >= HeaderSize
    ensures Load(data).Err? && Load(data).error.NotUtf8? <==> HeaderInvalid(data).Some?
    ensures Load(data).Err? && Load(data).error.NotUtf8? ==> HeaderInvalid(data) == Some(Load(data).error.field)
  {
    UnpackHeaderOutcome(data[..HeaderSize]);
    HeaderPrefix(data);
    LoadSteps(data);
  }

  /** `load` fails on the date exactly when the strings decode and the
      text at bytes 52..60 does not parse. */
  lemma LoadDateFailure(data: seq<uint8>)
    requires |data| >= HeaderSize
    ensures Load(data) == Err(BadDate) <==> HeaderInvalid(data).None? && ParseDate(data[StartAt..PadAt]).None?
  {
    UnpackHeaderOutcome(data[..HeaderSize]);
    HeaderPrefix(data);
    LoadSteps(data);
  }

  /** Past a good header, `load` fails exactly when the buffer is too short
      for the pairs the count at byte 144 asks for; bytes beyond them never
      cause a failure. */
  lemma LoadAddHwFailure(data: seq<uint8>)
    requires |data| >= HeaderSize
    requires HeaderInvalid(data).None? && ParseDate(data[StartAt..PadAt]).Some?
    ensures Load(data).Ok? <==> |data| >= HeaderSize + AddHwSize * RangeLength(UnpackInt8(data[CountAt]))
    ensures Load(data).Err? ==> Load(data).error == ShortAddHw
  {
    var h := data[..HeaderSize];
    UnpackHeaderOutcome(h);
    HeaderPrefix(data);
    UnpackHeaderNumbers(h);
    LoadSteps(data);
  }

  /** Reading `n` pairs never looks past them. */
  lemma {:induction false} ReadAddHwPrefix(rest: seq<uint8>, extra: seq<uint8>, n: nat)
    requires |rest| >= AddHwSize * n
    ensures ReadAddHw(rest + extra, n) == ReadAddHw(rest, n)
  {
    var long := ReadAddHw(rest + extra, n).value;
    var short := ReadAddHw(rest, n).value;
    forall i | 0 <= i < n
      ensures long[i] == short[i]
    {
      assert (rest + extra)[2 * i] == rest[2 * i] && (rest + extra)[2 * i + 1] == rest[2 * i + 1];
    }
    assert long == short;
  }

  /** Bytes after the last add-hw pair are ignored: appending anything to a
      loadable buffer loads the same record. */
  lemma LoadIgnoresTrailingBytes(data: seq<uint8>, extra: seq<uint8>)
    requires Load(data).Ok?
    ensures Load(data + extra) == Load(data)
  {
    LoadParts(data);
    var h := data[..HeaderSize];
    ConcatSplit(data, extra, HeaderSize);
    ReadAddHwPrefix(data[HeaderSize..], extra, RangeLength(UnpackHeader(h).value.1));
  }

  /** Replacing the version byte of a header changes only the version of
      the unpacked record: every other field, every failure and the add-hw
      count stay as they were. */
  lemma UnpackHeaderVersion(h: seq<uint8>, b: uint8)
    requires |h| == HeaderSize
    ensures UnpackHeader(h[0 := b])
         == if UnpackHeader(h).Ok?
            then Ok((UnpackHeader(h).value.0.(version := UnpackInt8(b)), UnpackHeader(h).value.1))
            else UnpackHeader(h)
  {
    UnpackFieldsVersion(h, b);
    DecodeTextsVersion(UnpackFields(h), [b]);
    if UnpackHeader(h).Ok? {
      UnpackHeaderVersionOk(h, b);
    } else {
      UnpackHeaderVersionErr(h, b);
    }
  }

  lemma UnpackHeaderVersionOk(h: seq<uint8>, b: uint8)
    requires |h| == HeaderSize && UnpackHeader(h).Ok?
    requires UnpackFields(h[0 := b]) == UnpackFields(h).(version := [b])
    requires DecodeTexts(UnpackFields(h[0 := b])) == DecodeTexts(UnpackFields(h))
    ensures UnpackHeader(h[0 := b]) == Ok((UnpackHeader(h).value.0.(version := UnpackInt8(b)), UnpackHeader(h).value.1))
  {
    var f := UnpackFields(h);
    UnpackHeaderShape(h);
    var t, start := DecodeTexts(f).value, ParseDate(f.contractStart).value;
    UnpackHeaderOk(h[0 := b], t, start);
    DecodeTextsVersion(f, [b]);
  }

  lemma UnpackHeaderVersionErr(h: seq<uint8>, b: uint8)
    requires |h| == HeaderSize && UnpackHeader(h).Err?
    requires UnpackFields(h[0 := b]) == UnpackFields(h).(version := [b])
    requires DecodeTexts(UnpackFields(h[0 := b])) == DecodeTexts(UnpackFields(h))
    ensures UnpackHeader(h[0 := b]) == UnpackHeader(h)
  {
  }

  /** The version byte is a field of its own. */
  lemma UnpackFieldsVersion(h: seq<uint8>, b: uint8)
    requires |h| == HeaderSize
    ensures UnpackFields(h[0 := b]) == UnpackFields(h).(version := [b])
  {
    FirstByteSlice(h, b, ModelAt, SerialAt);
    FirstByteSlice(h, b, SerialAt, SerialHaAt);
    FirstByteSlice(h, b, SerialHaAt, TypeAt);
    FirstByteSlice(h, b, TypeAt, HardwareAt);
    FirstByteSlice(h, b, HardwareAt, SoftwareAt);
    FirstByteSlice(h, b, SoftwareAt, StartAt);
    FirstByteSlice(h, b, StartAt, PadAt);
    FirstByteSlice(h, b, PadAt, DurationAt);
    FirstByteSlice(h, b, DurationAt, NameAt);
    FirstByteSlice(h, b, NameAt, KeyAt);
    FirstByteSlice(h, b, KeyAt, FeaturesAt);
    FirstByteSlice(h, b, FeaturesAt, CountAt);
    FirstByteSlice(h, b, CountAt, HeaderSize);
  }

  /** String decoding does not look at the version field, and the record
      built from a header takes its version from that field alone. */
  lemma DecodeTextsVersion(f: Fields, v: seq<uint8>)
    requires WellSized(f) && |v| == 1
    ensures DecodeTexts(f.(version := v)) == DecodeTexts(f)
    ensures forall t, start :: TextsFit(t) ==>
      HeaderRecord(f.(version := v), t, start) == HeaderRecord(f, t, start).(version := UnpackInt8(v[0]))
  {
    var g := f.(version := v);
    DecodeTextsOutcome(f);
    DecodeTextsOutcome(g);
    if DecodeTexts(f).Ok? {
      DecodedTexts(f);
      DecodedTexts(g);
    }
  }

  /** `load` never checks the version byte: whatever value it holds, the
      buffer fails exactly as before or loads the same record with that
      value as its version. */
  lemma LoadIgnoresVersionByte(data: seq<uint8>, b: uint8)
    requires |data| >= HeaderSize
    ensures Load(data[0 := b])
         == if Load(data).Ok? then Ok(Load(data).value.(version := UnpackInt8(b))) else Load(data)
  {
    var d := data[0 := b];
    assert d[..HeaderSize] == data[..HeaderSize][0 := b];
    assert d[HeaderSize..] == data[HeaderSize..];
    UnpackHeaderVersion(data[..HeaderSize], b);
    LoadSteps(data);
    LoadSteps(d);
  }
}
