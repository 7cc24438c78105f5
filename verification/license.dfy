/** The `License` record and its raw binary codec: `dump` packs the header
    with the native-mode struct `b16s16s16sbbb8sQ32s32sLb` and appends one
    `bb` pair per add-hw entry; `load` reverses it. Both work here on the
    raw bytes; the base64 text around them is not modelled. */
module LicenseCodec {
  import opened Results
  import opened Packing
  import opened Utf8
  import opened Layout
  import opened Enums
  import opened Features
  import opened Calendar
  import opened DateFormat

  /** One additional-hardware entry, `(quantity, type)`. */
  datatype AddHw = AddHw(quantity: int, hwType: int)

  /** The `License` namedtuple. The string fields hold their UTF-8 bytes. */
  datatype License = License(
    version: int,
    model: seq<uint8>,
    systemSerial: seq<uint8>,
    systemSerialHa: seq<uint8>,
    contractType: Coded<ContractType>,
    contractHardware: Coded<ContractHardware>,
    contractSoftware: Coded<ContractSoftware>,
    contractStart: CalendarDate,
    duration: int,
    customerName: seq<uint8>,
    customerKey: seq<uint8>,
    features: seq<Feature>,
    addhw: seq<AddHw>)

  datatype EnumField = ContractTypeEnum | ContractHardwareEnum | ContractSoftwareEnum

  /** Why `dump` raises. */
  datatype DumpError =
    | NotAMember(field: EnumField)   // AttributeError: `.value` of a raw integer
    | VersionOutOfRange              // struct.error from the `b` version field
    | DurationOutOfRange             // struct.error from the `Q` duration field
    | AddHwCountOutOfRange           // struct.error from the `b` add-hw count
    | AddHwOutOfRange(index: nat)    // struct.error from the `bb` pair of entry `index`

  datatype TextField = ModelText | SystemSerialText | SystemSerialHaText | CustomerNameText | CustomerKeyText

  /** Why `load` raises. */
  datatype LoadError =
    | ShortHeader                    // struct.error: fewer bytes than the header
    | NotUtf8(field: TextField)      // UnicodeDecodeError on a string field
    | BadDate                        // ValueError from strptime
    | ShortAddHw                     // struct.error: an add-hw pair cut short

  /** Widths of the `16s` and `32s` string fields. */
  const ShortText: nat := 16
  const LongText: nat := 32

  /** Everything the header's `pack` call accepts. */
  predicate HeaderPackable(l: License) {
    && l.contractType.Member?
    && l.contractHardware.Member?
    && l.contractSoftware.Member?
    && IsInt8(l.version)
    && 0 <= l.duration < Pow256(U64Width)
    && IsInt8(|l.addhw|)
  }

  /** Every add-hw entry fits its `bb` pair. */
  predicate AddHwPackable(items: seq<AddHw>) {
    forall i :: 0 <= i < |items| ==> IsInt8(items[i].quantity) && IsInt8(items[i].hwType)
  }

  predicate Dumpable(l: License) {
    HeaderPackable(l) && AddHwPackable(l.addhw)
  }

  /** A string field that survives padding and stripping: it fits its
      width, has no NUL at either end and is well-formed UTF-8. */
  predicate FitsText(s: seq<uint8>, w: nat) {
    |s| <= w && Unpadded(s) && ValidUtf8(s)
  }

  /** The shape of every record `load` returns: all five strings fit, every
      signed-byte field is in range, the duration fits `Q`, and the
      features are duplicate-free and in declaration order. */
  predicate Canonical(l: License) {
    && IsInt8(l.version)
    && FitsText(l.model, ShortText)
    && FitsText(l.systemSerial, ShortText)
    && FitsText(l.systemSerialHa, ShortText)
    && FitsText(l.customerName, LongText)
    && FitsText(l.customerKey, LongText)
    && 0 <= l.duration < Pow256(U64Width)
    && Ordered(l.features)
    && IsInt8(|l.addhw|)
    && AddHwPackable(l.addhw)
  }

  /** The three enum fields hold members, not raw codes. */
  predicate MembersOnly(l: License) {
    l.contractType.Member? && l.contractHardware.Member? && l.contractSoftware.Member?
  }

  /** The error names a field that really is out of its range. */
  predicate Justifies(l: License, e: DumpError) {
    match e
    case NotAMember(ContractTypeEnum) => l.contractType.Raw?
    case NotAMember(ContractHardwareEnum) => l.contractHardware.Raw?
    case NotAMember(ContractSoftwareEnum) => l.contractSoftware.Raw?
    case VersionOutOfRange => !IsInt8(l.version)
    case DurationOutOfRange => !(0 <= l.duration < Pow256(U64Width))
    case AddHwCountOutOfRange => !IsInt8(|l.addhw|)
    case AddHwOutOfRange(i) =>
      i < |l.addhw| && !(IsInt8(l.addhw[i].quantity) && IsInt8(l.addhw[i].hwType))
  }

  /** The fourteen header fields, pad bytes included, in struct order;
      byte 50 carries the hardware tier and byte 51 the software tier. */
  function HeaderFields(l: License): (f: Fields)
    requires HeaderPackable(l)
    ensures WellSized(f)
  {
    Fields(
      [PackInt8(l.version)],
      PackFixed(l.model, ShortText),
      PackFixed(l.systemSerial, ShortText),
      PackFixed(l.systemSerialHa, ShortText),
      [PackInt8(ContractTypeCode(l.contractType.member))],
      [PackInt8(ContractHardwareCode(l.contractHardware.member))],
      [PackInt8(ContractSoftwareCode(l.contractSoftware.member))],
      PackFixed(FormatDate(l.contractStart), DateWidth),
      Zeros(4),
      PackUnsigned(l.duration, U64Width),
      PackFixed(l.customerName, LongText),
      PackFixed(l.customerKey, LongText),
      PackUnsigned(EncodeMask(l.features), U64Width),
      [PackInt8(|l.addhw|)])
  }

  /** The header `pack` call. */
  function PackHeader(l: License): (h: seq<uint8>)
    requires HeaderPackable(l)
    ensures |h| == HeaderSize
    ensures UnpackFields(h) == HeaderFields(l)
  {
    PackFields(HeaderFields(l))
  }

  /** The `for num, hwtype in self.addhw` loop of `dump`, for entries
      numbered from `first`: two bytes per entry, in order, or the first
      entry that does not fit. */
  function PackAddHw(items: seq<AddHw>, first: nat): (r: Result<seq<uint8>, DumpError>)
    ensures r.Ok? <==> AddHwPackable(items)
    ensures r.Ok? ==> |r.value| == AddHwSize * |items|
    ensures r.Ok? ==> forall i :: 0 <= i < |items| ==>
      UnpackInt8(r.value[2 * i]) == items[i].quantity && UnpackInt8(r.value[2 * i + 1]) == items[i].hwType
    ensures r.Err? ==> r.error.AddHwOutOfRange? && first <= r.error.index < first + |items|
    ensures r.Err? ==> !(IsInt8(items[r.error.index - first].quantity) && IsInt8(items[r.error.index - first].hwType))
    ensures r.Err? ==> forall i :: 0 <= i < r.error.index - first ==>
      IsInt8(items[i].quantity) && IsInt8(items[i].hwType)
    decreases |items|
  {
    if |items| == 0 then Ok([])
    else if !(IsInt8(items[0].quantity) && IsInt8(items[0].hwType)) then Err(AddHwOutOfRange(first))
    else
      assert forall i :: 1 <= i < |items| ==> items[i] == items[1..][i - 1];
      var rest :- PackAddHw(items[1..], first + 1);
      var out := [PackInt8(items[0].quantity), PackInt8(items[0].hwType)] + rest;
      assert forall j :: 2 <= j < |out| ==> out[j] == rest[j - 2];
      Ok(out)
  }

  /** `License.dump` without the final base64 step. */
  function Dump(l: License): (r: Result<seq<uint8>, DumpError>)
    ensures r.Ok? <==> Dumpable(l)
    ensures r.Ok? ==> |r.value| == HeaderSize + AddHwSize * |l.addhw|
    ensures r.Err? ==> Justifies(l, r.error)
  {
    if l.contractType.Raw? then Err(NotAMember(ContractTypeEnum))
    else if l.contractHardware.Raw? then Err(NotAMember(ContractHardwareEnum))
    else if l.contractSoftware.Raw? then Err(NotAMember(ContractSoftwareEnum))
    else if !IsInt8(l.version) then Err(VersionOutOfRange)
    else if !(0 <= l.duration < Pow256(U64Width)) then Err(DurationOutOfRange)
    else if !IsInt8(|l.addhw|) then Err(AddHwCountOutOfRange)
    else
      var trailer :- PackAddHw(l.addhw, 0);
      Ok(PackHeader(l) + trailer)
  }

  /** `bytes.decode('utf-8').strip('\x00')` on a string field. */
  function DecodeText(raw: seq<uint8>, field: TextField): (r: Result<seq<uint8>, LoadError>)
    ensures r.Ok? <==> ValidUtf8(raw)
    ensures r.Ok? ==> Unpadded(r.value) && ValidUtf8(r.value) && |r.value| <= |raw|
    ensures r.Err? ==> r.error == NotUtf8(field)
  {
    if ValidUtf8(raw) then
      ValidStripNul(raw);
      Ok(StripNul(raw))
    else Err(NotUtf8(field))
  }

  /** The decoded string fields of a header, in struct order. */
  datatype Texts = Texts(
    model: seq<uint8>, systemSerial: seq<uint8>, systemSerialHa: seq<uint8>,
    customerName: seq<uint8>, customerKey: seq<uint8>)

  predicate TextsFit(t: Texts) {
    && FitsText(t.model, ShortText)
    && FitsText(t.systemSerial, ShortText)
    && FitsText(t.systemSerialHa, ShortText)
    && FitsText(t.customerName, LongText)
    && FitsText(t.customerKey, LongText)
  }

  /** The string decoding of `load`: model, serial, HA serial, then the
      customer name and key, each failing on bytes that are not UTF-8. */
  function DecodeTexts(f: Fields): (r: Result<Texts, LoadError>)
    requires WellSized(f)
    ensures r.Err? ==> r.error.NotUtf8?
    ensures r.Ok? ==> TextsFit(r.value)
  {
    var model :- DecodeText(f.model, ModelText);
    var serial :- DecodeText(f.systemSerial, SystemSerialText);
    var serialHa :- DecodeText(f.systemSerialHa, SystemSerialHaText);
    var name :- DecodeText(f.customerName, CustomerNameText);
    var key :- DecodeText(f.customerKey, CustomerKeyText);
    Ok(Texts(model, serial, serialHa, name, key))
  }

  /** The header part of `License.load`, in the source's order: strings,
      enums (which never fail), the date, the mask; the add-hw count comes
      back beside the record. */
  function UnpackHeader(h: seq<uint8>): (r: Result<(License, int), LoadError>)
    requires |h| == HeaderSize
    ensures r.Err? ==> r.error.NotUtf8? || r.error == BadDate
    ensures r.Ok? ==> Canonical(r.value.0) && r.value.0.addhw == [] && IsInt8(r.value.1)
  {
    var f := UnpackFields(h);
    var t :- DecodeTexts(f);
    var start :- ParseDate(f.contractStart).ToResult(BadDate);
    Ok((HeaderRecord(f, t, start), UnpackInt8(f.addHwCount[0])))
  }

  /** The record `load` builds from the header fields once the strings have
      decoded and the date has parsed; the enum codes and the mask never
      fail. */
  function HeaderRecord(f: Fields, t: Texts, start: CalendarDate): (l: License)
    requires WellSized(f) && TextsFit(t)
    ensures Canonical(l) && l.addhw == []
  {
    License(
      UnpackInt8(f.version[0]), t.model, t.systemSerial, t.systemSerialHa,
      DecodeContractType(UnpackInt8(f.contractType[0])),
      DecodeContractHardware(UnpackInt8(f.contractHardware[0])),
      DecodeContractSoftware(UnpackInt8(f.contractSoftware[0])),
      start, UnpackUnsigned(f.duration), t.customerName, t.customerKey,
      DecodeMask(UnpackUnsigned(f.features)), [])
  }

  /** When the strings decode and the date parses, the header unpacks to
      the record built from them. */
  lemma UnpackHeaderOk(h: seq<uint8>, t: Texts, start: CalendarDate)
    requires |h| == HeaderSize
    requires DecodeTexts(UnpackFields(h)) == Ok(t)
    requires ParseDate(UnpackFields(h).contractStart) == Some(start)
    ensures TextsFit(t)
    ensures UnpackHeader(h) == Ok((HeaderRecord(UnpackFields(h), t, start), UnpackInt8(UnpackFields(h).addHwCount[0])))
  {
  }

  /** A header that unpacks had decodable strings and a parsable date, and
      unpacks to the record built from them. */
  lemma UnpackHeaderShape(h: seq<uint8>)
    requires |h| == HeaderSize && UnpackHeader(h).Ok?
    ensures var f := UnpackFields(h);
      && DecodeTexts(f).Ok? && ParseDate(f.contractStart).Some?
      && UnpackHeader(h).value
         == (HeaderRecord(f, DecodeTexts(f).value, ParseDate(f.contractStart).value), UnpackInt8(f.addHwCount[0]))
  {
  }

  /** The add-hw loop of `load`: exactly `n` pairs from the bytes after the
      header, in order; bytes past them are never looked at. */
  function ReadAddHw(rest: seq<uint8>, n: nat): (r: Result<seq<AddHw>, LoadError>)
    ensures r.Ok? <==> |rest| >= AddHwSize * n
    ensures r.Ok? ==> |r.value| == n && forall i :: 0 <= i < n ==>
      r.value[i] == AddHw(UnpackInt8(rest[2 * i]), UnpackInt8(rest[2 * i + 1]))
    ensures r.Ok? ==> AddHwPackable(r.value)
    ensures r.Err? ==> r.error == ShortAddHw
  {
    if n == 0 then Ok([])
    else if |rest| < AddHwSize then Err(ShortAddHw)
    else
      var tail :- ReadAddHw(rest[AddHwSize..], n - 1);
      var out := [AddHw(UnpackInt8(rest[0]), UnpackInt8(rest[1]))] + tail;
      assert forall i :: 1 <= i < n ==> out[i] == tail[i - 1];
      Ok(out)
  }

  /** The number of steps of Python's `range(count)`: `count` itself, or
      none for a negative count. */
  function RangeLength(count: int): (n: nat)
    ensures count <= n
    ensures n == 0 || n == count
  {
    if count < 0 then 0 else count
  }

  /** Attaching a list of add-hw entries that `dump` could write back keeps
      a record canonical. */
  lemma CanonicalAddHw(l: License, items: seq<AddHw>)
    requires Canonical(l) && IsInt8(|items|) && AddHwPackable(items)
    ensures Canonical(l.(addhw := items))
  {
  }

  /** `License.load` after base64 decoding. */
  function Load(data: seq<uint8>): (r: Result<License, LoadError>)
    ensures r == Err(ShortHeader) <==> |data| < HeaderSize
    ensures r.Ok? ==> |data| >= HeaderSize + AddHwSize * |r.value.addhw|
    ensures r.Ok? ==> Canonical(r.value)
  {
    if |data| < HeaderSize then Err(ShortHeader)
    else
      var header :- UnpackHeader(data[..HeaderSize]);
      var addhw :- ReadAddHw(data[HeaderSize..], RangeLength(header.1));
      CanonicalAddHw(header.0, addhw);
      Ok(header.0.(addhw := addhw))
  }

  /** `License.contract_end`: the start date moved by `duration` days;
      `OverflowError` when that leaves the calendar. */
  function ContractEnd(l: License): (r: Result<CalendarDate, DateError>)
    ensures r.Ok? <==> 1 <= Ordinal(l.contractStart) + l.duration <= MaxOrdinal
    ensures r.Ok? ==> Ordinal(r.value) == Ordinal(l.contractStart) + l.duration
  {
    AddDays(l.contractStart, l.duration)
  }

  /** `License.expired`, with the current date passed in: the contract end
      lies strictly before `today`. */
  function Expired(l: License, today: CalendarDate): (r: Result<bool, DateError>)
    ensures r.Ok? <==> ContractEnd(l).Ok?
    ensures r.Ok? ==> (r.value <==> Ordinal(l.contractStart) + l.duration < Ordinal(today))
  {
    var end :- ContractEnd(l);
    Ok(Before(end, today))
  }
}
