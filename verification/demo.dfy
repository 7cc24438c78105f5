/** The sample license built by the module's `__main__` block: a Z50 with
    the dedup feature, a bronze parts-only contract of 300 days and one
    add-hw entry. Its dump is 147 bytes and loads back to the same record. */
module LicenseDemo {
  import opened Results
  import opened Packing
  import opened Utf8
  import opened Enums
  import opened Features
  import opened Calendar
  import opened LicenseCodec
  import opened LicenseLaws

  predicate IsAscii(s: string) {
    forall i :: 0 <= i < |s| ==> s[i] as int < 0x80
  }

  /** The UTF-8 bytes of an ASCII string. */
  function Ascii(s: string): (b: seq<uint8>)
    requires IsAscii(s)
    ensures |b| == |s|
    ensures forall i :: 0 <= i < |s| ==> b[i] == s[i] as int && b[i] < 0x80
  {
    seq(|s|, i requires 0 <= i < |s| => s[i] as int)
  }

  /** An ASCII string without NUL characters fits a field it is no wider than. */
  lemma AsciiFits(s: string, w: nat)
    requires IsAscii(s) && |s| <= w
    requires |s| == 0 || (s[0] as int != 0 && s[|s| - 1] as int != 0)
    ensures FitsText(Ascii(s), w)
  {
    ValidAscii(Ascii(s));
  }

  const SampleModel: string := "Z50"
  const SampleSerial: string := "A1-3333333333333"
  const SampleCustomer: string := "iXsystems"

  /** The sample record, with the start date (`datetime.today()` there)
      passed in. */
  function Sample(today: CalendarDate): License {
    SampleAscii();
    License(
      1, Ascii(SampleModel), Ascii(SampleSerial), [],
      Member(Bronze), Member(Parts), Member(NoSoftware),
      today, 300, Ascii(SampleCustomer), [],
      [Dedup], [AddHw(5, 1)])
  }

  lemma SampleAscii()
    ensures IsAscii(SampleModel) && IsAscii(SampleSerial) && IsAscii(SampleCustomer)
  {
  }

  lemma SampleStrings()
    ensures IsAscii(SampleModel) && IsAscii(SampleSerial) && IsAscii(SampleCustomer)
    ensures FitsText(Ascii(SampleModel), ShortText)
    ensures FitsText(Ascii(SampleSerial), ShortText)
    ensures FitsText(Ascii(SampleCustomer), LongText)
  {
    SampleAscii();
    AsciiFits(SampleModel, ShortText);
    AsciiFits(SampleSerial, ShortText);
    AsciiFits(SampleCustomer, LongText);
  }

  /** The sample has the shape of a loaded record, and its enum fields are
      members. */
  lemma SampleIsCanonical(today: CalendarDate)
    ensures Canonical(Sample(today)) && MembersOnly(Sample(today))
  {
    var l := Sample(today);
    SampleStrings();
    assert l.model == Ascii(SampleModel) && l.systemSerial == Ascii(SampleSerial);
    assert l.customerName == Ascii(SampleCustomer);
    U64Range();
    assert Ordered(l.features);
    assert AddHwPackable(l.addhw);
    assert FitsText(l.systemSerialHa, ShortText) && FitsText(l.customerKey, LongText);
  }

  /** The sample dumps to 147 bytes (a 145-byte header and one add-hw
      pair), and loading the dump gives the sample back. */
  lemma SampleRoundTrip(today: CalendarDate)
    ensures Dump(Sample(today)).Ok?
    ensures |Dump(Sample(today)).value| == 147
    ensures Load(Dump(Sample(today)).value) == Ok(Sample(today))
  {
    SampleIsCanonical(today);
    LoadDump(Sample(today));
  }
}
