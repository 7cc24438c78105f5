# licenselib license codec in Dafny

This project models the core of `licenselib/license.py` and proves properties of the model. The core is:

- the contract enumerations and the `Features` flag set;
- the `License` record;
- the raw binary codec, `License.dump` and `License.load`, without their base64 wrapping;
- the two date queries, `contract_end` and `expired`.

Files, one module each:

| file | module | what it holds |
|---|---|---|
| `packing.dfy` | `Packing` | `struct` scalar formats `b`, `Q`/native `L`, `Ns`; NUL stripping |
| `layout.dfy` | `Layout` | the header as fourteen fields at fixed offsets |
| `utf8.dfy` | `Utf8` | strict UTF-8 well-formedness, as `bytes.decode('utf-8')` checks it |
| `enums.dfy` | `Enums` | `ContractType`, `ContractHardware`, `ContractSoftware`, and code resolution |
| `bits.dfy`, `features.dfy` | `Bits`, `Features` | `|` and `&` on integers; the feature mask |
| `calendar.dfy`, `dateformat.dfy` | `Calendar`, `DateFormat` | `datetime.date`, ordinals, `timedelta` addition; `strftime`/`strptime` with `%Y%m%d` |
| `license.dfy` | `LicenseCodec` | the record, `dump`, `load`, `contract_end`, `expired` |
| `laws.dfy` | `LicenseLaws` | the round trip `load(dump(l)) == l` and its parts |
| `wire.dfy` | `LicenseWire` | byte offsets of every field, `load`'s failure points, bytes `load` ignores |
| `expiry.dfy` | `LicenseExpiry` | the expiry boundary |
| `demo.dfy` | `LicenseDemo` | the sample license of the module's `__main__` block |

## Layout

The header format `b16s16s16sbbb8sQ32s32sLb` has no byte-order prefix. CPython therefore packs it with native size and alignment. The model fixes an LP64 little-endian machine:

| field | offset | bytes |
|---|---|---|
| version | 0 | 1 |
| model | 1 | 16 |
| system serial | 17 | 16 |
| HA serial | 33 | 16 |
| contract type | 49 | 1 |
| contract hardware | 50 | 1 |
| contract software | 51 | 1 |
| start date | 52 | 8 |
| padding | 60 | 4 |
| duration | 64 | 8 |
| customer name | 72 | 32 |
| customer key | 104 | 32 |
| features | 136 | 8 |
| add-hw count | 144 | 1 |

- The offsets are the constants `Layout.VersionAt` through `Layout.CountAt`.
- The header is `Layout.HeaderSize` = 145 bytes. A standard-size (`=`) format would give 137.
- Each add-hw entry adds one `bb` pair: `Layout.AddHwSize` = 2 bytes.
- The comments beside the struct name byte 50 "software" and byte 51 "hardware". The code packs and unpacks the hardware tier at byte 50 and the software tier at byte 51. The model follows the code.

## Modelling decisions

The model follows the code as written:

- `load` never checks the version byte.
- An enum code with no member stays in the record as the raw integer (`Enums.Coded.Raw`). `dump` of such a record fails, because the raw integer has no `.value`.
- A string longer than its field is truncated silently by `Ns` packing. It is not rejected.
- A negative add-hw count reads no pairs.
- Bytes after the last pair are ignored.

Strings are held as their UTF-8 bytes:

- `load`'s strict decode is the predicate `Utf8.ValidUtf8`, the well-formed sequences of Table 3-7 of the Unicode Standard.
- `strip('\x00')` works on bytes, since a NUL character is exactly a zero byte in UTF-8.

Dates:

- Dates are proleptic Gregorian dates in years 1..9999.
- `timedelta` addition goes through ordinals and fails with `OverflowError` outside `1..3652059`.
- `strftime("%Y%m%d")` writes the year as four zero-padded digits.
- `strptime(…, '%Y%m%d')` on the eight field characters accepts exactly the following, for a day that exists:
  - four digits of year;
  - a month `1[0-2]` or `0[1-9]`;
  - a day `3[01]`, `[12]\d`, `0[1-9]` or ` [1-9]`.

  A space-padded day is accepted.
- The ASCII decode of the date field and `strptime` both raise a `ValueError`. The model reports both as `LoadError.BadDate`.

Errors:

- `dump` reports the first failure in the order the code meets them, as a `DumpError`. Argument evaluation comes first (the three `.value` lookups). Then `pack` range-checks the version, the duration and the add-hw count. Then the `bb` pairs are packed, in order.
- `load` reports errors in this order:
  1. a short header;
  2. a string field that is not UTF-8, in decoding order (model, serial, HA serial, customer name, customer key);
  3. a bad date;
  4. a short add-hw pair.

## Model

| member | source | states |
|---|---|---|
| Packing.PackInt8 | licenselib/license.py:42-60 | a `b` field is written as the two's-complement byte of a value in -128..127, and reading that byte gives the value back |
| Packing.UnpackInt8 | licenselib/license.py:84 | a `b` field reads as a value in -128..127 congruent to the byte modulo 256 |
| Packing.PackUnpackInt8 | licenselib/license.py:84 | every byte read as a signed `b` value packs back to the same byte |
| Packing.PackUnsigned | licenselib/license.py:156-159 | `Q` and native `L` packing of a value below 256**k writes exactly k bytes; `UnpackPackUnsigned` reads them back |
| Packing.UnpackUnsigned | licenselib/license.py:84 | reading k little-endian bytes gives a value below 256**k; `PackUnpackUnsigned` writes them back |
| Packing.U64Range | licenselib/license.py:51 | the eight-byte unsigned fields hold exactly the values below 2**64 |
| Packing.UnpackPackUnsigned | licenselib/license.py:51 | a `Q` value below 2**64 written little-endian in 8 bytes reads back unchanged |
| Packing.PackUnpackUnsigned | licenselib/license.py:51 | any 8 bytes read as `Q` and written again are the same bytes |
| Packing.PackFixed | licenselib/license.py:149-158 | `Ns` packing has exactly N bytes: the input's bytes, then NUL padding; longer input is cut at N without error |
| Packing.StripNul | licenselib/license.py:86-88 | `strip('\x00')` leaves no NUL at either end and removes nothing but NULs around the kept bytes |
| Packing.StripPadded | licenselib/license.py:86-88 | stripping undoes NUL padding of a value with no NUL at either end |
| Utf8.ValidUtf8 | licenselib/license.py:86-88 | a text that decodes starts on a byte that may lead a character (no continuation byte, C0, C1 or F5..FF) and ends on ASCII or a continuation byte, never inside a character |
| Utf8.ValidStripNul | licenselib/license.py:86-88 | stripping NULs from decodable bytes leaves decodable bytes |
| Utf8.ValidPackFixed | licenselib/license.py:149-151 | NUL padding of a decodable string that fits stays decodable |
| Utf8.ValidConcat | licenselib/license.py:149-151 | two decodable byte strings concatenated are decodable |
| Layout.PackFields | licenselib/license.py:42-56 | packing fourteen fields of their format widths gives 145 bytes from which unpacking recovers every field |
| Layout.UnpackFields | licenselib/license.py:84 | unpacking cuts a 145-byte buffer into fourteen fields, each of its format width |
| Layout.PackUnpack | licenselib/license.py:42-56 | every header byte belongs to some field: packing the unpacked fields rebuilds the buffer |
| Enums.Resolve | licenselib/license.py:95-98 | the linear search finds a member whose value equals the code, or keeps the code when no member has it |
| Enums.DecodeContractType | licenselib/license.py:90-98 | a contract type byte resolves to a member exactly for codes 0..6, to the member with that code; other codes stay raw |
| Enums.DecodeContractHardware | licenselib/license.py:90-98 | a hardware byte resolves exactly for codes 0..2, to the member with that code |
| Enums.DecodeContractSoftware | licenselib/license.py:90-98 | a software byte resolves exactly for codes 0..2, to the member with that code |
| Enums.DecodeContractTypeCode | licenselib/license.py:9-17 | codes are unique, so each member's code resolves back to that member |
| Enums.DecodeContractHardwareCode | licenselib/license.py:20-24 | each hardware member's code resolves back to it |
| Enums.DecodeContractSoftwareCode | licenselib/license.py:27-31 | each software member's code resolves back to it |
| Bits.OrBit | licenselib/license.py:143-145 | a bit of `a \| b` is set exactly when it is set in `a` or in `b` |
| Bits.AndBit | licenselib/license.py:109 | a bit of `a & b` is set exactly when it is set in both |
| Bits.AndPow2 | licenselib/license.py:109 | `f.value & mask` is non-zero exactly when the mask has that flag's bit |
| Bits.BitsDetermine | licenselib/license.py:143-145 | two integers with the same bits are equal |
| Features.OrValues | licenselib/license.py:143-145 | the `\|=` loop started below 16 stays below 16, so it never sets a bit above the four flags |
| Features.EncodeMask | licenselib/license.py:143-145 | the mask has bit k exactly when some listed feature owns bit k, and no bit above the four flags |
| Features.Select | licenselib/license.py:107-111 | the comprehension keeps exactly the candidates that share a bit with the mask, in candidate order |
| Features.DecodeMask | licenselib/license.py:107-111 | the decoded list holds exactly the features whose bit is set, without duplicates, in declaration order |
| Features.MaskIgnoresOrderAndDuplicates | licenselib/license.py:143-145 | two feature lists with the same members give the same mask |
| Features.DecodeEncodeMask | licenselib/license.py:107-111 | decoding a list's mask gives its members; an ordered duplicate-free list comes back unchanged |
| Features.DecodeMaskIgnoresUnusedBits | licenselib/license.py:107-111 | masks that agree on the four flag bits decode to the same list, so unknown bits are ignored |
| Features.EncodeDecodeMask | licenselib/license.py:143-145 | a mask made only of flag bits survives decoding and re-encoding |
| Features.OrderedUnique | licenselib/license.py:107-111 | two ordered duplicate-free lists with the same members are equal |
| Calendar.Ordinal | licenselib/license.py:74 | `toordinal` of a date lies within its own year's days and within 1..3652059 |
| Calendar.Before | licenselib/license.py:78 | date `<`, comparing year, then month, then day, holds exactly when the first date's ordinal is smaller |
| Calendar.OrdinalInjective | licenselib/license.py:74 | distinct dates have distinct ordinals |
| Calendar.FromOrdinal | licenselib/license.py:74 | the date built from an ordinal in range has that ordinal |
| Calendar.FromOrdinalOrdinal | licenselib/license.py:74 | rebuilding a date from its ordinal gives the date back |
| Calendar.AddDays | licenselib/license.py:74 | `date + timedelta(days=n)` succeeds exactly when the ordinal plus n stays in 1..3652059, and lands on that ordinal |
| Calendar.YearStep | licenselib/license.py:74 | the days before year y+1 are the days before y plus the length of y, leap years included |
| DateFormat.FormatDate | licenselib/license.py:155 | `strftime("%Y%m%d")` writes eight ASCII digits |
| DateFormat.ParseDate | licenselib/license.py:103-105 | `strptime` with `%Y%m%d` accepts only ASCII digits, except that the day's first character may be a space, and yields a date from year 1 on |
| DateFormat.ParseFormatDate | licenselib/license.py:103-105 | parsing the text of any date gives that date |
| DateFormat.FormatParseDate | licenselib/license.py:103-105 | a field that parses is the text of the parsed date, except that a space may stand for the day's leading zero |
| DateFormat.ParseDateRejects | licenselib/license.py:103-105 | a field with a non-digit outside the day's first character does not parse |
| LicenseCodec.HeaderFields | licenselib/license.py:147-161 | the fourteen packed fields of a record each have their format width |
| LicenseCodec.PackHeader | licenselib/license.py:147-161 | the header `pack` writes 145 bytes that unpack into exactly the fields packed from the record |
| LicenseCodec.PackAddHw | licenselib/license.py:163-165 | the add-hw loop writes two bytes per entry that read back as quantity and type, or fails at the first entry outside -128..127 |
| LicenseCodec.Dump | licenselib/license.py:142-167 | `dump` succeeds exactly on dumpable records, writing header size + 2 per entry bytes; each failure names a field that really is out of range |
| LicenseCodec.DecodeText | licenselib/license.py:86-88 | a string field decodes exactly when its bytes are UTF-8, to a stripped, no longer, decodable string; otherwise the error names the field |
| LicenseCodec.DecodeTexts | licenselib/license.py:100-101 | the five string fields decode to strings that fit their fields, or fail with a UTF-8 error |
| LicenseCodec.UnpackHeader | licenselib/license.py:84-111 | the header part of `load` fails only on a string or the date, and otherwise yields a record of loadable shape and a count in -128..127 |
| LicenseCodec.HeaderRecord | licenselib/license.py:90-111 | the record built from decoded header fields has loadable shape and no add-hw entries yet |
| LicenseCodec.RangeLength | licenselib/license.py:116 | `range(count)` runs `count` times, or not at all when the count is negative |
| LicenseCodec.ReadAddHw | licenselib/license.py:113-121 | exactly n pairs are read, in order, when 2n bytes follow the header; fewer bytes fail with a short-pair error |
| LicenseCodec.Load | licenselib/license.py:80-123 | `load` fails with a short header exactly on input under 145 bytes; a loaded record has loadable shape and the input covers all its pairs |
| LicenseCodec.ContractEnd | licenselib/license.py:72-74 | `contract_end` exists exactly when start plus duration stays in the calendar, and lies that many days after the start |
| LicenseCodec.Expired | licenselib/license.py:76-78 | `expired` is defined exactly when `contract_end` is, and holds exactly when the end is strictly before today |
| LicenseLaws.DecodePackedText | licenselib/license.py:86-88 | a fitting string padded to its field decodes back to itself |
| LicenseLaws.MaskRoundTrip | licenselib/license.py:143-145 | an ordered feature list's mask fits the `L` field and decodes back to the list |
| LicenseLaws.DecodeHeaderTexts | licenselib/license.py:149-158 | the packed string fields of a record decode to its strings |
| LicenseLaws.DecodeHeaderDate | licenselib/license.py:155 | the packed date field parses to the start date |
| LicenseLaws.DecodeHeaderEnums | licenselib/license.py:152-154 | the packed enum bytes resolve to the record's members |
| LicenseLaws.DecodeHeaderNumbers | licenselib/license.py:148 | the packed version, duration, mask and count read back as the record's values |
| LicenseLaws.HeaderRecordOf | licenselib/license.py:84-111 | the record `load` builds from a packed header is the original without its add-hw entries |
| LicenseLaws.UnpackPackHeader | licenselib/license.py:147-161 | unpacking a packed header gives back the record, without add-hw entries, and its entry count |
| LicenseLaws.ReadPackAddHw | licenselib/license.py:163-165 | reading the packed pairs back gives the add-hw entries |
| LicenseLaws.LoadDump | licenselib/license.py:142-167 | `load(dump(l)) == l` for every record of loadable shape whose enum fields are members |
| LicenseLaws.DumpLoad | licenselib/license.py:80-123 | a loaded record with known enum codes dumps, and loading that dump gives the same record |
| LicenseWire.DumpParts | licenselib/license.py:147-165 | a dump is the 145-byte header followed by the packed pairs |
| LicenseWire.DumpTextLayout | licenselib/license.py:149-158 | where `dump` writes the padded strings, the date text and the four pad bytes |
| LicenseWire.DumpByteLayout | licenselib/license.py:148-160 | the version at byte 0, the type, hardware and software codes at 49, 50, 51, the count at 144 |
| LicenseWire.DumpWideLayout | licenselib/license.py:156-159 | the duration at 64..72 and the mask at 136..144, little-endian |
| LicenseWire.DumpAddHwLayout | licenselib/license.py:163-165 | entry i sits at bytes 145+2i and 146+2i and the dump ends after the last pair |
| LicenseWire.UnpackHeaderValue | licenselib/license.py:84-111 | which header field each field of the unpacked record comes from |
| LicenseWire.LoadReadsTexts | licenselib/license.py:86-105 | a loaded record's strings are the stripped bytes 1..17, 17..33, 33..49, 72..104, 104..136, its date the text at 52..60 |
| LicenseWire.LoadReadsBytes | licenselib/license.py:84-98 | version, type, hardware and software come from bytes 0, 49, 50, 51; the entry count from byte 144, none when negative |
| LicenseWire.LoadReadsWide | licenselib/license.py:107-111 | the duration comes from bytes 64..72 and the features from the mask at 136..144 |
| LicenseWire.LoadReadsAddHw | licenselib/license.py:113-121 | entry i of a loaded record is the pair at bytes 145+2i and 146+2i |
| LicenseWire.DecodeTextsOutcome | licenselib/license.py:86-101 | string decoding fails exactly on the first field, in decoding order, that is not UTF-8 |
| LicenseWire.UnpackHeaderOutcome | licenselib/license.py:84-105 | the header part succeeds exactly when all strings decode and the date parses, and fails first on the strings |
| LicenseWire.LoadTextFailure | licenselib/license.py:86-101 | `load` fails on a string exactly when one is not UTF-8, naming the first such field |
| LicenseWire.LoadDateFailure | licenselib/license.py:103-105 | `load` fails on the date exactly when the strings decode and bytes 52..60 do not parse |
| LicenseWire.LoadAddHwFailure | licenselib/license.py:113-121 | past a good header, `load` succeeds exactly when the input holds the pairs the count byte asks for |
| LicenseWire.ReadAddHwPrefix | licenselib/license.py:115-119 | reading n pairs never looks past them |
| LicenseWire.LoadIgnoresTrailingBytes | licenselib/license.py:113-123 | appending bytes to a loadable input loads the same record |
| LicenseWire.LoadIgnoresVersionByte | licenselib/license.py:84-123 | any version byte loads or fails as before, and only the version of the loaded record changes |
| LicenseExpiry.ExpiryBoundary | licenselib/license.py:76-78 | `expired` is `contract_end < today`, so a contract is not expired on its end date |
| LicenseExpiry.ExpiredStaysExpired | licenselib/license.py:76-78 | once expired, a contract stays expired on every later day |
| LicenseExpiry.ZeroDurationEndsAtStart | licenselib/license.py:72-74 | a zero-day contract ends on its start date |
| LicenseExpiry.EndNotBeforeStart | licenselib/license.py:72-74 | a contract of non-negative duration never ends before it starts |
| LicenseExpiry.LeapDayExample | licenselib/license.py:72-78 | a one-day contract from 2024-02-28 ends on 2024-02-29 and is expired from 2024-03-01 |
| LicenseExpiry.LastDayOverflows | licenselib/license.py:72-78 | a one-day contract from 9999-12-31 has no end, so `contract_end` and `expired` raise |
| LicenseDemo.SampleIsCanonical | licenselib/license.py:170-171 | the sample license has loadable shape and member enum fields |
| LicenseDemo.SampleRoundTrip | licenselib/license.py:170-177 | the sample dumps to 147 bytes and loads back to itself |

## Left out

- base64: `b64decode` in `load` and `b64encode` in `dump` are library calls. The model works on the raw bytes between them.
- `datetime.now()`: `expired` takes today's date as a parameter.
- `License.__encode__`: it only builds a display dictionary.
- The `__main__` block's file writing and printing: only its sample record is modelled.
- `setup.py`: packaging metadata.
- `licenselib/utils.py` is not part of this model.
- UTF-8 encoding in `dump`: strings are held as bytes. A Python string holding a lone surrogate, which `encode` rejects, has no counterpart.
- Years below 1000: their `strftime("%Y")` output differs between platforms and CPython versions. The model writes four zero-padded digits.
- `timedelta(days=n)` overflow for |n| above 999999999 is not modelled separately. Such an n also takes the date outside 1..9999, so `ContractEnd` reports the same `OverflowError`.
- Python's duck typing (a feature list holding non-`Features` values, a non-integer version) is ruled out by the types.
