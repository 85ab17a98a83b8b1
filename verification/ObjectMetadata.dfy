// The body of one directory record (section 4.1 of the Object Transfer Service 1.0):
// the parser of core/src/types.rs and a reference encoder for it.

module ObjectMetadata {
  import opened Wrappers
  import opened Bytes
  import opened Errors
  import opened Utf8
  import opened Uuids

  // Directory flags, as masks.
  const TYPE_UUID128: byte := 0x01
  const HAS_CURRENT_SIZE: byte := 0x02
  const HAS_ALLOCATED_SIZE: byte := 0x04
  const HAS_FIRST_CREATED: byte := 0x08
  const HAS_LAST_MODIFIED: byte := 0x10
  const HAS_PROPERTIES: byte := 0x20
  const UNKNOWN_FLAG: byte := 0x40
  const HAS_EXTENDED_FLAGS: byte := 0x80

  /** The flag that guards the last-modified field. The code tests HAS_FIRST_CREATED
      where HAS_LAST_MODIFIED is meant, so every result below takes the gate as a parameter. */
  type Gate = g: byte | g == HAS_FIRST_CREATED || g == HAS_LAST_MODIFIED witness 0x08

  const AS_WRITTEN: Gate := HAS_FIRST_CREATED
  const INTENDED: Gate := HAS_LAST_MODIFIED

  datatype DateTime = DateTime(year: u16, month: byte, day: byte, hour: byte, minute: byte, second: byte)

  function DateTimeOfBytes(raw: seq<byte>): DateTime
    requires |raw| == 7
  {
    DateTime(LeU16(raw[..2]), raw[2], raw[3], raw[4], raw[5], raw[6])
  }

  function DateTimeBytes(t: DateTime): (bs: seq<byte>)
    ensures |bs| == 7
  {
    LeBytes(t.year, 2) + [t.month, t.day, t.hour, t.minute, t.second]
  }

  lemma DateTimeInverse(t: DateTime)
    ensures DateTimeOfBytes(DateTimeBytes(t)) == t
  {
    Widths();
    LeFits(t.year, 2);
    assert DateTimeBytes(t)[..2] == LeBytes(t.year, 2);
  }

  /** The fields that follow the flag byte. */
  datatype Fields = Fields(
    type_: Uuid,
    currentSize: Option<u32>,
    allocatedSize: Option<u32>,
    firstCreated: Option<DateTime>,
    lastModified: Option<DateTime>,
    properties: byte)

  /** `id` is always present in a directory entry; a client without an Object ID
      characteristic reports metadata without it. */
  datatype Metadata = Metadata(id: Option<u48>, name: seq<byte>, fields: Fields)

  /** Which fields the parser expects after the flag byte. */
  datatype Layout = Layout(
    uuid128: bool,
    currentSize: bool,
    allocatedSize: bool,
    firstCreated: bool,
    lastModified: bool,
    properties: bool)

  function LayoutOf(flags: byte, gate: Gate): Layout {
    Layout(Contains(flags, TYPE_UUID128),
           Contains(flags, HAS_CURRENT_SIZE),
           Contains(flags, HAS_ALLOCATED_SIZE),
           Contains(flags, HAS_FIRST_CREATED),
           Contains(flags, gate),
           Contains(flags, HAS_PROPERTIES))
  }

  function SizesLength(layout: Layout): nat {
    (if layout.uuid128 then 16 else 2) +
    (if layout.currentSize then 4 else 0) +
    (if layout.allocatedSize then 4 else 0)
  }

  function TimesLength(layout: Layout): nat {
    (if layout.firstCreated then 7 else 0) +
    (if layout.lastModified then 7 else 0) +
    (if layout.properties then 4 else 0)
  }

  function FieldsLength(layout: Layout): nat {
    SizesLength(layout) + TimesLength(layout)
  }

  // ---------- the parser ----------

  type Rest<+T> = CoreResult<(T, seq<byte>)>

  /** `Property::try_from`: every bit of the word must be a known property. */
  function ParseProperties(raw: seq<byte>): (r: CoreResult<byte>)
    requires |raw| == 4
    ensures !Starved(r)
  {
    var bits := LeU32(raw);
    if bits < 0x100 then Ok(bits) else Err(BadProperties(bits))
  }

  function ParseType(uuid128: bool, raw: seq<byte>): (r: Rest<Uuid>)
    requires |raw| >= 2
    ensures r.Ok? ==> |raw| == |r.value.1| + (if uuid128 then 16 else 2)
    ensures r.Err? ==> r.error == NotEnoughData(|raw|, 16) && |raw| < 16 && uuid128
  {
    if uuid128 then
      var _ :- CheckLen(|raw|, 16);
      Ok((UuidOfBytes(raw[..16]), raw[16..]))
    else
      Ok((ShortUuid(LeU16(raw[..2])), raw[2..]))
  }

  /** A field of `n` bytes that is there only if its flag is set. */
  function ParseOptional(present: bool, raw: seq<byte>, n: nat): (r: Rest<Option<seq<byte>>>)
    ensures r.Ok? ==> |raw| == |r.value.1| + (if present then n else 0)
    ensures r.Ok? ==> r.value.0.Some? == present && (present ==> |r.value.0.value| == n)
    ensures r.Err? ==> present && |raw| < n && r.error == NotEnoughData(|raw|, n)
  {
    if present then
      var _ :- CheckLen(|raw|, n);
      Ok((Some(raw[..n]), raw[n..]))
    else
      Ok((None, raw))
  }

  function SizeOf(field: Option<seq<byte>>): Option<u32>
    requires field.Some? ==> |field.value| == 4
  {
    match field
    case None => None
    case Some(bs) => Some(LeU32(bs))
  }

  function TimeOf(field: Option<seq<byte>>): Option<DateTime>
    requires field.Some? ==> |field.value| == 7
  {
    match field
    case None => None
    case Some(bs) => Some(DateTimeOfBytes(bs))
  }

  /** The first half of the optional part: type and sizes. */
  function ParseSizes(layout: Layout, raw: seq<byte>): (r: Rest<(Uuid, Option<u32>, Option<u32>)>)
    requires |raw| >= 2
    ensures r.Ok? ==> |raw| == |r.value.1| + SizesLength(layout)
    ensures r.Err? ==> Starved(r) && r.error.actual < r.error.needed && |raw| < SizesLength(layout)
  {
    var (type_, raw) :- ParseType(layout.uuid128, raw);
    var (current, raw) :- ParseOptional(layout.currentSize, raw, 4);
    var (alloc, raw) :- ParseOptional(layout.allocatedSize, raw, 4);
    Ok(((type_, SizeOf(current), SizeOf(alloc)), raw))
  }

  /** The second half: timestamps and properties. */
  function ParseTimes(layout: Layout, raw: seq<byte>): (r: CoreResult<(Option<DateTime>, Option<DateTime>, byte)>)
    ensures Starved(r) <==> |raw| < TimesLength(layout)
    ensures Starved(r) ==> r.error.actual < r.error.needed
    ensures r.Ok? ==> r.value.1.Some? == layout.lastModified
  {
    var (created, raw) :- ParseOptional(layout.firstCreated, raw, 7);
    var (modified, raw) :- ParseOptional(layout.lastModified, raw, 7);
    var (props, raw) :- ParseOptional(layout.properties, raw, 4);
    var properties :- if props.Some? then ParseProperties(props.value) else Ok(0);
    Ok((TimeOf(created), TimeOf(modified), properties))
  }

  function ParseFields(layout: Layout, raw: seq<byte>): (r: CoreResult<Fields>)
    requires |raw| >= 2
    ensures Starved(r) <==> |raw| < SizesLength(layout) + TimesLength(layout)
    ensures Starved(r) ==> r.error.actual < r.error.needed
  {
    var ((type_, current, alloc), raw) :- ParseSizes(layout, raw);
    var (created, modified, properties) :- ParseTimes(layout, raw);
    Ok(Fields(type_, current, alloc, created, modified, properties))
  }

  function ParseMetadata(raw: seq<byte>, gate: Gate): (r: CoreResult<Metadata>)
    ensures Starved(r) ==> r.error.actual < r.error.needed
  {
    var _ :- CheckLen(|raw|, 11);
    var id, raw := LeU48(raw[..6]), raw[6..];
    var nameLen, raw := raw[0] as nat, raw[1..];
    var _ :- CheckLen(|raw|, nameLen + 1 + 2);
    var name, raw := raw[..nameLen], raw[nameLen..];
    if !ValidUtf8(name) then Err(BadUtf8) else
    var flags, raw := raw[0], raw[1..];
    if Contains(flags, UNKNOWN_FLAG) then Err(BadDirFlags(flags)) else
    var fields :- ParseFields(LayoutOf(flags, gate), raw);
    Ok(Metadata(Some(id), name, fields))
  }

  // ---------- how many bytes a body needs ----------

  /** The body reaches as far as its flag byte, so its layout is known. */
  predicate HasFlags(raw: seq<byte>) {
    |raw| >= 11 && |raw| >= raw[6] as nat + 10
  }

  function FlagsOf(raw: seq<byte>): byte
    requires HasFlags(raw)
  {
    raw[7 + raw[6] as nat]
  }

  function NameOf(raw: seq<byte>): seq<byte>
    requires HasFlags(raw)
  {
    raw[7..7 + raw[6] as nat]
  }

  /** The length a body announces through its name length and its flags, and never less than
      the eleven bytes checked first. */
  function BodyLength(raw: seq<byte>, gate: Gate): (k: nat)
    requires HasFlags(raw)
  {
    Max(11, 8 + raw[6] as nat + FieldsLength(LayoutOf(FlagsOf(raw), gate)))
  }

  /** What the parser reads before the fields, by position. */
  lemma ParseMetadataLayout(raw: seq<byte>, gate: Gate)
    ensures !HasFlags(raw) ==>
              ParseMetadata(raw, gate) ==
              Err(if |raw| < 11 then NotEnoughData(|raw|, 11) else NotEnoughData(|raw| - 7, raw[6] as nat + 3))
    ensures HasFlags(raw) ==>
              ParseMetadata(raw, gate) ==
              if !ValidUtf8(NameOf(raw)) then Err(BadUtf8)
              else if Contains(FlagsOf(raw), UNKNOWN_FLAG) then Err(BadDirFlags(FlagsOf(raw)))
              else match ParseFields(LayoutOf(FlagsOf(raw), gate), raw[8 + raw[6] as nat..])
                case Ok(fields) => Ok(Metadata(Some(LeU48(raw[..6])), NameOf(raw), fields))
                case Err(e) => Err(e)
  {
    if HasFlags(raw) {
      var n := raw[6] as nat;
      assert raw[6..][1..][..n] == NameOf(raw);
      assert raw[6..][1..][n..] == raw[7 + n..];
      assert raw[7 + n..][0] == FlagsOf(raw);
      assert raw[7 + n..][1..] == raw[8 + n..];
    }
  }

  /** A body is reported short exactly when bytes it announces are missing and no fault
      was found before them. */
  lemma StarvedExactly(raw: seq<byte>, gate: Gate)
    ensures Starved(ParseMetadata(raw, gate)) <==>
            || !HasFlags(raw)
            || (&& ValidUtf8(NameOf(raw))
                && !Contains(FlagsOf(raw), UNKNOWN_FLAG)
                && |raw| < BodyLength(raw, gate))
  {
    hide ParseMetadata, ParseFields, ValidUtf8, Contains;
    ParseMetadataLayout(raw, gate);
  }

  // ---------- the whole result, told by position ----------

  /** The little-endian word at position `p`. */
  function WordAt(raw: seq<byte>, p: nat): (w: u32)
    requires p + 4 <= |raw|
  {
    raw[p] as int + 0x100 * raw[p + 1] as int + 0x1_0000 * raw[p + 2] as int + 0x100_0000 * raw[p + 3] as int
  }

  /** The timestamp at position `p`: year, month, day, hour, minute, second. */
  function TimeAt(raw: seq<byte>, p: nat): DateTime
    requires p + 7 <= |raw|
  {
    DateTime(raw[p] as int + 0x100 * raw[p + 1] as int, raw[p + 2], raw[p + 3], raw[p + 4], raw[p + 5], raw[p + 6])
  }

  /** The type at the front of the fields. */
  function TypeAt(raw: seq<byte>, uuid128: bool): Uuid
    requires |raw| >= if uuid128 then 16 else 2
  {
    if uuid128 then UuidOfBytes(raw[..16])
    else UUID_BASE + (raw[0] as int + 0x100 * raw[1] as int) * 0x1_0000_0000_0000_0000_0000_0000
  }

  /** Where each field starts if the first starts at `k`: type, current size, allocated size,
      creation time, modification time, properties, end. */
  function Starts(layout: Layout, k: nat): (p: seq<nat>)
    ensures |p| == 7
  {
    var p1 := k + if layout.uuid128 then 16 else 2;
    var p2 := p1 + if layout.currentSize then 4 else 0;
    var p3 := p2 + if layout.allocatedSize then 4 else 0;
    var p4 := p3 + if layout.firstCreated then 7 else 0;
    var p5 := p4 + if layout.lastModified then 7 else 0;
    var p6 := p5 + if layout.properties then 4 else 0;
    [k, p1, p2, p3, p4, p5, p6]
  }

  /** The meaning of the fields from position `k` on: the first field that does not fit, a
      property word with an unknown bit, or the value of each field. */
  function Meaning(layout: Layout, raw: seq<byte>, k: nat): CoreResult<Fields> {
    var n, p := |raw|, Starts(layout, k);
    if n < p[1] then Err(NotEnoughData(Max(0, n - p[0]), if layout.uuid128 then 16 else 2))
    else if n < p[2] then Err(NotEnoughData(n - p[1], 4))
    else if n < p[3] then Err(NotEnoughData(n - p[2], 4))
    else if n < p[4] then Err(NotEnoughData(n - p[3], 7))
    else if n < p[5] then Err(NotEnoughData(n - p[4], 7))
    else if n < p[6] then Err(NotEnoughData(n - p[5], 4))
    else if layout.properties && WordAt(raw, p[5]) >= 0x100 then Err(BadProperties(WordAt(raw, p[5])))
    else Ok(Fields(
      TypeAt(raw[k..], layout.uuid128),
      if layout.currentSize then Some(WordAt(raw, p[1])) else None,
      if layout.allocatedSize then Some(WordAt(raw, p[2])) else None,
      if layout.firstCreated then Some(TimeAt(raw, p[3])) else None,
      if layout.lastModified then Some(TimeAt(raw, p[4])) else None,
      if layout.properties then WordAt(raw, p[5]) else 0))
  }

  /** One optional field at position `p`, and where the next one starts. */
  lemma OptionalAt(present: bool, raw: seq<byte>, p: nat, n: nat)
    requires p <= |raw|
    ensures ParseOptional(present, raw[p..], n) ==
            if !present then Ok((None, raw[p..]))
            else if |raw| < p + n then Err(NotEnoughData(|raw| - p, n))
            else Ok((Some(raw[p..p + n]), raw[p + n..]))
  {
    if present && |raw| >= p + n {
      assert raw[p..][..n] == raw[p..p + n] && raw[p..][n..] == raw[p + n..];
    }
  }

  lemma WordIsAt(raw: seq<byte>, p: nat)
    requires p + 4 <= |raw|
    ensures LeU32(raw[p..p + 4]) == WordAt(raw, p)
  {
    LeU32Value(raw[p..p + 4]);
  }

  lemma TimeIsAt(raw: seq<byte>, p: nat)
    requires p + 7 <= |raw|
    ensures DateTimeOfBytes(raw[p..p + 7]) == TimeAt(raw, p)
  {
    assert raw[p..p + 7][..2] == raw[p..p + 2];
  }

  lemma TypeIsAt(uuid128: bool, raw: seq<byte>)
    requires |raw| >= 2
    ensures ParseType(uuid128, raw) ==
            if |raw| < if uuid128 then 16 else 2 then Err(NotEnoughData(|raw|, 16))
            else Ok((TypeAt(raw, uuid128), raw[if uuid128 then 16 else 2..]))
  {
  }

  lemma SizesByPosition(layout: Layout, raw: seq<byte>, k: nat)
    requires k + 2 <= |raw|
    ensures var r, p := ParseSizes(layout, raw[k..]), Starts(layout, k);
            if |raw| < p[1] then r == Err(NotEnoughData(|raw| - k, 16))
            else if |raw| < p[2] then r == Err(NotEnoughData(|raw| - p[1], 4))
            else if |raw| < p[3] then r == Err(NotEnoughData(|raw| - p[2], 4))
            else r == Ok(((TypeAt(raw[k..], layout.uuid128),
                           if layout.currentSize then Some(WordAt(raw, p[1])) else None,
                           if layout.allocatedSize then Some(WordAt(raw, p[2])) else None), raw[p[3]..]))
  {
    hide LeU32, WordAt, TypeAt, ParseType, ParseOptional;
    var p := Starts(layout, k);
    TypeIsAt(layout.uuid128, raw[k..]);
    if |raw| >= p[1] {
      assert raw[k..][p[1] - k..] == raw[p[1]..];
      OptionalAt(layout.currentSize, raw, p[1], 4);
      if |raw| >= p[2] {
        OptionalAt(layout.allocatedSize, raw, p[2], 4);
        if layout.currentSize { WordIsAt(raw, p[1]); }
        if layout.allocatedSize && |raw| >= p[3] { WordIsAt(raw, p[2]); }
      }
    }
  }

  lemma TimesByPosition(layout: Layout, raw: seq<byte>, k: nat)
    requires Starts(layout, k)[3] <= |raw|
    ensures var r, p := ParseTimes(layout, raw[Starts(layout, k)[3]..]), Starts(layout, k);
            if |raw| < p[4] then r == Err(NotEnoughData(|raw| - p[3], 7))
            else if |raw| < p[5] then r == Err(NotEnoughData(|raw| - p[4], 7))
            else if |raw| < p[6] then r == Err(NotEnoughData(|raw| - p[5], 4))
            else if layout.properties && WordAt(raw, p[5]) >= 0x100 then r == Err(BadProperties(WordAt(raw, p[5])))
            else r == Ok((if layout.firstCreated then Some(TimeAt(raw, p[3])) else None,
                          if layout.lastModified then Some(TimeAt(raw, p[4])) else None,
                          if layout.properties then WordAt(raw, p[5]) else 0))
  {
    hide LeU32, WordAt, TimeAt, DateTimeOfBytes, ParseOptional;
    var p := Starts(layout, k);
    OptionalAt(layout.firstCreated, raw, p[3], 7);
    if |raw| >= p[4] {
      OptionalAt(layout.lastModified, raw, p[4], 7);
      if layout.firstCreated { TimeIsAt(raw, p[3]); }
      if |raw| >= p[5] {
        OptionalAt(layout.properties, raw, p[5], 4);
        if layout.lastModified { TimeIsAt(raw, p[4]); }
        if layout.properties && |raw| >= p[6] { WordIsAt(raw, p[5]); }
      }
    }
  }

  lemma FieldsByPosition(layout: Layout, raw: seq<byte>, k: nat)
    requires k + 2 <= |raw|
    ensures ParseFields(layout, raw[k..]) == Meaning(layout, raw, k)
  {
    hide ParseSizes, ParseTimes, WordAt, TimeAt, TypeAt;
    SizesByPosition(layout, raw, k);
    if |raw| >= Starts(layout, k)[3] {
      TimesByPosition(layout, raw, k);
    }
  }

  /** The complete result of parsing any body through either gate: the first fault in order, or
      the value of every field by its position. */
  lemma MetadataByPosition(raw: seq<byte>, gate: Gate)
    ensures var r := ParseMetadata(raw, gate);
            if |raw| < 11 then r == Err(NotEnoughData(|raw|, 11))
            else
              var k := raw[6] as nat + 8;
              if |raw| < k + 2 then r == Err(NotEnoughData(|raw| - 7, raw[6] as nat + 3))
              else if !ValidUtf8(raw[7..k - 1]) then r == Err(BadUtf8)
              else
                var flags := raw[k - 1];
                var layout := Layout(Contains(flags, 0x01), Contains(flags, 0x02), Contains(flags, 0x04),
                                     Contains(flags, 0x08), Contains(flags, gate), Contains(flags, 0x20));
                if Contains(flags, 0x40) then r == Err(BadDirFlags(flags))
                else
                  var m := Meaning(layout, raw, k);
                  r == if m.Err? then Err(m.error)
                       else Ok(Metadata(Some(LeU48(raw[..6])), raw[7..k - 1], m.value))
  {
    hide ParseMetadata, ParseFields, Meaning, ValidUtf8, Contains, LeU48;
    ParseMetadataLayout(raw, gate);
    if HasFlags(raw) {
      FieldsByPosition(LayoutOf(FlagsOf(raw), gate), raw, 8 + raw[6] as nat);
    }
  }

  // ---------- more bytes never change a verdict ----------

  lemma TypeExtends(uuid128: bool, p: seq<byte>, q: seq<byte>)
    requires |p| >= 2
    ensures ParseType(uuid128, p).Ok? ==>
              ParseType(uuid128, p + q) == Ok((ParseType(uuid128, p).value.0, ParseType(uuid128, p).value.1 + q))
  {
    assert (p + q)[..2] == p[..2] && (p + q)[2..] == p[2..] + q;
    if |p| >= 16 {
      assert (p + q)[..16] == p[..16] && (p + q)[16..] == p[16..] + q;
    }
  }

  lemma OptionalExtends(present: bool, p: seq<byte>, n: nat, q: seq<byte>)
    requires ParseOptional(present, p, n).Ok?
    ensures ParseOptional(present, p + q, n) ==
            Ok((ParseOptional(present, p, n).value.0, ParseOptional(present, p, n).value.1 + q))
  {
    if present {
      assert (p + q)[..n] == p[..n] && (p + q)[n..] == p[n..] + q;
    }
  }

  lemma SizesExtend(layout: Layout, p: seq<byte>, q: seq<byte>)
    requires |p| >= 2 && ParseSizes(layout, p).Ok?
    ensures ParseSizes(layout, p + q) == Ok((ParseSizes(layout, p).value.0, ParseSizes(layout, p).value.1 + q))
  {
    TypeExtends(layout.uuid128, p, q);
    var p1 := ParseType(layout.uuid128, p).value.1;
    OptionalExtends(layout.currentSize, p1, 4, q);
    var p2 := ParseOptional(layout.currentSize, p1, 4).value.1;
    OptionalExtends(layout.allocatedSize, p2, 4, q);
  }

  lemma TimesExtend(layout: Layout, p: seq<byte>, q: seq<byte>)
    requires !Starved(ParseTimes(layout, p))
    ensures ParseTimes(layout, p + q) == ParseTimes(layout, p)
  {
    OptionalExtends(layout.firstCreated, p, 7, q);
    var p1 := ParseOptional(layout.firstCreated, p, 7).value.1;
    OptionalExtends(layout.lastModified, p1, 7, q);
    var p2 := ParseOptional(layout.lastModified, p1, 7).value.1;
    OptionalExtends(layout.properties, p2, 4, q);
  }

  lemma FieldsExtend(layout: Layout, p: seq<byte>, q: seq<byte>)
    requires |p| >= 2 && !Starved(ParseFields(layout, p))
    ensures ParseFields(layout, p + q) == ParseFields(layout, p)
  {
    SizesExtend(layout, p, q);
    TimesExtend(layout, ParseSizes(layout, p).value.1, q);
  }

  /** Every verdict but "not enough data" is final: no further bytes can change it. */
  lemma VerdictIsFinal(p: seq<byte>, q: seq<byte>, gate: Gate)
    ensures Starved(ParseMetadata(p, gate)) || ParseMetadata(p + q, gate) == ParseMetadata(p, gate)
  {
    hide ParseMetadata, ParseFields, LayoutOf, ValidUtf8, Contains;
    ParseMetadataLayout(p, gate);
    ParseMetadataLayout(p + q, gate);
    if !Starved(ParseMetadata(p, gate)) {
      var n := p[6] as nat;
      assert NameOf(p + q) == NameOf(p) && FlagsOf(p + q) == FlagsOf(p);
      assert (p + q)[..6] == p[..6];
      assert (p + q)[8 + n..] == p[8 + n..] + q;
      if ValidUtf8(NameOf(p)) && !Contains(FlagsOf(p), UNKNOWN_FLAG) {
        FieldsExtend(LayoutOf(FlagsOf(p), gate), p[8 + n..], q);
      }
    }
  }

  lemma SameHead(raw: seq<byte>, k: nat, gate: Gate)
    requires k <= |raw| && HasFlags(raw) && HasFlags(raw[..k])
    ensures NameOf(raw[..k]) == NameOf(raw) && FlagsOf(raw[..k]) == FlagsOf(raw)
  {
  }

  /** The bytes an accepted body occupies. */
  predicate Occupies(raw: seq<byte>, gate: Gate, k: nat) {
    HasFlags(raw) && BodyLength(raw, gate) == k <= |raw|
  }

  /** A body that parses carries its own length `k`: no shorter prefix of it gets any verdict
      but "not enough data". */
  lemma ShorterPrefixStarves(raw: seq<byte>, gate: Gate, k: nat, j: nat)
    ensures ParseMetadata(raw, gate).Ok? ==> HasFlags(raw) && Occupies(raw, gate, BodyLength(raw, gate))
    ensures ParseMetadata(raw, gate).Ok? && Occupies(raw, gate, k) && j < k ==> Starved(ParseMetadata(raw[..j], gate))
  {
    hide ParseMetadata, ParseFields, ValidUtf8, Contains;
    StarvedExactly(raw, gate);
    ParseMetadataLayout(raw, gate);
    if ParseMetadata(raw, gate).Ok? && Occupies(raw, gate, k) && j < k {
      StarvedExactly(raw[..j], gate);
      if HasFlags(raw[..j]) {
        SameHead(raw, j, gate);
      }
    }
  }

  lemma AnnouncedLengthSettles(raw: seq<byte>, gate: Gate)
    requires HasFlags(raw) && BodyLength(raw, gate) <= |raw|
    ensures !Starved(ParseMetadata(raw[..BodyLength(raw, gate)], gate))
  {
    hide ParseMetadata, ParseFields, ValidUtf8, Contains;
    var k := BodyLength(raw, gate);
    SameHead(raw, k, gate);
    StarvedExactly(raw[..k], gate);
  }

  /** ... and nothing after its first `k` bytes matters, whatever is appended to them. */
  lemma SelfDelimiting(raw: seq<byte>, gate: Gate, k: nat, ext: seq<byte>)
    ensures ParseMetadata(raw, gate).Ok? && Occupies(raw, gate, k) ==>
              ParseMetadata(raw[..k] + ext, gate) == ParseMetadata(raw, gate)
  {
    hide ParseMetadata, ParseFields, ValidUtf8, Contains;
    if ParseMetadata(raw, gate).Ok? && Occupies(raw, gate, k) {
      AnnouncedLengthSettles(raw, gate);
      VerdictIsFinal(raw[..k], ext, gate);
      VerdictIsFinal(raw[..k], raw[k..], gate);
      assert raw[..k] + raw[k..] == raw;
    }
  }

  // ---------- the reference encoder ----------

  datatype TypeField = Short(short: u16) | Long(uuid: Uuid)

  /** One legal choice of contents and encoding for a directory record. */
  datatype Entry = Entry(
    id: u48,
    name: seq<byte>,
    type_: TypeField,
    currentSize: Option<u32>,
    allocatedSize: Option<u32>,
    firstCreated: Option<DateTime>,
    lastModified: Option<DateTime>,
    properties: Option<byte>,
    extended: bool)

  predicate Legal(e: Entry) {
    |e.name| <= 255 && ValidUtf8(e.name)
  }

  type LegalEntry = e: Entry | Legal(e)
    witness Entry(0, [], Short(0), None, None, None, None, None, false)

  function TypeOf(e: Entry): Uuid {
    match e.type_
    case Short(short) => ShortUuid(short)
    case Long(uuid) => uuid
  }

  function MetadataOf(e: Entry): Metadata {
    Metadata(Some(e.id), e.name,
             Fields(TypeOf(e), e.currentSize, e.allocatedSize, e.firstCreated, e.lastModified,
                    if e.properties.Some? then e.properties.value else 0))
  }

  function EncodeFlags(e: Entry): byte {
    FlagByte(EntryLayout(e), e.extended)
  }

  /** The flag byte from its least significant bit up; bit 6 is not assigned. */
  function FlagByte(l: Layout, extended: bool): byte {
    assert Pow2(8) == 256;
    FromBits([l.uuid128, l.currentSize, l.allocatedSize, l.firstCreated,
              l.lastModified, l.properties, false, extended])
  }

  function EntryLayout(e: Entry): Layout {
    Layout(e.type_.Long?, e.currentSize.Some?, e.allocatedSize.Some?,
           e.firstCreated.Some?, e.lastModified.Some?, e.properties.Some?)
  }

  lemma FlagsReadBack(e: Entry, gate: Gate)
    ensures LayoutOf(EncodeFlags(e), gate) ==
            if gate == INTENDED then EntryLayout(e) else EntryLayout(e).(lastModified := e.firstCreated.Some?)
    ensures !Contains(EncodeFlags(e), UNKNOWN_FLAG)
  {
    var l := EntryLayout(e);
    var bits := [l.uuid128, l.currentSize, l.allocatedSize, l.firstCreated,
                 l.lastModified, l.properties, false, e.extended];
    BitAt(bits, 0); BitAt(bits, 1); BitAt(bits, 2); BitAt(bits, 3);
    BitAt(bits, 4); BitAt(bits, 5); BitAt(bits, 6);
    assert Pow2(3) == 8 && Pow2(6) == 64;
  }

  function EncodeType(t: TypeField): seq<byte> {
    match t
    case Short(short) => LeBytes(short, 2)
    case Long(uuid) => UuidBytes(uuid)
  }

  function EncodeSize(size: Option<u32>): seq<byte> {
    if size.Some? then LeBytes(size.value, 4) else []
  }

  function EncodeTime(time: Option<DateTime>): seq<byte> {
    if time.Some? then DateTimeBytes(time.value) else []
  }

  function EncodeProperties(properties: Option<byte>): seq<byte> {
    if properties.Some? then LeBytes(properties.value, 4) else []
  }

  function EncodeSizes(e: Entry): (bs: seq<byte>)
    ensures |bs| >= 2
  {
    EncodeType(e.type_) + (EncodeSize(e.currentSize) + EncodeSize(e.allocatedSize))
  }

  function EncodeTimes(e: Entry): seq<byte> {
    EncodeTime(e.firstCreated) + (EncodeTime(e.lastModified) + EncodeProperties(e.properties))
  }

  function EncodeFields(e: Entry): (bs: seq<byte>)
    ensures |bs| >= 2
  {
    EncodeSizes(e) + EncodeTimes(e)
  }

  function EncodeBody(e: Entry): (bs: seq<byte>)
    requires Legal(e)
  {
    LeBytes(e.id, 6) + [|e.name|] + e.name + [EncodeFlags(e)] + EncodeFields(e)
  }

  // ---------- round trip ----------

  /** The as-written parser reads both timestamps or neither. */
  predicate Paired(e: Entry) {
    e.firstCreated.Some? <==> e.lastModified.Some?
  }

  /** The parser wants eleven bytes; an unnamed entry of short type with no option has ten. */
  predicate LongEnough(e: Entry) {
    e.name != [] || e.type_.Long? || e.currentSize.Some? || e.allocatedSize.Some?
    || e.firstCreated.Some? || e.lastModified.Some? || e.properties.Some?
  }

  predicate Readable(e: Entry, gate: Gate) {
    LongEnough(e) && (gate == INTENDED || Paired(e))
  }

  lemma BodySize(e: Entry)
    requires Legal(e)
    ensures 10 <= |EncodeBody(e)| <= 305
    ensures |EncodeBody(e)| >= 11 <==> LongEnough(e)
  {
  }

  lemma TypeReadBack(e: Entry, rest: seq<byte>)
    ensures ParseType(e.type_.Long?, EncodeType(e.type_) + rest) == Ok((TypeOf(e), rest))
  {
    var bs := EncodeType(e.type_);
    assert (bs + rest)[..|bs|] == bs && (bs + rest)[|bs|..] == rest;
    match e.type_
    case Short(short) =>
      Widths();
      LeFits(short, 2);
    case Long(uuid) =>
      UuidBytesInverse(uuid);
  }

  lemma OptionalReadBack(field: Option<seq<byte>>, n: nat, rest: seq<byte>)
    requires field.Some? ==> |field.value| == n
    ensures ParseOptional(field.Some?, (if field.Some? then field.value else []) + rest, n) == Ok((field, rest))
  {
    if field.Some? {
      assert (field.value + rest)[..n] == field.value && (field.value + rest)[n..] == rest;
    } else {
      assert [] + rest == rest;
    }
  }

  lemma SizeReadBack(size: Option<u32>, rest: seq<byte>)
    ensures var r := ParseOptional(size.Some?, EncodeSize(size) + rest, 4);
            r.Ok? && SizeOf(r.value.0) == size && r.value.1 == rest
  {
    if size.Some? {
      OptionalReadBack(Some(LeBytes(size.value, 4)), 4, rest);
      Widths();
      LeFits(size.value, 4);
    } else {
      OptionalReadBack(None, 4, rest);
    }
  }

  lemma TimeReadBack(time: Option<DateTime>, rest: seq<byte>)
    ensures var r := ParseOptional(time.Some?, EncodeTime(time) + rest, 7);
            r.Ok? && TimeOf(r.value.0) == time && r.value.1 == rest
  {
    if time.Some? {
      OptionalReadBack(Some(DateTimeBytes(time.value)), 7, rest);
      DateTimeInverse(time.value);
    } else {
      OptionalReadBack(None, 7, rest);
    }
  }

  lemma PropertiesReadBack(props: Option<byte>)
    ensures var r := ParseOptional(props.Some?, EncodeProperties(props), 4);
            && r.Ok? && r.value.0.Some? == props.Some?
            && (props.Some? ==> ParseProperties(r.value.0.value) == Ok(props.value))
  {
    if props.Some? {
      Widths();
      LeFits(props.value, 4);
      assert EncodeProperties(props)[..4] == EncodeProperties(props);
    }
  }

  lemma SizesReadBack(e: Entry, rest: seq<byte>)
    ensures ParseSizes(EntryLayout(e), EncodeSizes(e) + rest) ==
            Ok(((TypeOf(e), e.currentSize, e.allocatedSize), rest))
  {
    var r2 := EncodeSize(e.allocatedSize) + rest;
    var r1 := EncodeSize(e.currentSize) + r2;
    assert EncodeSizes(e) + rest == EncodeType(e.type_) + r1;
    TypeReadBack(e, r1);
    SizeReadBack(e.currentSize, r2);
    SizeReadBack(e.allocatedSize, rest);
  }

  lemma TimesReadBack(e: Entry)
    ensures ParseTimes(EntryLayout(e), EncodeTimes(e)) ==
            Ok((e.firstCreated, e.lastModified, if e.properties.Some? then e.properties.value else 0))
  {
    var r2 := EncodeProperties(e.properties);
    var r1 := EncodeTime(e.lastModified) + r2;
    TimeReadBack(e.firstCreated, r1);
    TimeReadBack(e.lastModified, r2);
    PropertiesReadBack(e.properties);
  }

  lemma FieldsReadBack(e: Entry)
    ensures ParseFields(EntryLayout(e), EncodeFields(e)) == Ok(MetadataOf(e).fields)
  {
    SizesReadBack(e, EncodeTimes(e));
    TimesReadBack(e);
  }

  lemma FieldsShape(layout: Layout, raw: seq<byte>)
    requires |raw| >= 2 && ParseFields(layout, raw).Ok?
    ensures ParseFields(layout, raw).value.lastModified.Some? == layout.lastModified
    ensures ParseFields(layout, raw).value.type_ == ParseType(layout.uuid128, raw).value.0
  {
  }

  /** The body layout seen by the parser is the one the encoder produced. */
  lemma EncodedLayout(e: Entry)
    requires Legal(e)
    ensures var bs := EncodeBody(e);
            && bs[6] == |e.name|
            && LeU48(bs[..6]) == e.id
            && (HasFlags(bs) <==> LongEnough(e))
            && (HasFlags(bs) ==>
                NameOf(bs) == e.name && FlagsOf(bs) == EncodeFlags(e) && bs[8 + bs[6] as nat..] == EncodeFields(e))
  {
    BodySize(e);
    var bs := EncodeBody(e);
    assert bs[..6] == LeBytes(e.id, 6);
    IdReadBack(e.id);
    assert bs[7..7 + |e.name|] == e.name;
    assert bs[8 + |e.name|..] == EncodeFields(e);
  }

  lemma IdReadBack(id: u48)
    ensures LeU48(LeBytes(id, 6)) == id
  {
    Widths();
    LeFits(id, 6);
  }

  /** The parser inverts the encoder exactly on readable entries: with the intended gate on
      every entry long enough, as written only on those that also carry both timestamps or neither. */
  lemma BodyRoundTrip(e: Entry, gate: Gate)
    requires Legal(e)
    ensures ParseMetadata(EncodeBody(e), gate) == Ok(MetadataOf(e)) <==> Readable(e, gate)
    ensures !LongEnough(e) ==> ParseMetadata(EncodeBody(e), gate) == Err(NotEnoughData(10, 11))
  {
    hide ParseMetadata, ParseFields, EncodeBody, EncodeFields, EncodeFlags, ValidUtf8, Contains;
    var layout := LayoutOf(EncodeFlags(e), gate);
    BodySize(e);
    EncodedLayout(e);
    ParseMetadataLayout(EncodeBody(e), gate);
    FlagsReadBack(e, gate);
    FieldsReadBack(e);
    if layout != EntryLayout(e) && ParseFields(layout, EncodeFields(e)).Ok? {
      FieldsShape(layout, EncodeFields(e));
    }
  }

  /** What becomes of the other entries as the code is written. A creation time alone is taken
      for two and the record is refused as short; a modification time alone is lost, and if
      properties follow, its first four bytes are read in their place. */
  lemma AsWrittenOutcome(e: Entry)
    requires Legal(e) && LongEnough(e) && !Paired(e)
    ensures var r := ParseMetadata(EncodeBody(e), AS_WRITTEN);
            && (e.firstCreated.Some? ==> Starved(r))
            && (e.lastModified.Some? && e.properties.None? ==> r == Ok(MetadataOf(e.(lastModified := None))))
            && (e.lastModified.Some? && e.properties.Some? ==>
                var bits := LeU32(DateTimeBytes(e.lastModified.value)[..4]);
                r == if bits < 0x100 then Ok(MetadataOf(e.(lastModified := None, properties := Some(bits))))
                     else Err(BadProperties(bits)))
  {
    hide ParseMetadata, ParseSizes, ParseTimes, EncodeBody, EncodeSizes, EncodeTimes, EncodeFlags, ValidUtf8, Contains;
    var layout := EntryLayout(e).(lastModified := e.firstCreated.Some?);
    EncodedLayout(e);
    ParseMetadataLayout(EncodeBody(e), AS_WRITTEN);
    FlagsReadBack(e, AS_WRITTEN);
    SizesReadBack(e, EncodeTimes(e));
    SizesIgnoreTimes(EntryLayout(e), layout, EncodeFields(e));
    MisreadTimes(e, layout);
  }

  lemma SizesIgnoreTimes(a: Layout, b: Layout, raw: seq<byte>)
    requires |raw| >= 2
    requires a == b.(lastModified := a.lastModified)
    ensures ParseSizes(a, raw) == ParseSizes(b, raw)
  {
  }

  lemma MisreadTimes(e: Entry, layout: Layout)
    requires !Paired(e) && layout == EntryLayout(e).(lastModified := e.firstCreated.Some?)
    ensures var r := ParseTimes(layout, EncodeTimes(e));
            && (e.firstCreated.Some? ==> Starved(r))
            && (e.lastModified.Some? && e.properties.None? ==> r == Ok((None, None, 0)))
            && (e.lastModified.Some? && e.properties.Some? ==>
                var bits := LeU32(DateTimeBytes(e.lastModified.value)[..4]);
                r == if bits < 0x100 then Ok((None, None, bits)) else Err(BadProperties(bits)))
  {
    if e.lastModified.Some? {
      var time := DateTimeBytes(e.lastModified.value);
      var raw := EncodeTimes(e);
      assert raw == time + EncodeProperties(e.properties);
      assert raw[..4] == time[..4];
    }
  }

  /** The entries the parser as written accepts, rightly read or not. A modification time whose
      year, month and day would pass for properties is one of year 255 or before in month 0. */
  predicate Accepted(e: Entry) {
    && LongEnough(e)
    && (e.firstCreated.Some? ==> e.lastModified.Some?)
    && (e.firstCreated.None? && e.lastModified.Some? && e.properties.Some? ==>
          var t := e.lastModified.value;
          t.year < 0x100 && t.month == 0 && t.day == 0)
  }

  lemma AcceptedExactly(e: Entry)
    requires Legal(e)
    ensures ParseMetadata(EncodeBody(e), AS_WRITTEN).Ok? <==> Accepted(e)
  {
    hide ParseMetadata, EncodeBody, ValidUtf8;
    BodyRoundTrip(e, AS_WRITTEN);
    if LongEnough(e) && !Paired(e) {
      AsWrittenOutcome(e);
      if e.lastModified.Some? {
        TimestampAsWord(e.lastModified.value);
      }
    }
  }

  /** The first four bytes of a timestamp, read as a word. */
  lemma TimestampAsWord(t: DateTime)
    ensures LeU32(DateTimeBytes(t)[..4]) as int ==
            t.year as int + 0x1_0000 * t.month as int + 0x100_0000 * t.day as int
  {
    var bs := DateTimeBytes(t)[..4];
    LeU32Value(bs);
    Widths();
    LeFits(t.year, 2);
    assert bs[..2] == LeBytes(t.year, 2);
    assert LeU16(bs[..2]) == t.year;
  }

  /** Even where the as-written gate misreads the tail, an accepted record has the right
      identifier, name and type. */
  lemma AcceptedHead(e: Entry, gate: Gate)
    requires Legal(e)
    ensures var r := ParseMetadata(EncodeBody(e), gate);
            r.Ok? ==> r.value.id == Some(e.id) && r.value.name == e.name && r.value.fields.type_ == TypeOf(e)
  {
    hide ParseMetadata, ParseFields, EncodeBody, EncodeFields, EncodeFlags, ValidUtf8, Contains;
    EncodedLayout(e);
    ParseMetadataLayout(EncodeBody(e), gate);
    FlagsReadBack(e, gate);
    AcceptedType(e, LayoutOf(EncodeFlags(e), gate));
  }

  lemma AcceptedType(e: Entry, layout: Layout)
    requires layout.uuid128 == e.type_.Long?
    ensures var r := ParseFields(layout, EncodeFields(e));
            r.Ok? ==> r.value.type_ == TypeOf(e)
  {
    hide ParseFields, ParseType, TypeOf;
    if ParseFields(layout, EncodeFields(e)).Ok? {
      FieldsShape(layout, EncodeFields(e));
      var rest := EncodeSize(e.currentSize) + EncodeSize(e.allocatedSize) + EncodeTimes(e);
      assert EncodeFields(e) == EncodeType(e.type_) + rest;
      TypeReadBack(e, rest);
    }
  }
}
