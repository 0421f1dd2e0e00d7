/**
 * The semantic layer: typed fields lifted out of a header, and rendered back into one
 * (`src/record/mod.rs`, `lift.rs`, `render.rs`). What a value's text denotes is left to a codec.
 */
module Lens {
  import opened Bytes
  import opened Headers
  import opened Parsing
  import Raw

  // ---------------------------------------------------------------------------------------------
  // Fields and record types
  // ---------------------------------------------------------------------------------------------

  // The standard fields, by their canonical rank.
  const TYPE: nat := 0
  const TARGET_URI: nat := 1
  const DATE: nat := 2
  const RECORD_ID: nat := 3
  const WARCINFO_ID: nat := 4
  const FILENAME: nat := 5
  const CONCURRENT_TO: nat := 6
  const IP_ADDRESS: nat := 7
  const PROTOCOL: nat := 8
  const PROFILE: nat := 9
  const REFERS_TO: nat := 10
  const REFERS_TO_TARGET_URI: nat := 11
  const REFERS_TO_DATE: nat := 12
  const SEGMENT_ORIGIN_ID: nat := 13
  const SEGMENT_NUMBER: nat := 14
  const SEGMENT_TOTAL_LENGTH: nat := 15
  const TRUNCATED: nat := 16
  const IDENTIFIED_PAYLOAD_TYPE: nat := 17
  const PAYLOAD_DIGEST: nat := 18
  const BLOCK_DIGEST: nat := 19
  const CONTENT_TYPE: nat := 20
  const CONTENT_LENGTH: nat := 21
  /** The rank of a field no version of the standard defines, which is after every other. */
  const EXTENSION: nat := 22

  function KeyOf(name: bytes): (k: nat)
    ensures k <= EXTENSION
  {
    RankBound(name, 0);
    match RankOf(name)
    case Some(rank) => rank
    case None => EXTENSION
  }

  lemma {:induction false} RankBound(name: bytes, k: nat)
    requires k <= |STANDARD_NAMES|
    ensures RankFrom(name, k).Some? ==> RankFrom(name, k).value < 22
    decreases |STANDARD_NAMES| - k
  {
    hide EqIgnoreCase;
    if k < |STANDARD_NAMES| {
      RankBound(name, k + 1);
    }
  }

  predicate IsRepeatable(f: nat) {
    f == CONCURRENT_TO || f == PROTOCOL || f >= EXTENSION
  }

  predicate DefinedIn(f: nat, version: Raw.Version) {
    version == Raw.V1_1 || (f != REFERS_TO_DATE && f != REFERS_TO_TARGET_URI)
  }

  datatype RecordType =
    | Warcinfo | Response | Resource | Request | Metadata | Revisit | Conversion | Continuation | Other(name: bytes)

  function TypeOf(token: bytes): RecordType {
    if EqIgnoreCase(token, Ascii("warcinfo")) then Warcinfo
    else if EqIgnoreCase(token, Ascii("response")) then Response
    else if EqIgnoreCase(token, Ascii("resource")) then Resource
    else if EqIgnoreCase(token, Ascii("request")) then Request
    else if EqIgnoreCase(token, Ascii("metadata")) then Metadata
    else if EqIgnoreCase(token, Ascii("revisit")) then Revisit
    else if EqIgnoreCase(token, Ascii("conversion")) then Conversion
    else if EqIgnoreCase(token, Ascii("continuation")) then Continuation
    else Other(Lowered(token))
  }

  function TypeName(t: RecordType): bytes {
    match t
    case Warcinfo => Ascii("warcinfo")
    case Response => Ascii("response")
    case Resource => Ascii("resource")
    case Request => Ascii("request")
    case Metadata => Ascii("metadata")
    case Revisit => Ascii("revisit")
    case Conversion => Ascii("conversion")
    case Continuation => Ascii("continuation")
    case Other(name) => name
  }

  /** How many lines of a field a record type takes: an origin's segment number must be one. */
  datatype Arity = Required | Optional | Repeated | Origin

  datatype Slot = Slot(field: nat, arity: Arity)

  /** The fields every record carries besides its type, in the order they are taken. */
  const CORE: seq<Slot> := [
    Slot(RECORD_ID, Required), Slot(DATE, Required), Slot(CONTENT_LENGTH, Optional), Slot(BLOCK_DIGEST, Optional),
    Slot(CONTENT_TYPE, Optional), Slot(TRUNCATED, Optional)]

  const PAYLOAD: seq<Slot> := [Slot(PAYLOAD_DIGEST, Optional), Slot(IDENTIFIED_PAYLOAD_TYPE, Optional)]

  const CAPTURED: seq<Slot> := [Slot(IP_ADDRESS, Optional), Slot(PROTOCOL, Repeated), Slot(CONCURRENT_TO, Repeated)]

  const ORIGIN: seq<Slot> := [Slot(SEGMENT_NUMBER, Origin)]

  /** The fields of a type's own, in the order they are taken. */
  function OwnSlots(t: RecordType): seq<Slot> {
    match t
    case Warcinfo => [Slot(FILENAME, Optional)] + ORIGIN
    case Response => CaptureSlots()
    case Resource => CaptureSlots()
    case Request => CaptureSlots()
    case Metadata =>
      [Slot(TARGET_URI, Optional), Slot(WARCINFO_ID, Optional)] + CAPTURED + [Slot(REFERS_TO, Optional)] + ORIGIN
    case Revisit =>
      PAYLOAD + [Slot(TARGET_URI, Required), Slot(WARCINFO_ID, Optional), Slot(PROFILE, Required)] + CAPTURED
      + [Slot(REFERS_TO, Optional), Slot(REFERS_TO_TARGET_URI, Optional), Slot(REFERS_TO_DATE, Optional)] + ORIGIN
    case Conversion =>
      PAYLOAD + [Slot(TARGET_URI, Required), Slot(WARCINFO_ID, Optional), Slot(REFERS_TO, Optional)] + ORIGIN
    case Continuation =>
      PAYLOAD + [Slot(TARGET_URI, Required), Slot(WARCINFO_ID, Optional), Slot(SEGMENT_NUMBER, Required),
                 Slot(SEGMENT_ORIGIN_ID, Required), Slot(SEGMENT_TOTAL_LENGTH, Optional)]
    case Other(_) => ORIGIN
  }

  function CaptureSlots(): seq<Slot> {
    PAYLOAD + [Slot(TARGET_URI, Required), Slot(WARCINFO_ID, Optional)] + CAPTURED + ORIGIN
  }

  /** All the fields of a type but the type itself, in the order they are taken. */
  function SlotsOf(t: RecordType): seq<Slot> {
    CORE + OwnSlots(t)
  }

  // ---------------------------------------------------------------------------------------------
  // Values
  // ---------------------------------------------------------------------------------------------

  /**
   * What values mean. `read` is the datum a field's content denotes, without the brackets a URI may
   * be written in; `meaning` is what a record of a version makes of it, which for a profile, a
   * truncation reason or a protocol may be another spelling; `spell` is the content written for it,
   * where the version is able to. `extension` is the name a type no version defines gives itself.
   */
  datatype Codec = Codec(
    read: (nat, bytes) -> Option<bytes>,
    meaning: (Raw.Version, nat, bytes) -> Option<bytes>,
    writable: (Raw.Version, nat, bytes) -> bool,
    spell: (Raw.Version, nat, bytes) -> bytes,
    count: nat -> bytes,
    identical: bytes -> bool,
    lengthReason: bytes,
    extension: bytes -> Option<bytes>)
  {
    /** What is spelled is read as what it spells, and what has been taken for its meaning means itself. */
    ghost predicate Lawful() {
      && (forall v, f, d | writable(v, f, d) :: IsFolded([SP] + spell(v, f, d)) && read(f, Unfolded([SP] + spell(v, f, d))) == Some(d))
      && (forall v, f, d | meaning(v, f, d).Some? :: meaning(v, f, meaning(v, f, d).value) == meaning(v, f, d))
      && (forall v, n :: meaning(v, CONTENT_LENGTH, count(n)) == Some(count(n)))
      && (forall n | extension(n).Some? :: extension(Lowered(extension(n).value)) == extension(n))
    }
  }

  /** A field line: its name, the rank of the field it names, its value as written and what that denotes. */
  datatype HeaderLine = HeaderLine(name: bytes, key: nat, value: bytes, datum: bytes)

  datatype Error =
    | Malformed(name: bytes)
    | RepeatedField(field: nat)
    | FieldNotInVersion(field: nat)
    | MissingField(field: nat)
    | MalformedField(field: nat)
    | ForbiddenField(field: nat)
    | UnknownRecordType
    | RedefinedRecordType
    | NonUtf8Field(name: bytes)

  /** A field of the untyped representation: read against the grammar its name selects. */
  function LineOf(c: Codec, field: Raw.Field): Result<HeaderLine, Error> {
    var key := KeyOf(field.name);
    if !IsFolded(field.value) then Failure(Malformed(field.name))
    else
      var content := Unfolded(field.value);
      if key == EXTENSION then
        if IsText(content) then Success(HeaderLine(field.name, key, field.value, content)) else Failure(Malformed(field.name))
      else
        match c.read(key, content)
        case Some(datum) => Success(HeaderLine(field.name, key, field.value, datum))
        case None => Failure(Malformed(field.name))
  }

  function LinesOf(c: Codec, fields: Fields): Result<seq<HeaderLine>, Error> {
    if fields == [] then Success([])
    else
      var before :- LinesOf(c, fields[..|fields| - 1]);
      var line :- LineOf(c, fields[|fields| - 1]);
      Success(before + [line])
  }

  /** The lines of one rank, in order. */
  function Of(lines: seq<HeaderLine>, key: nat): seq<HeaderLine> {
    if lines == [] then []
    else Of(lines[..|lines| - 1], key) + if lines[|lines| - 1].key == key then [lines[|lines| - 1]] else []
  }

  /** The lines of none of some ranks, in order. */
  function Without(lines: seq<HeaderLine>, keys: set<nat>): seq<HeaderLine> {
    if lines == [] then []
    else Without(lines[..|lines| - 1], keys) + if lines[|lines| - 1].key !in keys then [lines[|lines| - 1]] else []
  }

  function Data(lines: seq<HeaderLine>): (data: seq<bytes>)
    ensures |data| == |lines| && forall i | 0 <= i < |lines| :: data[i] == lines[i].datum
  {
    seq(|lines|, i requires 0 <= i < |lines| => lines[i].datum)
  }

  /** The first line, from `i` on, of a field that may not be repeated and has been seen. */
  function RepeatedFrom(lines: seq<HeaderLine>, i: nat, seen: set<nat>): Option<nat>
    requires i <= |lines|
    decreases |lines| - i
  {
    if i == |lines| then None
    else if IsRepeatable(lines[i].key) then RepeatedFrom(lines, i + 1, seen)
    else if lines[i].key in seen then Some(lines[i].key)
    else RepeatedFrom(lines, i + 1, seen + {lines[i].key})
  }

  function UndefinedFrom(lines: seq<HeaderLine>, version: Raw.Version, i: nat): Option<nat>
    requires i <= |lines|
    decreases |lines| - i
  {
    if i == |lines| then None
    else if lines[i].key < EXTENSION && !DefinedIn(lines[i].key, version) then Some(lines[i].key)
    else UndefinedFrom(lines, version, i + 1)
  }

  // ---------------------------------------------------------------------------------------------
  // Lifting
  // ---------------------------------------------------------------------------------------------

  /** A header in its semantic representation: the values of each field its type takes, and the other fields. */
  datatype Header = Header(
    version: Raw.Version, recordType: RecordType, values: map<nat, seq<bytes>>, unrecognized: seq<(bytes, bytes)>)

  function Meanings(c: Codec, version: Raw.Version, field: nat, data: seq<bytes>): Result<seq<bytes>, Error> {
    if data == [] then Success([])
    else
      var before :- Meanings(c, version, field, data[..|data| - 1]);
      match c.meaning(version, field, data[|data| - 1])
      case Some(datum) => Success(before + [datum])
      case None => Failure(MalformedField(field))
  }

  /** What a slot takes of the data of its field. */
  function Taken(c: Codec, version: Raw.Version, slot: Slot, data: seq<bytes>): Result<seq<bytes>, Error> {
    match slot.arity
    case Required => if data == [] then Failure(MissingField(slot.field)) else Meanings(c, version, slot.field, data[..1])
    case Optional => if data == [] then Success([]) else Meanings(c, version, slot.field, data[..1])
    case Repeated => Meanings(c, version, slot.field, data)
    case Origin =>
      if data == [] then Success([])
      else if data[0] != c.count(1) then Failure(MalformedField(slot.field))
      else Success([c.count(1)])
  }

  /** A record that says a payload is identical carries the digest that was compared. */
  predicate LacksDigest(c: Codec, values: map<nat, seq<bytes>>) {
    && PROFILE in values && values[PROFILE] != [] && c.identical(values[PROFILE][0])
    && (PAYLOAD_DIGEST in values ==> values[PAYLOAD_DIGEST] == [])
  }

  function TakeSlots(
    c: Codec, version: Raw.Version, lines: seq<HeaderLine>, slots: seq<Slot>, i: nat, values: map<nat, seq<bytes>>)
    : Result<map<nat, seq<bytes>>, Error>
    requires i <= |slots|
    decreases |slots| - i
  {
    if i == |slots| then Success(values)
    else
      var taken :- Taken(c, version, slots[i], Data(Of(lines, slots[i].field)));
      var after := values[slots[i].field := taken];
      if slots[i].field == PROFILE && LacksDigest(c, after) then Failure(MissingField(PAYLOAD_DIGEST))
      else TakeSlots(c, version, lines, slots, i + 1, after)
  }

  function FieldsOf(slots: seq<Slot>): set<nat> {
    set i | 0 <= i < |slots| :: slots[i].field
  }

  /** The fields a record of a type takes. */
  function TakenFields(t: RecordType): set<nat> {
    {TYPE} + FieldsOf(SlotsOf(t))
  }

  /** The name of a field kept as read, and its content. */
  function Kept(line: HeaderLine): (bytes, bytes) {
    (line.name, Unfolded(line.value))
  }

  function KeptAll(lines: seq<HeaderLine>): Result<seq<(bytes, bytes)>, Error> {
    if lines == [] then Success([])
    else
      var before :- KeptAll(lines[..|lines| - 1]);
      var last := lines[|lines| - 1];
      if !Raw.IsUtf8(Unfolded(last.value)) then Failure(NonUtf8Field(last.name)) else Success(before + [Kept(last)])
  }

  function FirstStandard(lines: seq<HeaderLine>, i: nat): Option<nat>
    requires i <= |lines|
    decreases |lines| - i
  {
    if i == |lines| then None
    else if lines[i].key < EXTENSION then Some(lines[i].key)
    else FirstStandard(lines, i + 1)
  }

  /** The fields that were not taken: none of them standard, unless the type is no standard one. */
  function Finish(t: RecordType, rest: seq<HeaderLine>): Result<seq<(bytes, bytes)>, Error> {
    if !t.Other? && FirstStandard(rest, 0).Some? then Failure(ForbiddenField(FirstStandard(rest, 0).value))
    else KeptAll(rest)
  }

  /** The type a record of a type no version defines is written back under. */
  function Claimed(c: Codec, t: RecordType): Result<RecordType, Error> {
    if !t.Other? then Success(t)
    else
      match c.extension(t.name)
      case None => Failure(UnknownRecordType)
      case Some(name) => if TypeOf(name).Other? then Success(Other(name)) else Failure(RedefinedRecordType)
  }

  function LiftLines(c: Codec, version: Raw.Version, lines: seq<HeaderLine>): Result<Header, Error> {
    if RepeatedFrom(lines, 0, {}).Some? then Failure(RepeatedField(RepeatedFrom(lines, 0, {}).value))
    else if UndefinedFrom(lines, version, 0).Some? then Failure(FieldNotInVersion(UndefinedFrom(lines, version, 0).value))
    else if Of(lines, TYPE) == [] then Failure(MissingField(TYPE))
    else
      var core :- TakeSlots(c, version, lines, CORE, 0, map[]);
      var t :- Claimed(c, TypeOf(Of(lines, TYPE)[0].datum));
      var values :- TakeSlots(c, version, lines, OwnSlots(t), 0, core);
      var unrecognized :- Finish(t, Without(lines, TakenFields(t)));
      Success(Header(version, t, values, unrecognized))
  }

  function Lift(c: Codec, header: Raw.Header): Result<Header, Error> {
    var lines :- LinesOf(c, header.fields);
    LiftLines(c, header.version, lines)
  }

  // ---------------------------------------------------------------------------------------------
  // Records
  // ---------------------------------------------------------------------------------------------

  datatype Record = Record(header: Header, body: bytes)

  /** Pair a header with a block of the length it declares, if it declares one. */
  function WithBody(c: Codec, header: Header, body: bytes): Option<Record> {
    if CONTENT_LENGTH in header.values && header.values[CONTENT_LENGTH] != []
       && header.values[CONTENT_LENGTH] != [c.count(|body|)] then None
    else Some(Record(header.(values := header.values[CONTENT_LENGTH := [c.count(|body|)]]), body))
  }

  // ---------------------------------------------------------------------------------------------
  // Rendering
  // ---------------------------------------------------------------------------------------------

  datatype RenderError =
    | PayloadFault
    | MissingProfileField
    | UndeclaredTruncation
    | LengthMismatch
    | BlockDigestFault
    | NotInVersion(field: nat)
    | Unwritable(name: bytes)
    | ReservedField(field: nat)
    | RenderedTwice(field: nat)

  const CORE_ORDER: seq<nat> := [TYPE, RECORD_ID, DATE, CONTENT_LENGTH, BLOCK_DIGEST, CONTENT_TYPE, TRUNCATED]

  function OwnOrder(t: RecordType): seq<nat> {
    FieldList(OwnSlots(t))
  }

  function FieldList(slots: seq<Slot>): (fields: seq<nat>)
    ensures |fields| == |slots| && forall i | 0 <= i < |slots| :: fields[i] == slots[i].field
  {
    seq(|slots|, i requires 0 <= i < |slots| => slots[i].field)
  }

  /** What is pushed for a field: its values, or for the type its name. */
  function ValuesFor(header: Header, field: nat): seq<bytes> {
    if field == TYPE then [TypeName(header.recordType)]
    else if field in header.values then header.values[field]
    else []
  }

  function Pushed(c: Codec, version: Raw.Version, field: nat, data: seq<bytes>): Result<seq<HeaderLine>, RenderError>
    requires field < EXTENSION
  {
    if data == [] then Success([])
    else
      var before :- Pushed(c, version, field, data[..|data| - 1]);
      var datum := data[|data| - 1];
      if !c.writable(version, field, datum) then Failure(Unwritable(STANDARD_NAMES[field]))
      else if !DefinedIn(field, version) then Failure(NotInVersion(field))
      else Success(before + [HeaderLine(STANDARD_NAMES[field], field, [SP] + c.spell(version, field, datum), datum)])
  }

  function PushedAll(c: Codec, header: Header, order: seq<nat>): Result<seq<HeaderLine>, RenderError>
    requires forall i | 0 <= i < |order| :: order[i] < EXTENSION
  {
    if order == [] then Success([])
    else
      var before :- PushedAll(c, header, order[..|order| - 1]);
      var field := order[|order| - 1];
      var lines :- Pushed(c, header.version, field, ValuesFor(header, field));
      Success(before + lines)
  }

  predicate HasNoLineBreak(value: bytes) {
    forall i | 0 <= i < |value| :: value[i] != CR && value[i] != LF
  }

  /** A value is given a space to stand after, unless it opens with white space of its own. */
  function Spelled(value: bytes): bytes {
    if value != [] && IsLws(value[0]) then value else [SP] + value
  }

  /** A field kept as read, after checking that it can be read back. */
  function PushedAsRead(c: Codec, version: Raw.Version, t: RecordType, field: (bytes, bytes)): Result<HeaderLine, RenderError> {
    var key := KeyOf(field.0);
    if !IsToken(field.0) || !HasNoLineBreak(field.1) then Failure(Unwritable(field.0))
    else if key < EXTENSION && !t.Other? then Failure(ReservedField(key))
    else if key < EXTENSION && !DefinedIn(key, version) then Failure(NotInVersion(key))
    else
      match LineOf(c, Raw.Field(field.0, Spelled(field.1)))
      case Success(line) => Success(line)
      case Failure(_) => Failure(Unwritable(field.0))
  }

  function PushedUnrecognized(c: Codec, version: Raw.Version, t: RecordType, fields: seq<(bytes, bytes)>)
    : Result<seq<HeaderLine>, RenderError>
  {
    if fields == [] then Success([])
    else
      var before :- PushedUnrecognized(c, version, t, fields[..|fields| - 1]);
      var line :- PushedAsRead(c, version, t, fields[|fields| - 1]);
      Success(before + [line])
  }

  /** The lines in conventional order, those of one field as they stood. */
  function OrderedFrom(lines: seq<HeaderLine>, key: nat): seq<HeaderLine>
    decreases EXTENSION + 1 - key
  {
    if key > EXTENSION then [] else Of(lines, key) + OrderedFrom(lines, key + 1)
  }

  function Ordered(lines: seq<HeaderLine>): seq<HeaderLine> {
    OrderedFrom(lines, 0)
  }

  function Written(lines: seq<HeaderLine>): (fields: Headers.Fields)
    ensures |fields| == |lines| && forall i | 0 <= i < |lines| :: fields[i] == Raw.Field(lines[i].name, lines[i].value)
  {
    seq(|lines|, i requires 0 <= i < |lines| => Raw.Field(lines[i].name, lines[i].value))
  }

  /** What the declared digests are checked for, which changes nothing that is written. */
  datatype Checks = Checks(payload: Record -> bool, block: Record -> bool)

  /** A revisit's block under the identical-payload profile is a part of the response, and says so. */
  predicate UndeclaredPart(c: Codec, record: Record) {
    var values := record.header.values;
    && record.body != [] && PROFILE in values && values[PROFILE] != [] && c.identical(values[PROFILE][0])
    && !(TRUNCATED in values && values[TRUNCATED] == [c.lengthReason])
  }

  /** A record rendered as a raw record. */
  function IntoRaw(c: Codec, checks: Checks, record: Record): Result<Raw.Record, RenderError> {
    var h := record.header;
    OrderIsStandard(h.recordType);
    if !checks.payload(record) then Failure(PayloadFault)
    else if LacksDigest(c, h.values) then Failure(MissingProfileField)
    else if UndeclaredPart(c, record) then Failure(UndeclaredTruncation)
    else
      var own :- PushedAll(c, h, OwnOrder(h.recordType));
      if WithBody(c, h, record.body).None? then Failure(LengthMismatch)
      else if !checks.block(record) then Failure(BlockDigestFault)
      else
        var core :- PushedAll(c, WithBody(c, h, record.body).value.header, CORE_ORDER);
        var kept :- PushedUnrecognized(c, h.version, h.recordType, h.unrecognized);
        var lines := own + core + kept;
        if RepeatedFrom(lines, 0, {}).Some? then Failure(RenderedTwice(RepeatedFrom(lines, 0, {}).value))
        else Success(Raw.Record(Raw.Header(h.version, Written(Ordered(lines))), record.body))
  }

  lemma OrderIsStandard(t: RecordType)
    ensures forall i | 0 <= i < |OwnOrder(t)| :: OwnOrder(t)[i] < EXTENSION
    ensures forall i | 0 <= i < |CORE_ORDER| :: CORE_ORDER[i] < EXTENSION
  {
  }
}
