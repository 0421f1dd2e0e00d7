/** Content-derived record identities and the octets they hash (`crates/archivindex-warc-identifier/src/lib.rs`, `read.rs`). */
module Identity {
  import opened Bytes
  import opened Headers
  import opened MergePlan
  import opened MergePass
  import opened Radix
  import MergeMeaning
  import Raw

  datatype Original = Original(date: bytes, target: bytes)

  datatype Identity = Identity(recordType: byte, date: bytes, target: Option<bytes>, blockHash: bytes, original: Option<Original>)

  datatype Error =
    | UnsupportedRecordType
    | InvalidField(name: bytes)
    | RepeatedField(name: bytes)
    | Segmented(name: bytes)

  /**
   * The foreign parts: the Unix microseconds of the instant a date denotes under a version, what a
   * URI is, and SHA-256.
   */
  datatype Foreign = Foreign(micros: (bytes, Raw.Version) -> Option<int>, isUri: bytes -> bool, sha256: bytes -> bytes) {
    /** A URI opens with a scheme, and a hash is 32 octets. */
    ghost predicate Lawful() {
      !isUri([]) && forall s :: |sha256(s)| == 32
    }
  }

  const TARGET_URI := Ascii("WARC-Target-URI")
  const REFERS_TO_DATE := Ascii("WARC-Refers-To-Date")
  const REFERS_TO_TARGET_URI := Ascii("WARC-Refers-To-Target-URI")
  const SEGMENT_NUMBER := Ascii("WARC-Segment-Number")
  const SEGMENT_TOTAL_LENGTH := Ascii("WARC-Segment-Total-Length")

  // ---------------------------------------------------------------------------------------------
  // Reading an identity
  // ---------------------------------------------------------------------------------------------

  /** The values of the fields of a name, in order. */
  function Values(fields: Fields, name: bytes): seq<bytes> {
    if fields == [] then []
    else (if EqIgnoreCase(fields[0].name, name) then [fields[0].value] else []) + Values(fields[1..], name)
  }

  function ValueOf(fields: Fields, name: bytes): Result<Option<bytes>, Error> {
    var values := Values(fields, name);
    if |values| > 1 then Failure(RepeatedField(name))
    else Success(if values == [] then None else Some(values[0]))
  }

  function TextOf(fields: Fields, name: bytes): Result<Option<bytes>, Error> {
    var value :- ValueOf(fields, name);
    if value.None? then Success(None)
    else if !Raw.IsUtf8(TrimAscii(value.value)) then Failure(InvalidField(name))
    else Success(Some(TrimAscii(value.value)))
  }

  /** The microseconds of a date, which must be given. */
  function DateOf(f: Foreign, version: Raw.Version, fields: Fields, name: bytes): Result<int, Error> {
    var text :- TextOf(fields, name);
    if text.None? || f.micros(text.value, version).None? then Failure(InvalidField(name))
    else Success(f.micros(text.value, version).value)
  }

  /** A URI without its brackets and the white space around it. */
  function UriOf(f: Foreign, fields: Fields, name: bytes): Result<Option<bytes>, Error> {
    var value :- ValueOf(fields, name);
    if value.None? then Success(None)
    else
      var uri := NormalizeId(value.value);
      if !Raw.IsUtf8(uri) || !f.isUri(uri) then Failure(InvalidField(name)) else Success(Some(uri))
  }

  function TypeByte(text: bytes): Option<byte> {
    if EqIgnoreCase(text, Ascii("warcinfo")) then Some(1)
    else if EqIgnoreCase(text, Ascii("request")) then Some(2)
    else if EqIgnoreCase(text, Ascii("response")) then Some(3)
    else if EqIgnoreCase(text, Ascii("metadata")) then Some(4)
    else if EqIgnoreCase(text, Ascii("revisit")) then Some(5)
    else None
  }

  function DateBytes(micros: int, name: bytes): Result<bytes, Error> {
    if 0 <= micros <= U64_MAX then Success(Octets(micros, 8)) else Failure(InvalidField(name))
  }

  function OriginalOf(f: Foreign, header: Raw.Header): Result<Original, Error> {
    var micros :- DateOf(f, header.version, header.fields, REFERS_TO_DATE);
    var date :- DateBytes(micros, REFERS_TO_DATE);
    var target :- UriOf(f, header.fields, REFERS_TO_TARGET_URI);
    if target.None? then Failure(InvalidField(REFERS_TO_TARGET_URI)) else Success(Original(date, target.value))
  }

  function SegmentField(fields: Fields): Option<bytes> {
    if Values(fields, SEGMENT_NUMBER) != [] then Some(SEGMENT_NUMBER)
    else if Values(fields, WARC_SEGMENT_ORIGIN_ID) != [] then Some(WARC_SEGMENT_ORIGIN_ID)
    else if Values(fields, SEGMENT_TOTAL_LENGTH) != [] then Some(SEGMENT_TOTAL_LENGTH)
    else None
  }

  /** The identity of a record whose type byte and other parts have been read. */
  function FromParts(f: Foreign, text: bytes, micros: int, target: Option<bytes>, body: bytes, original: Option<Original>)
    : Result<Identity, Error>
  {
    if TypeByte(text).None? then Failure(UnsupportedRecordType)
    else
      var date :- DateBytes(micros, WARC_DATE);
      Success(Identity(TypeByte(text).value, date, target, f.sha256(body), original))
  }

  function IdentityOf(f: Foreign, record: Raw.Record): Result<Identity, Error> {
    var header := record.header;
    var text :- TextOf(header.fields, WARC_TYPE);
    if text.None? then Failure(InvalidField(WARC_TYPE))
    else
      var micros :- DateOf(f, header.version, header.fields, WARC_DATE);
      var segment := SegmentField(header.fields);
      if segment.Some? then Failure(Segmented(segment.value))
      else if TypeByte(text.value) == Some(5) then
        var original :- OriginalOf(f, header);
        var target :- UriOf(f, header.fields, TARGET_URI);
        FromParts(f, text.value, micros, target, record.body, Some(original))
      else
        var target :- UriOf(f, header.fields, TARGET_URI);
        FromParts(f, text.value, micros, target, record.body, None)
  }

  // ---------------------------------------------------------------------------------------------
  // The preimage
  // ---------------------------------------------------------------------------------------------

  function LengthPrefixed(value: bytes): bytes {
    Octets(|value|, 8) + value
  }

  function TargetOr(target: Option<bytes>): bytes {
    if target.Some? then target.value else []
  }

  /** The octets that are hashed. */
  function Preimage(id: Identity): bytes {
    [1, id.recordType] + id.date + LengthPrefixed(TargetOr(id.target)) + id.blockHash
    + if id.original.Some? then id.original.value.date + LengthPrefixed(id.original.value.target) else []
  }

  /** Hand the parts of the preimage to a writer one after the other. */
  method EncodePreimage(id: Identity) returns (written: bytes)
    ensures written == Preimage(id)
  {
    hide Octets;
    written := [1, id.recordType];
    written := written + id.date;
    var target := TargetOr(id.target);
    written := written + Octets(|target|, 8);
    written := written + target;
    written := written + id.blockHash;
    if id.original.Some? {
      written := written + id.original.value.date;
      written := written + Octets(|id.original.value.target|, 8);
      written := written + id.original.value.target;
    }
    Appended(id);
  }

  lemma Appended(id: Identity)
    ensures var target := TargetOr(id.target);
            var first := [1, id.recordType] + id.date + Octets(|target|, 8) + target + id.blockHash;
            Preimage(id) ==
            if id.original.Some?
            then first + id.original.value.date + Octets(|id.original.value.target|, 8) + id.original.value.target
            else first
  {
    hide Octets;
    var target := TargetOr(id.target);
    ConcatAssociates([1, id.recordType] + id.date, Octets(|target|, 8), target);
    var first := [1, id.recordType] + id.date + LengthPrefixed(target) + id.blockHash;
    assert first + [] == first;
    if id.original.Some? {
      var o := id.original.value;
      ConcatAssociates(first, o.date, LengthPrefixed(o.target));
      ConcatAssociates(first + o.date, Octets(|o.target|, 8), o.target);
    }
  }

  /** What constructing an identity establishes. */
  ghost predicate Valid(id: Identity) {
    && 1 <= id.recordType <= 5 && |id.date| == 8 && |id.blockHash| == 32
    && (id.target.Some? ==> id.target.value != [] && |id.target.value| <= U64_MAX)
    && (id.original.Some? <==> id.recordType == 5)
    && (id.original.Some? ==> |id.original.value.date| == 8 && |id.original.value.target| <= U64_MAX)
  }

  /** Unsigned 64-bit numbers are told apart by their octets. */
  lemma EightOctets(a: nat, b: nat)
    requires a <= U64_MAX && b <= U64_MAX && Octets(a, 8) == Octets(b, 8)
    ensures a == b
  {
    hide Octets, OctetNumber;
    assert Pow(256, 4) == 0x1_0000_0000;
    assert Pow(256, 8) == 256 * (256 * (256 * (256 * Pow(256, 4))));
    NumberOfOctets(a, 8);
    NumberOfOctets(b, 8);
  }

  // ---------------------------------------------------------------------------------------------
  // Equal preimages, equal identities
  // ---------------------------------------------------------------------------------------------

  lemma CancelPrefix(a: bytes, b: bytes, x: bytes, y: bytes)
    requires |a| == |b| && a + x == b + y
    ensures a == b && x == y
  {
    assert a == (a + x)[..|a|] && b == (b + y)[..|b|];
    assert x == (a + x)[|a|..] && y == (b + y)[|b|..];
  }

  /** A length-prefixed value tells where it ends. */
  lemma LengthPrefixedEnds(a: bytes, b: bytes, x: bytes, y: bytes)
    requires |a| <= U64_MAX && |b| <= U64_MAX && LengthPrefixed(a) + x == LengthPrefixed(b) + y
    ensures a == b && x == y
  {
    hide Octets;
    ConcatAssociates(Octets(|a|, 8), a, x);
    ConcatAssociates(Octets(|b|, 8), b, y);
    CancelPrefix(Octets(|a|, 8), Octets(|b|, 8), a + x, b + y);
    EightOctets(|a|, |b|);
    CancelPrefix(a, b, x, y);
  }

  function OriginalOctets(original: Option<Original>): bytes {
    if original.Some? then original.value.date + LengthPrefixed(original.value.target) else []
  }

  /** The preimage and what follows it, from its first part on. */
  lemma PreimageParts(id: Identity, rest: bytes)
    ensures Preimage(id) + rest ==
            [1, id.recordType] + (id.date + (LengthPrefixed(TargetOr(id.target)) + (id.blockHash + (OriginalOctets(id.original) + rest))))
  {
    hide LengthPrefixed, TargetOr;
    var a, b, c, d, e := [1, id.recordType], id.date, LengthPrefixed(TargetOr(id.target)), id.blockHash, OriginalOctets(id.original);
    ConcatAssociates(a + b + c + d, e, rest);
    ConcatAssociates(a + b + c, d, e + rest);
    ConcatAssociates(a + b, c, d + (e + rest));
    ConcatAssociates(a, b, c + (d + (e + rest)));
  }

  /**
   * A preimage tells where it ends and which identity it is of: equal octets, followed by whatever,
   * come from equal types, dates, targets, block hashes and originals.
   */
  lemma PreimageDetermines(a: Identity, b: Identity, x: bytes, y: bytes)
    requires Valid(a) && Valid(b) && Preimage(a) + x == Preimage(b) + y
    ensures a == b && x == y
  {
    hide Preimage, LengthPrefixed;
    PreimageParts(a, x);
    PreimageParts(b, y);
    var xs, ys := OriginalOctets(a.original) + x, OriginalOctets(b.original) + y;
    var xt, yt := LengthPrefixed(TargetOr(a.target)), LengthPrefixed(TargetOr(b.target));
    CancelPrefix([1, a.recordType], [1, b.recordType], a.date + (xt + (a.blockHash + xs)), b.date + (yt + (b.blockHash + ys)));
    assert a.recordType == [1, a.recordType][1] == b.recordType;
    CancelPrefix(a.date, b.date, xt + (a.blockHash + xs), yt + (b.blockHash + ys));
    LengthPrefixedEnds(TargetOr(a.target), TargetOr(b.target), a.blockHash + xs, b.blockHash + ys);
    CancelPrefix(a.blockHash, b.blockHash, xs, ys);
    if a.original.Some? {
      var o, q := a.original.value, b.original.value;
      ConcatAssociates(o.date, LengthPrefixed(o.target), x);
      ConcatAssociates(q.date, LengthPrefixed(q.target), y);
      CancelPrefix(o.date, q.date, LengthPrefixed(o.target) + x, LengthPrefixed(q.target) + y);
      LengthPrefixedEnds(o.target, q.target, x, y);
    } else {
      assert [] + x == x && [] + y == y;
    }
  }

  /** Field values are held in memory, so their lengths are 64-bit numbers. */
  ghost predicate InMemory(fields: Fields) {
    forall i | 0 <= i < |fields| :: |fields[i].value| <= U64_MAX
  }

  lemma {:induction false} ValuesInMemory(fields: Fields, name: bytes)
    requires InMemory(fields)
    ensures forall i | 0 <= i < |Values(fields, name)| :: |Values(fields, name)[i]| <= U64_MAX
  {
    hide EqIgnoreCase;
    if fields != [] {
      ValuesInMemory(fields[1..], name);
    }
  }

  lemma UriIsShort(f: Foreign, fields: Fields, name: bytes)
    requires f.Lawful() && InMemory(fields)
    ensures var uri := UriOf(f, fields, name);
            uri.Success? && uri.value.Some? ==> uri.value.value != [] && |uri.value.value| <= U64_MAX
  {
    hide Values, InMemory, Raw.IsUtf8, TrimAsciiStart, TrimAsciiEnd;
    ValuesInMemory(fields, name);
  }

  /** Constructing an identity from a record validates it. */
  lemma IdentityIsValid(f: Foreign, record: Raw.Record)
    requires f.Lawful() && InMemory(record.header.fields) && IdentityOf(f, record).Success?
    ensures Valid(IdentityOf(f, record).value)
  {
    hide UriOf, TextOf, DateOf, Octets, SegmentField, InMemory, EqIgnoreCase, Ascii;
    UriIsShort(f, record.header.fields, TARGET_URI);
    UriIsShort(f, record.header.fields, REFERS_TO_TARGET_URI);
  }

  /**
   * Records with one preimage are captures of one type, at one microsecond, of one target, whose
   * blocks have one hash; and revisits of one original.
   */
  lemma SamePreimageSameCapture(f: Foreign, a: Raw.Record, b: Raw.Record)
    requires f.Lawful() && InMemory(a.header.fields) && InMemory(b.header.fields)
    requires IdentityOf(f, a).Success? && IdentityOf(f, b).Success?
    requires Preimage(IdentityOf(f, a).value) == Preimage(IdentityOf(f, b).value)
    ensures DateOf(f, a.header.version, a.header.fields, WARC_DATE) == DateOf(f, b.header.version, b.header.fields, WARC_DATE)
    ensures UriOf(f, a.header.fields, TARGET_URI) == UriOf(f, b.header.fields, TARGET_URI)
    ensures f.sha256(a.body) == f.sha256(b.body)
    ensures IdentityOf(f, a).value.recordType == 5 ==> OriginalOf(f, a.header) == OriginalOf(f, b.header)
    ensures IdentityOf(f, a) == IdentityOf(f, b)
  {
    hide UriOf, TextOf, DateOf, Octets, SegmentField, InMemory, Preimage, EqIgnoreCase, Ascii, Valid, OriginalOf;
    var x, y := IdentityOf(f, a).value, IdentityOf(f, b).value;
    IdentityIsValid(f, a);
    IdentityIsValid(f, b);
    assert Preimage(x) + [] == Preimage(x) && Preimage(y) + [] == Preimage(y);
    PreimageDetermines(x, y, [], []);
    var m, n := DateOf(f, a.header.version, a.header.fields, WARC_DATE).value, DateOf(f, b.header.version, b.header.fields, WARC_DATE).value;
    EightOctets(m, n);
  }

  /** A present URI that were empty would be confused with an absent one. */
  lemma EmptyTargetIsAbsent(id: Identity)
    ensures Preimage(id.(target := Some([]))) == Preimage(id.(target := None))
    ensures id.(target := Some([])) != id.(target := None)
  {
    hide Octets;
  }

  // ---------------------------------------------------------------------------------------------
  // What an identity does not depend on
  // ---------------------------------------------------------------------------------------------

  /** Two headers give the same values to the fields an identity is read from. */
  ghost predicate SameCapture(a: Fields, b: Fields) {
    && ValueOf(a, WARC_TYPE) == ValueOf(b, WARC_TYPE) && ValueOf(a, WARC_DATE) == ValueOf(b, WARC_DATE)
    && ValueOf(a, TARGET_URI) == ValueOf(b, TARGET_URI)
    && ValueOf(a, REFERS_TO_DATE) == ValueOf(b, REFERS_TO_DATE)
    && ValueOf(a, REFERS_TO_TARGET_URI) == ValueOf(b, REFERS_TO_TARGET_URI)
    && SegmentField(a) == SegmentField(b)
  }

  lemma SameCaptureSameIdentity(f: Foreign, a: Raw.Record, b: Raw.Record)
    requires a.header.version == b.header.version && a.body == b.body && SameCapture(a.header.fields, b.header.fields)
    ensures IdentityOf(f, a) == IdentityOf(f, b)
  {
    hide ValueOf, SegmentField, Raw.IsUtf8, TrimAscii, NormalizeId, EqIgnoreCase, Ascii, Octets;
  }

  lemma {:induction false} ValuesConcat(a: Fields, b: Fields, name: bytes)
    ensures Values(a + b, name) == Values(a, name) + Values(b, name)
  {
    hide EqIgnoreCase;
    if a == [] {
      assert a + b == b;
    } else {
      assert (a + b)[1..] == a[1..] + b;
      ValuesConcat(a[1..], b, name);
    }
  }

  lemma TakeOutOne<T>(b: seq<T>, i: nat)
    requires i < |b|
    ensures multiset(b) == multiset(b[..i] + b[i + 1..]) + multiset{b[i]}
  {
    assert b == b[..i] + [b[i]] + b[i + 1..];
  }

  lemma Cancel<T>(m: multiset<T>, n: multiset<T>, x: T)
    requires m + multiset{x} == n + multiset{x}
    ensures m == n
  {
    assert m == (m + multiset{x}) - multiset{x};
    assert n == (n + multiset{x}) - multiset{x};
  }

  lemma RestPermuted(a: Fields, b: Fields, i: nat)
    requires a != [] && i < |b| && b[i] == a[0] && multiset(a) == multiset(b)
    ensures multiset(a[1..]) == multiset(b[..i] + b[i + 1..])
  {
    TakeOutOne(a, 0);
    TakeOutOne(b, i);
    assert a[..0] + a[1..] == a[1..];
    Cancel(multiset(a[1..]), multiset(b[..i] + b[i + 1..]), a[0]);
  }

  /** Moving fields about changes nothing that is read of one that is not repeated. */
  lemma {:induction false} ValuesPermuted(a: Fields, b: Fields, name: bytes)
    requires multiset(a) == multiset(b)
    ensures multiset(Values(a, name)) == multiset(Values(b, name))
    decreases |a|
  {
    hide Values;
    if a == [] {
      assert |b| == |multiset(b)| == 0;
    } else {
      assert a[0] in multiset(b);
      var i: nat :| i < |b| && b[i] == a[0];
      RestPermuted(a, b, i);
      ValuesPermuted(a[1..], b[..i] + b[i + 1..], name);
      ValuesWithout(a, 0, name);
      ValuesWithout(b, i, name);
      assert a[..0] + a[1..] == a[1..];
    }
  }

  lemma ValuesWithout(fields: Fields, i: nat, name: bytes)
    requires i < |fields|
    ensures multiset(Values(fields, name)) ==
            multiset(Values([fields[i]], name)) + multiset(Values(fields[..i] + fields[i + 1..], name))
  {
    hide Values;
    var a, b, c := fields[..i], [fields[i]], fields[i + 1..];
    assert fields == a + (b + c);
    ValuesConcat(a, b + c, name);
    ValuesConcat(b, c, name);
    ValuesConcat(a, c, name);
  }

  lemma ValueOfPermuted(a: Fields, b: Fields, name: bytes)
    requires multiset(a) == multiset(b)
    ensures ValueOf(a, name) == ValueOf(b, name) && (Values(a, name) == [] <==> Values(b, name) == [])
  {
    hide Values;
    ValuesPermuted(a, b, name);
    var x, y := Values(a, name), Values(b, name);
    assert |x| == |multiset(x)| == |multiset(y)| == |y|;
    if |x| == 1 {
      assert x == [x[0]] && y == [y[0]] && x[0] in multiset(y);
    }
  }

  /** The order of header fields does not affect an identity. */
  lemma IdentityIgnoresOrder(f: Foreign, a: Raw.Record, b: Raw.Record)
    requires a.header.version == b.header.version && a.body == b.body
    requires multiset(a.header.fields) == multiset(b.header.fields)
    ensures IdentityOf(f, a) == IdentityOf(f, b)
  {
    hide IdentityOf, Values, ValueOf, Ascii;
    var x, y := a.header.fields, b.header.fields;
    ValueOfPermuted(x, y, WARC_TYPE);
    ValueOfPermuted(x, y, WARC_DATE);
    ValueOfPermuted(x, y, TARGET_URI);
    ValueOfPermuted(x, y, REFERS_TO_DATE);
    ValueOfPermuted(x, y, REFERS_TO_TARGET_URI);
    ValueOfPermuted(x, y, SEGMENT_NUMBER);
    ValueOfPermuted(x, y, WARC_SEGMENT_ORIGIN_ID);
    ValueOfPermuted(x, y, SEGMENT_TOTAL_LENGTH);
    SameCaptureSameIdentity(f, a, b);
  }

  // ---------------------------------------------------------------------------------------------
  // Identities outlive a merge
  // ---------------------------------------------------------------------------------------------

  lemma {:induction false} ValuesRedirected(fields: Fields, redirects: map<bytes, bytes>, name: bytes)
    ensures |Values(RedirectedAll(fields, redirects), name)| == |Values(fields, name)|
    ensures !IsReference(name) ==> Values(RedirectedAll(fields, redirects), name) == Values(fields, name)
  {
    hide EqIgnoreCase, IsReference, NormalizeId;
    if fields != [] {
      assert RedirectedAll(fields, redirects)[1..] == RedirectedAll(fields[1..], redirects);
      ValuesRedirected(fields[1..], redirects, name);
      if EqIgnoreCase(fields[0].name, name) {
        SameReference(fields[0].name, name);
      }
    }
  }

  lemma ValuesInserted(fields: Fields, value: bytes, name: bytes)
    requires !EqIgnoreCase(WARC_WARCINFO_ID, name)
    ensures Values(Inserted(fields, WARCINFO_ID_RANK, value), name) == Values(fields, name)
  {
    hide EqIgnoreCase, InsertPosition, IsReference, Ascii;
    MergeMeaning.NamesApart();
    var p := InsertPosition(fields, WARCINFO_ID_RANK, 0);
    var field := [Raw.Field(WARC_WARCINFO_ID, value)];
    assert fields == fields[..p] + fields[p..];
    ValuesConcat(fields[..p], fields[p..], name);
    ValuesConcat(fields[..p], field, name);
    ValuesConcat(fields[..p] + field, fields[p..], name);
    assert Values(field, name) == [];
  }

  /** The fields an identity is read from are neither references nor inserted. */
  lemma IdentityNames()
    ensures !IsReference(WARC_TYPE) && !IsReference(WARC_DATE) && !IsReference(TARGET_URI)
    ensures !IsReference(REFERS_TO_DATE) && !IsReference(REFERS_TO_TARGET_URI)
    ensures !EqIgnoreCase(WARC_WARCINFO_ID, WARC_TYPE) && !EqIgnoreCase(WARC_WARCINFO_ID, WARC_DATE)
    ensures !EqIgnoreCase(WARC_WARCINFO_ID, TARGET_URI) && !EqIgnoreCase(WARC_WARCINFO_ID, REFERS_TO_DATE)
    ensures !EqIgnoreCase(WARC_WARCINFO_ID, REFERS_TO_TARGET_URI) && !EqIgnoreCase(WARC_WARCINFO_ID, SEGMENT_NUMBER)
    ensures !EqIgnoreCase(WARC_WARCINFO_ID, WARC_SEGMENT_ORIGIN_ID) && !EqIgnoreCase(WARC_WARCINFO_ID, SEGMENT_TOTAL_LENGTH)
  {
  }

  lemma SegmentsRedirected(fields: Fields, redirects: map<bytes, bytes>)
    ensures SegmentField(RedirectedAll(fields, redirects)) == SegmentField(fields)
  {
    hide Values, RedirectedAll, Ascii;
    ValuesRedirected(fields, redirects, SEGMENT_NUMBER);
    ValuesRedirected(fields, redirects, WARC_SEGMENT_ORIGIN_ID);
    ValuesRedirected(fields, redirects, SEGMENT_TOTAL_LENGTH);
  }

  lemma RedirectedSameCapture(fields: Fields, redirects: map<bytes, bytes>)
    ensures SameCapture(RedirectedAll(fields, redirects), fields)
  {
    hide Values, RedirectedAll, Ascii, IsReference, EqIgnoreCase, SegmentField;
    IdentityNames();
    SegmentsRedirected(fields, redirects);
    ValuesRedirected(fields, redirects, WARC_TYPE);
    ValuesRedirected(fields, redirects, WARC_DATE);
    ValuesRedirected(fields, redirects, TARGET_URI);
    ValuesRedirected(fields, redirects, REFERS_TO_DATE);
    ValuesRedirected(fields, redirects, REFERS_TO_TARGET_URI);
  }

  lemma InsertedSameCapture(fields: Fields, value: bytes)
    ensures SameCapture(Inserted(fields, WARCINFO_ID_RANK, value), fields)
  {
    hide Values, Inserted, Ascii, IsReference, EqIgnoreCase;
    IdentityNames();
    ValuesInserted(fields, value, WARC_TYPE);
    ValuesInserted(fields, value, WARC_DATE);
    ValuesInserted(fields, value, TARGET_URI);
    ValuesInserted(fields, value, REFERS_TO_DATE);
    ValuesInserted(fields, value, REFERS_TO_TARGET_URI);
    ValuesInserted(fields, value, SEGMENT_NUMBER);
    ValuesInserted(fields, value, WARC_SEGMENT_ORIGIN_ID);
    ValuesInserted(fields, value, SEGMENT_TOTAL_LENGTH);
  }

  /**
   * A record keeps its identity when it is merged: under whichever warcinfo record it is placed, and
   * however the records it refers to are renamed.
   */
  lemma MergeKeepsIdentity(f: Foreign, plan: Plan, s: State, record: Raw.Record)
    requires Associated(plan, s, record).Success?
    ensures IdentityOf(f, Associated(plan, s, record).value) == IdentityOf(f, record)
  {
    hide IdentityOf, RedirectedAll, Inserted, SameCapture, Get, Ascii;
    var written := Associated(plan, s, record).value;
    var fields := record.header.fields;
    RedirectedSameCapture(fields, plan.redirects);
    if s.input.Some? && s.input.value.id.Some? {
      var value := [SP] + s.input.value.id.value;
      InsertedSameCapture(fields, value);
      RedirectedSameCapture(Inserted(fields, WARCINFO_ID_RANK, value), plan.redirects);
      SameCaptureTransitive(written.header.fields, Inserted(fields, WARCINFO_ID_RANK, value), fields);
    }
    SameCaptureSameIdentity(f, written, record);
  }

  lemma SameCaptureTransitive(a: Fields, b: Fields, c: Fields)
    ensures SameCapture(a, b) && SameCapture(b, c) ==> SameCapture(a, c)
  {
    hide ValueOf, SegmentField;
  }
}
