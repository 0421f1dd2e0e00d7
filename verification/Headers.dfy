/** Header fields the record operations read and rewrite (`crates/archivindex-warc-ops/src/header.rs`). */
module Headers {
  import opened Bytes
  import Raw

  type Fields = seq<Raw.Field>

  /** The octets of an ASCII string. */
  function Ascii(s: string): (r: bytes)
    ensures |r| == |s|
  {
    seq(|s|, i requires 0 <= i < |s| => if s[i] < 128 as char then s[i] as int as byte else 63)
  }

  const WARC_TYPE := Ascii("WARC-Type")
  const WARC_DATE := Ascii("WARC-Date")
  const WARC_RECORD_ID := Ascii("WARC-Record-ID")
  const WARC_WARCINFO_ID := Ascii("WARC-Warcinfo-ID")
  const WARC_FILENAME := Ascii("WARC-Filename")
  const WARC_REFERS_TO := Ascii("WARC-Refers-To")
  const WARC_CONCURRENT_TO := Ascii("WARC-Concurrent-To")
  const WARC_SEGMENT_ORIGIN_ID := Ascii("WARC-Segment-Origin-ID")

  /** The standard names in the order they are rendered in. */
  const STANDARD_NAMES: seq<bytes> := [
    Ascii("WARC-Type"), Ascii("WARC-Target-URI"), Ascii("WARC-Date"), Ascii("WARC-Record-ID"),
    Ascii("WARC-Warcinfo-ID"), Ascii("WARC-Filename"), Ascii("WARC-Concurrent-To"), Ascii("WARC-IP-Address"),
    Ascii("WARC-Protocol"), Ascii("WARC-Profile"), Ascii("WARC-Refers-To"), Ascii("WARC-Refers-To-Target-URI"),
    Ascii("WARC-Refers-To-Date"), Ascii("WARC-Segment-Origin-ID"), Ascii("WARC-Segment-Number"),
    Ascii("WARC-Segment-Total-Length"), Ascii("WARC-Truncated"), Ascii("WARC-Identified-Payload-Type"),
    Ascii("WARC-Payload-Digest"), Ascii("WARC-Block-Digest"), Ascii("Content-Type"), Ascii("Content-Length")]

  /** Where `WARC-Warcinfo-ID` stands among them. */
  const WARCINFO_ID_RANK: nat := 4

  // ---------------------------------------------------------------------------------------------
  // Reading
  // ---------------------------------------------------------------------------------------------

  /** The value of the first field of a name, compared without regard to case. */
  function Get(fields: Fields, name: bytes): Option<bytes> {
    if fields == [] then None
    else if EqIgnoreCase(fields[0].name, name) then Some(fields[0].value)
    else Get(fields[1..], name)
  }

  predicate IsAsciiSpace(b: byte) {
    b == 32 || b == 9 || b == 10 || b == 12 || b == 13
  }

  function TrimAsciiStart(v: bytes): (t: bytes)
    ensures |t| <= |v| && t == v[|v| - |t|..]
    ensures t == [] || !IsAsciiSpace(t[0])
    ensures forall i | 0 <= i < |v| - |t| :: IsAsciiSpace(v[i])
  {
    if v == [] || !IsAsciiSpace(v[0]) then v else TrimAsciiStart(v[1..])
  }

  function TrimAsciiEnd(v: bytes): (t: bytes)
    ensures |t| <= |v| && t == v[..|t|]
    ensures t == [] || !IsAsciiSpace(t[|t| - 1])
  {
    if v == [] || !IsAsciiSpace(v[|v| - 1]) then v else TrimAsciiEnd(v[..|v| - 1])
  }

  function TrimAscii(v: bytes): (t: bytes)
    ensures t == [] || (!IsAsciiSpace(t[0]) && !IsAsciiSpace(t[|t| - 1]))
  {
    TrimAsciiEnd(TrimAsciiStart(v))
  }

  predicate IsWarcinfo(header: Raw.Header) {
    match Get(header.fields, WARC_TYPE)
    case Some(value) => EqIgnoreCase(TrimAscii(value), Ascii("warcinfo"))
    case None => false
  }

  /** What two spellings of one identifier have in common: neither brackets nor space at the ends. */
  function NormalizeId(value: bytes): bytes {
    var t := TrimAscii(value);
    if |t| >= 2 && t[0] == LESS && t[|t| - 1] == GREATER then t[1..|t| - 1] else t
  }

  /** The trimmed `WARC-Record-ID` of a record, when there is one. */
  function RecordId(record: Raw.Record): Option<bytes>
  {
    match Get(record.header.fields, WARC_RECORD_ID)
    case Some(value) => NonEmpty(TrimAscii(value))
    case None => None
  }

  function NonEmpty(id: bytes): Option<bytes> {
    if id == [] then None else Some(id)
  }

  /** An identifier written as a field value is the same identifier. */
  lemma SpacedIdIsSame(id: bytes)
    ensures NormalizeId([SP] + id) == NormalizeId(id)
  {
    hide TrimAsciiStart, TrimAsciiEnd;
    SpaceIsTrimmed(id);
  }

  lemma SpaceIsTrimmed(id: bytes)
    ensures TrimAsciiStart([SP] + id) == TrimAsciiStart(id)
  {
    var v := [SP] + id;
    assert v[0] == SP;
    assert v[1..] == id;
  }

  // ---------------------------------------------------------------------------------------------
  // Rewriting
  // ---------------------------------------------------------------------------------------------

  predicate IsReference(name: bytes) {
    || EqIgnoreCase(name, WARC_WARCINFO_ID) || EqIgnoreCase(name, WARC_REFERS_TO)
    || EqIgnoreCase(name, WARC_CONCURRENT_TO) || EqIgnoreCase(name, WARC_SEGMENT_ORIGIN_ID)
  }

  /** A field, referring to the record its reference is redirected to. */
  function Redirected(field: Raw.Field, redirects: map<bytes, bytes>): Raw.Field {
    if IsReference(field.name) && NormalizeId(field.value) in redirects
    then Raw.Field(field.name, redirects[NormalizeId(field.value)])
    else field
  }

  function RedirectedAll(fields: Fields, redirects: map<bytes, bytes>): (r: Fields)
    ensures |r| == |fields|
    ensures forall i | 0 <= i < |fields| :: r[i] == Redirected(fields[i], redirects)
  {
    seq(|fields|, i requires 0 <= i < |fields| => Redirected(fields[i], redirects))
  }

  method RedirectReferences(fields: Fields, redirects: map<bytes, bytes>) returns (r: Fields)
    ensures r == RedirectedAll(fields, redirects)
  {
    hide NormalizeId, IsReference;
    r := fields;
    if |redirects| == 0 {
      assert redirects == map[];
      return;
    }
    for i := 0 to |fields|
      invariant |r| == |fields|
      invariant forall j | 0 <= j < i :: r[j] == Redirected(fields[j], redirects)
      invariant forall j | i <= j < |fields| :: r[j] == fields[j]
    {
      if IsReference(r[i].name) {
        var id := NormalizeId(r[i].value);
        if id in redirects {
          r := r[i := Raw.Field(r[i].name, redirects[id])];
        }
      }
    }
  }

  /** Every `WARC-Filename` renamed, or dropped when the file cannot be named. */
  function Renamed(fields: Fields, filename: Option<bytes>): Fields {
    if fields == [] then []
    else
      var last := fields[|fields| - 1];
      Renamed(fields[..|fields| - 1], filename) +
      if !EqIgnoreCase(last.name, WARC_FILENAME) then [last]
      else if filename.None? then []
      else [Raw.Field(last.name, filename.value)]
  }

  method SetFilename(fields: Fields, filename: Option<bytes>) returns (r: Fields)
    ensures r == Renamed(fields, filename)
  {
    hide EqIgnoreCase;
    r := [];
    for i := 0 to |fields|
      invariant r == Renamed(fields[..i], filename)
    {
      assert fields[..i + 1][..i] == fields[..i];
      if !EqIgnoreCase(fields[i].name, WARC_FILENAME) {
        r := r + [fields[i]];
      } else if filename.Some? {
        r := r + [Raw.Field(fields[i].name, filename.value)];
      }
    }
    assert fields[..|fields|] == fields;
  }

  /** The standard field a name spells, by its rank. */
  function RankFrom(name: bytes, k: nat): Option<nat>
    requires k <= |STANDARD_NAMES|
    decreases |STANDARD_NAMES| - k
  {
    if k == |STANDARD_NAMES| then None
    else if EqIgnoreCase(name, STANDARD_NAMES[k]) then Some(k)
    else RankFrom(name, k + 1)
  }

  function RankOf(name: bytes): Option<nat> {
    RankFrom(name, 0)
  }

  /** Where a field of a rank goes: before the first extension field or field of a greater rank. */
  function InsertPosition(fields: Fields, rank: nat, i: nat): (p: nat)
    requires i <= |fields|
    ensures i <= p <= |fields|
    ensures forall j | i <= j < p :: RankOf(fields[j].name).Some? && RankOf(fields[j].name).value <= rank
    ensures p < |fields| ==> RankOf(fields[p].name).None? || RankOf(fields[p].name).value > rank
    decreases |fields| - i
  {
    if i == |fields| || RankOf(fields[i].name).None? || RankOf(fields[i].name).value > rank then i
    else InsertPosition(fields, rank, i + 1)
  }

  function Inserted(fields: Fields, rank: nat, value: bytes): Fields
    requires rank < |STANDARD_NAMES|
  {
    var p := InsertPosition(fields, rank, 0);
    fields[..p] + [Raw.Field(STANDARD_NAMES[rank], value)] + fields[p..]
  }

  // ---------------------------------------------------------------------------------------------
  // What rewriting leaves as it was
  // ---------------------------------------------------------------------------------------------

  /** Names that cannot both match one name. */
  lemma CaseIsTransitive(a: bytes, b: bytes, c: bytes)
    requires EqIgnoreCase(a, b) && EqIgnoreCase(a, c)
    ensures EqIgnoreCase(b, c)
  {
  }

  /** A name found in two parts of a header is found in the first that has it. */
  lemma {:induction false} GetConcat(a: Fields, b: Fields, name: bytes)
    ensures Get(a + b, name) == if Get(a, name).Some? then Get(a, name) else Get(b, name)
  {
    hide EqIgnoreCase;
    if a == [] {
      assert a + b == b;
    } else {
      assert (a + b)[1..] == a[1..] + b;
      GetConcat(a[1..], b, name);
    }
  }

  /** Redirecting leaves a name's first value the first, redirected. */
  lemma {:induction false} GetRedirected(fields: Fields, redirects: map<bytes, bytes>, name: bytes)
    ensures Get(RedirectedAll(fields, redirects), name) ==
            match Get(fields, name)
            case Some(value) =>
              if IsReference(name) && NormalizeId(value) in redirects
              then Some(redirects[NormalizeId(value)]) else Some(value)
            case None => None
  {
    hide NormalizeId, IsReference, EqIgnoreCase;
    if fields != [] {
      assert RedirectedAll(fields, redirects)[1..] == RedirectedAll(fields[1..], redirects);
      GetRedirected(fields[1..], redirects, name);
      if EqIgnoreCase(fields[0].name, name) {
        SameReference(fields[0].name, name);
      }
    }
  }

  lemma SameReference(a: bytes, b: bytes)
    requires EqIgnoreCase(a, b)
    ensures IsReference(a) == IsReference(b)
  {
  }

  /** Renaming the file leaves every other field's value. */
  lemma {:induction false} GetRenamed(fields: Fields, filename: Option<bytes>, name: bytes)
    requires !EqIgnoreCase(name, WARC_FILENAME)
    ensures Get(Renamed(fields, filename), name) == Get(fields, name)
    decreases |fields|
  {
    hide EqIgnoreCase;
    if fields != [] {
      var init, last := fields[..|fields| - 1], fields[|fields| - 1];
      assert fields == init + [last];
      GetRenamed(init, filename, name);
      GetConcat(init, [last], name);
      GetConcat(Renamed(init, filename), [last], name);
      if EqIgnoreCase(last.name, name) && EqIgnoreCase(last.name, WARC_FILENAME) {
        CaseIsTransitive(last.name, name, WARC_FILENAME);
      }
      if filename.Some? {
        GetConcat(Renamed(init, filename), [Raw.Field(last.name, filename.value)], name);
      }
      assert Renamed(init, filename) + [] == Renamed(init, filename);
    }
  }

  /** Inserting a field that was absent makes its value the one found, and changes no other's. */
  lemma GetInserted(fields: Fields, rank: nat, value: bytes, name: bytes)
    requires rank < |STANDARD_NAMES|
    ensures EqIgnoreCase(STANDARD_NAMES[rank], name) && Get(fields, name).None? ==>
              Get(Inserted(fields, rank, value), name) == Some(value)
    ensures !EqIgnoreCase(STANDARD_NAMES[rank], name) ==> Get(Inserted(fields, rank, value), name) == Get(fields, name)
  {
    hide EqIgnoreCase, InsertPosition;
    var p := InsertPosition(fields, rank, 0);
    var field := [Raw.Field(STANDARD_NAMES[rank], value)];
    assert fields == fields[..p] + fields[p..];
    GetConcat(fields[..p], fields[p..], name);
    GetConcat(fields[..p] + field, fields[p..], name);
    GetConcat(fields[..p], field, name);
  }
}
