/** Raw records: the header block parser, its validation and its printer (`src/parse/raw.rs`). */
module Raw {
  import opened Bytes
  import opened Parsing

  datatype Version = V1_0 | V1_1

  datatype Field = Field(name: bytes, value: bytes)

  datatype Header = Header(version: Version, fields: seq<Field>)

  datatype Record = Record(header: Header, body: bytes)

  /** The framing faults, without the text their messages carry. */
  datatype Error =
    | MalformedVersion
    | MalformedVersionLine
    | MalformedFieldLine
    | UnexpectedEndOfHeaderBlock
    | MissingContentLength
    | RepeatedContentLength
    | MalformedContentLength
    | ContentLengthMismatch(declared: nat, actual: nat)

  /** `WARC/` */
  const WARC: bytes := [87, 65, 82, 67, 47]
  /** `content-length` */
  const CONTENT_LENGTH: bytes := [99, 111, 110, 116, 101, 110, 116, 45, 108, 101, 110, 103, 116, 104]
  const TERMINATOR: bytes := [13, 10, 13, 10]

  function VersionText(v: Version): (s: bytes)
    ensures |s| == 3
  {
    match v
    case V1_0 => [49, 46, 48]
    case V1_1 => [49, 46, 49]
  }

  /** Whether the octets from `i` on are UTF-8, by table 3-7 of the Unicode Standard. */
  predicate IsUtf8From(s: bytes, i: nat)
    requires i <= |s|
    decreases |s| - i
  {
    || i == |s|
    || (s[i] < 128 && IsUtf8From(s, i + 1))
    || (i + 2 <= |s| && 194 <= s[i] <= 223 && Tail(s[i + 1]) && IsUtf8From(s, i + 2))
    || (i + 3 <= |s| && 224 <= s[i] <= 239 && Tail(s[i + 1]) && Tail(s[i + 2])
        && (s[i] == 224 ==> 160 <= s[i + 1]) && (s[i] == 237 ==> s[i + 1] <= 159) && IsUtf8From(s, i + 3))
    || (i + 4 <= |s| && 240 <= s[i] <= 244 && Tail(s[i + 1]) && Tail(s[i + 2]) && Tail(s[i + 3])
        && (s[i] == 240 ==> 144 <= s[i + 1]) && (s[i] == 244 ==> s[i + 1] <= 143) && IsUtf8From(s, i + 4))
  }

  predicate IsUtf8(s: bytes) {
    IsUtf8From(s, 0)
  }

  predicate Tail(b: byte) {
    128 <= b <= 191
  }

  // ---------------------------------------------------------------------------------------------
  // Printing
  // ---------------------------------------------------------------------------------------------

  function RenderField(f: Field): bytes {
    f.name + [COLON] + f.value + CRLF
  }

  function RenderFields(fields: seq<Field>): bytes {
    if fields == [] then [] else RenderFields(fields[..|fields| - 1]) + RenderField(fields[|fields| - 1])
  }

  function VersionLine(v: Version): bytes {
    WARC + VersionText(v) + CRLF
  }

  function RenderHeader(h: Header): bytes {
    VersionLine(h.version) + RenderFields(h.fields) + CRLF
  }

  function RenderRecord(r: Record): bytes {
    RenderHeader(r.header) + r.body + TERMINATOR
  }

  method RenderedLength(h: Header) returns (n: nat)
    ensures n == |RenderHeader(h)|
  {
    n := 5 + 3 + 2;
    for i := 0 to |h.fields|
      invariant n == 10 + |RenderFields(h.fields[..i])|
    {
      assert h.fields[..i + 1][..i] == h.fields[..i];
      n := n + |h.fields[i].name| + 1 + |h.fields[i].value| + 2;
    }
    assert h.fields[..|h.fields|] == h.fields;
    n := n + 2;
  }

  // ---------------------------------------------------------------------------------------------
  // Validation
  // ---------------------------------------------------------------------------------------------

  function LengthOf(value: bytes): Result<nat, Error> {
    var text := Unfolded(value);
    if !IsUtf8(text) then Failure(MalformedContentLength)
    else
      match ParseContentLength(text)
      case Some(n) => Success(n)
      case None => Failure(MalformedContentLength)
  }

  predicate IsContentLength(name: bytes) {
    EqIgnoreCase(name, CONTENT_LENGTH)
  }

  function ValidateFrom(fields: seq<Field>, i: nat, declared: Option<nat>): Result<nat, Error>
    requires i <= |fields|
    decreases |fields| - i
  {
    if i == |fields| then
      if declared.Some? then Success(declared.value) else Failure(MissingContentLength)
    else if !IsToken(fields[i].name) || !IsFolded(fields[i].value) then Failure(MalformedFieldLine)
    else if IsContentLength(fields[i].name) then
      if declared.Some? then Failure(RepeatedContentLength)
      else
        var n :- LengthOf(fields[i].value);
        ValidateFrom(fields, i + 1, Some(n))
    else ValidateFrom(fields, i + 1, declared)
  }

  function ValidateHeader(h: Header): Result<nat, Error> {
    ValidateFrom(h.fields, 0, None)
  }

  function ValidateRecord(r: Record): Result<(), Error> {
    var declared :- ValidateHeader(r.header);
    if declared != |r.body| then Failure(ContentLengthMismatch(declared, |r.body|)) else Success(())
  }

  lemma ValidateAt(fields: seq<Field>, i: nat, declared: Option<nat>)
    requires i < |fields|
    ensures var rest := ValidateFrom(fields, i, declared);
            if !IsToken(fields[i].name) || !IsFolded(fields[i].value) then rest == Failure(MalformedFieldLine)
            else if !IsContentLength(fields[i].name) then rest == ValidateFrom(fields, i + 1, declared)
            else if declared.Some? then rest == Failure(RepeatedContentLength)
            else match LengthOf(fields[i].value)
                 case Success(n) => rest == ValidateFrom(fields, i + 1, Some(n))
                 case Failure(error) => rest == Failure(error)
  {
    hide LengthOf, IsContentLength, IsToken, IsFolded;
  }

  lemma ValidateEnds(fields: seq<Field>, declared: Option<nat>)
    ensures ValidateFrom(fields, |fields|, declared) ==
            if declared.Some? then Success(declared.value) else Failure(MissingContentLength)
  {
  }

  method Validate(h: Header) returns (r: Result<nat, Error>)
    ensures r == ValidateHeader(h)
  {
    hide LengthOf, IsContentLength, IsToken, IsFolded, ValidateFrom;
    var declared: Option<nat> := None;
    for i := 0 to |h.fields|
      invariant ValidateFrom(h.fields, i, declared) == ValidateHeader(h)
    {
      ValidateAt(h.fields, i, declared);
      var field := h.fields[i];
      if !IsToken(field.name) {
        return Failure(MalformedFieldLine);
      }
      var stray := StrayLineBreak(field.value);
      if stray.Some? {
        return Failure(MalformedFieldLine);
      }
      if IsContentLength(field.name) {
        if declared.Some? {
          return Failure(RepeatedContentLength);
        }
        var length := LengthOf(field.value);
        if length.Failure? {
          return Failure(length.error);
        }
        declared := Some(length.value);
      }
    }
    ValidateEnds(h.fields, declared);
    r := if declared.Some? then Success(declared.value) else Failure(MissingContentLength);
  }

  /** What a valid header is, read off the field list at once. */
  ghost predicate Declares(h: Header, n: nat) {
    && (forall i | 0 <= i < |h.fields| :: IsToken(h.fields[i].name) && IsFolded(h.fields[i].value))
    && exists i | 0 <= i < |h.fields| :: DeclaredAt(h, i, n)
  }

  ghost predicate DeclaredAt(h: Header, i: nat, n: nat)
    requires i < |h.fields|
  {
    && IsContentLength(h.fields[i].name)
    && LengthOf(h.fields[i].value) == Success(n)
    && forall j | 0 <= j < |h.fields| && j != i :: !IsContentLength(h.fields[j].name)
  }

  // ---------------------------------------------------------------------------------------------
  // Parsing
  // ---------------------------------------------------------------------------------------------

  /** A line that ends in `CRLF`: the offsets of that end and of what comes after. */
  function RawLine(block: bytes, cursor: nat): (r: Result<(nat, nat), Error>)
    ensures r.Success? ==> cursor <= r.value.0 && r.value.1 == r.value.0 + 2 <= |block|
  {
    match NextLine(block, cursor)
    case None => Failure(UnexpectedEndOfHeaderBlock)
    case Some(line) => if line.crlf then Success((line.end, line.next)) else Failure(MalformedFieldLine)
  }

  function ParseVersionLine(line: bytes): Result<Version, Error> {
    if !(WARC <= line) || !IsUtf8(line[|WARC|..]) then Failure(MalformedVersionLine)
    else if line[|WARC|..] == VersionText(V1_0) then Success(V1_0)
    else if line[|WARC|..] == VersionText(V1_1) then Success(V1_1)
    else Failure(MalformedVersion)
  }

  /** Walk over the continuation lines at `cursor` of a value whose last line so far ends at `end`. */
  function ValueEnd(block: bytes, end: nat, cursor: nat): (r: Result<(nat, nat), Error>)
    requires cursor == end + 2 <= |block|
    ensures r.Success? ==> end <= r.value.0 && r.value.1 == r.value.0 + 2 <= |block|
    decreases |block| - cursor
  {
    if cursor < |block| && IsLws(block[cursor]) then
      var line :- RawLine(block, cursor);
      ValueEnd(block, line.0, line.1)
    else Success((end, cursor))
  }

  /** The field opened by the line from `start` to `end`, and the offset past its last line. */
  function FieldAt(block: bytes, start: nat, end: nat): (r: Result<(Field, nat), Error>)
    requires start < end && end + 2 <= |block|
    ensures r.Success? ==> start < r.value.1 <= |block|
  {
    match FieldLineOf(block[start..end])
    case None => Failure(MalformedFieldLine)
    case Some((name, colon)) =>
      if colon != name then Failure(MalformedFieldLine)
      else
        var bounds :- ValueEnd(block, end, end + 2);
        var value := block[start + colon + 1..bounds.0];
        if !IsFolded(value) then Failure(MalformedFieldLine)
        else Success((Field(block[start..start + name], value), bounds.1))
  }

  /** The declared length once `field` is read, given the one declared before it. */
  function LengthAfter(field: Field, length: Option<nat>): Result<Option<nat>, Error> {
    if !IsContentLength(field.name) then Success(length)
    else if length.Some? then Failure(RepeatedContentLength)
    else
      var n :- LengthOf(field.value);
      Success(Some(n))
  }

  function ParseFields(block: bytes, cursor: nat, fields: seq<Field>, length: Option<nat>)
    : (r: Result<(seq<Field>, nat), Error>)
    decreases |block| - cursor
  {
    var line :- RawLine(block, cursor);
    if line.0 == cursor then
      if line.1 != |block| then Failure(MalformedFieldLine)
      else if length.None? then Failure(MissingContentLength)
      else Success((fields, length.value))
    else
      var field :- FieldAt(block, cursor, line.0);
      var length' :- LengthAfter(field.0, length);
      ParseFields(block, field.1, fields + [field.0], length')
  }

  function ParseHeader(block: bytes): Result<(Header, nat), Error> {
    var line :- RawLine(block, 0);
    var version :- ParseVersionLine(block[..line.0]);
    var parsed :- ParseFields(block, line.1, [], None);
    Success((Header(version, parsed.0), parsed.1))
  }

  /** The part of the cursor loop of `RecordHeader::parse` that walks over one field's lines. */
  method ParseField(block: bytes, start: nat, end: nat) returns (r: Result<(Field, nat), Error>)
    requires start < end && end + 2 <= |block|
    ensures r == FieldAt(block, start, end)
  {
    hide FieldLineOf, RawLine, IsLws;
    var split := SplitFieldLine(block[start..end]);
    if split.None? || split.value.1 != split.value.0 {
      return Failure(MalformedFieldLine);
    }
    var valueStart: nat, valueEnd: nat, cursor: nat := start + split.value.1 + 1, end, end + 2;
    while cursor < |block| && IsLws(block[cursor])
      invariant end <= valueEnd && cursor == valueEnd + 2 <= |block|
      invariant ValueEnd(block, valueEnd, cursor) == ValueEnd(block, end, end + 2)
      decreases |block| - cursor
    {
      var line := RawLine(block, cursor);
      if line.Failure? {
        return Failure(line.error);
      }
      valueEnd, cursor := line.value.0, line.value.1;
    }
    var value := block[valueStart..valueEnd];
    var stray := StrayLineBreak(value);
    if stray.Some? {
      return Failure(MalformedFieldLine);
    }
    r := Success((Field(block[start..start + split.value.0], value), cursor));
  }

  /** The cursor loop of `RecordHeader::parse`. */
  method Parse(block: bytes) returns (r: Result<(Header, nat), Error>)
    ensures r == ParseHeader(block)
  {
    var line := RawLine(block, 0);
    if line.Failure? {
      return Failure(line.error);
    }
    var version := ParseVersionLine(block[..line.value.0]);
    if version.Failure? {
      return Failure(version.error);
    }

    var cursor := line.value.1;
    var fields: seq<Field> := [];
    var length: Option<nat> := None;
    ghost var whole := ParseFields(block, cursor, [], None);
    while true
      invariant cursor <= |block|
      invariant ParseFields(block, cursor, fields, length) == whole
      decreases |block| - cursor
    {
      line := RawLine(block, cursor);
      if line.Failure? {
        return Failure(line.error);
      }
      var start, end := cursor, line.value.0;
      cursor := line.value.1;
      if start == end {
        if cursor != |block| {
          return Failure(MalformedFieldLine);
        }
        break;
      }

      var read := ParseField(block, start, end);
      if read.Failure? {
        return Failure(read.error);
      }
      var field := read.value.0;
      cursor := read.value.1;
      if IsContentLength(field.name) {
        if length.Some? {
          return Failure(RepeatedContentLength);
        }
        var n := LengthOf(field.value);
        if n.Failure? {
          return Failure(n.error);
        }
        length := Some(n.value);
      }
      fields := fields + [field];
    }
    r := if length.None? then Failure(MissingContentLength) else Success((Header(version.value, fields), length.value));
  }
}
