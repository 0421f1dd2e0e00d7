/** The `media-type` value: its parser, its printer and its constants (`src/value/media_type.rs`; `unquote` of `src/parsing.rs`). */
module MediaType {
  import opened Bytes
  import opened Headers
  import Raw

  datatype ParameterValue = Token(text: bytes) | Quoted(text: bytes)

  datatype Parameter = Parameter(separator: bytes, name: bytes, value: ParameterValue)

  datatype MediaType = MediaType(typeName: bytes, subtype: bytes, parameters: seq<Parameter>, trailing: bytes)

  /** The rule a quoted string broke, at an offset from its opening quote. */
  datatype QuotedStringError = Unterminated | DanglingEscape(index: nat) | UnescapedQuote(index: nat) | ControlCharacter(index: nat)

  datatype Error =
    | NoSubtype
    | MalformedEssence
    | MalformedParameter(parameter: bytes)
    | MalformedQuotedValue(parameter: bytes, source: QuotedStringError)
    | NonUtf8ParameterValue(parameter: bytes)

  // ---------------------------------------------------------------------------------------------
  // Quoted strings
  // ---------------------------------------------------------------------------------------------

  /** Resolve the escapes of what stands between the quotes, from `i` on. */
  function UnquoteFrom(inner: bytes, i: nat, done: bytes): Result<bytes, QuotedStringError>
    decreases |inner| - i
  {
    if i >= |inner| then Success(done)
    else if inner[i] == BACKSLASH then
      if i + 1 >= |inner| then Failure(DanglingEscape(i + 1))
      else if !IsTextChar(inner[i + 1]) then Failure(ControlCharacter(i + 2))
      else UnquoteFrom(inner, i + 2, done + [inner[i + 1]])
    else if inner[i] == QUOTE then Failure(UnescapedQuote(i + 1))
    else if !IsTextChar(inner[i]) then Failure(ControlCharacter(i + 1))
    else UnquoteFrom(inner, i + 1, done + [inner[i]])
  }

  function Unquoted(value: bytes): Result<bytes, QuotedStringError> {
    if |value| < 2 || value[0] != QUOTE || value[|value| - 1] != QUOTE then Failure(Unterminated)
    else UnquoteFrom(value[1..|value| - 1], 0, [])
  }

  method Unquote(value: bytes) returns (r: Result<bytes, QuotedStringError>)
    ensures r == Unquoted(value)
  {
    if |value| < 2 || value[0] != QUOTE || value[|value| - 1] != QUOTE {
      return Failure(Unterminated);
    }
    var inner := value[1..|value| - 1];
    var unquoted: bytes := [];
    var index: nat := 0;
    while index < |inner|
      invariant UnquoteFrom(inner, index, unquoted) == UnquoteFrom(inner, 0, [])
      decreases |inner| - index
    {
      if inner[index] == BACKSLASH {
        if index + 1 >= |inner| {
          return Failure(DanglingEscape(index + 1));
        }
        if !IsTextChar(inner[index + 1]) {
          return Failure(ControlCharacter(index + 2));
        }
        unquoted := unquoted + [inner[index + 1]];
        index := index + 2;
      } else if inner[index] == QUOTE {
        return Failure(UnescapedQuote(index + 1));
      } else if !IsTextChar(inner[index]) {
        return Failure(ControlCharacter(index + 1));
      } else {
        unquoted := unquoted + [inner[index]];
        index := index + 1;
      }
    }
    r := Success(unquoted);
  }

  /** What is written between the quotes: quotes and backslashes are escaped. */
  function Escaped(text: bytes): bytes {
    if text == [] then []
    else (if text[0] == QUOTE || text[0] == BACKSLASH then [BACKSLASH, text[0]] else [text[0]]) + Escaped(text[1..])
  }

  // ---------------------------------------------------------------------------------------------
  // Printing
  // ---------------------------------------------------------------------------------------------

  function PrintValue(value: ParameterValue): bytes {
    match value
    case Token(text) => text
    case Quoted(text) => [QUOTE] + Escaped(text) + [QUOTE]
  }

  /** One parameter, without the separator that introduces it. */
  function PrintContent(p: Parameter): bytes {
    p.name + [EQUALS] + PrintValue(p.value)
  }

  /** The parameters, each after its separator, and what closes the value. */
  function PrintRest(parameters: seq<Parameter>, trailing: bytes): bytes {
    if parameters == [] then trailing
    else parameters[0].separator + (PrintContent(parameters[0]) + PrintRest(parameters[1..], trailing))
  }

  function Print(m: MediaType): bytes {
    m.typeName + [SLASH] + m.subtype + PrintRest(m.parameters, m.trailing)
  }

  // ---------------------------------------------------------------------------------------------
  // Parsing
  // ---------------------------------------------------------------------------------------------

  function LeadingOws(s: bytes): (n: nat)
    ensures n <= |s| && (forall i | 0 <= i < n :: IsLws(s[i])) && (n < |s| ==> !IsLws(s[n]))
  {
    if s == [] || !IsLws(s[0]) then 0 else 1 + LeadingOws(s[1..])
  }

  function TrailingOws(s: bytes): (n: nat)
    ensures n <= |s| && (forall i | |s| - n <= i < |s| :: IsLws(s[i])) && (n < |s| ==> !IsLws(s[|s| - n - 1]))
  {
    if s == [] || !IsLws(s[|s| - 1]) then 0 else 1 + TrailingOws(s[..|s| - 1])
  }

  function TrimEnd(s: bytes): bytes {
    s[..|s| - TrailingOws(s)]
  }

  function Trim(s: bytes): bytes {
    TrimEnd(s[LeadingOws(s)..])
  }

  /** Where the parameter ends that is read from `i` on: at a `;` outside a quoted string. */
  function ParameterEnd(input: bytes, i: nat, quoted: bool): (end: nat)
    requires i <= |input|
    ensures i <= end <= |input|
    ensures end < |input| ==> input[end] == SEMICOLON
    decreases |input| - i
  {
    if i == |input| then i
    else if input[i] == QUOTE then ParameterEnd(input, i + 1, !quoted)
    else if input[i] == BACKSLASH && quoted then
      if i + 2 <= |input| then ParameterEnd(input, i + 2, quoted) else |input|
    else if input[i] == SEMICOLON && !quoted then i
    else ParameterEnd(input, i + 1, quoted)
  }

  method SplitParameter(input: bytes) returns (end: nat)
    ensures end == ParameterEnd(input, 0, false)
  {
    var index: nat, quoted := 0, false;
    while index < |input|
      invariant index <= |input| + 1
      invariant index <= |input| ==> ParameterEnd(input, index, quoted) == ParameterEnd(input, 0, false)
      invariant index > |input| ==> ParameterEnd(input, 0, false) == |input|
      decreases |input| + 1 - index
    {
      if input[index] == QUOTE {
        quoted := !quoted;
        index := index + 1;
      } else if input[index] == BACKSLASH && quoted {
        index := index + 2;
      } else if input[index] == SEMICOLON && !quoted {
        return index;
      } else {
        index := index + 1;
      }
    }
    return |input|;
  }

  function ParseParameter(content: bytes): Result<(bytes, ParameterValue), Error> {
    var equals := Find(content, EQUALS, 0);
    if equals == |content| || !IsToken(content[..equals]) then Failure(MalformedParameter(content))
    else
      var value := content[equals + 1..];
      if value != [] && value[0] == QUOTE then
        match Unquoted(value)
        case Failure(source) => Failure(MalformedQuotedValue(content, source))
        case Success(text) =>
          if !Raw.IsUtf8(text) then Failure(NonUtf8ParameterValue(content))
          else Success((content[..equals], Quoted(text)))
      else if IsToken(value) then Success((content[..equals], Token(value)))
      else Failure(MalformedParameter(content))
  }

  function ContentStart(value: bytes, index: nat): (n: nat)
    requires index < |value|
    ensures index < n <= |value|
  {
    index + 1 + LeadingOws(value[index + 1..])
  }

  /** The parameters from the `;` at `index` on, whose separator begins at `from`. */
  function ParseRest(value: bytes, from: nat, index: nat, parameters: seq<Parameter>): Result<(seq<Parameter>, bytes), Error>
    requires from <= index <= |value|
    decreases |value| - index
  {
    if index == |value| then Success((parameters, []))
    else
      var start := ContentStart(value, index);
      var end := start + ParameterEnd(value[start..], 0, false);
      var content := TrimEnd(value[start..end]);
      if content == [] && end == |value| then Success((parameters, value[from..]))
      else
        var parsed :- ParseParameter(content);
        ParseRest(value, start + |content|, end, parameters + [Parameter(value[from..start], parsed.0, parsed.1)])
  }

  lemma RestStep(value: bytes, from: nat, index: nat, parameters: seq<Parameter>)
    requires from <= index < |value|
    ensures var start := ContentStart(value, index);
            var end := start + ParameterEnd(value[start..], 0, false);
            var content := TrimEnd(value[start..end]);
            && |content| <= end - start
            && ParseRest(value, from, index, parameters) ==
               if content == [] && end == |value| then Success((parameters, value[from..]))
               else
                 var parsed := ParseParameter(content);
                 if parsed.Failure? then Failure(parsed.error)
                 else ParseRest(value, start + |content|, end,
                        parameters + [Parameter(value[from..start], parsed.value.0, parsed.value.1)])
  {
    hide ParseParameter, ParameterEnd, ContentStart;
  }

  lemma RestEnds(value: bytes, from: nat, parameters: seq<Parameter>)
    requires from <= |value|
    ensures ParseRest(value, from, |value|, parameters) == Success((parameters, []))
  {
  }

  function EssenceEnd(value: bytes): (end: nat)
    ensures end <= |value| && (end < |value| ==> value[end] == SEMICOLON)
  {
    Find(value, SEMICOLON, 0)
  }

  /** The general path of the parser. */
  function ParseGeneral(value: bytes): Result<MediaType, Error> {
    var end := EssenceEnd(value);
    var essence := Trim(value[..end]);
    var slash := Find(essence, SLASH, 0);
    if slash == |essence| then Failure(NoSubtype)
    else if !IsToken(essence[..slash]) || !IsToken(essence[slash + 1..]) then Failure(MalformedEssence)
    else
      var rest :- ParseRest(value, end - TrailingOws(value[..end]), end, []);
      Success(MediaType(essence[..slash], essence[slash + 1..], rest.0, rest.1))
  }

  function Constant(typeName: string, subtype: string, parameters: seq<Parameter>): MediaType {
    MediaType(Ascii(typeName), Ascii(subtype), parameters, [])
  }

  function MessageType(separator: string, value: string): seq<Parameter> {
    [Parameter(Ascii(separator), Ascii("msgtype"), Token(Ascii(value)))]
  }

  const HTTP := Constant("application", "http", [])
  const HTTP_REQUEST := Constant("application", "http", MessageType(";", "request"))
  const HTTP_RESPONSE := Constant("application", "http", MessageType(";", "response"))
  const HTTP_REQUEST_SPACE := Constant("application", "http", MessageType("; ", "request"))
  const HTTP_RESPONSE_SPACE := Constant("application", "http", MessageType("; ", "response"))
  const WARC_FIELDS := Constant("application", "warc-fields", [])
  const OCTET_STREAM := Constant("application", "octet-stream", [])
  const JSON := Constant("application", "json", [])
  const TEXT_PLAIN := Constant("text", "plain", [])
  const TEXT_DNS := Constant("text", "dns", [])

  /** The constant some octets spell. */
  function ConstantFor(value: bytes): Option<MediaType> {
    if value == Ascii("application/http;msgtype=request") then Some(HTTP_REQUEST)
    else if value == Ascii("application/http;msgtype=response") then Some(HTTP_RESPONSE)
    else if value == Ascii("application/warc-fields") then Some(WARC_FIELDS)
    else if value == Ascii("application/octet-stream") then Some(OCTET_STREAM)
    else if value == Ascii("application/json") then Some(JSON)
    else if value == Ascii("application/http; msgtype=request") then Some(HTTP_REQUEST_SPACE)
    else if value == Ascii("application/http; msgtype=response") then Some(HTTP_RESPONSE_SPACE)
    else if value == Ascii("application/http") then Some(HTTP)
    else if value == Ascii("text/plain") then Some(TEXT_PLAIN)
    else if value == Ascii("text/dns") then Some(TEXT_DNS)
    else None
  }

  function ParseValue(value: bytes): Result<MediaType, Error> {
    match ConstantFor(value)
    case Some(constant) => Success(constant)
    case None => ParseGeneral(value)
  }

  method Parse(value: bytes) returns (r: Result<MediaType, Error>)
    ensures r == ParseValue(value)
  {
    hide Trim, TrimEnd, ParseParameter, IsToken, ConstantFor, ContentStart, ParameterEnd, LeadingOws, TrailingOws, ParseRest;
    var constant := ConstantFor(value);
    if constant.Some? {
      return Success(constant.value);
    }
    var essenceEnd := EssenceEnd(value);
    var essence := Trim(value[..essenceEnd]);
    var slash := Find(essence, SLASH, 0);
    if slash == |essence| {
      return Failure(NoSubtype);
    }
    var typeName, subtype := essence[..slash], essence[slash + 1..];
    if !IsToken(typeName) || !IsToken(subtype) {
      return Failure(MalformedEssence);
    }

    var parameters: seq<Parameter> := [];
    var trailing: bytes := [];
    var from: nat, index: nat := essenceEnd - TrailingOws(value[..essenceEnd]), essenceEnd;
    ghost var whole := ParseRest(value, from, index, []);
    while index < |value|
      invariant from <= index <= |value|
      invariant ParseRest(value, from, index, parameters) == whole
      decreases |value| - index
    {
      RestStep(value, from, index, parameters);
      var start := ContentStart(value, index);
      var length := SplitParameter(value[start..]);
      var content := TrimEnd(value[start..start + length]);
      if content == [] && start + length == |value| {
        trailing := value[from..];
        return Success(MediaType(typeName, subtype, parameters, trailing));
      }
      var parsed := ParseParameter(content);
      if parsed.Failure? {
        return Failure(parsed.error);
      }
      parameters := parameters + [Parameter(value[from..start], parsed.value.0, parsed.value.1)];
      from, index := start + |content|, start + length;
    }
    RestEnds(value, from, parameters);
    r := Success(MediaType(typeName, subtype, parameters, trailing));
  }
}
