/** The grammars of field values, and that what is written for a value is read as it (`src/parse/untyped/value.rs`). */
module FormCodec {
  import opened Bytes
  import opened Lens
  import opened LensRoundTrip
  import opened Parsing
  import opened Radix
  import Date
  import DateRoundTrip
  import Digest
  import MediaType
  import MediaTypeRoundTrip
  import Raw

  datatype Kind = Uri | Date | Digits | Token | Digest | MediaType | Text | IpAddress

  datatype Form =
    | UriForm(uri: bytes, bracketed: bool)
    | DateForm(date: Date.WarcDate)
    | DigitsForm(digits: nat)
    | TokenForm(token: bytes)
    | DigestForm(digest: Digest.LabelledDigest)
    | MediaTypeForm(mediaType: MediaType.MediaType)
    | TextForm(text: bytes)
    | IpAddressForm(address: bytes)

  function KindOf(field: nat): Kind {
    if field == CONTENT_LENGTH || field == SEGMENT_NUMBER || field == SEGMENT_TOTAL_LENGTH then Digits
    else if field == CONTENT_TYPE || field == IDENTIFIED_PAYLOAD_TYPE then MediaType
    else if field == BLOCK_DIGEST || field == PAYLOAD_DIGEST then Digest
    else if field == DATE || field == REFERS_TO_DATE then Date
    else if field == FILENAME || field == PROTOCOL then Text
    else if field == IP_ADDRESS then IpAddress
    else if field == TRUNCATED || field == TYPE then Token
    else Uri
  }

  /** A URI holds neither white space nor angle brackets. */
  predicate IsUriText(s: bytes) {
    s != [] && forall i | 0 <= i < |s| :: 32 < s[i] && s[i] != LESS && s[i] != GREATER
  }

  /** The grammars of other libraries: what a URI is, and the texts and addresses that are read and written. */
  datatype Foreign = Foreign(
    isUri: bytes -> bool,
    readText: bytes -> Option<bytes>, writeText: bytes -> bytes,
    readAddress: bytes -> Option<bytes>, writeAddress: bytes -> bytes)
  {
    /** Texts and addresses are written as values that are read as them. */
    ghost predicate Lawful() {
      && (forall s | isUri(s) :: IsUriText(s))
      && (forall s | readText(s).Some? && IsNormal(s) ::
            IsNormal(writeText(readText(s).value)) && readText(writeText(readText(s).value)) == readText(s))
      && (forall s | readAddress(s).Some? && IsNormal(s) ::
            IsNormal(writeAddress(readAddress(s).value)) && readAddress(writeAddress(readAddress(s).value)) == readAddress(s))
    }
  }

  function ReadUri(f: Foreign, content: bytes): Option<Form> {
    var bracketed := content != [] && content[0] == LESS;
    if bracketed && (|content| < 2 || content[|content| - 1] != GREATER) then None
    else if !bracketed && content != [] && content[|content| - 1] == GREATER then None
    else
      var inner := if bracketed then content[1..|content| - 1] else content;
      if Raw.IsUtf8(inner) && f.isUri(inner) then Some(UriForm(inner, bracketed)) else None
  }

  /** A value's content read against one grammar. */
  function ReadForm(f: Foreign, kind: Kind, content: bytes): Option<Form> {
    match kind
    case Uri => ReadUri(f, content)
    case Date => (match Date.Parse(content, Raw.V1_1) case Some(d) => Some(DateForm(d)) case None => None)
    case Digits => (match ParseContentLength(content) case Some(n) => Some(DigitsForm(n)) case None => None)
    case Token => if IsToken(content) then Some(TokenForm(content)) else None
    case Digest => (match Digest.Parse(content) case Success(d) => Some(DigestForm(d)) case Failure(_) => None)
    case MediaType => (match MediaType.ParseValue(content) case Success(m) => Some(MediaTypeForm(m)) case Failure(_) => None)
    case Text => (match f.readText(content) case Some(t) => Some(TextForm(t)) case None => None)
    case IpAddress => (match f.readAddress(content) case Some(a) => Some(IpAddressForm(a)) case None => None)
  }

  /** The octets that spell a form. */
  function Spell(f: Foreign, form: Form): bytes
    requires form.DateForm? ==> DateIsWritable(form.date)
  {
    match form
    case UriForm(uri, bracketed) => if bracketed then [LESS] + uri + [GREATER] else uri
    case DateForm(date) => Date.Print(date, Raw.V1_1)
    case DigitsForm(n) => DecimalText(n)
    case TokenForm(token) => token
    case DigestForm(digest) => Digest.Print(digest)
    case MediaTypeForm(m) => MediaType.Print(m)
    case TextForm(text) => f.writeText(text)
    case IpAddressForm(address) => f.writeAddress(address)
  }

  predicate DateIsWritable(d: Date.WarcDate) {
    d.dateTime.year >= 0 && (d.precision.Fraction? ==> 0 <= d.precision.digits <= 9)
  }

  // ---------------------------------------------------------------------------------------------
  // What is written is normal
  // ---------------------------------------------------------------------------------------------

  lemma UriIsText(f: Foreign, uri: bytes)
    requires f.Lawful() && f.isUri(uri)
    ensures IsUriText(uri)
  {
    hide IsNormal, IsUriText;
  }

  lemma UriEnds(uri: bytes)
    requires IsUriText(uri)
    ensures uri[0] != LESS && uri[|uri| - 1] != GREATER
  {
  }

  lemma UriIsNormal(uri: bytes)
    requires IsUriText(uri)
    ensures IsNormal(uri) && IsNormal([LESS] + uri + [GREATER])
  {
    hide Trim;
    var s := [LESS] + uri + [GREATER];
    assert forall i | 0 < i < |s| - 1 :: s[i] == uri[i - 1];
  }

  /** A URI is read back whether or not it is written in brackets. */
  lemma UriReadsBack(f: Foreign, uri: bytes, bracketed: bool)
    requires f.Lawful() && f.isUri(uri) && Raw.IsUtf8(uri)
    ensures var s := Spell(f, UriForm(uri, bracketed)); IsNormal(s) && ReadUri(f, s) == Some(UriForm(uri, bracketed))
  {
    hide IsNormal, Raw.IsUtf8, Foreign.Lawful;
    UriIsText(f, uri);
    UriEnds(uri);
    UriIsNormal(uri);
    var s := [LESS] + uri + [GREATER];
    assert s[1..|s| - 1] == uri;
  }

  lemma DigitsReadBack(n: nat)
    requires n <= U64_MAX
    ensures IsNormal(DecimalText(n)) && ParseContentLength(DecimalText(n)) == Some(n)
  {
    hide Trim, DecimalText, Decimal;
    DecimalTextReads(n);
  }

  // ---------------------------------------------------------------------------------------------
  // Media types
  // ---------------------------------------------------------------------------------------------

  /** What closes a media type is the end of what was read. */
  lemma {:induction false} TrailingIsEnd(value: bytes, from: nat, index: nat, done: seq<MediaType.Parameter>)
    requires from <= index <= |value| && MediaType.ParseRest(value, from, index, done).Success?
    ensures var trailing := MediaType.ParseRest(value, from, index, done).value.1;
            trailing != [] ==> trailing[|trailing| - 1] == value[|value| - 1] && value != []
    decreases |value| - index
  {
    hide MediaType.ParseRest, MediaType.TrimEnd, MediaType.ParseParameter, MediaType.ParameterEnd;
    if index == |value| {
      MediaType.RestEnds(value, from, done);
    } else {
      MediaType.RestStep(value, from, index, done);
      var start := MediaType.ContentStart(value, index);
      var end := start + MediaType.ParameterEnd(value[start..], 0, false);
      var content := MediaType.TrimEnd(value[start..end]);
      if !(content == [] && end == |value|) {
        var parsed := MediaType.ParseParameter(content).value;
        TrailingIsEnd(value, start + |content|, end, done + [MediaType.Parameter(value[from..start], parsed.0, parsed.1)]);
      }
    }
  }

  /** A printed parameter holds no line break, and ends with no white space. */
  lemma ContentIsPlain(p: MediaType.Parameter)
    requires MediaTypeRoundTrip.IsParameter(p)
    ensures var s := MediaType.PrintContent(p);
            s != [] && HasNoLineBreak(s) && !IsWhiteSpace(s[|s| - 1]) && HasNoLineBreak(p.separator)
  {
    hide MediaType.LeadingOws, MediaType.Escaped, Raw.IsUtf8;
    var s := MediaType.PrintContent(p);
    TokenIsPlain(p.name);
    match p.value {
      case Token(text) =>
        TokenIsPlain(text);
        assert IsTokenChar(text[|text| - 1]);
      case Quoted(text) =>
        EscapedIsPlain(text);
    }
    SeparatorIsPlain(p.separator);
    assert s == p.name + [EQUALS] + MediaType.PrintValue(p.value);
  }

  lemma TokenIsPlain(s: bytes)
    requires IsToken(s)
    ensures HasNoLineBreak(s) && !IsWhiteSpace(s[0]) && !IsWhiteSpace(s[|s| - 1])
  {
    assert IsTokenChar(s[0]) && IsTokenChar(s[|s| - 1]);
    assert forall i | 0 <= i < |s| :: IsTokenChar(s[i]) ==> s[i] != CR && s[i] != LF;
  }

  lemma SeparatorIsPlain(s: bytes)
    requires MediaTypeRoundTrip.IsSeparator(s)
    ensures HasNoLineBreak(s)
  {
    hide MediaType.LeadingOws;
    var n := MediaType.LeadingOws(s);
    assert forall i | 0 <= i < |s| :: s[i] == SEMICOLON || IsLws(s[i]);
  }

  lemma {:induction false} EscapedIsPlain(text: bytes)
    requires IsText(text)
    ensures HasNoLineBreak(MediaType.Escaped(text))
    decreases |text|
  {
    if text != [] {
      assert IsTextChar(text[0]);
      EscapedIsPlain(text[1..]);
    }
  }

  /** What is printed after the subtype holds no line break; and what ends it, if there is any, is no white space unless what was read ended in it. */
  lemma {:induction false} RestIsPlain(parameters: seq<MediaType.Parameter>, trailing: bytes)
    requires forall i | 0 <= i < |parameters| :: MediaTypeRoundTrip.IsParameter(parameters[i])
    requires trailing == [] || (MediaTypeRoundTrip.IsSeparator(trailing) && !IsWhiteSpace(trailing[|trailing| - 1]))
    ensures var s := MediaType.PrintRest(parameters, trailing);
            HasNoLineBreak(s) && (s != [] ==> !IsWhiteSpace(s[|s| - 1]))
    decreases |parameters|
  {
    hide MediaTypeRoundTrip.IsParameter, MediaTypeRoundTrip.IsSeparator, MediaType.PrintContent;
    if parameters == [] {
      if trailing != [] {
        SeparatorIsPlain(trailing);
      }
    } else {
      ContentIsPlain(parameters[0]);
      RestIsPlain(parameters[1..], trailing);
    }
  }

  lemma PrintedIsNormal(m: MediaType.MediaType)
    requires MediaTypeRoundTrip.IsMediaType(m) && (m.trailing != [] ==> !IsWhiteSpace(m.trailing[|m.trailing| - 1]))
    ensures IsNormal(MediaType.Print(m))
  {
    hide MediaTypeRoundTrip.IsParameter, MediaTypeRoundTrip.IsSeparator, MediaType.PrintRest, IsToken, IsWhiteSpace;
    var rest := MediaType.PrintRest(m.parameters, m.trailing);
    RestIsPlain(m.parameters, m.trailing);
    TokenIsPlain(m.typeName);
    TokenIsPlain(m.subtype);
    SlashIsPlain();
    NonEmptyToken(m.typeName);
    NonEmptyToken(m.subtype);
    var s := MediaType.Print(m);
    assert s[0] == m.typeName[0];
    assert s[|s| - 1] == if rest == [] then m.subtype[|m.subtype| - 1] else rest[|rest| - 1];
  }

  lemma NonEmptyToken(s: bytes)
    requires IsToken(s)
    ensures s != []
  {
  }

  lemma SlashIsPlain()
    ensures SLASH != CR && SLASH != LF
  {
  }

  lemma NormalEnds(s: bytes)
    requires IsNormal(s)
    ensures s == [] || !IsWhiteSpace(s[|s| - 1])
  {
  }

  lemma MediaTypeReadsBack(content: bytes)
    requires IsNormal(content) && MediaType.ParseValue(content).Success?
    ensures var m := MediaType.ParseValue(content).value;
            IsNormal(MediaType.Print(m)) && MediaType.ParseValue(MediaType.Print(m)) == Success(m)
  {
    hide *;
    MediaTypeRoundTrip.RoundTrip(content);
    MediaTypeRoundTrip.FastPathAgrees(content);
    TrailingOf(content);
    NormalEnds(content);
    PrintedIsNormal(MediaType.ParseValue(content).value);
  }

  lemma TrailingOf(content: bytes)
    requires MediaType.ParseGeneral(content).Success?
    ensures var trailing := MediaType.ParseGeneral(content).value.trailing;
            trailing != [] ==> content != [] && trailing[|trailing| - 1] == content[|content| - 1]
  {
    hide MediaType.ParseGeneral, MediaType.ParseRest, MediaType.EssenceEnd, MediaType.TrailingOws;
    MediaTypeRoundTrip.GeneralParts(content);
    var end := MediaType.EssenceEnd(content);
    TrailingIsEnd(content, end - MediaType.TrailingOws(content[..end]), end, []);
  }

  // ---------------------------------------------------------------------------------------------
  // Every form
  // ---------------------------------------------------------------------------------------------

  lemma DateReadsBack(content: bytes)
    requires Date.Parse(content, Raw.V1_1).Some?
    ensures var d := Date.Parse(content, Raw.V1_1).value; DateIsWritable(d) && Date.Print(d, Raw.V1_1) == content
  {
    hide Date.Parse, Date.Print;
    DateRoundTrip.ParsedPrintsBack(content, Raw.V1_1);
    DatesAreWritable(Date.Parse(content, Raw.V1_1).value);
  }

  lemma DatesAreWritable(d: Date.WarcDate)
    requires Date.IsWarcDate(d)
    ensures DateIsWritable(d)
  {
    hide Date.Truncated;
  }

  /**
   * What is written for a value that has been read is read as the same value, in whatever form it
   * was: with one space before it, it is a field value that needs no fold. Equal spellings are not
   * promised, as a count may have leading zeros and a quoted parameter redundant escapes.
   */
  lemma FormReadsBack(f: Foreign, kind: Kind, content: bytes)
    requires f.Lawful() && IsNormal(content) && ReadForm(f, kind, content).Some?
    ensures var form := ReadForm(f, kind, content).value;
            && (form.DateForm? ==> DateIsWritable(form.date))
            && IsFolded([SP] + Spell(f, form))
            && ReadForm(f, kind, Unfolded([SP] + Spell(f, form))) == Some(form)
  {
    hide *;
    FormReadsBackNormal(f, kind, content);
    NormalIsRead(Spell(f, ReadForm(f, kind, content).value));
  }

  lemma LengthIsWord(content: bytes)
    ensures ParseContentLength(content).Some? ==> ParseContentLength(content).value <= U64_MAX
  {
  }

  lemma BracketedUri(f: Foreign, content: bytes)
    requires f.Lawful() && ReadUri(f, content).Some?
    ensures var form := ReadUri(f, content).value;
            form.UriForm? && IsNormal(Spell(f, form)) && ReadUri(f, Spell(f, form)) == Some(form)
  {
    hide IsNormal, Raw.IsUtf8;
    var form := ReadUri(f, content).value;
    UriReadsBack(f, form.uri, form.bracketed);
  }

  // ---------------------------------------------------------------------------------------------
  // The codec of the semantic layer
  // ---------------------------------------------------------------------------------------------

  /** The form without the brackets a URI was read in. */
  function Bare(form: Form): Form {
    if form.UriForm? then form.(bracketed := false) else form
  }

  /** What a value denotes, told by how it is spelled without brackets. */
  function Datum(f: Foreign, kind: Kind, content: bytes): Option<bytes> {
    match ReadForm(f, kind, content)
    case Some(form) =>
      DateCanBeWritten(f, kind, content);
      Some(Spell(f, Bare(form)))
    case None => None
  }

  lemma DateCanBeWritten(f: Foreign, kind: Kind, content: bytes)
    ensures var form := ReadForm(f, kind, content);
            form.Some? && form.value.DateForm? ==> DateIsWritable(form.value.date)
  {
    hide MediaType.ParseValue, Digest.Parse, Date.Parse, ParseContentLength, IsToken, ReadUri, DateIsWritable;
    if kind.Date? && Date.Parse(content, Raw.V1_1).Some? {
      DateReadsBack(content);
    }
    if kind.Uri? && ReadUri(f, content).Some? {
      UriHasUriForm(f, content);
    }
  }

  lemma UriHasUriForm(f: Foreign, content: bytes)
    ensures ReadUri(f, content).Some? ==> ReadUri(f, content).value.UriForm?
  {
    hide Raw.IsUtf8;
  }

  /** A version that writes a field's URI in brackets. */
  predicate Brackets(version: Raw.Version, field: nat) {
    && KindOf(field).Uri?
    && (version == Raw.V1_0 || field == CONCURRENT_TO || field == RECORD_ID || field == REFERS_TO
        || field == SEGMENT_ORIGIN_ID || field == WARCINFO_ID)
  }

  function SpelledFor(version: Raw.Version, field: nat, datum: bytes): bytes {
    if Brackets(version, field) then [LESS] + datum + [GREATER] else datum
  }

  /** WARC 1.0 spells dates to the second only. */
  predicate FitsVersion(version: Raw.Version, field: nat, datum: bytes) {
    version == Raw.V1_1 || !KindOf(field).Date?
    || (Date.Parse(datum, Raw.V1_1).Some? && Date.Parse(datum, Raw.V1_1).value.precision == Date.Second)
  }

  /** A segment that is not the first. */
  predicate IsLaterSegment(datum: bytes) {
    ParseContentLength(datum).Some? && ParseContentLength(datum).value > 1
  }

  /** A record of a version makes this of a datum; `normalize` is what it makes of profiles, reasons and protocols. */
  function MeaningOf(normalize: (nat, bytes) -> Option<bytes>, version: Raw.Version, field: nat, datum: bytes): Option<bytes> {
    if !FitsVersion(version, field, datum) then None
    else if field == PROFILE || field == TRUNCATED || field == PROTOCOL then normalize(field, datum)
    else if field == SEGMENT_NUMBER && !IsLaterSegment(datum) then None
    else Some(datum)
  }

  predicate CanWrite(f: Foreign, version: Raw.Version, field: nat, datum: bytes) {
    && IsNormal(datum) && Datum(f, KindOf(field), datum) == Some(datum)
    && (KindOf(field).Uri? ==> f.isUri(datum) && Raw.IsUtf8(datum))
    && FitsVersion(version, field, datum)
  }

  /** What is spelled for a datum is read as it, in the brackets its version puts it in or without. */
  lemma SpelledIsRead(f: Foreign, version: Raw.Version, field: nat, datum: bytes)
    requires f.Lawful() && CanWrite(f, version, field, datum)
    ensures var value := [SP] + SpelledFor(version, field, datum);
            IsFolded(value) && Datum(f, KindOf(field), Unfolded(value)) == Some(datum)
  {
    hide Foreign.Lawful, IsNormal, Raw.IsUtf8, ReadForm, Unfolded, IsFolded, FitsVersion;
    var spelled := SpelledFor(version, field, datum);
    if Brackets(version, field) {
      UriReadsBack(f, datum, true);
      UriDatum(f, datum, true);
    }
    NormalIsRead(spelled);
  }

  lemma UriDatum(f: Foreign, uri: bytes, bracketed: bool)
    requires f.Lawful() && f.isUri(uri) && Raw.IsUtf8(uri)
    ensures Datum(f, Uri, Spell(f, UriForm(uri, bracketed))) == Some(uri)
  {
    hide Foreign.Lawful, IsNormal, Raw.IsUtf8, ReadUri;
    UriReadsBack(f, uri, bracketed);
  }

  /** Reading a value again, from how it is spelled, gives what was read. */
  lemma DatumIsWritable(f: Foreign, version: Raw.Version, field: nat, content: bytes)
    requires f.Lawful() && IsNormal(content) && Datum(f, KindOf(field), content).Some?
    requires FitsVersion(version, field, Datum(f, KindOf(field), content).value)
    ensures CanWrite(f, version, field, Datum(f, KindOf(field), content).value)
  {
    hide Foreign.Lawful, IsNormal, Raw.IsUtf8, Unfolded, IsFolded, FitsVersion, MediaType.ParseValue, Digest.Parse, Date.Parse,
      ParseContentLength, IsToken, ReadUri, DateIsWritable, Spell, KindOf;
    var kind := KindOf(field);
    var form := ReadForm(f, kind, content).value;
    if kind.Uri? {
      UriParts(f, content);
      UriReadsBack(f, form.uri, false);
      UriDatum(f, form.uri, false);
      BareSpelling(f, form.uri);
    } else {
      NotUri(f, kind, content);
      FormReadsBackNormal(f, kind, content);
    }
  }

  lemma BareSpelling(f: Foreign, uri: bytes)
    ensures Spell(f, UriForm(uri, false)) == uri
  {
  }

  lemma UriParts(f: Foreign, content: bytes)
    requires ReadUri(f, content).Some?
    ensures var form := ReadUri(f, content).value; form.UriForm? && f.isUri(form.uri) && Raw.IsUtf8(form.uri)
  {
    hide Raw.IsUtf8;
  }

  lemma NotUri(f: Foreign, kind: Kind, content: bytes)
    requires !kind.Uri? && ReadForm(f, kind, content).Some?
    ensures !ReadForm(f, kind, content).value.UriForm? && Bare(ReadForm(f, kind, content).value) == ReadForm(f, kind, content).value
  {
    hide MediaType.ParseValue, Digest.Parse, Date.Parse, ParseContentLength, IsToken;
  }

  /** As `FormReadsBack`, for the text itself. */
  lemma FormReadsBackNormal(f: Foreign, kind: Kind, content: bytes)
    requires f.Lawful() && IsNormal(content) && ReadForm(f, kind, content).Some?
    ensures var form := ReadForm(f, kind, content).value;
            && (form.DateForm? ==> DateIsWritable(form.date))
            && IsNormal(Spell(f, form)) && ReadForm(f, kind, Spell(f, form)) == Some(form)
  {
    hide IsNormal, Raw.IsUtf8, MediaType.ParseValue, MediaType.Print, Digest.Parse, Digest.Print, Date.Parse, Date.Print,
      ParseContentLength, DecimalText, IsFolded, Unfolded, IsToken, ReadUri, DateIsWritable;
    var form := ReadForm(f, kind, content).value;
    match kind {
      case Uri => BracketedUri(f, content);
      case Date => DateReadsBack(content);
      case Digits =>
        LengthIsWord(content);
        DigitsReadBack(form.digits);
      case Token =>
      case Digest => Digest.PrintsAsRead(content);
      case MediaType => MediaTypeReadsBack(content);
      case Text =>
      case IpAddress =>
    }
  }

  /** The codec of these grammars. */
  function CodecOf(
    f: Foreign, normalize: (nat, bytes) -> Option<bytes>, identical: bytes -> bool, lengthReason: bytes, extension: bytes -> Option<bytes>)
    : Codec
  {
    Codec(
      (field: nat, content: bytes) => Datum(f, KindOf(field), content),
      (version: Raw.Version, field: nat, datum: bytes) => MeaningOf(normalize, version, field, datum),
      (version: Raw.Version, field: nat, datum: bytes) => CanWrite(f, version, field, datum),
      (version: Raw.Version, field: nat, datum: bytes) => SpelledFor(version, field, datum),
      (n: nat) => DecimalText(n),
      identical, lengthReason, extension)
  }

  /**
   * The law the semantic layer rests on holds of these grammars, where it holds of those that belong
   * to other libraries: profiles, reasons and protocols are normalized once, and a type an extension
   * defines is known by the name it gives itself.
   */
  lemma CodecIsLawful(
    f: Foreign, normalize: (nat, bytes) -> Option<bytes>, identical: bytes -> bool, lengthReason: bytes, extension: bytes -> Option<bytes>)
    requires f.Lawful()
    requires forall field, d | normalize(field, d).Some? :: normalize(field, normalize(field, d).value) == normalize(field, d)
    requires forall n | extension(n).Some? :: extension(Lowered(extension(n).value)) == extension(n)
    ensures CodecOf(f, normalize, identical, lengthReason, extension).Lawful()
  {
    hide Foreign.Lawful, CanWrite, SpelledFor, MeaningOf, Datum, IsFolded, Unfolded, KindOf, DecimalText;
    var c := CodecOf(f, normalize, identical, lengthReason, extension);
    forall v, field, d | c.writable(v, field, d)
      ensures IsFolded([SP] + c.spell(v, field, d)) && c.read(field, Unfolded([SP] + c.spell(v, field, d))) == Some(d)
    {
      SpelledIsRead(f, v, field, d);
    }
    forall v, field, d | c.meaning(v, field, d).Some?
      ensures c.meaning(v, field, c.meaning(v, field, d).value) == c.meaning(v, field, d)
    {
      MeaningMeansItself(normalize, v, field, d);
    }
    forall v, n
      ensures c.meaning(v, CONTENT_LENGTH, c.count(n)) == Some(c.count(n))
    {
      CountMeans(normalize, v, DecimalText(n));
    }
  }

  lemma MeaningMeansItself(normalize: (nat, bytes) -> Option<bytes>, version: Raw.Version, field: nat, datum: bytes)
    requires forall field, d | normalize(field, d).Some? :: normalize(field, normalize(field, d).value) == normalize(field, d)
    requires MeaningOf(normalize, version, field, datum).Some?
    ensures var meaning := MeaningOf(normalize, version, field, datum);
            MeaningOf(normalize, version, field, meaning.value) == meaning
  {
    hide Date.Parse, ParseContentLength;
  }

  lemma CountMeans(normalize: (nat, bytes) -> Option<bytes>, version: Raw.Version, datum: bytes)
    ensures MeaningOf(normalize, version, CONTENT_LENGTH, datum) == Some(datum)
  {
    hide Date.Parse, ParseContentLength;
  }
}
