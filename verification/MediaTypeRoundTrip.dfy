/** What is parsed as a media type is printed and parsed again as the same. */
module MediaTypeRoundTrip {
  import opened Bytes
  import opened Headers
  import opened MediaType
  import Raw

  /** `OWS ";" OWS`. */
  predicate IsSeparator(s: bytes) {
    var n := LeadingOws(s);
    n < |s| && s[n] == SEMICOLON && forall i | n < i < |s| :: IsLws(s[i])
  }

  predicate IsParameter(p: Parameter) {
    && IsSeparator(p.separator) && IsToken(p.name)
    && match p.value
       case Token(text) => IsToken(text)
       case Quoted(text) => IsText(text) && Raw.IsUtf8(text)
  }

  predicate IsMediaType(m: MediaType) {
    && IsToken(m.typeName) && IsToken(m.subtype)
    && (forall i | 0 <= i < |m.parameters| :: IsParameter(m.parameters[i]))
    && (m.trailing == [] || IsSeparator(m.trailing))
  }

  // ---------------------------------------------------------------------------------------------
  // One parameter
  // ---------------------------------------------------------------------------------------------

  lemma {:induction false} EscapedReads(inner: bytes, i: nat, done: bytes, text: bytes)
    requires IsText(text) && i <= |inner| && inner[i..] == Escaped(text)
    ensures UnquoteFrom(inner, i, done) == Success(done + text)
    decreases |text|
  {
    hide IsTextChar;
    if text == [] {
      assert |inner| == i && done + text == done;
    } else {
      var n := if text[0] == QUOTE || text[0] == BACKSLASH then 2 else 1;
      assert inner[i] == Escaped(text)[0] && (n == 2 ==> inner[i + 1] == Escaped(text)[1]);
      assert inner[i + n..] == inner[i..][n..] == Escaped(text[1..]);
      EscapedReads(inner, i + n, done + [text[0]], text[1..]);
      assert done + [text[0]] + text[1..] == done + text;
    }
  }

  lemma QuotedReads(text: bytes)
    requires IsText(text)
    ensures Unquoted([QUOTE] + Escaped(text) + [QUOTE]) == Success(text)
  {
    hide IsText, UnquoteFrom, Escaped;
    var value := [QUOTE] + Escaped(text) + [QUOTE];
    var inner := value[1..|value| - 1];
    assert inner == Escaped(text) && inner[0..] == inner && [] + text == text;
    EscapedReads(inner, 0, [], text);
  }

  /** What unquoting yields is text, whose printed form is read as the same. */
  lemma {:induction false} UnquotedIsText(inner: bytes, i: nat, done: bytes)
    requires IsText(done) && UnquoteFrom(inner, i, done).Success?
    ensures IsText(UnquoteFrom(inner, i, done).value)
    decreases |inner| - i
  {
    hide IsTextChar;
    if i < |inner| {
      if inner[i] == BACKSLASH {
        UnquotedIsText(inner, i + 2, done + [inner[i + 1]]);
      } else {
        UnquotedIsText(inner, i + 1, done + [inner[i]]);
      }
    }
  }

  lemma ContentParts(p: Parameter)
    requires IsToken(p.name)
    ensures var content := PrintContent(p);
            && Find(content, EQUALS, 0) == |p.name| < |content|
            && content[..|p.name|] == p.name && content[|p.name| + 1..] == PrintValue(p.value)
  {
    hide PrintValue;
    var content := PrintContent(p);
    assert forall i | 0 <= i < |p.name| :: content[i] == p.name[i];
    FindUnique(content, EQUALS, 0, |p.name|);
  }

  /** A parameter is read back from what is printed for it. */
  lemma ContentReads(p: Parameter)
    requires IsParameter(p)
    ensures ParseParameter(PrintContent(p)) == Success((p.name, p.value))
  {
    hide PrintContent, IsSeparator, IsText, Unquoted, Raw.IsUtf8, Escaped;
    ContentParts(p);
    match p.value {
      case Token(text) => assert IsTokenChar(text[0]);
      case Quoted(text) => QuotedReads(text);
    }
  }

  /** It begins and ends with something other than white space. */
  lemma ContentEnds(p: Parameter)
    requires IsParameter(p)
    ensures var content := PrintContent(p); content != [] && !IsLws(content[0]) && !IsLws(content[|content| - 1])
  {
    hide IsSeparator, Escaped;
    assert IsTokenChar(p.name[0]);
    match p.value {
      case Token(text) => assert IsTokenChar(text[|text| - 1]);
      case Quoted(text) =>
    }
  }

  lemma LeadingIs(s: bytes, n: nat)
    requires n <= |s| && (forall i | 0 <= i < n :: IsLws(s[i])) && (n < |s| ==> !IsLws(s[n]))
    ensures LeadingOws(s) == n
  {
  }

  lemma TrailingIs(s: bytes, n: nat)
    requires n <= |s| && (forall i | |s| - n <= i < |s| :: IsLws(s[i])) && (n < |s| ==> !IsLws(s[|s| - n - 1]))
    ensures TrailingOws(s) == n
  {
  }

  // ---------------------------------------------------------------------------------------------
  // Where a parameter ends
  // ---------------------------------------------------------------------------------------------

  /** Octets that are no quote and no semicolon are part of the parameter. */
  lemma {:induction false} EndPastPlain(input: bytes, i: nat, j: nat)
    requires i <= j <= |input| && forall k | i <= k < j :: input[k] != QUOTE && input[k] != SEMICOLON
    ensures ParameterEnd(input, i, false) == ParameterEnd(input, j, false)
    decreases j - i
  {
    if i < j {
      EndPastPlain(input, i + 1, j);
    }
  }

  /** Escaped text is part of the parameter, semicolons and quotes included. */
  lemma {:induction false} EndPastEscaped(input: bytes, i: nat, text: bytes)
    requires i + |Escaped(text)| <= |input| && input[i..i + |Escaped(text)|] == Escaped(text)
    ensures ParameterEnd(input, i, true) == ParameterEnd(input, i + |Escaped(text)|, true)
    decreases |text|
  {
    if text != [] {
      var n := if text[0] == QUOTE || text[0] == BACKSLASH then 2 else 1;
      var all, rest := Escaped(text), Escaped(text[1..]);
      assert all[n..] == rest && |all| == n + |rest|;
      assert input[i] == input[i..i + |all|][0] == all[0];
      SliceOfSlice(input, i, i + |all|, n, |all|);
      EndPastEscaped(input, i + n, text[1..]);
    }
  }

  lemma EndPastValue(input: bytes, i: nat, value: ParameterValue)
    requires i + |PrintValue(value)| <= |input| && input[i..i + |PrintValue(value)|] == PrintValue(value)
    requires value.Token? ==> IsToken(value.text)
    ensures ParameterEnd(input, i, false) == ParameterEnd(input, i + |PrintValue(value)|, false)
  {
    hide ParameterEnd, Escaped;
    var n := |PrintValue(value)|;
    match value {
      case Token(text) =>
        assert forall k | i <= k < i + n :: input[k] == input[i..i + n][k - i] == text[k - i];
        EndPastPlain(input, i, i + n);
      case Quoted(text) =>
        var printed := PrintValue(value);
        assert input[i] == input[i..i + n][0] == QUOTE && input[i + n - 1] == input[i..i + n][n - 1] == QUOTE;
        SliceOfSlice(input, i, i + n, 1, n - 1);
        assert printed[1..n - 1] == Escaped(text);
        EndAtQuote(input, i, false);
        EndPastEscaped(input, i + 1, text);
        EndAtQuote(input, i + n - 1, true);
    }
  }

  lemma EndAtQuote(input: bytes, i: nat, quoted: bool)
    requires i < |input| && input[i] == QUOTE
    ensures ParameterEnd(input, i, quoted) == ParameterEnd(input, i + 1, !quoted)
  {
  }

  /** What comes after a parameter: nothing, or white space and a semicolon. */
  predicate Follows(tail: bytes) {
    tail == [] || (LeadingOws(tail) < |tail| && tail[LeadingOws(tail)] == SEMICOLON)
  }

  lemma RestFollows(parameters: seq<Parameter>, trailing: bytes)
    requires forall i | 0 <= i < |parameters| :: IsParameter(parameters[i])
    requires trailing == [] || IsSeparator(trailing)
    ensures Follows(PrintRest(parameters, trailing))
  {
    hide PrintContent, PrintValue;
    if parameters != [] {
      SeparatorOpens(parameters[0].separator, PrintContent(parameters[0]) + PrintRest(parameters[1..], trailing));
    }
  }

  lemma SeparatorOpens(separator: bytes, rest: bytes)
    requires IsSeparator(separator)
    ensures LeadingOws(separator + rest) == LeadingOws(separator) && Follows(separator + rest)
  {
    var n := LeadingOws(separator);
    assert forall i | 0 <= i <= n :: (separator + rest)[i] == separator[i];
  }

  lemma NameIsPlain(p: Parameter)
    requires IsToken(p.name)
    ensures var content := PrintContent(p);
            && |content| == |p.name| + 1 + |PrintValue(p.value)|
            && content[|p.name| + 1..] == PrintValue(p.value)
            && forall k | 0 <= k < |p.name| + 1 :: content[k] != QUOTE && content[k] != SEMICOLON
  {
    hide PrintValue;
    var content := PrintContent(p);
    assert forall k | 0 <= k < |p.name| :: content[k] == p.name[k];
    assert content[|p.name|] == EQUALS;
  }

  lemma EndPastContent(p: Parameter, tail: bytes)
    requires IsParameter(p)
    ensures var content := PrintContent(p);
            ParameterEnd(content + tail, 0, false) == ParameterEnd(content + tail, |content|, false)
  {
    hide ParameterEnd, PrintValue, PrintContent, IsSeparator, IsToken;
    var content := PrintContent(p);
    var input := content + tail;
    var n := |p.name| + 1;
    NameIsPlain(p);
    assert forall k | 0 <= k < |content| :: input[k] == content[k];
    EndPastPlain(input, 0, n);
    assert input[n..n + |PrintValue(p.value)|] == content[n..];
    EndPastValue(input, n, p.value);
  }

  /** A parameter and the white space after it end at the semicolon that follows, or with the value. */
  lemma ContentSplits(p: Parameter, tail: bytes)
    requires IsParameter(p) && Follows(tail)
    ensures var content := PrintContent(p);
            var end := ParameterEnd(content + tail, 0, false);
            && end == |content| + LeadingOws(tail)
            && (content + tail)[..end] == content + tail[..LeadingOws(tail)]
  {
    hide ParameterEnd, PrintContent, IsParameter;
    var content := PrintContent(p);
    var input := content + tail;
    EndPastContent(p, tail);
    var end := |content| + LeadingOws(tail);
    assert forall k | |content| <= k < |input| :: input[k] == tail[k - |content|];
    EndPastPlain(input, |content|, end);
    EndHere(input, end);
  }

  lemma EndHere(input: bytes, i: nat)
    requires i == |input| || (i < |input| && input[i] == SEMICOLON)
    ensures ParameterEnd(input, i, false) == i
  {
  }

  /** Content is what is left when the white space after it is trimmed. */
  lemma ContentTrims(content: bytes, ows: bytes)
    requires content != [] && !IsLws(content[|content| - 1])
    requires forall i | 0 <= i < |ows| :: IsLws(ows[i])
    ensures TrimEnd(content + ows) == content
  {
    hide TrailingOws;
    var s := content + ows;
    TrailingIs(s, |ows|);
    assert s[|content| - 1] == content[|content| - 1];
    assert forall i | |content| <= i < |s| :: s[i] == ows[i - |content|];
  }

  // ---------------------------------------------------------------------------------------------
  // All parameters
  // ---------------------------------------------------------------------------------------------

  /** Past a separator, the parser stands at the parameter. */
  lemma SeparatorPassed(value: bytes, from: nat, separator: bytes, rest: bytes)
    requires from <= |value| && value[from..] == separator + rest && IsSeparator(separator)
    requires rest != [] ==> !IsLws(rest[0])
    ensures var index := from + LeadingOws(value[from..]);
            && index < |value| && ContentStart(value, index) == from + |separator| <= |value|
            && value[from + |separator|..] == rest && value[from..from + |separator|] == separator
  {
    hide LeadingOws;
    SeparatorOpens(separator, rest);
    var n := LeadingOws(separator);
    SuffixOf(value, from, separator, rest);
    assert separator + rest == separator[..n + 1] + (separator[n + 1..] + rest);
    SuffixOf(value, from, separator[..n + 1], separator[n + 1..] + rest);
    SpaceThen(separator[n + 1..], rest);
    assert value[from..from + |separator|] == value[from..][..|separator|];
  }

  lemma SpaceThen(ows: bytes, rest: bytes)
    requires (forall i | 0 <= i < |ows| :: IsLws(ows[i])) && (rest != [] ==> !IsLws(rest[0]))
    ensures LeadingOws(ows + rest) == |ows|
  {
    hide LeadingOws;
    LeadingIs(ows + rest, |ows|);
  }

  /** The parameters that are printed are read back. */
  lemma {:induction false} RestReadsBack(
    value: bytes, from: nat, index: nat, done: seq<Parameter>, parameters: seq<Parameter>, trailing: bytes)
    requires from <= |value| && value[from..] == PrintRest(parameters, trailing)
    requires index == from + LeadingOws(value[from..])
    requires forall i | 0 <= i < |parameters| :: IsParameter(parameters[i])
    requires trailing == [] || IsSeparator(trailing)
    ensures ParseRest(value, from, index, done) == Success((done + parameters, trailing))
    decreases |parameters|
  {
    hide *;
    if parameters == [] {
      NoneToPrint(trailing);
      TrailingReadsBack(value, from, done, trailing);
      assert done + parameters == done;
    } else {
      OneToPrint(parameters, trailing);
      var p, tail := parameters[0], PrintRest(parameters[1..], trailing);
      var next := from + |p.separator| + |PrintContent(p)|;
      RestFollows(parameters[1..], trailing);
      ParameterReadsBack(value, from, done, p, tail);
      RestReadsBack(value, next, next + LeadingOws(tail), done + [p], parameters[1..], trailing);
      assert done + [p] + parameters[1..] == done + parameters;
    }
  }

  lemma NoneToPrint(trailing: bytes)
    ensures PrintRest([], trailing) == trailing
  {
  }

  lemma OneToPrint(parameters: seq<Parameter>, trailing: bytes)
    requires parameters != []
    ensures PrintRest(parameters, trailing) ==
            parameters[0].separator + (PrintContent(parameters[0]) + PrintRest(parameters[1..], trailing))
  {
    hide PrintContent;
  }

  /** What closes the value is read back. */
  lemma TrailingReadsBack(value: bytes, from: nat, done: seq<Parameter>, trailing: bytes)
    requires from <= |value| && value[from..] == trailing && (trailing == [] || IsSeparator(trailing))
    ensures ParseRest(value, from, from + LeadingOws(trailing), done) == Success((done, trailing))
  {
    hide ParseRest, ParseParameter, ParameterEnd, TrimEnd, ContentStart;
    if trailing == [] {
      RestEnds(value, from, done);
    } else {
      assert trailing + [] == trailing;
      SeparatorPassed(value, from, trailing, []);
      RestStep(value, from, from + LeadingOws(trailing), done);
      NothingIsTrimmed(value);
    }
  }

  /** One parameter that is printed is read back. */
  lemma ParameterReadsBack(value: bytes, from: nat, done: seq<Parameter>, p: Parameter, tail: bytes)
    requires from <= |value| && value[from..] == p.separator + (PrintContent(p) + tail)
    requires IsParameter(p) && Follows(tail)
    ensures var next := from + |p.separator| + |PrintContent(p)|;
            && next <= |value| && value[next..] == tail
            && ParseRest(value, from, from + LeadingOws(value[from..]), done) == ParseRest(value, next, next + LeadingOws(tail), done + [p])
  {
    hide *;
    var index := from + LeadingOws(value[from..]);
    ParameterStands(value, from, index, p, tail);
    ContentReads(p);
    ContentEnds(p);
    ParameterParts(p);
    RestStep(value, from, index, done);
  }

  lemma ParameterStands(value: bytes, from: nat, index: nat, p: Parameter, tail: bytes)
    requires from <= |value| && value[from..] == p.separator + (PrintContent(p) + tail)
    requires IsParameter(p) && Follows(tail) && index == from + LeadingOws(value[from..])
    ensures var content, start, n := PrintContent(p), from + |p.separator|, LeadingOws(tail);
            && index < |value| && ContentStart(value, index) == start <= start + |content| + n <= |value|
            && value[from..start] == p.separator && value[start + |content|..] == tail
            && ParameterEnd(value[start..], 0, false) == |content| + n
            && TrimEnd(value[start..start + (|content| + n)]) == content
  {
    hide *;
    var content, start := PrintContent(p), from + |p.separator|;
    ContentEnds(p);
    ParameterParts(p);
    FirstOf(content, tail);
    SeparatorPassed(value, from, p.separator, content + tail);
    ContentStands(value, start, p, tail);
  }

  /** A printed parameter ends where what follows it begins. */
  lemma ContentStands(value: bytes, start: nat, p: Parameter, tail: bytes)
    requires start <= |value| && value[start..] == PrintContent(p) + tail
    requires IsParameter(p) && Follows(tail)
    ensures var content, n := PrintContent(p), LeadingOws(tail);
            && start + |content| + n <= |value| && value[start + |content|..] == tail
            && ParameterEnd(value[start..], 0, false) == |content| + n
            && TrimEnd(value[start..start + (|content| + n)]) == content
  {
    hide *;
    var content, n := PrintContent(p), LeadingOws(tail);
    ContentEnds(p);
    SuffixOf(value, start, content, tail);
    ContentSplits(p, tail);
    LeadingSlice(tail);
    ContentTrims(content, tail[..n]);
    DropThenTake(value, start, |content| + n);
  }

  lemma FirstOf(a: bytes, b: bytes)
    requires a != []
    ensures a + b != [] && (a + b)[0] == a[0]
  {
  }

  lemma LeadingSlice(s: bytes)
    ensures forall i | 0 <= i < LeadingOws(s) :: IsLws(s[..LeadingOws(s)][i])
  {
    hide LeadingOws;
  }

  lemma SuffixOf(value: bytes, start: nat, a: bytes, b: bytes)
    requires start <= |value| && value[start..] == a + b
    ensures start + |a| <= |value| && value[start + |a|..] == b
  {
    assert value[start + |a|..] == value[start..][|a|..];
  }

  lemma ParameterParts(p: Parameter)
    requires IsParameter(p)
    ensures IsSeparator(p.separator) && p == Parameter(p.separator, p.name, p.value)
  {
  }

  lemma NothingIsTrimmed(value: bytes)
    ensures ParameterEnd(value[|value|..], 0, false) == 0 && TrimEnd(value[|value|..|value|]) == []
  {
  }

  /** A well-formed media type is read back from what is printed for it, by the general path. */
  lemma PrintedReadsBack(m: MediaType)
    requires IsMediaType(m)
    ensures ParseGeneral(Print(m)) == Success(m)
  {
    hide IsParameter, IsSeparator, PrintRest, ParseRest, Follows, IsToken, Trim, TrailingOws, LeadingOws, EssenceEnd, Find, Raw.IsUtf8;
    var value, rest := Print(m), PrintRest(m.parameters, m.trailing);
    var essence := m.typeName + [SLASH] + m.subtype;
    RestFollows(m.parameters, m.trailing);
    SlashFound(m.typeName, m.subtype);
    EssenceEnds(essence, rest);
    assert value[|essence|..] == rest;
    RestReadsBack(value, |essence|, |essence| + LeadingOws(rest), [], m.parameters, m.trailing);
    assert [] + m.parameters == m.parameters;
  }

  lemma SlashFound(typeName: bytes, subtype: bytes)
    requires IsToken(typeName) && IsToken(subtype)
    ensures var essence := typeName + [SLASH] + subtype;
            && Find(essence, SLASH, 0) == |typeName| < |essence|
            && essence[..|typeName|] == typeName && essence[|typeName| + 1..] == subtype
            && !IsLws(essence[0]) && !IsLws(essence[|essence| - 1])
            && forall i | 0 <= i < |essence| :: essence[i] != SEMICOLON
  {
    var essence := typeName + [SLASH] + subtype;
    assert forall i | 0 <= i < |typeName| :: essence[i] == typeName[i] && IsTokenChar(typeName[i]);
    assert forall i | |typeName| < i < |essence| :: essence[i] == subtype[i - |typeName| - 1] && IsTokenChar(subtype[i - |typeName| - 1]);
    FindUnique(essence, SLASH, 0, |typeName|);
  }

  lemma EssenceEnds(essence: bytes, rest: bytes)
    requires essence != [] && !IsLws(essence[0]) && !IsLws(essence[|essence| - 1]) && Follows(rest)
    requires forall i | 0 <= i < |essence| :: essence[i] != SEMICOLON
    ensures var value := essence + rest;
            var end := EssenceEnd(value);
            && end == |essence| + LeadingOws(rest) && TrailingOws(value[..end]) == LeadingOws(rest)
            && Trim(value[..end]) == essence
  {
    hide LeadingOws, TrailingOws, TrimEnd;
    var value, n := essence + rest, LeadingOws(rest);
    assert forall i | 0 <= i < |essence| :: value[i] == essence[i];
    assert forall i | |essence| <= i < |value| :: value[i] == rest[i - |essence|];
    if rest != [] {
      FindUnique(value, SEMICOLON, 0, |essence| + n);
    }
    var outer := value[..|essence| + n];
    assert outer == essence + rest[..n] && outer[0] == essence[0] && outer[|essence| - 1] == essence[|essence| - 1];
    LeadingIs(outer, 0);
    assert outer[0..] == outer;
    ContentTrims(essence, rest[..n]);
    assert forall i | |essence| <= i < |outer| :: outer[i] == rest[..n][i - |essence|];
    TrailingIs(outer, n);
  }

  // ---------------------------------------------------------------------------------------------
  // What is parsed is well formed, and spelled as it was read
  // ---------------------------------------------------------------------------------------------

  /** No parameter is quoted, so none has an escape that might have been spelled otherwise. */
  predicate AllTokens(parameters: seq<Parameter>) {
    forall i | 0 <= i < |parameters| :: parameters[i].value.Token?
  }

  lemma ParsedContent(content: bytes, separator: bytes)
    requires ParseParameter(content).Success? && IsSeparator(separator)
    ensures var parsed := ParseParameter(content).value;
            var p := Parameter(separator, parsed.0, parsed.1);
            && content != [] && IsParameter(p) && (p.value.Token? ==> PrintContent(p) == content)
  {
    hide IsSeparator, UnquoteFrom, Raw.IsUtf8;
    var equals := Find(content, EQUALS, 0);
    var value := content[equals + 1..];
    assert content == content[..equals] + [EQUALS] + value;
    if value != [] && value[0] == QUOTE {
      UnquotedIsText(value[1..|value| - 1], 0, []);
    }
  }

  /** Where the printed form ends: white space after the last parameter is not kept. */
  function PrintedEnd(value: bytes, trailing: bytes): nat {
    if trailing == [] then |value| - TrailingOws(value) else |value|
  }

  /** The parser stands where an element ended, before the white space and the semicolon of the next. */
  predicate Stands(value: bytes, from: nat, index: nat) {
    && 0 < from <= index <= |value|
    && !IsLws(value[from - 1])
    && (forall i | from <= i < index :: IsLws(value[i]))
    && (index < |value| ==> value[index] == SEMICOLON)
  }

  lemma SeparatorRead(value: bytes, from: nat, index: nat)
    requires Stands(value, from, index) && index < |value|
    ensures var start := ContentStart(value, index);
            && IsSeparator(value[from..start])
            && (start < |value| ==> !IsLws(value[start]))
            && forall i | index < i < start :: IsLws(value[i])
  {
    hide LeadingOws;
    var start := ContentStart(value, index);
    var separator := value[from..start];
    assert forall i | 0 <= i < |separator| :: separator[i] == value[from + i];
    assert forall i | index < i < |value| :: value[i] == value[index + 1..][i - index - 1];
    LeadingIs(separator, index - from);
  }

  lemma ContentRead(value: bytes, start: nat, end: nat)
    requires start <= end <= |value| && (end < |value| ==> value[end] == SEMICOLON)
    ensures var content := TrimEnd(value[start..end]);
            && start + |content| <= end && content == value[start..start + |content|]
            && (content != [] ==> Stands(value, start + |content|, end))
            && (forall i | start + |content| <= i < end :: IsLws(value[i]))
  {
    hide TrailingOws;
    var chunk := value[start..end];
    assert forall i | 0 <= i < |chunk| :: chunk[i] == value[start + i];
    var content := TrimEnd(chunk);
    assert content == value[start..start + |content|];
  }

  /** The last separator closes the value. */
  lemma TrailingRead(value: bytes, from: nat, index: nat)
    requires Stands(value, from, index) && index < |value|
    requires var start := ContentStart(value, index);
             start + ParameterEnd(value[start..], 0, false) == |value| && TrimEnd(value[start..|value|]) == []
    ensures IsSeparator(value[from..])
  {
    hide ParameterEnd, TrimEnd;
    var start := ContentStart(value, index);
    SeparatorRead(value, from, index);
    ContentRead(value, start, |value|);
    if start < |value| {
      assert false;
    }
    assert value[from..start] == value[from..];
  }

  /** What is read from here on is well formed, and printed as it was spelled where nothing is quoted. */
  ghost predicate RestRead(value: bytes, from: nat, done: seq<Parameter>, r: (seq<Parameter>, bytes)) {
    && done <= r.0
    && (forall i | |done| <= i < |r.0| :: IsParameter(r.0[i]))
    && (r.1 == [] || IsSeparator(r.1))
    && (AllTokens(r.0[|done|..]) ==>
          from <= PrintedEnd(value, r.1) <= |value|
          && PrintRest(r.0[|done|..], r.1) == value[from..PrintedEnd(value, r.1)])
  }

  lemma {:induction false} ParsedRest(value: bytes, from: nat, index: nat, done: seq<Parameter>)
    requires Stands(value, from, index) && ParseRest(value, from, index, done).Success?
    ensures RestRead(value, from, done, ParseRest(value, from, index, done).value)
    decreases |value| - index
  {
    hide *;
    StandsWithin(value, from, index);
    if index == |value| {
      RestEnds(value, from, done);
      NothingRead(value, from, done);
    } else {
      RestStep(value, from, index, done);
      var start := ContentStart(value, index);
      var end := start + ParameterEnd(value[start..], 0, false);
      var content := TrimEnd(value[start..end]);
      SeparatorRead(value, from, index);
      EndIsSemicolon(value, start);
      ContentRead(value, start, end);
      if content == [] && end == |value| {
        TrailingRead(value, from, index);
        TrailingIsRead(value, from, done);
      } else {
        ParsedContent(content, value[from..start]);
        var parsed := ParseParameter(content).value;
        var p := Parameter(value[from..start], parsed.0, parsed.1);
        ParsedRest(value, start + |content|, end, done + [p]);
        OneMoreRead(value, from, start, content, done, p, ParseRest(value, start + |content|, end, done + [p]).value);
      }
    }
  }

  lemma StandsWithin(value: bytes, from: nat, index: nat)
    requires Stands(value, from, index)
    ensures from <= index <= |value|
  {
  }

  lemma EndIsSemicolon(value: bytes, start: nat)
    requires start <= |value|
    ensures var end := start + ParameterEnd(value[start..], 0, false);
            end <= |value| && (end < |value| ==> value[end] == SEMICOLON)
  {
    hide ParameterEnd;
  }

  lemma NothingRead(value: bytes, from: nat, done: seq<Parameter>)
    requires Stands(value, from, |value|)
    ensures RestRead(value, from, done, (done, []))
  {
    hide TrailingOws, IsParameter;
    TrailingIs(value, |value| - from);
  }

  lemma TrailingIsRead(value: bytes, from: nat, done: seq<Parameter>)
    requires from <= |value| && IsSeparator(value[from..])
    ensures RestRead(value, from, done, (done, value[from..]))
  {
    hide IsParameter;
  }

  lemma OneMoreRead(
    value: bytes, from: nat, start: nat, content: bytes, done: seq<Parameter>, p: Parameter, r: (seq<Parameter>, bytes))
    requires from <= start <= start + |content| <= |value| && content == value[start..start + |content|]
    requires IsParameter(p) && p.separator == value[from..start]
    requires p.value.Token? ==> PrintContent(p) == content
    requires RestRead(value, start + |content|, done + [p], r)
    ensures RestRead(value, from, done, r)
  {
    hide IsParameter, IsSeparator, PrintContent, PrintedEnd;
    var more, rest := r.0[|done|..], r.0[|done| + 1..];
    assert done <= done + [p] && r.0[|done|] == (done + [p])[|done|] == p;
    assert more[0] == p && more[1..] == rest;
    if AllTokens(more) {
      assert more[0].value.Token?;
      assert AllTokens(rest) by {
        assert forall i | 0 <= i < |rest| :: rest[i] == more[i + 1];
      }
      var next, end := start + |content|, PrintedEnd(value, r.1);
      OneToPrint(more, r.1);
      SlicesMeet(value, start, next, end);
      SlicesMeet(value, from, start, end);
    }
  }

  /** A value the general path accepts is a well-formed media type, spelled as it was read where nothing is quoted. */
  lemma ParsedIsMediaType(value: bytes)
    requires ParseGeneral(value).Success?
    ensures var m := ParseGeneral(value).value;
            && IsMediaType(m)
            && (AllTokens(m.parameters) ==>
                  LeadingOws(value) <= PrintedEnd(value, m.trailing) <= |value|
                  && Print(m) == value[LeadingOws(value)..PrintedEnd(value, m.trailing)])
  {
    hide ParseGeneral, ParseRest, IsParameter, IsSeparator, PrintRest, IsToken, PrintedEnd, LeadingOws, TrailingOws, Stands, AllTokens,
      Trim, EssenceEnd;
    var m := ParseGeneral(value).value;
    var end := EssenceEnd(value);
    var from := end - TrailingOws(value[..end]);
    GeneralParts(value);
    EssenceRead(value);
    ParsedRest(value, from, end, []);
    assert m.parameters[0..] == m.parameters;
    if AllTokens(m.parameters) {
      SlicesMeet(value, LeadingOws(value), from, PrintedEnd(value, m.trailing));
    }
  }

  lemma GeneralParts(value: bytes)
    requires ParseGeneral(value).Success?
    ensures var m := ParseGeneral(value).value;
            var end := EssenceEnd(value);
            && IsToken(m.typeName) && IsToken(m.subtype)
            && Trim(value[..end]) == m.typeName + [SLASH] + m.subtype
            && ParseRest(value, end - TrailingOws(value[..end]), end, []) == Success((m.parameters, m.trailing))
  {
    hide ParseRest, IsToken, Trim, TrailingOws;
    var essence := Trim(value[..EssenceEnd(value)]);
    var slash := Find(essence, SLASH, 0);
    assert essence == essence[..slash] + [SLASH] + essence[slash + 1..];
  }

  lemma {:induction false} SuffixTrailing(s: bytes, lead: nat)
    requires lead <= |s| && TrailingOws(s[lead..]) < |s| - lead
    ensures TrailingOws(s) == TrailingOws(s[lead..])
    decreases |s|
  {
    var n := |s| - 1;
    assert s[lead..][|s[lead..]| - 1] == s[n];
    if IsLws(s[n]) {
      assert s[lead..][..|s[lead..]| - 1] == s[..n][lead..];
      SuffixTrailing(s[..n], lead);
    }
  }

  lemma DropThenTake(s: bytes, lead: nat, n: nat)
    requires lead + n <= |s|
    ensures s[lead..][..n] == s[lead..lead + n]
  {
  }

  lemma TrimUnfolds(s: bytes, inner: bytes)
    requires inner == s[LeadingOws(s)..]
    ensures Trim(s) == inner[..|inner| - TrailingOws(inner)]
  {
    hide LeadingOws, TrailingOws;
  }

  lemma TrimIs(s: bytes, lead: nat, inner: bytes, n: nat)
    requires lead == LeadingOws(s) && inner == s[lead..] && n == TrailingOws(inner) && Trim(s) != []
    ensures n == TrailingOws(s) && lead < |s| - n && Trim(s) == s[lead..|s| - n]
  {
    hide *;
    TrimUnfolds(s, inner);
    SuffixTrailing(s, lead);
    DropThenTake(s, lead, |s| - lead - n);
  }

  lemma EssenceRead(value: bytes)
    requires Trim(value[..EssenceEnd(value)]) != []
    ensures var end := EssenceEnd(value);
            var from := end - TrailingOws(value[..end]);
            && Stands(value, from, end)
            && LeadingOws(value) <= from && Trim(value[..end]) == value[LeadingOws(value)..from]
  {
    hide LeadingOws, TrailingOws, Trim, EssenceEnd, Stands;
    var end := EssenceEnd(value);
    var outer := value[..end];
    var lead := LeadingOws(outer);
    TrimIs(outer, lead, outer[lead..], TrailingOws(outer[lead..]));
    var from := end - TrailingOws(outer);
    LeadingWithin(value, end);
    StandsAfter(value, end);
    assert outer[lead..from] == value[lead..from];
  }

  lemma LeadingWithin(value: bytes, end: nat)
    requires end <= |value| && LeadingOws(value[..end]) < end
    ensures LeadingOws(value) == LeadingOws(value[..end])
  {
    hide LeadingOws;
    var outer := value[..end];
    assert forall i | 0 <= i < end :: outer[i] == value[i];
    LeadingIs(value, LeadingOws(outer));
  }

  lemma StandsAfter(value: bytes, end: nat)
    requires end <= |value| && TrailingOws(value[..end]) < end && (end < |value| ==> value[end] == SEMICOLON)
    ensures Stands(value, end - TrailingOws(value[..end]), end)
  {
    hide TrailingOws;
    var outer := value[..end];
    assert forall i | 0 <= i < end :: value[i] == outer[i];
  }

  // ---------------------------------------------------------------------------------------------
  // The whole value
  // ---------------------------------------------------------------------------------------------

  lemma AsciiToken(s: string)
    requires s != "" && forall i | 0 <= i < |s| :: s[i] < 128 as char && IsTokenChar(s[i] as int as byte)
    ensures IsToken(Ascii(s))
  {
  }

  lemma SpelledIs(typeName: string, subtype: string, parameters: seq<Parameter>, rest: string, spelling: string)
    requires IsToken(Ascii(typeName)) && IsToken(Ascii(subtype))
    requires forall i | 0 <= i < |parameters| :: IsParameter(parameters[i])
    requires PrintRest(parameters, []) == Ascii(rest) && spelling == typeName + "/" + subtype + rest
    ensures ParseGeneral(Ascii(spelling)) == Success(Constant(typeName, subtype, parameters))
  {
    hide IsToken, IsParameter, PrintRest, ParseGeneral, Ascii;
    var m := Constant(typeName, subtype, parameters);
    SlashIs();
    AsciiConcat(typeName, "/");
    AsciiConcat(typeName + "/", subtype);
    AsciiConcat(typeName + "/" + subtype, rest);
    PrintedReadsBack(m);
  }

  lemma SlashIs()
    ensures Ascii("/") == [SLASH]
  {
  }

  lemma AsciiConcat(s: string, t: string)
    ensures Ascii(s) + Ascii(t) == Ascii(s + t)
  {
  }

  /** One parameter after a separator, spelled out. */
  lemma MessageTypeIs(separator: string, value: string)
    requires IsSeparator(Ascii(separator)) && IsToken(Ascii(value))
    ensures var parameters := MessageType(separator, value);
            && PrintRest(parameters, []) == Ascii(separator + ("msgtype=" + value))
            && forall i | 0 <= i < |parameters| :: IsParameter(parameters[i])
  {
    hide LeadingOws, IsSeparator, IsToken, Ascii;
    var p := MessageType(separator, value)[0];
    MsgtypeIsToken();
    AsciiConcat("msgtype=", value);
    AsciiConcat(separator, "msgtype=" + value);
    OneToPrint([p], []);
    NoneToPrint([]);
    assert PrintContent(p) + [] == Ascii("msgtype=") + Ascii(value);
  }

  lemma MsgtypeIsToken()
    ensures IsToken(Ascii("msgtype")) && Ascii("msgtype") + [EQUALS] == Ascii("msgtype=")
  {
    AsciiToken("msgtype");
  }

  lemma SeparatorsAre()
    ensures IsSeparator(Ascii(";")) && IsSeparator(Ascii("; "))
  {
    LeadingIs(Ascii(";"), 0);
    LeadingIs(Ascii("; "), 0);
  }

  lemma TokensAre()
    ensures IsToken(Ascii("application")) && IsToken(Ascii("http")) && IsToken(Ascii("request")) && IsToken(Ascii("response"))
    ensures IsToken(Ascii("warc-fields")) && IsToken(Ascii("octet-stream")) && IsToken(Ascii("json"))
    ensures IsToken(Ascii("text")) && IsToken(Ascii("plain")) && IsToken(Ascii("dns"))
  {
    hide IsToken;
    AsciiToken("application");
    AsciiToken("http");
    AsciiToken("request");
    AsciiToken("response");
    AsciiToken("warc-fields");
    AsciiToken("octet-stream");
    AsciiToken("json");
    AsciiToken("text");
    AsciiToken("plain");
    AsciiToken("dns");
  }

  lemma BareIs(typeName: string, subtype: string, spelling: string)
    requires IsToken(Ascii(typeName)) && IsToken(Ascii(subtype)) && spelling == typeName + "/" + subtype
    ensures ParseGeneral(Ascii(spelling)) == Success(Constant(typeName, subtype, []))
  {
    hide IsToken, ParseGeneral;
    assert spelling == typeName + "/" + subtype + "";
    SpelledIs(typeName, subtype, [], "", spelling);
  }

  lemma MessageIs(separator: string, value: string, spelling: string)
    requires IsSeparator(Ascii(separator)) && IsToken(Ascii(value))
    requires spelling == "application" + "/" + "http" + (separator + ("msgtype=" + value))
    ensures ParseGeneral(Ascii(spelling)) == Success(Constant("application", "http", MessageType(separator, value)))
  {
    hide IsToken, ParseGeneral, IsSeparator, IsParameter, PrintRest, Ascii, MessageType, Constant;
    TokensAre();
    MessageTypeIs(separator, value);
    SpelledIs("application", "http", MessageType(separator, value), separator + ("msgtype=" + value), spelling);
  }

  lemma MessagesAgree()
    ensures ParseGeneral(Ascii("application/http;msgtype=request")) == Success(HTTP_REQUEST)
    ensures ParseGeneral(Ascii("application/http;msgtype=response")) == Success(HTTP_RESPONSE)
  {
    hide ParseGeneral, Ascii, MessageType, Constant, IsToken, IsSeparator;
    TokensAre();
    SeparatorsAre();
    MessageIs(";", "request", "application/http;msgtype=request");
    MessageIs(";", "response", "application/http;msgtype=response");
  }

  lemma SpacedMessagesAgree()
    ensures ParseGeneral(Ascii("application/http; msgtype=request")) == Success(HTTP_REQUEST_SPACE)
    ensures ParseGeneral(Ascii("application/http; msgtype=response")) == Success(HTTP_RESPONSE_SPACE)
  {
    hide ParseGeneral, Ascii, MessageType, Constant, IsToken, IsSeparator;
    TokensAre();
    SeparatorsAre();
    MessageIs("; ", "request", "application/http; msgtype=request");
    MessageIs("; ", "response", "application/http; msgtype=response");
  }

  lemma BaresAgree()
    ensures ParseGeneral(Ascii("application/warc-fields")) == Success(WARC_FIELDS)
    ensures ParseGeneral(Ascii("application/octet-stream")) == Success(OCTET_STREAM)
    ensures ParseGeneral(Ascii("application/json")) == Success(JSON)
    ensures ParseGeneral(Ascii("application/http")) == Success(HTTP)
    ensures ParseGeneral(Ascii("text/plain")) == Success(TEXT_PLAIN)
    ensures ParseGeneral(Ascii("text/dns")) == Success(TEXT_DNS)
  {
    hide ParseGeneral, Ascii, MessageType, Constant, IsToken, IsSeparator;
    TokensAre();
    BareIs("application", "warc-fields", "application/warc-fields");
    BareIs("application", "octet-stream", "application/octet-stream");
    BareIs("application", "json", "application/json");
    BareIs("application", "http", "application/http");
    BareIs("text", "plain", "text/plain");
    BareIs("text", "dns", "text/dns");
  }

  /** The constants taken from the fast path are what the general path makes of their spellings. */
  lemma FastPathAgrees(value: bytes)
    ensures ParseValue(value) == ParseGeneral(value)
  {
    hide ParseGeneral, Ascii, MessageType, Constant;
    MessagesAgree();
    SpacedMessagesAgree();
    BaresAgree();
  }

  /**
   * What is accepted is printed in a form that is read as the same value, separators, a semicolon
   * that closes it and quoted semicolons included; and unless something is quoted, that form is what
   * was read, without the white space around it.
   */
  lemma RoundTrip(value: bytes)
    requires ParseValue(value).Success?
    ensures var m := ParseValue(value).value;
            && IsMediaType(m) && ParseValue(Print(m)) == Success(m)
            && (AllTokens(m.parameters) ==>
                  LeadingOws(value) <= PrintedEnd(value, m.trailing) <= |value|
                  && Print(m) == value[LeadingOws(value)..PrintedEnd(value, m.trailing)])
  {
    hide *;
    FastPathAgrees(value);
    ParsedIsMediaType(value);
    var m := ParseGeneral(value).value;
    PrintedReadsBack(m);
    FastPathAgrees(Print(m));
  }

  /** Just the well-formed media types are read from their printed form, so no two print alike. */
  lemma PrintIsInjective(a: MediaType, b: MediaType)
    requires IsMediaType(a) && IsMediaType(b) && Print(a) == Print(b)
    ensures a == b
  {
    hide *;
    PrintedReadsBack(a);
    PrintedReadsBack(b);
  }
}
