/** Parsing and printing a header block are inverse to each other. */
module RawRoundTrip {
  import opened Bytes
  import opened Parsing
  import opened Raw

  lemma {:induction false} RenderFieldsConcat(a: seq<Field>, b: seq<Field>)
    ensures RenderFields(a + b) == RenderFields(a) + RenderFields(b)
    decreases |b|
  {
    hide RenderField;
    if b == [] {
      assert a + b == a;
    } else {
      var b', last := b[..|b| - 1], b[|b| - 1];
      assert (a + b)[..|a + b| - 1] == a + b' && (a + b)[|a + b| - 1] == last;
      RenderFieldsConcat(a, b');
      ConcatAssociates(RenderFields(a), RenderFields(b'), RenderField(last));
    }
  }

  lemma RenderFieldsCons(fields: seq<Field>)
    requires fields != []
    ensures RenderFields(fields) == RenderField(fields[0]) + RenderFields(fields[1..])
  {
    assert fields == [fields[0]] + fields[1..];
    RenderFieldsConcat([fields[0]], fields[1..]);
    assert [fields[0]][..0] == [];
    assert RenderFields([fields[0]]) == RenderField(fields[0]);
  }

  // ---------------------------------------------------------------------------------------------
  // Parsing what was printed
  // ---------------------------------------------------------------------------------------------

  /** Every line feed from `p` up to `end` belongs to a fold that ends before `end`. */
  ghost predicate FoldsOnly(block: bytes, p: nat, end: nat)
    requires end <= |block|
  {
    forall k | p <= k < end && block[k] == LF ::
      k > p && block[k - 1] == CR && k + 1 < end && IsLws(block[k + 1])
  }

  lemma LineWithin(block: bytes, p: nat, end: nat)
    requires p < end && end + 2 <= |block|
    requires block[end] == CR && block[end + 1] == LF
    requires FoldsOnly(block, p, end)
    ensures RawLine(block, p).Success?
    ensures var e := RawLine(block, p).value.0;
            e <= end && block[e] == CR && (e < end ==> e + 2 < end && IsLws(block[e + 2]))
  {
    var l := Find(block, LF, p);
    assert l <= end + 1;
  }

  lemma {:induction false} ValueEndCovers(block: bytes, e: nat, end: nat)
    requires e <= end && end + 2 < |block|
    requires block[end] == CR && block[end + 1] == LF && !IsLws(block[end + 2])
    requires e < end ==> e + 2 < end && IsLws(block[e + 2]) && FoldsOnly(block, e + 2, end)
    ensures ValueEnd(block, e, e + 2) == Success((end, end + 2))
    decreases end - e
  {
    if e < end {
      LineWithin(block, e + 2, end);
      ValueEndCovers(block, RawLine(block, e + 2).value.0, end);
    }
  }

  /** The octets of a printed field stand in the block from `c` on. */
  ghost predicate Laid(block: bytes, c: nat, f: Field) {
    var colon := c + |f.name|;
    var end := colon + 1 + |f.value|;
    && end + 2 <= |block|
    && (forall k | c <= k < colon :: block[k] == f.name[k - c])
    && block[colon] == COLON
    && (forall k | colon < k < end :: block[k] == f.value[k - colon - 1])
    && block[end] == CR && block[end + 1] == LF
  }

  lemma RenderedIsLaid(block: bytes, c: nat, f: Field, rest: bytes)
    requires c <= |block| && block[c..] == RenderField(f) + rest
    ensures Laid(block, c, f)
    ensures block[c + |RenderField(f)|..] == rest
  {
    var text := RenderField(f) + rest;
    assert forall k | c <= k < c + |text| :: block[k] == text[k - c];
  }

  lemma LaidFolds(block: bytes, c: nat, f: Field)
    requires Laid(block, c, f)
    requires IsToken(f.name) && IsFolded(f.value)
    ensures FoldsOnly(block, c, c + |f.name| + 1 + |f.value|)
  {
    var start := c + |f.name| + 1;
    var end := start + |f.value|;
    forall k | c <= k < end && block[k] == LF
      ensures k > c && block[k - 1] == CR && k + 1 < end && IsLws(block[k + 1])
    {
      assert k < c + |f.name| ==> IsTokenChar(f.name[k - c]);
      var i := k - start;
      assert !Stray(f.value, i);
      assert FoldAt(f.value, i - 1);
    }
  }

  lemma LaidFirstLine(block: bytes, c: nat, e: nat, f: Field)
    requires Laid(block, c, f)
    requires IsToken(f.name)
    requires c <= e <= c + |f.name| + 1 + |f.value| && block[e] == CR
    ensures c + |f.name| < e
    ensures FieldLineOf(block[c..e]) == Some((|f.name|, |f.name|))
  {
    var n := |f.name|;
    assert e < c + n ==> IsTokenChar(f.name[e - c]);
    var line := block[c..e];
    assert forall k | 0 <= k < n :: line[k] == f.name[k];
    assert line[..n] == f.name;
    assert FieldLine(line, n, n);
    FieldLineUnique(line, n, n);
  }

  /** A printed field is read back from its lines, however they fold, up to what follows it. */
  lemma FieldReadsBack(block: bytes, c: nat, f: Field)
    requires Laid(block, c, f)
    requires IsToken(f.name) && IsFolded(f.value)
    requires var end := c + |f.name| + 1 + |f.value|; end + 2 < |block| && !IsLws(block[end + 2])
    ensures var line := RawLine(block, c);
            && line.Success? && c < line.value.0 && line.value.0 + 2 <= |block|
            && FieldAt(block, c, line.value.0) == Success((f, c + |RenderField(f)|))
  {
    hide IsToken, IsFolded, FieldAt, RawLine, ValueEnd, FieldLineOf;
    var n := |f.name|;
    var end := c + n + 1 + |f.value|;
    LaidFolds(block, c, f);
    LineWithin(block, c, end);
    var e := RawLine(block, c).value.0;
    LaidFirstLine(block, c, e, f);
    ValueEndCovers(block, e, end);
    FieldOfParts(block, c, e, f, end);
  }

  lemma FieldOfParts(block: bytes, c: nat, e: nat, f: Field, end: nat)
    requires c < e && e + 2 <= |block|
    requires FieldLineOf(block[c..e]) == Some((|f.name|, |f.name|))
    requires ValueEnd(block, e, e + 2) == Success((end, end + 2))
    requires Laid(block, c, f) && end == c + |f.name| + 1 + |f.value|
    requires IsFolded(f.value)
    ensures FieldAt(block, c, e) == Success((f, end + 2))
  {
    hide FieldLineOf, ValueEnd, IsFolded;
    assert block[c + |f.name| + 1..end] == f.value;
    assert block[c..c + |f.name|] == f.name;
  }

  /** What follows a printed field, another field or the closing blank line, continues no value. */
  lemma NextLineOpensNoFold(fields: seq<Field>, i: nat, length: Option<nat>)
    requires i < |fields|
    requires ValidateFrom(fields, i, length).Success?
    ensures var tail := RenderFields(fields[i + 1..]) + CRLF; !IsLws(tail[0])
  {
    var rest := fields[i + 1..];
    if rest != [] {
      TokensNotLws(fields, i, length);
      RenderFieldsCons(rest);
      assert (RenderFields(rest) + CRLF)[0] == rest[0].name[0];
      assert IsTokenChar(rest[0].name[0]);
    }
  }

  lemma NoFieldsPrintNothing(fields: seq<Field>)
    requires fields == []
    ensures RenderFields(fields) + CRLF == CRLF
  {
  }

  lemma BlankLineEnds(block: bytes, c: nat, done: seq<Field>, length: Option<nat>)
    requires c <= |block| && block[c..] == CRLF
    requires length.Some?
    ensures ParseFields(block, c, done, length) == Success((done, length.value))
  {
    assert block[c] == block[c..][0] && block[c + 1] == block[c..][1];
    FindUnique(block, LF, c, c + 1);
  }

  lemma ValidateStep(fields: seq<Field>, i: nat, length: Option<nat>)
    requires i < |fields|
    requires ValidateFrom(fields, i, length).Success?
    ensures IsToken(fields[i].name) && IsFolded(fields[i].value)
    ensures var next := LengthAfter(fields[i], length);
            next.Success? && ValidateFrom(fields, i, length) == ValidateFrom(fields, i + 1, next.value)
  {
  }

  lemma {:induction false} FieldsReadBack(block: bytes, c: nat, fields: seq<Field>, i: nat, length: Option<nat>)
    requires i <= |fields|
    requires c <= |block| && block[c..] == RenderFields(fields[i..]) + CRLF
    requires ValidateFrom(fields, i, length).Success?
    ensures ParseFields(block, c, fields[..i], length) == Success((fields, ValidateFrom(fields, i, length).value))
    decreases |fields| - i
  {
    hide ParseFields, FieldAt, LengthOf, IsContentLength, RenderField, RenderFields;
    if i == |fields| {
      assert fields[..i] == fields;
      NoFieldsPrintNothing(fields[i..]);
      BlankLineEnds(block, c, fields[..i], length);
    } else {
      var f := fields[i];
      var next := c + |RenderField(f)|;
      ValidateStep(fields, i, length);
      FieldThenRest(block, c, fields, i, length);
      FieldsReadBack(block, next, fields, i + 1, LengthAfter(f, length).value);
      assert fields[..i] + [f] == fields[..i + 1];
      FieldsStep(block, c, fields[..i], length, f, next);
    }
  }

  /** The field printed at `c` is read back, and the fields after it stand where it ends. */
  lemma FieldThenRest(block: bytes, c: nat, fields: seq<Field>, i: nat, length: Option<nat>)
    requires i < |fields| && c <= |block|
    requires block[c..] == RenderFields(fields[i..]) + CRLF
    requires ValidateFrom(fields, i, length).Success?
    ensures var line := RawLine(block, c);
            && line.Success? && c < line.value.0 && line.value.0 + 2 <= |block|
            && FieldAt(block, c, line.value.0) == Success((fields[i], c + |RenderField(fields[i])|))
    ensures c + |RenderField(fields[i])| <= |block|
    ensures block[c + |RenderField(fields[i])|..] == RenderFields(fields[i + 1..]) + CRLF
  {
    hide RenderFields, FieldAt, ValidateFrom, RawLine, IsToken, IsFolded, LengthAfter;
    var f := fields[i];
    var tail := RenderFields(fields[i + 1..]) + CRLF;
    ValidateStep(fields, i, length);
    NextLineOpensNoFold(fields, i, length);
    assert block[c..] == RenderField(f) + tail by {
      RenderFieldsCons(fields[i..]);
      assert fields[i..][1..] == fields[i + 1..];
    }
    RenderedIsLaid(block, c, f, tail);
    var next := c + |RenderField(f)|;
    assert block[next] == block[next..][0];
    FieldReadsBack(block, c, f);
  }

  lemma FieldsStep(block: bytes, c: nat, done: seq<Field>, length: Option<nat>, f: Field, next: nat)
    requires var line := RawLine(block, c);
             && line.Success? && c < line.value.0 && line.value.0 + 2 <= |block|
             && FieldAt(block, c, line.value.0) == Success((f, next))
    requires LengthAfter(f, length).Success?
    ensures ParseFields(block, c, done, length) == ParseFields(block, next, done + [f], LengthAfter(f, length).value)
  {
  }

  /** A validated tail of at least two fields opens its second field with a token character. */
  lemma TokensNotLws(fields: seq<Field>, i: nat, length: Option<nat>)
    requires i + 1 < |fields|
    requires ValidateFrom(fields, i, length).Success?
    ensures IsToken(fields[i + 1].name)
  {
    var length' := LengthAfter(fields[i], length);
    assert ValidateFrom(fields, i, length) == ValidateFrom(fields, i + 1, length'.value);
  }

  lemma VersionLineReadsBack(block: bytes, v: Version)
    requires VersionLine(v) <= block
    ensures RawLine(block, 0) == Success((8, 10))
    ensures ParseVersionLine(block[..8]) == Success(v)
  {
    assert block[..10] == VersionLine(v);
    assert forall k | 0 <= k < 10 :: block[k] == VersionLine(v)[k];
    FindUnique(block, LF, 0, 9);
    assert block[..8] == WARC + VersionText(v);
    assert block[..8][5..] == VersionText(v);
    var t := VersionText(v);
    assert IsUtf8From(t, 1);
  }

  /** Every header that validates is read back from its printed form, with its declared length. */
  lemma ParseInvertsRender(h: Header)
    requires ValidateHeader(h).Success?
    ensures ParseHeader(RenderHeader(h)) == Success((h, ValidateHeader(h).value))
  {
    var block := RenderHeader(h);
    assert block == VersionLine(h.version) + (RenderFields(h.fields) + CRLF);
    VersionLineReadsBack(block, h.version);
    assert block[10..] == RenderFields(h.fields) + CRLF;
    assert h.fields[0..] == h.fields && h.fields[..0] == [];
    FieldsReadBack(block, 10, h.fields, 0, None);
  }

  // ---------------------------------------------------------------------------------------------
  // Printing what was parsed
  // ---------------------------------------------------------------------------------------------

  lemma RawLineEndsInCrlf(block: bytes, c: nat)
    requires RawLine(block, c).Success?
    ensures var e := RawLine(block, c).value.0; block[e..e + 2] == CRLF
  {
  }

  lemma {:induction false} ValueEndsInCrlf(block: bytes, e: nat)
    requires e + 2 <= |block| && block[e..e + 2] == CRLF
    requires ValueEnd(block, e, e + 2).Success?
    ensures var v := ValueEnd(block, e, e + 2).value; block[v.0..v.1] == CRLF
    decreases |block| - e
  {
    hide RawLine;
    if e + 2 < |block| && IsLws(block[e + 2]) {
      RawLineEndsInCrlf(block, e + 2);
      ValueEndsInCrlf(block, RawLine(block, e + 2).value.0);
    }
  }

  /** The octets a field was read from are the octets it prints. */
  lemma FieldPrintsBack(block: bytes, c: nat, e: nat)
    requires c < e && e + 2 <= |block| && block[e..e + 2] == CRLF
    requires FieldAt(block, c, e).Success?
    ensures var (f, next) := FieldAt(block, c, e).value;
            IsToken(f.name) && IsFolded(f.value) && block[c..next] == RenderField(f)
  {
    hide ValueEnd, FieldLineOf, IsFolded;
    var (f, next) := FieldAt(block, c, e).value;
    var n := FieldLineOf(block[c..e]).value.0;
    ValueEndsInCrlf(block, e);
    NameOfLine(block, c, e, n);
    FourParts(block, c, c + n, c + n + 1, ValueEnd(block, e, e + 2).value.0, next);
  }

  lemma NameOfLine(block: bytes, c: nat, e: nat, n: nat)
    requires c < e <= |block|
    requires FieldLine(block[c..e], n, n)
    ensures c + n < e && block[c..c + n] == block[c..e][..n] && block[c + n] == COLON
  {
  }

  lemma FourParts(block: bytes, a: nat, b: nat, c: nat, d: nat, e: nat)
    requires a <= b <= c <= d <= e <= |block|
    ensures block[a..e] == block[a..b] + block[b..c] + block[c..d] + block[d..e]
  {
    SlicesMeet(block, a, b, c);
    SlicesMeet(block, a, c, d);
    SlicesMeet(block, a, d, e);
  }

  /** A successful parse either ends at a blank line or reads a field and goes on. */
  lemma ParseStep(block: bytes, c: nat, done: seq<Field>, length: Option<nat>)
    requires ParseFields(block, c, done, length).Success?
    ensures RawLine(block, c).Success?
    ensures var e := RawLine(block, c).value.0;
            if e == c then block[c..] == CRLF && length.Some? && ParseFields(block, c, done, length).value == (done, length.value)
            else
              && FieldAt(block, c, e).Success?
              && var (f, next) := FieldAt(block, c, e).value;
              && LengthAfter(f, length).Success?
              && ParseFields(block, c, done, length) == ParseFields(block, next, done + [f], LengthAfter(f, length).value)
  {
    hide FieldAt, LengthAfter, IsContentLength;
    RawLineEndsInCrlf(block, c);
    var e := RawLine(block, c).value.0;
    if e == c {
      assert block[c..] == block[e..e + 2];
    }
  }

  lemma ValidateStepBack(fields: seq<Field>, i: nat, length: Option<nat>)
    requires i < |fields| && IsToken(fields[i].name) && IsFolded(fields[i].value)
    requires LengthAfter(fields[i], length).Success?
    ensures ValidateFrom(fields, i, length) == ValidateFrom(fields, i + 1, LengthAfter(fields[i], length).value)
  {
    hide LengthOf, IsContentLength, IsToken, IsFolded;
  }

  lemma {:induction false} FieldsPrintBack(block: bytes, c: nat, done: seq<Field>, length: Option<nat>)
    requires c <= |block|
    requires ParseFields(block, c, done, length).Success?
    ensures var (all, n) := ParseFields(block, c, done, length).value;
            && done <= all
            && block[c..] == RenderFields(all[|done|..]) + CRLF
            && ValidateFrom(all, |done|, length) == Success(n)
    decreases |block| - c
  {
    hide ParseFields, FieldAt, LengthAfter, RenderField, RenderFields, IsToken, IsFolded, RawLine;
    ParseStep(block, c, done, length);
    RawLineEndsInCrlf(block, c);
    var e := RawLine(block, c).value.0;
    if e == c {
      NoFieldsPrintNothing(done[|done|..]);
    } else {
      var (f, next) := FieldAt(block, c, e).value;
      FieldPrintsBack(block, c, e);
      FieldsPrintBack(block, next, done + [f], LengthAfter(f, length).value);
      var (all, n) := ParseFields(block, c, done, length).value;
      assert all[|done|] == f;
      PrintedInOrder(block, c, next, all, |done|);
      ValidateStepBack(all, |done|, length);
    }
  }

  lemma PrintedInOrder(block: bytes, c: nat, next: nat, all: seq<Field>, i: nat)
    requires c <= next <= |block| && i < |all|
    requires block[c..next] == RenderField(all[i])
    requires block[next..] == RenderFields(all[i + 1..]) + CRLF
    ensures block[c..] == RenderFields(all[i..]) + CRLF
  {
    hide RenderField, RenderFields;
    RenderFieldsCons(all[i..]);
    assert all[i..][1..] == all[i + 1..];
    SlicesMeet(block, c, next, |block|);
    ConcatAssociates(RenderField(all[i]), RenderFields(all[i + 1..]), CRLF);
  }

  /** Every block that parses is printed back octet for octet, and validates to the same length. */
  lemma RenderInvertsParse(block: bytes)
    requires ParseHeader(block).Success?
    ensures var (h, n) := ParseHeader(block).value;
            RenderHeader(h) == block && ValidateHeader(h) == Success(n)
  {
    hide ParseFields, RawLine, ParseVersionLine, ValidateFrom, RenderFields, VersionText;
    var (h, n) := ParseHeader(block).value;
    var e := RawLine(block, 0).value.0;
    RawLineEndsInCrlf(block, 0);
    VersionPrintsBack(block[..e], h.version);
    FieldsPrintBack(block, e + 2, [], None);
    assert h.fields[0..] == h.fields;
    assert block == block[..e] + block[e..e + 2] + block[e + 2..];
    assert RenderHeader(h) == block[..e] + CRLF + (RenderFields(h.fields) + CRLF);
  }

  lemma VersionPrintsBack(line: bytes, v: Version)
    requires ParseVersionLine(line) == Success(v)
    ensures line == WARC + VersionText(v)
  {
    assert line == line[..5] + line[5..];
  }

  /**
   * The blocks that parse are exactly the printed forms of the headers that validate, and no two
   * such headers print alike.
   */
  lemma ParseAcceptsExactlyTheRendered(block: bytes, h: Header, n: nat)
    ensures ParseHeader(block) == Success((h, n)) <==> (RenderHeader(h) == block && ValidateHeader(h) == Success(n))
  {
    if ParseHeader(block) == Success((h, n)) {
      RenderInvertsParse(block);
    }
    if RenderHeader(h) == block && ValidateHeader(h) == Success(n) {
      ParseInvertsRender(h);
    }
  }

  // ---------------------------------------------------------------------------------------------
  // Validation against its declarative form
  // ---------------------------------------------------------------------------------------------

  ghost predicate WellFormedFrom(fields: seq<Field>, i: nat) {
    forall k | i <= k < |fields| :: IsToken(fields[k].name) && IsFolded(fields[k].value)
  }

  ghost predicate NoLengthFrom(fields: seq<Field>, i: nat) {
    forall k | i <= k < |fields| :: !IsContentLength(fields[k].name)
  }

  lemma {:induction false} ValidatedAfterLength(fields: seq<Field>, i: nat, declared: nat)
    requires i <= |fields|
    ensures ValidateFrom(fields, i, Some(declared)).Success? <==> WellFormedFrom(fields, i) && NoLengthFrom(fields, i)
    ensures ValidateFrom(fields, i, Some(declared)).Success? ==> ValidateFrom(fields, i, Some(declared)).value == declared
    decreases |fields| - i
  {
    if i < |fields| {
      ValidatedAfterLength(fields, i + 1, declared);
    }
  }

  lemma {:induction false} ValidatedBeforeLength(fields: seq<Field>, i: nat, n: nat)
    requires i <= |fields|
    ensures ValidateFrom(fields, i, None) == Success(n) <==> WellFormedFrom(fields, i) && OneLengthFrom(fields, i, n)
    decreases |fields| - i
  {
    hide LengthOf, IsContentLength, IsToken, IsFolded;
    if i < |fields| {
      if IsContentLength(fields[i].name) {
        FirstIsLength(fields, i, n);
        if LengthOf(fields[i].value).Success? {
          ValidatedAfterLength(fields, i + 1, LengthOf(fields[i].value).value);
        }
      } else {
        ValidatedBeforeLength(fields, i + 1, n);
        FirstIsNoLength(fields, i, n);
      }
    }
  }

  ghost predicate OneLengthFrom(fields: seq<Field>, i: nat, n: nat) {
    exists k | i <= k < |fields| :: OnlyFrom(fields, i, k, n)
  }

  lemma FirstIsLength(fields: seq<Field>, i: nat, n: nat)
    requires i < |fields| && IsContentLength(fields[i].name)
    ensures OneLengthFrom(fields, i, n) <==> LengthOf(fields[i].value) == Success(n) && NoLengthFrom(fields, i + 1)
  {
    hide LengthOf, IsContentLength;
    assert forall k | i < k < |fields| :: !OnlyFrom(fields, i, k, n);
    assert OnlyFrom(fields, i, i, n) <==> LengthOf(fields[i].value) == Success(n) && NoLengthFrom(fields, i + 1);
  }

  lemma FirstIsNoLength(fields: seq<Field>, i: nat, n: nat)
    requires i < |fields| && !IsContentLength(fields[i].name)
    ensures OneLengthFrom(fields, i, n) <==> OneLengthFrom(fields, i + 1, n)
  {
    hide LengthOf, IsContentLength;
    if OneLengthFrom(fields, i, n) {
      var k :| i <= k < |fields| && OnlyFrom(fields, i, k, n);
      assert OnlyFrom(fields, i + 1, k, n);
    }
    if OneLengthFrom(fields, i + 1, n) {
      var k :| i + 1 <= k < |fields| && OnlyFrom(fields, i + 1, k, n);
      assert OnlyFrom(fields, i, k, n);
    }
  }

  /** Of the fields from `i` on, the one at `k` alone declares a length, and it declares `n`. */
  ghost predicate OnlyFrom(fields: seq<Field>, i: nat, k: nat, n: nat)
    requires i <= k < |fields|
  {
    && IsContentLength(fields[k].name)
    && LengthOf(fields[k].value) == Success(n)
    && forall j | i <= j < |fields| && j != k :: !IsContentLength(fields[j].name)
  }

  /** `validate` accepts exactly the well-formed field lists with one well-formed length. */
  lemma ValidateIsDeclares(h: Header, n: nat)
    ensures ValidateHeader(h) == Success(n) <==> Declares(h, n)
  {
    hide LengthOf, IsContentLength, IsToken, IsFolded;
    ValidatedBeforeLength(h.fields, 0, n);
    assert forall k | 0 <= k < |h.fields| :: OnlyFrom(h.fields, 0, k, n) <==> DeclaredAt(h, k, n);
  }
}
