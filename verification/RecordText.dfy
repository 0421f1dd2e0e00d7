/**
 * The octets of one record, and that reading them does not depend on what stands around them.
 */
module RecordText {
  import opened Bytes
  import opened Framing
  import Raw
  import RawRoundTrip

  /** The octets are whole blank lines. */
  ghost predicate AllBlank(s: bytes) {
    Padding(s, 0).1 == |s|
  }

  /** The octets are one record, read as `record`, which opens with no blank line. */
  ghost predicate IsRecord(text: bytes, record: Raw.Record) {
    && BlankAt(text, 0) == 0
    && var header := HeaderAt(Input(text, Clean), 0);
    && header.GotHeader?
    && header.header == record.header
    && header.body + header.length + 4 == |text|
    && BodyAt(Input(text, Clean), header.body, header.length) == Success(record.body)
  }

  // ---------------------------------------------------------------------------------------------
  // Blank lines
  // ---------------------------------------------------------------------------------------------

  lemma BlankAtShift(x: bytes, t: bytes, i: nat)
    ensures BlankAt(x + t, |x| + i) == BlankAt(t, i)
  {
  }

  lemma {:induction false} PaddingShift(x: bytes, t: bytes, i: nat)
    requires i <= |t|
    ensures Padding(x + t, |x| + i) == (Padding(t, i).0, |x| + Padding(t, i).1)
    decreases |t| - i
  {
    hide BlankAt;
    BlankAtShift(x, t, i);
    var n := BlankAt(t, i);
    if n != 0 {
      PaddingShift(x, t, i + n);
    }
  }

  lemma BlankAtPrefix(b: bytes, t: bytes, i: nat)
    requires BlankAt(b, i) != 0
    ensures BlankAt(b + t, i) == BlankAt(b, i)
  {
  }

  /** Blank lines before a text are counted on top of the ones it opens with. */
  lemma {:induction false} PaddingOver(b: bytes, t: bytes, i: nat)
    requires i <= |b| && Padding(b, i).1 == |b|
    ensures Padding(b + t, i) == (Padding(b, i).0 + Padding(t, 0).0, |b| + Padding(t, 0).1)
    decreases |b| - i
  {
    hide BlankAt;
    if i == |b| {
      PaddingShift(b, t, 0);
    } else {
      BlankAtPrefix(b, t, i);
      PaddingOver(b, t, i + BlankAt(b, i));
    }
  }

  /** The octets from `p` to where the padding there stops are whole blank lines. */
  lemma {:induction false} PaddingIsBlank(s: bytes, p: nat, q: nat)
    requires p <= q <= |s| && LineStart(s, p, q)
    ensures AllBlank(s[p..q])
    ensures Padding(s, p) == (Padding(s[p..q], 0).0 + Padding(s, q).0, Padding(s, q).1)
    decreases q - p
  {
    if p < q {
      var n := BlankAt(s, p);
      LineStartWithin(s, p + n, q);
      PaddingIsBlank(s, p + n, q);
      var line := s[p..p + n];
      assert s[p..q] == line + s[p + n..q];
      assert BlankAt(line, 0) == n;
      PaddingOver(line, s[p + n..q], 0);
    } else {
      assert s[p..q] == [];
    }
  }

  /** `r` is where a line stands that is reached from `p` over whole blank lines. */
  ghost predicate LineStart(s: bytes, p: nat, r: nat)
    requires p <= |s|
    decreases |s| - p
  {
    p == r || (BlankAt(s, p) != 0 && LineStart(s, p + BlankAt(s, p), r))
  }

  lemma {:induction false} PaddingStops(s: bytes, p: nat)
    requires p <= |s|
    ensures LineStart(s, p, Padding(s, p).1)
    decreases |s| - p
  {
    if BlankAt(s, p) != 0 {
      PaddingStops(s, p + BlankAt(s, p));
    }
  }

  lemma {:induction false} LineStartWithin(s: bytes, p: nat, r: nat)
    requires p <= |s| && LineStart(s, p, r)
    ensures p <= r <= Padding(s, p).1
    ensures LineStart(s, r, Padding(s, p).1)
    decreases |s| - p
  {
    if p != r {
      LineStartWithin(s, p + BlankAt(s, p), r);
    } else {
      PaddingStops(s, p);
    }
  }

  // ---------------------------------------------------------------------------------------------
  // Records read alike wherever they stand
  // ---------------------------------------------------------------------------------------------

  /** The two inputs hold the same octets, from `q` up to `end` in one and from `q'` in the other. */
  ghost predicate Same(a: Input, q: nat, end: nat, b: Input, q': nat) {
    && q <= end <= |a.octets| && q' + (end - q) <= |b.octets|
    && a.octets[q..end] == b.octets[q'..q' + (end - q)]
  }

  lemma LineIsLocal(a: Input, q: nat, end: nat, b: Input, q': nat, e: nat, allowance: nat)
    requires Same(a, q, end, b, q')
    requires q <= e <= end
    requires var read := LineOutcome(a, e, allowance); read.Success? && read.value.Line? && e + read.value.length <= end
    ensures LineOutcome(b, q' + (e - q), allowance) == LineOutcome(a, e, allowance)
  {
    var lineFeed := Find(a.octets, LF, e);
    assert forall k | q <= k < end :: a.octets[k] == a.octets[q..end][k - q];
    assert forall k | q' <= k < q' + (end - q) :: b.octets[k] == b.octets[q'..q' + (end - q)][k - q'];
    forall k | q' + (e - q) <= k < q' + (lineFeed - q)
      ensures b.octets[k] != LF
    {
      assert a.octets[q + (k - q')] != LF;
    }
    FindUnique(b.octets, LF, q' + (e - q), q' + (lineFeed - q));
  }

  /** A block that ends is made of lines, each read within the limit. */
  lemma BlockLine(input: Input, q: nat, e: nat)
    requires q <= e <= |input.octets| && e - q <= MAX_HEADER_BLOCK
    ensures var read := LineOutcome(input, e, MAX_HEADER_BLOCK - (e - q));
            && (BlockFrom(input, q, e).Block? ==> read.Success? && read.value.Line?)
            && (read.Success? && read.value.Line? ==>
                  var n := read.value.length;
                  && 0 < n && e + n <= |input.octets| && e + n - q <= MAX_HEADER_BLOCK
                  && BlockFrom(input, q, e) == if n == 2 && input.octets[e] == CR then Block(e + 2) else BlockFrom(input, q, e + n))
  {
  }

  lemma {:induction false} BlockIsLocal(a: Input, q: nat, end: nat, b: Input, q': nat, e: nat)
    requires Same(a, q, end, b, q')
    requires q <= e <= |a.octets| && e - q <= MAX_HEADER_BLOCK
    requires BlockFrom(a, q, e).Block? && BlockFrom(a, q, e).end <= end
    ensures q' + (e - q) <= |b.octets|
    ensures BlockFrom(b, q', q' + (e - q)) == Block(q' + (BlockFrom(a, q, e).end - q))
    decreases |a.octets| - e
  {
    hide LineOutcome, BlockFrom;
    BlockLine(a, q, e);
    var n := LineOutcome(a, e, MAX_HEADER_BLOCK - (e - q)).value.length;
    LineIsLocal(a, q, end, b, q', e, MAX_HEADER_BLOCK - (e - q));
    BlockLine(b, q', q' + (e - q));
    assert a.octets[e] == a.octets[q..end][e - q] == b.octets[q' + (e - q)];
    if !(n == 2 && a.octets[e] == CR) {
      BlockIsLocal(a, q, end, b, q', e + n);
    }
  }

  lemma RecordIsLocal(a: Input, q: nat, b: Input, q': nat, end: nat)
    requires q <= |a.octets| && HeaderAt(a, q).GotHeader?
    requires var h := HeaderAt(a, q);
             end == h.body + h.length + 4 <= |a.octets| && BodyAt(a, h.body, h.length).Success?
    requires Same(a, q, end, b, q')
    ensures var h := HeaderAt(a, q);
            && HeaderAt(b, q') == GotHeader(h.header, h.length, q' + (h.body - q))
            && q' + (h.body - q) <= |b.octets|
            && BodyAt(b, q' + (h.body - q), h.length) == BodyAt(a, h.body, h.length)
  {
    hide Raw.ParseHeader, BlockFrom;
    var h := HeaderAt(a, q);
    BlockIsLocal(a, q, end, b, q', q);
    SliceOfSame(a, q, end, b, q', q, h.body);
    SliceOfSame(a, q, end, b, q', h.body, h.body + h.length);
    SliceOfSame(a, q, end, b, q', h.body + h.length, end);
  }

  lemma SliceOfSame(a: Input, q: nat, end: nat, b: Input, q': nat, i: nat, j: nat)
    requires Same(a, q, end, b, q') && q <= i <= j <= end
    ensures a.octets[i..j] == b.octets[q' + (i - q)..q' + (j - q)]
  {
    assert a.octets[i..j] == a.octets[q..end][i - q..j - q];
    assert b.octets[q' + (i - q)..q' + (j - q)] == b.octets[q'..q' + (end - q)][i - q..j - q];
  }

  /** A record read from a stream is read from its octets alone. */
  lemma StepReadsText(input: Input, p: nat, before: nat)
    requires p <= |input.octets| && StepAt(input, p, before).Got?
    ensures var step := StepAt(input, p, before);
            && step.next <= |input.octets|
            && step.item.offset == Padding(input.octets, p).1
            && IsRecord(input.octets[step.item.offset..step.next], step.item.value.value)
  {
    hide HeaderAt, BodyAt, Padding, BlankAt;
    var step := StepAt(input, p, before);
    var q := step.item.offset;
    assert BlankAt(input.octets, q) == 0;
    var text := input.octets[q..step.next];
    RecordIsLocal(input, q, Input(text, Clean), 0, step.next);
    BlankAtSlice(input.octets, q, step.next);
  }

  lemma BlankAtSlice(s: bytes, q: nat, end: nat)
    requires q <= end <= |s| && BlankAt(s, q) == 0
    ensures BlankAt(s[q..end], 0) == 0
  {
  }

  lemma TextIsLong(text: bytes, record: Raw.Record)
    requires IsRecord(text, record)
    ensures |text| > 4
  {
  }

  /** Wherever the octets of a record stand, they are read as that record, up to their end. */
  lemma TextReads(text: bytes, record: Raw.Record, input: Input, q: nat)
    requires IsRecord(text, record)
    requires q + |text| <= |input.octets| && input.octets[q..q + |text|] == text
    ensures var h := HeaderAt(input, q);
            && h.GotHeader? && h.header == record.header
            && h.body + h.length + 4 == q + |text|
            && BodyAt(input, h.body, h.length) == Success(record.body)
  {
    hide HeaderAt, BodyAt, BlankAt;
    var h := HeaderAt(Input(text, Clean), 0);
    assert text[0..|text|] == text;
    assert BodyAt(Input(text, Clean), h.body, h.length) == Success(record.body);
    RecordIsLocal(Input(text, Clean), 0, input, q, |text|);
  }

  lemma TextOpensNoBlank(text: bytes, record: Raw.Record, rest: bytes)
    requires IsRecord(text, record)
    ensures Padding(text + rest, 0) == (0, 0)
  {
    TextIsLong(text, record);
    assert (text + rest)[0] == text[0] && (text + rest)[1] == text[1];
  }

  /** A record after some blank lines, with anything after it, is the next item read. */
  lemma StepOverText(input: Input, p: nat, before: nat, blank: bytes, text: bytes, rest: bytes, record: Raw.Record)
    requires p <= |input.octets| && input.octets[p..] == blank + (text + rest)
    requires AllBlank(blank) && IsRecord(text, record)
    ensures var q := p + |blank|;
            && Padding(input.octets, p).0 == Padding(blank, 0).0 && Padding(input.octets, p).1 == q
            && StepAt(input, p, before).Got?
            && StepAt(input, p, before).item == Item(Padding(blank, 0).0, q, Success(record))
            && StepAt(input, p, before).next == q + |text|
  {
    hide *;
    var s := input.octets;
    PaddingBefore(s, p, blank, text + rest, blank + (text + rest));
    TextOpensNoBlank(text, record, rest);
    SliceOfThree(s, p, blank, text, rest);
    TextStep(input, p, before, text, record);
  }

  lemma PaddingOfTail(s: bytes, p: nat)
    requires p <= |s|
    ensures Padding(s, p).0 == Padding(s[p..], 0).0
    ensures Padding(s, p).1 == p + Padding(s[p..], 0).1
  {
    hide *;
    assert s[..p] + s[p..] == s;
    PaddingShift(s[..p], s[p..], 0);
  }

  lemma PaddingOfBlank(blank: bytes, t: bytes)
    requires AllBlank(blank)
    ensures Padding(blank + t, 0).0 == Padding(blank, 0).0 + Padding(t, 0).0
    ensures Padding(blank + t, 0).1 == |blank| + Padding(t, 0).1
  {
    hide Padding;
    PaddingOver(blank, t, 0);
  }

  lemma PaddingBefore(s: bytes, p: nat, blank: bytes, t: bytes, tail: bytes)
    requires p <= |s| && s[p..] == tail && tail == blank + t && AllBlank(blank)
    ensures Padding(s, p).0 == Padding(blank, 0).0 + Padding(t, 0).0
    ensures Padding(s, p).1 == p + |blank| + Padding(t, 0).1
  {
    hide *;
    PaddingOfTail(s, p);
    PaddingOfBlank(blank, t);
  }

  lemma SliceOfThree(s: bytes, p: nat, blank: bytes, text: bytes, rest: bytes)
    requires p <= |s| && s[p..] == blank + (text + rest)
    ensures var q := p + |blank|; q + |text| <= |s| && s[q..q + |text|] == text
  {
    var q := p + |blank|;
    assert s[q..q + |text|] == s[p..][|blank|..|blank| + |text|];
  }

  lemma TextStep(input: Input, p: nat, before: nat, text: bytes, record: Raw.Record)
    requires p <= |input.octets| && IsRecord(text, record)
    requires var q := Padding(input.octets, p).1; q + |text| <= |input.octets| && input.octets[q..q + |text|] == text
    ensures var (count, q) := Padding(input.octets, p);
            && StepAt(input, p, before).Got?
            && StepAt(input, p, before).item == Item(count, q, Success(record))
            && StepAt(input, p, before).next == q + |text|
  {
    hide HeaderAt, BodyAt, Padding, BlankAt, IsRecord, LineOutcome;
    var q := Padding(input.octets, p).1;
    TextReads(text, record, input, q);
    HeaderLineRead(input, q);
  }

  /** A header that is read has a first line, so the blank lines before it are reported. */
  lemma HeaderLineRead(input: Input, q: nat)
    requires q <= |input.octets| && HeaderAt(input, q).GotHeader?
    ensures LineOutcome(input, q, MAX_HEADER_BLOCK).Success?
  {
    hide LineOutcome, Raw.ParseHeader;
    BlockLine(input, q, q);
  }

  // ---------------------------------------------------------------------------------------------
  // Records and their printed form
  // ---------------------------------------------------------------------------------------------

  /** A record that can be written, and whose octets a reader can take. */
  ghost predicate Storable(record: Raw.Record) {
    && Raw.ValidateRecord(record).Success?
    && |Raw.RenderHeader(record.header)| <= MAX_HEADER_BLOCK
    && |record.body| + 4 <= MAX_USIZE
  }

  /** The reader finds the end of a block where the parser of headers asks for it. */
  lemma {:induction false} FieldsEndBlock(block: bytes, c: nat, done: seq<Raw.Field>, length: Option<nat>, input: Input)
    requires block <= input.octets && c <= |block| <= MAX_HEADER_BLOCK
    requires Raw.ParseFields(block, c, done, length).Success?
    ensures BlockFrom(input, 0, c) == Block(|block|)
    decreases |block| - c
  {
    hide Raw.ParseFields, Raw.FieldAt, Raw.LengthAfter, Raw.RawLine, BlockFrom, LineOutcome;
    RawRoundTrip.ParseStep(block, c, done, length);
    RawLineIsRead(block, c, input);
    BlockLine(input, 0, c);
    var e := Raw.RawLine(block, c).value.0;
    if e != c {
      var (f, next) := Raw.FieldAt(block, c, e).value;
      ContinuationsEndBlock(block, c, e, input);
      FieldsEndBlock(block, next, done + [f], Raw.LengthAfter(f, length).value, input);
    } else {
      assert |block[c..]| == 2 && block[c] == block[c..][0] && input.octets[c] == block[c];
    }
  }

  lemma RawLineIsRead(block: bytes, c: nat, input: Input)
    requires block <= input.octets && c <= |block| <= MAX_HEADER_BLOCK
    requires Raw.RawLine(block, c).Success?
    ensures var e := Raw.RawLine(block, c).value.0;
            LineOutcome(input, c, MAX_HEADER_BLOCK - c) == Success(Line(e + 2 - c))
  {
    var e := Raw.RawLine(block, c).value.0;
    FindUnique(input.octets, LF, c, e + 1);
  }

  /** The lines of one field are read one after the other, none of them blank. */
  lemma ContinuationsEndBlock(block: bytes, c: nat, e: nat, input: Input)
    requires block <= input.octets && c < e && e + 2 <= |block| <= MAX_HEADER_BLOCK
    requires Raw.RawLine(block, c) == Success((e, e + 2))
    requires Raw.FieldAt(block, c, e).Success?
    ensures BlockFrom(input, 0, c) == BlockFrom(input, 0, Raw.FieldAt(block, c, e).value.1)
  {
    hide BlockFrom, Raw.RawLine, Raw.ValueEnd;
    RawLineIsRead(block, c, input);
    BlockLine(input, 0, c);
    ContinuationLines(block, e, input);
  }

  lemma {:induction false} ContinuationLines(block: bytes, e: nat, input: Input)
    requires block <= input.octets && e + 2 <= |block| <= MAX_HEADER_BLOCK
    requires Raw.ValueEnd(block, e, e + 2).Success?
    ensures BlockFrom(input, 0, e + 2) == BlockFrom(input, 0, Raw.ValueEnd(block, e, e + 2).value.1)
    decreases |block| - e
  {
    hide BlockFrom, Raw.RawLine;
    if e + 2 < |block| && IsLws(block[e + 2]) {
      RawLineIsRead(block, e + 2, input);
      BlockLine(input, 0, e + 2);
      var next := Raw.RawLine(block, e + 2).value.0;
      assert input.octets[e + 2] == block[e + 2];
      ContinuationLines(block, next, input);
    }
  }

  /** A block that parses is read as one block, whatever follows it. */
  lemma ParsedBlockIsRead(block: bytes, input: Input)
    requires block <= input.octets && |block| <= MAX_HEADER_BLOCK
    requires Raw.ParseHeader(block).Success?
    ensures BlockFrom(input, 0, 0) == Block(|block|)
  {
    hide Raw.ParseFields, Raw.RawLine, BlockFrom;
    RawLineIsRead(block, 0, input);
    BlockLine(input, 0, 0);
    var e := Raw.RawLine(block, 0).value.0;
    FirstLineIsLong(block, e);
    FieldsEndBlock(block, e + 2, [], None, input);
  }

  lemma FirstLineIsLong(block: bytes, e: nat)
    requires e <= |block| && Raw.ParseVersionLine(block[..e]).Success?
    ensures e >= 5
  {
  }

  lemma RenderingIsText(record: Raw.Record)
    requires Storable(record)
    ensures IsRecord(Raw.RenderRecord(record), record)
  {
    hide Raw.RenderHeader, Raw.ParseHeader, Raw.ValidateHeader;
    var block := Raw.RenderHeader(record.header);
    var text := Raw.RenderRecord(record);
    var input := Input(text, Clean);
    RawRoundTrip.ParseInvertsRender(record.header);
    assert block <= text && text[0..|block|] == block;
    ParsedBlockIsRead(block, input);
    var n := |record.body|;
    assert HeaderAt(input, 0) == GotHeader(record.header, n, |block|);
    assert text[|block|..|block| + n] == record.body;
    assert text[|block| + n..|block| + n + 4] == Raw.TERMINATOR;
    RenderingOpensWithVersion(record.header);
    assert text[0] == block[0];
  }

  lemma RenderingOpensWithVersion(h: Raw.Header)
    ensures Raw.RenderHeader(h) != [] && Raw.RenderHeader(h)[0] == 87
  {
  }

  lemma TextIsRendering(text: bytes, record: Raw.Record)
    requires IsRecord(text, record)
    ensures Storable(record) && text == Raw.RenderRecord(record)
  {
    hide Raw.RenderHeader, Raw.ParseHeader, Raw.ValidateHeader, BlockFrom;
    var input := Input(text, Clean);
    var h := HeaderAt(input, 0);
    var block := text[0..h.body];
    RawRoundTrip.RenderInvertsParse(block);
    assert text == block + text[h.body..h.body + h.length] + text[h.body + h.length..h.body + h.length + 4];
  }

  /** The octets read as a record are exactly the ones writing it emits. */
  lemma TextIffRendering(text: bytes, record: Raw.Record)
    ensures IsRecord(text, record) <==> Storable(record) && text == Raw.RenderRecord(record)
  {
    hide IsRecord, Storable, Raw.RenderRecord;
    if IsRecord(text, record) {
      TextIsRendering(text, record);
    }
    if Storable(record) && text == Raw.RenderRecord(record) {
      RenderingIsText(record);
    }
  }
}
