/** The renderer, which pushes fields and puts them in order in place (`src/record/render.rs`). */
module Rendering {
  import opened Bytes
  import opened Headers
  import opened Lens
  import opened LensNames
  import opened LensRoundTrip
  import opened Lifting
  import Raw

  // ---------------------------------------------------------------------------------------------
  // Conventional order
  // ---------------------------------------------------------------------------------------------

  ghost predicate IsSorted(lines: seq<HeaderLine>) {
    && (forall i | 0 <= i < |lines| :: lines[i].key <= EXTENSION)
    && forall i, j | 0 <= i < j < |lines| :: lines[i].key <= lines[j].key
  }

  lemma {:induction false} OfKeys(lines: seq<HeaderLine>, k: nat)
    ensures forall i | 0 <= i < |Of(lines, k)| :: Of(lines, k)[i].key == k
    decreases |lines|
  {
    if lines != [] {
      OfKeys(lines[..|lines| - 1], k);
    }
  }

  lemma {:induction false} OrderedFromIsSorted(lines: seq<HeaderLine>, from: nat)
    requires from <= EXTENSION + 1
    ensures IsSorted(OrderedFrom(lines, from))
    ensures forall i | 0 <= i < |OrderedFrom(lines, from)| :: OrderedFrom(lines, from)[i].key >= from
    decreases EXTENSION + 1 - from
  {
    hide Of;
    if from <= EXTENSION {
      OfKeys(lines, from);
      OrderedFromIsSorted(lines, from + 1);
    }
  }

  lemma OrderedStep(lines: seq<HeaderLine>, from: nat)
    requires from <= EXTENSION
    ensures OrderedFrom(lines, from) == Of(lines, from) + OrderedFrom(lines, from + 1)
  {
    hide Of;
  }

  lemma OrderedEnd(lines: seq<HeaderLine>)
    ensures OrderedFrom(lines, EXTENSION + 1) == []
  {
  }

  /** Lines in order are their own ordering: those of one rank, then those of greater ones. */
  lemma {:induction false} SortedIsOrdered(lines: seq<HeaderLine>, from: nat)
    requires from <= EXTENSION + 1 && IsSorted(lines) && forall i | 0 <= i < |lines| :: lines[i].key >= from
    ensures OrderedFrom(lines, from) == lines
    decreases EXTENSION + 1 - from
  {
    hide Of, OrderedFrom, IsSorted, Past;
    if from <= EXTENSION {
      var n := Past(lines, from, 0);
      RestIsLater(lines, from, n);
      SortedIsOrdered(lines[n..], from + 1);
      FirstThenRest(lines[..n], lines[n..], from);
      assert lines == lines[..n] + lines[n..];
    } else {
      OrderedEnd(lines);
      NothingLater(lines);
    }
  }

  lemma FirstThenRest(first: seq<HeaderLine>, rest: seq<HeaderLine>, from: nat)
    requires from <= EXTENSION && OrderedFrom(rest, from + 1) == rest
    requires forall i | 0 <= i < |first| :: first[i].key == from
    requires forall i | 0 <= i < |rest| :: rest[i].key > from
    ensures OrderedFrom(first + rest, from) == first + rest
  {
    hide Of, OrderedFrom;
    OfConcat(first, rest, from);
    OfAll(first, from, from);
    OfNoneBefore(rest, from);
    LaterOrder(first, rest, from, from + 1);
    OrderedStep(first + rest, from);
    assert first + [] == first;
  }

  lemma NothingLater(lines: seq<HeaderLine>)
    requires IsSorted(lines) && forall i | 0 <= i < |lines| :: lines[i].key > EXTENSION
    ensures lines == []
  {
    FirstKey(lines);
  }

  lemma FirstKey(lines: seq<HeaderLine>)
    requires IsSorted(lines)
    ensures lines != [] ==> lines[0].key <= EXTENSION
  {
  }

  lemma RestIsLater(lines: seq<HeaderLine>, from: nat, n: nat)
    requires IsSorted(lines) && n <= |lines| && (n < |lines| ==> lines[n].key > from)
    ensures IsSorted(lines[n..]) && forall i | 0 <= i < |lines[n..]| :: lines[n..][i].key >= from + 1
  {
    var rest := lines[n..];
    assert forall i | 0 <= i < |rest| :: rest[i] == lines[n + i];
  }

  /** Where the lines of a rank end, in sorted lines of that rank or greater. */
  function Past(lines: seq<HeaderLine>, key: nat, i: nat): (n: nat)
    requires i <= |lines|
    ensures i <= n <= |lines|
    ensures forall j | i <= j < n :: lines[j].key == key
    ensures n < |lines| ==> lines[n].key != key
    decreases |lines| - i
  {
    if i == |lines| || lines[i].key != key then i else Past(lines, key, i + 1)
  }

  lemma {:induction false} LaterOrder(first: seq<HeaderLine>, rest: seq<HeaderLine>, key: nat, from: nat)
    requires key < from <= EXTENSION + 1 && forall i | 0 <= i < |first| :: first[i].key == key
    ensures OrderedFrom(first + rest, from) == OrderedFrom(rest, from)
    decreases EXTENSION + 1 - from
  {
    hide Of;
    if from <= EXTENSION {
      OfConcat(first, rest, from);
      OfAll(first, key, from);
      assert [] + Of(rest, from) == Of(rest, from);
      LaterOrder(first, rest, key, from + 1);
    }
  }

  /** The lines of each field are the same, and in the same order. */
  ghost predicate SameFields(a: seq<HeaderLine>, b: seq<HeaderLine>) {
    forall k: nat | k <= EXTENSION :: Of(a, k) == Of(b, k)
  }

  lemma {:induction false} SameFieldsSameOrder(a: seq<HeaderLine>, b: seq<HeaderLine>, from: nat)
    requires from <= EXTENSION + 1 && SameFields(a, b)
    ensures OrderedFrom(a, from) == OrderedFrom(b, from)
    decreases EXTENSION + 1 - from
  {
    hide Of;
    if from <= EXTENSION {
      SameFieldsSameOrder(a, b, from + 1);
    }
  }

  /** The ordering is the one list in order of rank that keeps the lines of each field as they stood. */
  lemma OrderedIsStableSort(lines: seq<HeaderLine>, sorted: seq<HeaderLine>)
    ensures sorted == Ordered(lines) <==> IsSorted(sorted) && SameFields(sorted, lines)
  {
    hide Of, OrderedFrom, IsSorted;
    if sorted == Ordered(lines) {
      OrderedFromIsSorted(lines, 0);
      forall k: nat | k <= EXTENSION
        ensures Of(sorted, k) == Of(lines, k)
      {
        OrderedKeepsFields(lines, k);
      }
    }
    if IsSorted(sorted) && SameFields(sorted, lines) {
      SortedIsOrdered(sorted, 0);
      SameFieldsSameOrder(sorted, lines, 0);
    }
  }

  // ---------------------------------------------------------------------------------------------
  // Pushing
  // ---------------------------------------------------------------------------------------------

  /** The lines rendered so far for a record of one version and type. */
  class Renderer {
    const codec: Codec
    const version: Raw.Version
    const recordType: RecordType
    var headers: seq<HeaderLine>

    constructor (codec: Codec, version: Raw.Version, recordType: RecordType)
      ensures this.codec == codec && this.version == version && this.recordType == recordType && headers == []
    {
      this.codec, this.version, this.recordType, headers := codec, version, recordType, [];
    }

    /** Append a field holding a value, which the version must define and be able to spell. */
    method Push(field: nat, datum: bytes) returns (r: Option<RenderError>)
      requires field < EXTENSION
      modifies this`headers
      ensures r == (if !codec.writable(version, field, datum) then Some(Unwritable(STANDARD_NAMES[field]))
                    else if !DefinedIn(field, version) then Some(NotInVersion(field))
                    else None)
      ensures headers == old(headers) +
              if r.None? then [HeaderLine(STANDARD_NAMES[field], field, [SP] + codec.spell(version, field, datum), datum)] else []
    {
      hide STANDARD_NAMES;
      NamesCount();
      if !codec.writable(version, field, datum) {
        return Some(Unwritable(STANDARD_NAMES[field]));
      }
      if !DefinedIn(field, version) {
        return Some(NotInVersion(field));
      }
      headers := headers + [HeaderLine(STANDARD_NAMES[field], field, [SP] + codec.spell(version, field, datum), datum)];
      r := None;
    }

    /** Append a line for each value of a field. */
    method PushValues(field: nat, data: seq<bytes>) returns (r: Option<RenderError>)
      requires field < EXTENSION
      modifies this`headers
      ensures var pushed := Pushed(codec, version, field, data);
              && (pushed.Success? ==> r.None? && headers == old(headers) + pushed.value)
              && (pushed.Failure? ==> r == Some(pushed.error))
    {
      hide STANDARD_NAMES, Pushed;
      NamesCount();
      PushedNone(codec, version, field);
      assert data[..0] == [] && headers + [] == headers;
      for i := 0 to |data|
        invariant Pushed(codec, version, field, data[..i]).Success?
        invariant headers == old(headers) + Pushed(codec, version, field, data[..i]).value
      {
        PushedOneMore(codec, version, field, data, i);
        var fault := Push(field, data[i]);
        if fault.Some? {
          PushedFails(codec, version, field, data, i + 1);
          return fault;
        }
      }
      assert data[..|data|] == data;
      r := None;
    }

    /** Append every field of an order. */
    method PushFields(header: Header, order: seq<nat>) returns (r: Option<RenderError>)
      requires header.version == version && forall i | 0 <= i < |order| :: order[i] < EXTENSION
      modifies this`headers
      ensures var pushed := PushedAll(codec, header, order);
              && (pushed.Success? ==> r.None? && headers == old(headers) + pushed.value)
              && (pushed.Failure? ==> r == Some(pushed.error))
    {
      hide Pushed, ValuesFor;
      assert order[..0] == [] && headers + [] == headers;
      for i := 0 to |order|
        invariant PushedAll(codec, header, order[..i]).Success?
        invariant headers == old(headers) + PushedAll(codec, header, order[..i]).value
      {
        assert order[..i + 1][..i] == order[..i];
        ghost var before := PushedAll(codec, header, order[..i]).value;
        var fault := PushValues(order[i], ValuesFor(header, order[i]));
        if fault.Some? {
          PushedAllFails(codec, header, order, i + 1);
          return fault;
        }
        ConcatAssociates(old(headers), before, Pushed(codec, version, order[i], ValuesFor(header, order[i])).value);
      }
      assert order[..|order|] == order;
      r := None;
    }

    /** Append the fields that were kept as read. */
    method PushUnrecognized(fields: seq<(bytes, bytes)>) returns (r: Option<RenderError>)
      modifies this`headers
      ensures var pushed := PushedUnrecognized(codec, version, recordType, fields);
              && (pushed.Success? ==> r.None? && headers == old(headers) + pushed.value)
              && (pushed.Failure? ==> r == Some(pushed.error))
    {
      hide PushedAsRead;
      assert fields[..0] == [] && headers + [] == headers;
      for i := 0 to |fields|
        invariant PushedUnrecognized(codec, version, recordType, fields[..i]).Success?
        invariant headers == old(headers) + PushedUnrecognized(codec, version, recordType, fields[..i]).value
      {
        assert fields[..i + 1][..i] == fields[..i];
        var line := PushedAsRead(codec, version, recordType, fields[i]);
        if line.Failure? {
          UnrecognizedFails(codec, version, recordType, fields, i + 1);
          return Some(line.error);
        }
        headers := headers + [line.value];
      }
      assert fields[..|fields|] == fields;
      r := None;
    }

    /** Put the fields in conventional order: a sort by rank that keeps the lines of each field as they stand. */
    method CanonicalOrder()
      modifies this`headers
      ensures IsSorted(headers) && SameFields(headers, old(headers))
    {
      hide Of, Ordered;
      OrderedIsStableSort(headers, Ordered(headers));
      headers := Ordered(headers);
    }
  }

  lemma PushedNone(c: Codec, version: Raw.Version, field: nat)
    requires field < EXTENSION
    ensures Pushed(c, version, field, []) == Success([])
  {
  }

  lemma PushedOneMore(c: Codec, version: Raw.Version, field: nat, data: seq<bytes>, i: nat)
    requires field < EXTENSION && i < |data| && Pushed(c, version, field, data[..i]).Success?
    ensures |STANDARD_NAMES| > field
    ensures var pushed := Pushed(c, version, field, data[..i + 1]);
            if !c.writable(version, field, data[i]) then pushed == Failure(Unwritable(STANDARD_NAMES[field]))
            else if !DefinedIn(field, version) then pushed == Failure(NotInVersion(field))
            else
              && pushed.Success?
              && pushed.value == Pushed(c, version, field, data[..i]).value
                   + [HeaderLine(STANDARD_NAMES[field], field, [SP] + c.spell(version, field, data[i]), data[i])]
  {
    hide STANDARD_NAMES;
    NamesCount();
    assert data[..i + 1][..i] == data[..i];
  }

  lemma {:induction false} PushedFails(c: Codec, version: Raw.Version, field: nat, data: seq<bytes>, i: nat)
    requires field < EXTENSION && i <= |data| && Pushed(c, version, field, data[..i]).Failure?
    ensures Pushed(c, version, field, data) == Pushed(c, version, field, data[..i])
    decreases |data|
  {
    hide STANDARD_NAMES;
    NamesCount();
    if i < |data| {
      assert data[..|data| - 1][..i] == data[..i];
      PushedFails(c, version, field, data[..|data| - 1], i);
    } else {
      assert data[..i] == data;
    }
  }

  lemma {:induction false} PushedAllFails(c: Codec, header: Header, order: seq<nat>, i: nat)
    requires (forall j | 0 <= j < |order| :: order[j] < EXTENSION) && i <= |order| && PushedAll(c, header, order[..i]).Failure?
    ensures PushedAll(c, header, order) == PushedAll(c, header, order[..i])
    decreases |order|
  {
    hide Pushed, ValuesFor;
    if i < |order| {
      assert order[..|order| - 1][..i] == order[..i];
      PushedAllFails(c, header, order[..|order| - 1], i);
    } else {
      assert order[..i] == order;
    }
  }

  lemma {:induction false} UnrecognizedFails(c: Codec, version: Raw.Version, t: RecordType, fields: seq<(bytes, bytes)>, i: nat)
    requires i <= |fields| && PushedUnrecognized(c, version, t, fields[..i]).Failure?
    ensures PushedUnrecognized(c, version, t, fields) == PushedUnrecognized(c, version, t, fields[..i])
    decreases |fields|
  {
    hide PushedAsRead;
    if i < |fields| {
      assert fields[..|fields| - 1][..i] == fields[..i];
      UnrecognizedFails(c, version, t, fields[..|fields| - 1], i);
    } else {
      assert fields[..i] == fields;
    }
  }

  /** Render a record, checking what it declares about its block on the way. */
  method Render(c: Codec, checks: Checks, record: Record) returns (r: Result<Raw.Record, RenderError>)
    ensures r == IntoRaw(c, checks, record)
  {
    hide PushedAll, PushedUnrecognized, RepeatedFrom, OwnOrder, CORE_ORDER, Ordered, WithBody, LacksDigest, UndeclaredPart;
    var h := record.header;
    OrderIsStandard(h.recordType);
    if !checks.payload(record) {
      return Failure(PayloadFault);
    }
    if LacksDigest(c, h.values) {
      return Failure(MissingProfileField);
    }
    if UndeclaredPart(c, record) {
      return Failure(UndeclaredTruncation);
    }
    var renderer := new Renderer(c, h.version, h.recordType);
    var fault := renderer.PushFields(h, OwnOrder(h.recordType));
    if fault.Some? {
      return Failure(fault.value);
    }
    ghost var own := PushedAll(c, h, OwnOrder(h.recordType)).value;
    assert [] + own == own;
    var paired := WithBody(c, h, record.body);
    if paired.None? {
      return Failure(LengthMismatch);
    }
    if !checks.block(record) {
      return Failure(BlockDigestFault);
    }
    PairedVersion(c, h, record.body);
    fault := renderer.PushFields(paired.value.header, CORE_ORDER);
    if fault.Some? {
      return Failure(fault.value);
    }
    fault := renderer.PushUnrecognized(h.unrecognized);
    if fault.Some? {
      return Failure(fault.value);
    }
    var repeated := FindRepeated(renderer.headers);
    if repeated.Some? {
      return Failure(RenderedTwice(repeated.value));
    }
    ghost var pushed := renderer.headers;
    renderer.CanonicalOrder();
    OrderedIsStableSort(pushed, renderer.headers);
    r := Success(Raw.Record(Raw.Header(h.version, Written(renderer.headers)), record.body));
  }

  lemma PairedVersion(c: Codec, h: Header, body: bytes)
    ensures WithBody(c, h, body).Some? ==> WithBody(c, h, body).value.header.version == h.version
  {
  }
}
