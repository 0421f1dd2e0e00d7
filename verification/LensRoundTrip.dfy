/** A record that was lifted is lifted again from what is rendered for it. */
module LensRoundTrip {
  import opened Bytes
  import opened Headers
  import opened Lens
  import opened LensNames
  import opened Parsing
  import opened Unfolding
  import Raw

  // ---------------------------------------------------------------------------------------------
  // Lines of one rank, and lines in order
  // ---------------------------------------------------------------------------------------------

  lemma {:induction false} OfConcat(a: seq<HeaderLine>, b: seq<HeaderLine>, k: nat)
    ensures Of(a + b, k) == Of(a, k) + Of(b, k)
    decreases |b|
  {
    if b == [] {
      assert a + b == a;
    } else {
      assert (a + b)[..|a + b| - 1] == a + b[..|b| - 1];
      OfConcat(a, b[..|b| - 1], k);
    }
  }

  lemma {:induction false} WithoutConcat(a: seq<HeaderLine>, b: seq<HeaderLine>, keys: set<nat>)
    ensures Without(a + b, keys) == Without(a, keys) + Without(b, keys)
    decreases |b|
  {
    if b == [] {
      assert a + b == a;
    } else {
      assert (a + b)[..|a + b| - 1] == a + b[..|b| - 1];
      WithoutConcat(a, b[..|b| - 1], keys);
    }
  }

  lemma {:induction false} OfOf(lines: seq<HeaderLine>, j: nat, k: nat)
    ensures Of(Of(lines, j), k) == if j == k then Of(lines, k) else []
    decreases |lines|
  {
    if lines != [] {
      var init, last := lines[..|lines| - 1], lines[|lines| - 1];
      OfOf(init, j, k);
      OfConcat(Of(init, j), [last], k);
      OfOne(last, k);
      assert Of(init, j) + [] == Of(init, j) && Of(init, k) + [] == Of(init, k);
    }
  }

  lemma {:induction false} OfOrderedFrom(lines: seq<HeaderLine>, from: nat, k: nat)
    requires from <= EXTENSION + 1
    ensures Of(OrderedFrom(lines, from), k) == if from <= k <= EXTENSION then Of(lines, k) else []
    decreases EXTENSION + 1 - from
  {
    hide Of;
    if from > EXTENSION {
      OfNothing(k);
    } else {
      OfConcat(Of(lines, from), OrderedFrom(lines, from + 1), k);
      OfOf(lines, from, k);
      OfOrderedFrom(lines, from + 1, k);
    }
  }

  lemma OfNothing(k: nat)
    ensures Of([], k) == []
  {
  }

  /** Ordering keeps the lines of each field, and their order. */
  lemma OrderedKeepsFields(lines: seq<HeaderLine>, k: nat)
    requires k <= EXTENSION
    ensures Of(Ordered(lines), k) == Of(lines, k)
  {
    OfOrderedFrom(lines, 0, k);
  }

  lemma {:induction false} OfWithout(lines: seq<HeaderLine>, keys: set<nat>, k: nat)
    ensures Of(Without(lines, keys), k) == if k in keys then [] else Of(lines, k)
    decreases |lines|
  {
    if lines != [] {
      var init, last := lines[..|lines| - 1], lines[|lines| - 1];
      OfWithout(init, keys, k);
      OfConcat(Without(init, keys), [last], k);
      OfOne(last, k);
      assert Without(init, keys) + [] == Without(init, keys) && Of(init, k) + [] == Of(init, k);
    }
  }

  lemma {:induction false} WithoutOf(lines: seq<HeaderLine>, keys: set<nat>, k: nat)
    ensures Without(Of(lines, k), keys) == if k in keys then [] else Of(lines, k)
    decreases |lines|
  {
    hide Without;
    WithoutNothing(keys);
    if lines != [] {
      var init, last := lines[..|lines| - 1], lines[|lines| - 1];
      WithoutOf(init, keys, k);
      if last.key == k {
        WithoutConcat(Of(init, k), [last], keys);
        WithoutOne(last, keys);
      } else {
        assert Of(init, k) + [] == Of(init, k);
      }
    }
  }

  lemma {:induction false} WithoutOrderedFrom(lines: seq<HeaderLine>, keys: set<nat>, from: nat)
    requires from <= EXTENSION + 1
    ensures Without(OrderedFrom(lines, from), keys) == OrderedFrom(Without(lines, keys), from)
    decreases EXTENSION + 1 - from
  {
    hide Of, Without;
    if from > EXTENSION {
      WithoutNothing(keys);
    } else {
      WithoutConcat(Of(lines, from), OrderedFrom(lines, from + 1), keys);
      WithoutOf(lines, keys, from);
      OfWithout(lines, keys, from);
      WithoutOrderedFrom(lines, keys, from + 1);
    }
  }

  lemma WithoutNothing(keys: set<nat>)
    ensures Without([], keys) == []
  {
  }

  /** Lines of one field are in order as they stand. */
  lemma {:induction false} OneFieldIsOrdered(lines: seq<HeaderLine>, from: nat, key: nat)
    requires from <= key <= EXTENSION && forall i | 0 <= i < |lines| :: lines[i].key == key
    ensures OrderedFrom(lines, from) == lines
    decreases EXTENSION - from
  {
    hide Of;
    OfAll(lines, key, from);
    if from < key {
      OneFieldIsOrdered(lines, from + 1, key);
    } else {
      NothingAfter(lines, key, from + 1);
    }
  }

  lemma {:induction false} OfAll(lines: seq<HeaderLine>, key: nat, k: nat)
    requires forall i | 0 <= i < |lines| :: lines[i].key == key
    ensures Of(lines, k) == if k == key then lines else []
    decreases |lines|
  {
    if lines != [] {
      OfAll(lines[..|lines| - 1], key, k);
    }
  }

  lemma {:induction false} NothingAfter(lines: seq<HeaderLine>, key: nat, from: nat)
    requires key < from <= EXTENSION + 1 && forall i | 0 <= i < |lines| :: lines[i].key == key
    ensures OrderedFrom(lines, from) == []
    decreases EXTENSION + 1 - from
  {
    hide Of;
    if from <= EXTENSION {
      OfAll(lines, key, from);
      NothingAfter(lines, key, from + 1);
    }
  }

  // ---------------------------------------------------------------------------------------------
  // Lines that can be read back
  // ---------------------------------------------------------------------------------------------

  /** The line is what its name and value are read as, and its field is one the version defines. */
  ghost predicate Sound(c: Codec, version: Raw.Version, line: HeaderLine) {
    && LineOf(c, Raw.Field(line.name, line.value)) == Success(line)
    && (line.key < EXTENSION ==> DefinedIn(line.key, version))
  }

  ghost predicate AllSound(c: Codec, version: Raw.Version, lines: seq<HeaderLine>) {
    forall i | 0 <= i < |lines| :: Sound(c, version, lines[i])
  }

  lemma {:induction false} OfIsSound(c: Codec, version: Raw.Version, lines: seq<HeaderLine>, k: nat)
    requires AllSound(c, version, lines)
    ensures AllSound(c, version, Of(lines, k))
    decreases |lines|
  {
    hide Sound;
    if lines != [] {
      OfIsSound(c, version, lines[..|lines| - 1], k);
    }
  }

  lemma {:induction false} OrderedIsSound(c: Codec, version: Raw.Version, lines: seq<HeaderLine>, from: nat)
    requires AllSound(c, version, lines) && from <= EXTENSION + 1
    ensures AllSound(c, version, OrderedFrom(lines, from))
    decreases EXTENSION + 1 - from
  {
    hide Sound, Of;
    if from <= EXTENSION {
      OfIsSound(c, version, lines, from);
      OrderedIsSound(c, version, lines, from + 1);
    }
  }

  /** Fields that each read as a line read as those lines. */
  lemma LinesAreRead(c: Codec, fields: Headers.Fields, lines: seq<HeaderLine>)
    requires |fields| == |lines| && forall i | 0 <= i < |fields| :: LineOf(c, fields[i]) == Success(lines[i])
    ensures LinesOf(c, fields) == Success(lines)
  {
    hide LineOf;
    assert fields[..0] == [] && lines[..0] == [];
    for i := 0 to |fields|
      invariant LinesOf(c, fields[..i]) == Success(lines[..i])
    {
      assert fields[..i + 1][..i] == fields[..i];
      assert lines[..i + 1] == lines[..i] + [lines[i]];
    }
    assert fields[..|fields|] == fields && lines[..|fields|] == lines;
  }

  /** Sound lines are read back from what is written for them. */
  lemma WrittenReads(c: Codec, version: Raw.Version, lines: seq<HeaderLine>)
    requires AllSound(c, version, lines)
    ensures LinesOf(c, Written(lines)) == Success(lines)
  {
    hide LineOf, LinesOf;
    assert forall i | 0 <= i < |lines| :: Sound(c, version, lines[i]);
    LinesAreRead(c, Written(lines), lines);
  }

  lemma {:induction false} SoundIsDefined(c: Codec, version: Raw.Version, lines: seq<HeaderLine>, i: nat)
    requires AllSound(c, version, lines) && i <= |lines|
    ensures UndefinedFrom(lines, version, i).None?
    decreases |lines| - i
  {
    hide LineOf;
    if i < |lines| {
      assert Sound(c, version, lines[i]);
      SoundIsDefined(c, version, lines, i + 1);
    }
  }

  /** No field that may not be repeated is, just when each has at most one line. */
  lemma {:induction false} RepeatedIff(lines: seq<HeaderLine>, i: nat, seen: set<nat>)
    requires i <= |lines|
    ensures RepeatedFrom(lines, i, seen).None? <==>
            forall f: nat | !IsRepeatable(f) :: |Of(lines[i..], f)| <= (if f in seen then 0 else 1)
    decreases |lines| - i
  {
    hide Of, IsRepeatable;
    if i == |lines| {
      assert lines[i..] == [];
      forall f: nat
        ensures Of(lines[i..], f) == []
      {
        OfNothing(f);
      }
    } else {
      var line, rest := lines[i], lines[i + 1..];
      assert lines[i..] == [line] + rest;
      forall f: nat
        ensures |Of(lines[i..], f)| == (if line.key == f then 1 else 0) + |Of(rest, f)|
      {
        OfConcat([line], rest, f);
        OfOne(line, f);
      }
      RepeatedIff(lines, i + 1, if IsRepeatable(line.key) then seen else seen + {line.key});
    }
  }

  lemma WithoutOne(line: HeaderLine, keys: set<nat>)
    ensures Without([line], keys) == if line.key in keys then [] else [line]
  {
    assert [line][..0] == [];
  }

  lemma OfOne(line: HeaderLine, f: nat)
    ensures Of([line], f) == if line.key == f then [line] else []
  {
    assert [line][..0] == [];
  }

  /** Ordering repeats nothing. */
  lemma OrderedRepeatsNothing(lines: seq<HeaderLine>)
    requires RepeatedFrom(lines, 0, {}).None?
    ensures RepeatedFrom(Ordered(lines), 0, {}).None?
  {
    hide Of, Ordered, RepeatedFrom;
    RepeatedIff(lines, 0, {});
    RepeatedIff(Ordered(lines), 0, {});
    assert lines[0..] == lines && Ordered(lines)[0..] == Ordered(lines);
    forall f: nat | !IsRepeatable(f)
      ensures |Of(Ordered(lines), f)| <= 1
    {
      OrderedKeepsFields(lines, f);
      assert |Of(lines[0..], f)| <= 1;
    }
  }

  // ---------------------------------------------------------------------------------------------
  // What is pushed
  // ---------------------------------------------------------------------------------------------

  /** Every line is of the field. */
  ghost predicate AllOf(lines: seq<HeaderLine>, f: nat) {
    forall i | 0 <= i < |lines| :: lines[i].key == f
  }

  lemma PushedIsSound(c: Codec, version: Raw.Version, f: nat, datum: bytes)
    requires c.Lawful() && f < EXTENSION && c.writable(version, f, datum) && DefinedIn(f, version)
    ensures Sound(c, version, HeaderLine(STANDARD_NAMES[f], f, [SP] + c.spell(version, f, datum), datum))
  {
    hide STANDARD_NAMES, KeyOf, Unfolded, IsFolded;
    StandardNameKey(f);
  }

  /** The last line pushed is for the last value. */
  lemma PushedLast(c: Codec, version: Raw.Version, f: nat, data: seq<bytes>)
    requires f < EXTENSION && Pushed(c, version, f, data).Success?
    ensures |STANDARD_NAMES| == EXTENSION
    ensures data == [] ==> Pushed(c, version, f, data).value == []
    ensures data != [] ==>
              var before, datum := Pushed(c, version, f, data[..|data| - 1]), data[|data| - 1];
              && before.Success? && c.writable(version, f, datum) && DefinedIn(f, version)
              && Pushed(c, version, f, data).value ==
                 before.value + [HeaderLine(STANDARD_NAMES[f], f, [SP] + c.spell(version, f, datum), datum)]
  {
    hide STANDARD_NAMES;
    NamesCount();
  }

  /** What is pushed for a field is read back as the values it was pushed for. */
  lemma {:induction false} PushedReads(c: Codec, version: Raw.Version, f: nat, data: seq<bytes>)
    requires c.Lawful() && f < EXTENSION && Pushed(c, version, f, data).Success?
    ensures var lines := Pushed(c, version, f, data).value;
            AllSound(c, version, lines) && AllOf(lines, f) && Data(lines) == data
    decreases |data|
  {
    hide Codec.Lawful, Sound, STANDARD_NAMES, Data, Pushed;
    NamesCount();
    PushedLast(c, version, f, data);
    if data != [] {
      var n := |data| - 1;
      PushedReads(c, version, f, data[..n]);
      PushedIsSound(c, version, f, data[n]);
      var before := Pushed(c, version, f, data[..n]).value;
      DataOneMore(before, HeaderLine(STANDARD_NAMES[f], f, [SP] + c.spell(version, f, data[n]), data[n]));
      assert data == data[..n] + [data[n]];
    } else {
      assert Data([]) == [];
    }
  }

  lemma DataOneMore(lines: seq<HeaderLine>, line: HeaderLine)
    ensures Data(lines + [line]) == Data(lines) + [line.datum]
  {
  }

  ghost predicate KeysIn(lines: seq<HeaderLine>, order: seq<nat>) {
    forall i | 0 <= i < |lines| :: lines[i].key in order
  }

  lemma {:induction false} PushedAllSound(c: Codec, h: Header, order: seq<nat>)
    requires c.Lawful() && (forall i | 0 <= i < |order| :: order[i] < EXTENSION) && PushedAll(c, h, order).Success?
    ensures var lines := PushedAll(c, h, order).value; AllSound(c, h.version, lines) && KeysIn(lines, order)
    decreases |order|
  {
    hide Codec.Lawful, Sound, Pushed, ValuesFor;
    if order != [] {
      var n := |order| - 1;
      PushedAllSound(c, h, order[..n]);
      PushedReads(c, h.version, order[n], ValuesFor(h, order[n]));
      assert order == order[..n] + [order[n]];
    }
  }

  lemma {:induction false} OfNone(lines: seq<HeaderLine>, order: seq<nat>, f: nat)
    requires KeysIn(lines, order) && f !in order
    ensures Of(lines, f) == []
    decreases |lines|
  {
    if lines != [] {
      OfNone(lines[..|lines| - 1], order, f);
    }
  }

  ghost predicate Distinct(order: seq<nat>) {
    forall i, j | 0 <= i < j < |order| :: order[i] != order[j]
  }

  /** What is pushed for distinct fields is read back field by field. */
  lemma {:induction false} PushedAllReads(c: Codec, h: Header, order: seq<nat>, f: nat)
    requires c.Lawful() && forall i | 0 <= i < |order| :: order[i] < EXTENSION
    requires Distinct(order) && PushedAll(c, h, order).Success?
    ensures Data(Of(PushedAll(c, h, order).value, f)) == if f in order then ValuesFor(h, f) else []
    decreases |order|
  {
    hide Codec.Lawful, Pushed, Of, ValuesFor, Data, AllSound, KeysIn, AllOf;
    if order == [] {
      OfNothing(f);
      assert Data([]) == [];
    } else {
      var n := |order| - 1;
      var init, last := order[..n], order[n];
      PushedAllSound(c, h, init);
      PushedReads(c, h.version, last, ValuesFor(h, last));
      var before, pushed := PushedAll(c, h, init).value, Pushed(c, h.version, last, ValuesFor(h, last)).value;
      OfConcat(before, pushed, f);
      OfField(pushed, last, f);
      LastIsNew(order);
      if f == last {
        OfNone(before, init, f);
        assert [] + pushed == pushed;
      } else {
        PushedAllReads(c, h, init, f);
        assert Of(before, f) + [] == Of(before, f);
      }
    }
  }

  lemma OfField(lines: seq<HeaderLine>, key: nat, k: nat)
    requires AllOf(lines, key)
    ensures Of(lines, k) == if k == key then lines else []
  {
    OfAll(lines, key, k);
  }

  lemma LastIsNew(order: seq<nat>)
    requires order != [] && Distinct(order)
    ensures var n := |order| - 1;
            order[n] !in order[..n] && Distinct(order[..n]) && forall f :: f in order <==> f in order[..n] || f == order[n]
  {
    assert order == order[..|order| - 1] + [order[|order| - 1]];
  }

  // ---------------------------------------------------------------------------------------------
  // What is kept as read
  // ---------------------------------------------------------------------------------------------

  /** A value without line breaks or white space around it, as unfolding leaves one. */
  predicate IsNormal(value: bytes) {
    HasNoLineBreak(value) && (value == [] || (!IsWhiteSpace(value[0]) && !IsWhiteSpace(value[|value| - 1])))
  }

  /** A normal text, after the space it is written with, is read as it is. */
  lemma NormalIsRead(s: bytes)
    requires IsNormal(s)
    ensures IsFolded([SP] + s) && Unfolded([SP] + s) == s
  {
    hide TrimStart, TrimEnd, UnfoldFrom, Trim;
    TrimOfTrimmed(s);
    SpaceTrims(s);
    UnfoldPlain(s, 0);
    assert s[0..] == s;
    SpacedHasNoBreaks(s);
  }

  lemma SpacedHasNoBreaks(s: bytes)
    ensures HasNoLineBreak(s) ==> IsFolded([SP] + s)
  {
    var t := [SP] + s;
    assert forall i | 0 < i < |t| :: t[i] == s[i - 1];
  }

  lemma SpaceTrims(value: bytes)
    ensures Trim([SP] + value) == Trim(value)
  {
    var v := [SP] + value;
    assert v[0] == SP && v[1..] == value;
  }

  lemma UnfoldedIsNormal(value: bytes)
    requires IsFolded(value)
    ensures IsNormal(Unfolded(value))
  {
    hide Unfolded, Trim, IsFolded;
    UnfoldIsNormalForm(value);
    assert Trim(Unfolded(value)) == Unfolded(value);
  }

  /** What is kept of a field is what was pushed for it. */
  ghost predicate KeptAs(line: HeaderLine, field: (bytes, bytes)) {
    line.name == field.0 && line.key == KeyOf(field.0) && Unfolded(line.value) == field.1
  }

  ghost predicate AllKeptAs(lines: seq<HeaderLine>, fields: seq<(bytes, bytes)>) {
    |lines| == |fields| && forall i | 0 <= i < |lines| :: KeptAs(lines[i], fields[i])
  }

  lemma NormalOpens(value: bytes)
    ensures IsNormal(value) ==> Spelled(value) == [SP] + value
  {
  }

  lemma PushedAsReadIsKept(c: Codec, version: Raw.Version, t: RecordType, field: (bytes, bytes))
    requires IsNormal(field.1)
    ensures var line := PushedAsRead(c, version, t, field);
            line.Success? ==> KeptAs(line.value, field) && Sound(c, version, line.value)
  {
    hide Unfolded, Spelled, KeyOf, IsFolded, IsToken, IsNormal;
    NormalIsRead(field.1);
    assert Spelled(field.1) == [SP] + field.1 by {
      NormalOpens(field.1);
    }
  }

  lemma {:induction false} UnrecognizedIsKept(c: Codec, version: Raw.Version, t: RecordType, fields: seq<(bytes, bytes)>)
    requires forall i | 0 <= i < |fields| :: IsNormal(fields[i].1)
    requires PushedUnrecognized(c, version, t, fields).Success?
    ensures var lines := PushedUnrecognized(c, version, t, fields).value;
            AllKeptAs(lines, fields) && AllSound(c, version, lines)
    decreases |fields|
  {
    hide KeptAs, Sound, PushedAsRead, IsNormal;
    if fields != [] {
      var n := |fields| - 1;
      UnrecognizedIsKept(c, version, t, fields[..n]);
      PushedAsReadIsKept(c, version, t, fields[n]);
    }
  }

  /** Fields kept as read, in conventional order. */
  function InOrder(fields: seq<(bytes, bytes)>): seq<(bytes, bytes)> {
    PairsOf(Ordered(LinesFor(fields)))
  }

  function LinesFor(fields: seq<(bytes, bytes)>): (lines: seq<HeaderLine>)
    ensures |lines| == |fields|
    ensures forall i | 0 <= i < |fields| :: lines[i] == HeaderLine(fields[i].0, KeyOf(fields[i].0), fields[i].1, [])
  {
    seq(|fields|, i requires 0 <= i < |fields| => HeaderLine(fields[i].0, KeyOf(fields[i].0), fields[i].1, []))
  }

  function PairsOf(lines: seq<HeaderLine>): (fields: seq<(bytes, bytes)>)
    ensures |fields| == |lines| && forall i | 0 <= i < |lines| :: fields[i] == (lines[i].name, lines[i].value)
  {
    seq(|lines|, i requires 0 <= i < |lines| => (lines[i].name, lines[i].value))
  }

  /** Two lists of lines agree in their fields and in what is kept of them. */
  ghost predicate Alike(a: seq<HeaderLine>, b: seq<HeaderLine>) {
    |a| == |b| && forall i | 0 <= i < |a| :: a[i].key == b[i].key && Kept(a[i]) == (b[i].name, b[i].value)
  }

  lemma {:induction false} OfAlike(a: seq<HeaderLine>, b: seq<HeaderLine>, k: nat)
    requires Alike(a, b)
    ensures Alike(Of(a, k), Of(b, k))
    decreases |a|
  {
    hide Kept;
    if a != [] {
      OfAlike(a[..|a| - 1], b[..|b| - 1], k);
    }
  }

  lemma {:induction false} OrderedAlike(a: seq<HeaderLine>, b: seq<HeaderLine>, from: nat)
    requires Alike(a, b) && from <= EXTENSION + 1
    ensures Alike(OrderedFrom(a, from), OrderedFrom(b, from))
    decreases EXTENSION + 1 - from
  {
    hide Kept, Of;
    if from <= EXTENSION {
      OfAlike(a, b, from);
      OrderedAlike(a, b, from + 1);
    }
  }

  lemma {:induction false} KeptAlike(a: seq<HeaderLine>, b: seq<HeaderLine>)
    requires Alike(a, b) && forall i | 0 <= i < |b| :: Raw.IsUtf8(b[i].value)
    ensures KeptAll(a) == Success(PairsOf(b))
    decreases |a|
  {
    hide Raw.IsUtf8, Unfolded;
    if a != [] {
      var n := |a| - 1;
      KeptAlike(a[..n], b[..n]);
      assert PairsOf(b) == PairsOf(b[..n]) + [(b[n].name, b[n].value)];
    }
  }

  // ---------------------------------------------------------------------------------------------
  // What a lifted header is
  // ---------------------------------------------------------------------------------------------

  /** Taking the values of a slot again takes the same ones. */
  ghost predicate SlotSettled(c: Codec, version: Raw.Version, slot: Slot, values: map<nat, seq<bytes>>) {
    slot.field in values && Taken(c, version, slot, values[slot.field]) == Success(values[slot.field])
  }

  ghost predicate FieldSettled(t: RecordType, field: (bytes, bytes)) {
    && IsNormal(field.1) && Raw.IsUtf8(field.1)
    && KeyOf(field.0) !in TakenFields(t) && (!t.Other? ==> KeyOf(field.0) == EXTENSION)
  }

  /** A header that lifting makes, or pairing one with a body. */
  ghost predicate IsSettled(c: Codec, h: Header) {
    && Claimed(c, TypeOf(TypeName(h.recordType))) == Success(h.recordType)
    && h.values.Keys == FieldsOf(SlotsOf(h.recordType))
    && (forall i | 0 <= i < |SlotsOf(h.recordType)| :: SlotSettled(c, h.version, SlotsOf(h.recordType)[i], h.values))
    && (forall i | 0 <= i < |h.unrecognized| :: FieldSettled(h.recordType, h.unrecognized[i]))
  }

  lemma {:induction false} MeaningsSettle(c: Codec, version: Raw.Version, f: nat, data: seq<bytes>)
    requires c.Lawful() && Meanings(c, version, f, data).Success?
    ensures var values := Meanings(c, version, f, data).value;
            |values| == |data| && Meanings(c, version, f, values) == Success(values)
    decreases |data|
  {
    if data != [] {
      MeaningsSettle(c, version, f, data[..|data| - 1]);
      var values := Meanings(c, version, f, data).value;
      assert values[..|values| - 1] == Meanings(c, version, f, data[..|data| - 1]).value;
    }
  }

  lemma TakenSettles(c: Codec, version: Raw.Version, slot: Slot, data: seq<bytes>)
    requires c.Lawful() && Taken(c, version, slot, data).Success?
    ensures var values := Taken(c, version, slot, data).value; Taken(c, version, slot, values) == Success(values)
  {
    hide Codec.Lawful, Meanings;
    var values := Taken(c, version, slot, data).value;
    if slot.arity.Repeated? {
      MeaningsSettle(c, version, slot.field, data);
    } else if data != [] && !slot.arity.Origin? {
      MeaningsSettle(c, version, slot.field, data[..1]);
      assert values[..1] == values;
    }
  }

  ghost predicate DistinctSlots(slots: seq<Slot>) {
    forall i, j | 0 <= i < j < |slots| :: slots[i].field != slots[j].field
  }

  /** The slots before `i` are settled. */
  ghost predicate SettledTo(c: Codec, version: Raw.Version, slots: seq<Slot>, i: nat, values: map<nat, seq<bytes>>)
    requires i <= |slots|
  {
    forall j | 0 <= j < i :: SlotSettled(c, version, slots[j], values)
  }

  /** The slots before `i` are settled, and hold with what was there before. */
  lemma {:induction false} TakeSlotsSettle(
    c: Codec, version: Raw.Version, lines: seq<HeaderLine>, slots: seq<Slot>, i: nat, values: map<nat, seq<bytes>>)
    requires c.Lawful() && i <= |slots| && DistinctSlots(slots)
    requires SettledTo(c, version, slots, i, values)
    requires TakeSlots(c, version, lines, slots, i, values).Success?
    ensures var after := TakeSlots(c, version, lines, slots, i, values).value;
            && SettledTo(c, version, slots, |slots|, after)
            && after.Keys == values.Keys + FieldsOf(slots[i..])
            && forall f | f in values && f !in FieldsOf(slots[i..]) :: after[f] == values[f]
    decreases |slots| - i
  {
    hide Codec.Lawful, Taken, LacksDigest, Of;
    if i == |slots| {
      assert slots[i..] == [];
    } else {
      var data := Data(Of(lines, slots[i].field));
      TakenSettles(c, version, slots[i], data);
      var after := values[slots[i].field := Taken(c, version, slots[i], data).value];
      StillSettled(c, version, slots, i, values, after);
      TakeSlotsSettle(c, version, lines, slots, i + 1, after);
      FieldsCons(slots, i);
    }
  }

  lemma StillSettled(
    c: Codec, version: Raw.Version, slots: seq<Slot>, i: nat, values: map<nat, seq<bytes>>, after: map<nat, seq<bytes>>)
    requires i < |slots| && DistinctSlots(slots) && SettledTo(c, version, slots, i, values)
    requires SlotSettled(c, version, slots[i], after)
    requires forall f | f in values && f != slots[i].field :: f in after && after[f] == values[f]
    ensures SettledTo(c, version, slots, i + 1, after)
  {
    hide Taken;
    forall j | 0 <= j < i + 1
      ensures SlotSettled(c, version, slots[j], after)
    {
      if j < i {
        assert SlotSettled(c, version, slots[j], values);
      }
    }
  }

  lemma FieldsCons(slots: seq<Slot>, i: nat)
    requires i < |slots|
    ensures FieldsOf(slots[i..]) == {slots[i].field} + FieldsOf(slots[i + 1..])
  {
    forall f
      ensures f in FieldsOf(slots[i..]) <==> f == slots[i].field || f in FieldsOf(slots[i + 1..])
    {
      if f in FieldsOf(slots[i..]) {
        var j :| 0 <= j < |slots[i..]| && slots[i..][j].field == f;
        if j > 0 {
          assert slots[i + 1..][j - 1].field == f;
        }
      }
      if f in FieldsOf(slots[i + 1..]) {
        var j :| 0 <= j < |slots[i + 1..]| && slots[i + 1..][j].field == f;
        assert slots[i..][j + 1].field == f;
      }
      assert slots[i..][0] == slots[i];
    }
  }

  /** Where a field comes among those that are taken. Every type takes its own in this one order. */
  function TakenRank(f: nat): nat {
    if f == PAYLOAD_DIGEST then 1
    else if f == IDENTIFIED_PAYLOAD_TYPE then 2
    else if f == TARGET_URI then 3
    else if f == WARCINFO_ID then 4
    else if f == PROFILE then 5
    else if f == IP_ADDRESS then 6
    else if f == PROTOCOL then 7
    else if f == CONCURRENT_TO then 8
    else if f == REFERS_TO then 9
    else if f == REFERS_TO_TARGET_URI then 10
    else if f == REFERS_TO_DATE then 11
    else if f == FILENAME then 12
    else if f == SEGMENT_NUMBER then 13
    else if f == SEGMENT_ORIGIN_ID then 14
    else if f == SEGMENT_TOTAL_LENGTH then 15
    else if f == RECORD_ID then 21
    else if f == DATE then 22
    else if f == CONTENT_LENGTH then 23
    else if f == BLOCK_DIGEST then 24
    else if f == CONTENT_TYPE then 25
    else if f == TRUNCATED then 26
    else 0
  }

  /** Slots in the order of the ranks of their fields, which lie within the bounds. */
  ghost predicate Ascend(slots: seq<Slot>, low: nat, high: nat) {
    && (forall i | 0 <= i < |slots| :: slots[i].field < EXTENSION && low < TakenRank(slots[i].field) < high)
    && forall i | 0 < i < |slots| :: TakenRank(slots[i - 1].field) < TakenRank(slots[i].field)
  }

  lemma RanksAre()
    ensures TakenRank(PAYLOAD_DIGEST) == 1 && TakenRank(IDENTIFIED_PAYLOAD_TYPE) == 2 && TakenRank(TARGET_URI) == 3 && TakenRank(WARCINFO_ID) == 4
    ensures TakenRank(PROFILE) == 5 && TakenRank(IP_ADDRESS) == 6 && TakenRank(PROTOCOL) == 7 && TakenRank(CONCURRENT_TO) == 8
    ensures TakenRank(REFERS_TO) == 9 && TakenRank(REFERS_TO_TARGET_URI) == 10 && TakenRank(REFERS_TO_DATE) == 11 && TakenRank(FILENAME) == 12
    ensures TakenRank(SEGMENT_NUMBER) == 13 && TakenRank(SEGMENT_ORIGIN_ID) == 14 && TakenRank(SEGMENT_TOTAL_LENGTH) == 15
    ensures TakenRank(RECORD_ID) == 21 && TakenRank(DATE) == 22 && TakenRank(CONTENT_LENGTH) == 23
    ensures TakenRank(BLOCK_DIGEST) == 24 && TakenRank(CONTENT_TYPE) == 25 && TakenRank(TRUNCATED) == 26
  {
  }

  lemma OwnSlotsAscend(t: RecordType)
    ensures Ascend(OwnSlots(t), 0, 20)
  {
    hide TakenRank;
    RanksAre();
  }

  lemma CoreSlotsAscend()
    ensures Ascend(CORE, 20, 30)
  {
    hide TakenRank;
    RanksAre();
  }

  lemma {:induction false} AscendingApart(slots: seq<Slot>, i: nat, j: nat)
    requires i < j < |slots|
    requires forall k | 0 < k < |slots| :: TakenRank(slots[k - 1].field) < TakenRank(slots[k].field)
    ensures TakenRank(slots[i].field) < TakenRank(slots[j].field)
    decreases j
  {
    hide TakenRank;
    assert TakenRank(slots[j - 1].field) < TakenRank(slots[j].field);
    if i < j - 1 {
      AscendingApart(slots, i, j - 1);
    }
  }

  lemma AscendingIsDistinct(slots: seq<Slot>)
    requires forall k | 0 < k < |slots| :: TakenRank(slots[k - 1].field) < TakenRank(slots[k].field)
    ensures DistinctSlots(slots)
  {
    hide TakenRank;
    forall i, j | 0 <= i < j < |slots|
      ensures slots[i].field != slots[j].field
    {
      AscendingApart(slots, i, j);
    }
  }

  /** A type's own fields are not those every record carries, and none is taken twice. */
  lemma SlotsAreDistinct(t: RecordType)
    ensures DistinctSlots(CORE) && DistinctSlots(OwnSlots(t))
    ensures forall i, j | 0 <= i < |CORE| && 0 <= j < |OwnSlots(t)| :: CORE[i].field != OwnSlots(t)[j].field
    ensures forall i | 0 <= i < |CORE| :: CORE[i].field < EXTENSION && CORE[i].field != TYPE
    ensures forall i | 0 <= i < |OwnSlots(t)| :: OwnSlots(t)[i].field < EXTENSION && OwnSlots(t)[i].field != TYPE
  {
    hide TakenRank, OwnSlots, CORE;
    TypeHasNoRank();
    OwnSlotsAscend(t);
    CoreSlotsAscend();
    AscendingIsDistinct(CORE);
    AscendingIsDistinct(OwnSlots(t));
  }

  lemma TypeHasNoRank()
    ensures TakenRank(TYPE) == 0
  {
  }

  /** A profile is taken after the digest it may ask for. */
  lemma ProfileFollowsDigest(t: RecordType)
    ensures forall i | 0 <= i < |CORE| :: CORE[i].field != PROFILE
    ensures forall i | 0 <= i < |OwnSlots(t)| && OwnSlots(t)[i].field == PROFILE :: i > 0 && OwnSlots(t)[0].field == PAYLOAD_DIGEST
  {
  }

  // ---------------------------------------------------------------------------------------------
  // Lifting settles
  // ---------------------------------------------------------------------------------------------

  /** A line that was read: its key is that of its name, and its value can be unfolded. */
  ghost predicate WasRead(line: HeaderLine) {
    line.key == KeyOf(line.name) && IsFolded(line.value)
  }

  ghost predicate AllWereRead(lines: seq<HeaderLine>) {
    forall i | 0 <= i < |lines| :: WasRead(lines[i])
  }

  /** Each of the lines read was read of its field. */
  lemma {:induction false} EachWasRead(c: Codec, fields: Headers.Fields)
    requires LinesOf(c, fields).Success?
    ensures var lines := LinesOf(c, fields).value;
            |lines| == |fields| && forall i | 0 <= i < |lines| :: LineOf(c, fields[i]) == Success(lines[i])
    decreases |fields|
  {
    hide LineOf;
    if fields != [] {
      EachWasRead(c, fields[..|fields| - 1]);
    }
  }

  lemma LineWasRead(c: Codec, field: Raw.Field)
    ensures LineOf(c, field).Success? ==> WasRead(LineOf(c, field).value)
  {
    hide KeyOf, IsFolded, Unfolded;
  }

  lemma {:induction false} WithoutWereRead(lines: seq<HeaderLine>, keys: set<nat>)
    requires AllWereRead(lines)
    ensures AllWereRead(Without(lines, keys))
    ensures forall i | 0 <= i < |Without(lines, keys)| :: Without(lines, keys)[i].key !in keys
    decreases |lines|
  {
    hide WasRead;
    if lines != [] {
      WithoutWereRead(lines[..|lines| - 1], keys);
    }
  }

  lemma {:induction false} NoneStandard(lines: seq<HeaderLine>, i: nat)
    requires i <= |lines|
    ensures FirstStandard(lines, i).None? <==> forall j | i <= j < |lines| :: lines[j].key >= EXTENSION
    decreases |lines| - i
  {
    if i < |lines| {
      NoneStandard(lines, i + 1);
    }
  }

  lemma {:induction false} KeptIsSettled(t: RecordType, lines: seq<HeaderLine>)
    requires AllWereRead(lines) && KeptAll(lines).Success?
    requires forall i | 0 <= i < |lines| :: lines[i].key !in TakenFields(t) && (!t.Other? ==> lines[i].key == EXTENSION)
    ensures forall i | 0 <= i < |KeptAll(lines).value| :: FieldSettled(t, KeptAll(lines).value[i])
    decreases |lines|
  {
    hide TakenFields, KeyOf, Raw.IsUtf8, IsNormal, Unfolded, IsFolded;
    if lines != [] {
      var n := |lines| - 1;
      KeptIsSettled(t, lines[..n]);
      assert WasRead(lines[n]);
      UnfoldedIsNormal(lines[n].value);
    }
  }

  lemma FinishSettles(t: RecordType, lines: seq<HeaderLine>)
    requires AllWereRead(lines) && Finish(t, Without(lines, TakenFields(t))).Success?
    ensures var fields := Finish(t, Without(lines, TakenFields(t))).value;
            forall i | 0 <= i < |fields| :: FieldSettled(t, fields[i])
  {
    hide TakenFields, Without, FieldSettled, KeptAll, KeyOf, IsFolded;
    var rest := Without(lines, TakenFields(t));
    WithoutWereRead(lines, TakenFields(t));
    NoneStandard(rest, 0);
    if !t.Other? {
      forall i | 0 <= i < |rest|
        ensures rest[i].key == EXTENSION
      {
        assert WasRead(rest[i]);
      }
    }
    KeptIsSettled(t, rest);
  }

  lemma StandardTypeIsItself(t: RecordType)
    requires !t.Other?
    ensures TypeOf(TypeName(t)) == t
  {
    assert Ascii("response")[2] == 115 && Ascii("metadata")[2] == 116 && Ascii("resource")[3] == 111;
    assert Ascii("request")[2] == 113 && Ascii("revisit")[2] == 118 && Ascii("response")[3] == 112 && Ascii("warcinfo")[0] == 119;
    assert Ascii("conversion")[0] == 99 && Ascii("continuation")[3] == 116;
  }

  lemma ClaimedSettles(c: Codec, t: RecordType)
    requires c.Lawful() && Claimed(c, t).Success? && (!t.Other? ==> TypeOf(TypeName(t)) == t)
    ensures var claimed := Claimed(c, t).value; Claimed(c, TypeOf(TypeName(claimed))) == Success(claimed)
  {
    hide EqIgnoreCase, Ascii, IsFolded, Unfolded;
  }

  lemma FieldsConcat(a: seq<Slot>, b: seq<Slot>)
    ensures FieldsOf(a + b) == FieldsOf(a) + FieldsOf(b)
  {
    forall f
      ensures f in FieldsOf(a + b) <==> f in FieldsOf(a) || f in FieldsOf(b)
    {
      if f in FieldsOf(a) {
        var i :| 0 <= i < |a| && a[i].field == f;
        assert (a + b)[i].field == f;
      }
      if f in FieldsOf(b) {
        var i :| 0 <= i < |b| && b[i].field == f;
        assert (a + b)[|a| + i].field == f;
      }
    }
  }

  /** Slots taken one list after the other are all settled. */
  lemma SettledConcat(c: Codec, version: Raw.Version, a: seq<Slot>, b: seq<Slot>, before: map<nat, seq<bytes>>, after: map<nat, seq<bytes>>)
    requires SettledTo(c, version, a, |a|, before) && SettledTo(c, version, b, |b|, after)
    requires forall i | 0 <= i < |a| :: a[i].field !in FieldsOf(b)
    requires forall f | f in before && f !in FieldsOf(b) :: f in after && after[f] == before[f]
    ensures SettledTo(c, version, a + b, |a + b|, after)
  {
    hide Taken, FieldsOf;
    forall j | 0 <= j < |a + b|
      ensures SlotSettled(c, version, (a + b)[j], after)
    {
      if j < |a| {
        assert SlotSettled(c, version, a[j], before);
      } else {
        assert SlotSettled(c, version, b[j - |a|], after);
      }
    }
  }

  lemma NoCommonField(a: seq<Slot>, b: seq<Slot>)
    requires forall i, j | 0 <= i < |a| && 0 <= j < |b| :: a[i].field != b[j].field
    ensures forall i | 0 <= i < |a| :: a[i].field !in FieldsOf(b)
  {
  }

  /** The values that lifting takes are settled, and are those of the fields the type takes. */
  lemma TypedSettles(c: Codec, version: Raw.Version, lines: seq<HeaderLine>, t: RecordType)
    requires c.Lawful() && TakeSlots(c, version, lines, CORE, 0, map[]).Success?
    requires TakeSlots(c, version, lines, OwnSlots(t), 0, TakeSlots(c, version, lines, CORE, 0, map[]).value).Success?
    ensures var values := TakeSlots(c, version, lines, OwnSlots(t), 0, TakeSlots(c, version, lines, CORE, 0, map[]).value).value;
            && values.Keys == FieldsOf(SlotsOf(t))
            && SettledTo(c, version, SlotsOf(t), |SlotsOf(t)|, values)
  {
    hide Codec.Lawful, TakeSlots, OwnSlots, CORE, FieldsOf, SlotSettled;
    var core := TakeSlots(c, version, lines, CORE, 0, map[]).value;
    SlotsAreDistinct(t);
    NoCommonField(CORE, OwnSlots(t));
    TakeSlotsSettle(c, version, lines, CORE, 0, map[]);
    TakeSlotsSettle(c, version, lines, OwnSlots(t), 0, core);
    assert CORE[0..] == CORE && OwnSlots(t)[0..] == OwnSlots(t);
    FieldsConcat(CORE, OwnSlots(t));
    SettledConcat(c, version, CORE, OwnSlots(t), core, TakeSlots(c, version, lines, OwnSlots(t), 0, core).value);
  }

  /** What is lifted is settled. */
  lemma LiftedIsSettled(c: Codec, header: Raw.Header)
    requires c.Lawful() && Lift(c, header).Success?
    ensures IsSettled(c, Lift(c, header).value)
  {
    hide Codec.Lawful, TakeSlots, LinesOf, Claimed, Finish, FieldSettled, SlotSettled, SlotsOf, TypeOf, TypeName, Of, TakenFields, OwnSlots, CORE,
      RepeatedFrom, UndefinedFrom, FieldsOf, Without;
    var lines := LinesOf(c, header.fields).value;
    var t := Lift(c, header).value.recordType;
    EachWasRead(c, header.fields);
    forall i | 0 <= i < |header.fields|
      ensures WasRead(LinesOf(c, header.fields).value[i])
    {
      LineWasRead(c, header.fields[i]);
    }
    TypedSettles(c, header.version, lines, t);
    FinishSettles(t, lines);
    ReadTypeIsItself(Of(lines, TYPE)[0].datum);
    ClaimedSettles(c, TypeOf(Of(lines, TYPE)[0].datum));
  }

  lemma ReadTypeIsItself(token: bytes)
    ensures !TypeOf(token).Other? ==> TypeOf(TypeName(TypeOf(token))) == TypeOf(token)
  {
    hide TypeOf;
    if !TypeOf(token).Other? {
      StandardTypeIsItself(TypeOf(token));
    }
  }

  /** Pairing a settled header with a body keeps it settled. */
  lemma PairedIsSettled(c: Codec, h: Header, body: bytes)
    requires c.Lawful() && IsSettled(c, h) && WithBody(c, h, body).Some?
    ensures IsSettled(c, WithBody(c, h, body).value.header)
  {
    hide Codec.Lawful, Claimed, FieldSettled, TypeOf, TypeName, FieldsOf, OwnSlots, Meanings;
    var after := WithBody(c, h, body).value.header;
    LengthIsSettled(c, h.version, c.count(|body|));
    LengthSlot(h.recordType);
    forall i | 0 <= i < |SlotsOf(h.recordType)|
      ensures SlotSettled(c, h.version, SlotsOf(h.recordType)[i], after.values)
    {
      assert SlotSettled(c, h.version, SlotsOf(h.recordType)[i], h.values);
    }
  }

  lemma LengthIsSettled(c: Codec, version: Raw.Version, datum: bytes)
    requires c.Lawful() && exists n :: datum == c.count(n)
    ensures Taken(c, version, Slot(CONTENT_LENGTH, Optional), [datum]) == Success([datum])
  {
    hide Codec.Lawful, Meanings;
    var n :| datum == c.count(n);
    CountMeansItself(c, version, n);
    OneMeaning(c, version, CONTENT_LENGTH, datum);
    assert [datum][..1] == [datum];
  }

  lemma CountMeansItself(c: Codec, version: Raw.Version, n: nat)
    requires c.Lawful()
    ensures c.meaning(version, CONTENT_LENGTH, c.count(n)) == Some(c.count(n))
  {
    hide IsFolded, Unfolded;
  }

  lemma OneMeaning(c: Codec, version: Raw.Version, f: nat, datum: bytes)
    requires c.meaning(version, f, datum) == Some(datum)
    ensures Meanings(c, version, f, [datum]) == Success([datum])
  {
    var data, none: seq<bytes> := [datum], [];
    assert data[..|data| - 1] == none && data[|data| - 1] == datum;
    assert Meanings(c, version, f, none) == Success(none);
    assert none + [datum] == data;
  }

  /** The declared length is taken by one slot, and is optional. */
  lemma LengthSlot(t: RecordType)
    ensures CONTENT_LENGTH in FieldsOf(SlotsOf(t))
    ensures forall i | 0 <= i < |SlotsOf(t)| && SlotsOf(t)[i].field == CONTENT_LENGTH :: SlotsOf(t)[i] == Slot(CONTENT_LENGTH, Optional)
  {
    hide OwnSlots;
    OwnSlotsAscend(t);
    assert SlotsOf(t)[2] == CORE[2];
  }

  // ---------------------------------------------------------------------------------------------
  // Lifting again
  // ---------------------------------------------------------------------------------------------

  /** The lines hold the values of a slot's field, and they are settled. */
  ghost predicate SlotHeld(c: Codec, version: Raw.Version, lines: seq<HeaderLine>, slot: Slot, target: map<nat, seq<bytes>>) {
    SlotSettled(c, version, slot, target) && Data(Of(lines, slot.field)) == target[slot.field]
  }

  /** What has been taken so far is of the target. */
  ghost predicate Agrees(values: map<nat, seq<bytes>>, target: map<nat, seq<bytes>>) {
    forall f | f in values :: f in target && values[f] == target[f]
  }

  /** Values are taken again from lines that hold them. */
  lemma {:induction false} TakeSlotsAgain(
    c: Codec, version: Raw.Version, lines: seq<HeaderLine>, slots: seq<Slot>, i: nat,
    values: map<nat, seq<bytes>>, target: map<nat, seq<bytes>>)
    requires i <= |slots| && Agrees(values, target) && !LacksDigest(c, target)
    requires forall j | 0 <= j < |slots| :: SlotHeld(c, version, lines, slots[j], target)
    requires forall j | 0 <= j < |slots| && slots[j].field == PROFILE :: j > 0 && slots[0].field == PAYLOAD_DIGEST
    requires i > 0 ==> slots[0].field in values
    ensures var r := TakeSlots(c, version, lines, slots, i, values);
            r.Success? && Agrees(r.value, target) && r.value.Keys == values.Keys + FieldsOf(slots[i..])
    decreases |slots| - i
  {
    hide Taken, Of;
    if i == |slots| {
      assert slots[i..] == [];
    } else {
      assert SlotHeld(c, version, lines, slots[i], target);
      var after := values[slots[i].field := target[slots[i].field]];
      FieldsCons(slots, i);
      TakeSlotsAgain(c, version, lines, slots, i + 1, after, target);
    }
  }

  lemma AgreeingIsSame(values: map<nat, seq<bytes>>, target: map<nat, seq<bytes>>)
    requires Agrees(values, target) && values.Keys == target.Keys
    ensures values == target
  {
  }

  lemma {:induction false} NoneOutside(lines: seq<HeaderLine>, order: seq<nat>, keys: set<nat>)
    requires KeysIn(lines, order) && forall f | f in order :: f in keys
    ensures Without(lines, keys) == []
    decreases |lines|
  {
    if lines != [] {
      NoneOutside(lines[..|lines| - 1], order, keys);
    }
  }

  lemma {:induction false} AllOutside(lines: seq<HeaderLine>, keys: set<nat>)
    requires forall i | 0 <= i < |lines| :: lines[i].key !in keys
    ensures Without(lines, keys) == lines
    ensures forall f | f in keys :: Of(lines, f) == []
    decreases |lines|
  {
    if lines != [] {
      AllOutside(lines[..|lines| - 1], keys);
    }
  }

  ghost predicate AllUtf8(lines: seq<HeaderLine>) {
    forall i | 0 <= i < |lines| :: Raw.IsUtf8(lines[i].value)
  }

  lemma {:induction false} OfIsUtf8(lines: seq<HeaderLine>, k: nat)
    requires AllUtf8(lines)
    ensures AllUtf8(Of(lines, k))
    decreases |lines|
  {
    hide Raw.IsUtf8;
    if lines != [] {
      OfIsUtf8(lines[..|lines| - 1], k);
    }
  }

  lemma {:induction false} OrderedIsUtf8(lines: seq<HeaderLine>, from: nat)
    requires AllUtf8(lines) && from <= EXTENSION + 1
    ensures AllUtf8(OrderedFrom(lines, from))
    decreases EXTENSION + 1 - from
  {
    hide Raw.IsUtf8, Of;
    if from <= EXTENSION {
      OfIsUtf8(lines, from);
      OrderedIsUtf8(lines, from + 1);
    }
  }

  /** What was kept as read is kept again, in conventional order. */
  lemma KeptAgain(t: RecordType, kept: seq<HeaderLine>, fields: seq<(bytes, bytes)>)
    requires AllKeptAs(kept, fields) && forall i | 0 <= i < |fields| :: FieldSettled(t, fields[i])
    ensures Finish(t, Ordered(kept)) == Success(InOrder(fields))
    ensures !t.Other? ==> InOrder(fields) == fields
  {
    hide KeyOf, Unfolded, Raw.IsUtf8, IsNormal, OrderedFrom, TakenFields;
    var lines := LinesFor(fields);
    forall i | 0 <= i < |kept|
      ensures kept[i].key == lines[i].key && Kept(kept[i]) == (lines[i].name, lines[i].value)
    {
      assert KeptAs(kept[i], fields[i]);
    }
    OrderedAlike(kept, lines, 0);
    forall i | 0 <= i < |lines|
      ensures Raw.IsUtf8(lines[i].value) && (!t.Other? ==> lines[i].key == EXTENSION)
    {
      assert FieldSettled(t, fields[i]);
    }
    OrderedIsUtf8(lines, 0);
    KeptAlike(Ordered(kept), Ordered(lines));
    if !t.Other? {
      OneFieldIsOrdered(kept, 0, EXTENSION);
      OneFieldIsOrdered(lines, 0, EXTENSION);
      NoneStandard(kept, 0);
      assert PairsOf(lines) == fields;
    }
  }

  /** The orders fields are pushed in, against the sets they are taken from. */
  lemma Orders(t: RecordType)
    ensures Distinct(OwnOrder(t)) && Distinct(CORE_ORDER)
    ensures forall f :: f in OwnOrder(t) <==> f in FieldsOf(OwnSlots(t))
    ensures forall f :: f in CORE_ORDER <==> f == TYPE || f in FieldsOf(CORE)
    ensures forall f | f in OwnOrder(t) :: f !in CORE_ORDER && f < EXTENSION
    ensures forall f | f in CORE_ORDER :: f < EXTENSION
    ensures TakenFields(t) == (set f | f in OwnOrder(t)) + (set f | f in CORE_ORDER)
  {
    hide OwnSlots;
    SlotsAreDistinct(t);
    FieldsConcat(CORE, OwnSlots(t));
    var order := OwnOrder(t);
    forall f
      ensures f in order <==> f in FieldsOf(OwnSlots(t))
    {
      if f in order {
        var i :| 0 <= i < |order| && order[i] == f;
        assert OwnSlots(t)[i].field == f;
      }
      if f in FieldsOf(OwnSlots(t)) {
        var i :| 0 <= i < |OwnSlots(t)| && OwnSlots(t)[i].field == f;
        assert order[i] == f;
      }
    }
    CoreFields();
  }

  lemma CoreFields()
    ensures forall f :: f in CORE_ORDER <==> f == TYPE || f in FieldsOf(CORE)
    ensures Distinct(CORE_ORDER)
  {
    assert FieldsOf(CORE) == {RECORD_ID, DATE, CONTENT_LENGTH, BLOCK_DIGEST, CONTENT_TYPE, TRUNCATED} by {
      assert CORE[0].field == RECORD_ID && CORE[1].field == DATE && CORE[2].field == CONTENT_LENGTH;
      assert CORE[3].field == BLOCK_DIGEST && CORE[4].field == CONTENT_TYPE && CORE[5].field == TRUNCATED;
    }
  }

  /** The lines a record is rendered as: its own fields, those of every record, and those kept as read. */
  ghost predicate Renders(c: Codec, h: Header, own: seq<HeaderLine>, core: seq<HeaderLine>, kept: seq<HeaderLine>) {
    && (forall i | 0 <= i < |OwnOrder(h.recordType)| :: OwnOrder(h.recordType)[i] < EXTENSION)
    && (forall i | 0 <= i < |CORE_ORDER| :: CORE_ORDER[i] < EXTENSION)
    && PushedAll(c, h, OwnOrder(h.recordType)) == Success(own)
    && PushedAll(c, h, CORE_ORDER) == Success(core)
    && PushedUnrecognized(c, h.version, h.recordType, h.unrecognized) == Success(kept)
  }

  lemma RenderedParts(c: Codec, h: Header, own: seq<HeaderLine>, core: seq<HeaderLine>, kept: seq<HeaderLine>)
    requires c.Lawful() && IsSettled(c, h) && Renders(c, h, own, core, kept)
    ensures AllSound(c, h.version, own + core + kept)
    ensures KeysIn(own, OwnOrder(h.recordType)) && KeysIn(core, CORE_ORDER) && AllKeptAs(kept, h.unrecognized)
    ensures forall i | 0 <= i < |kept| :: kept[i].key !in TakenFields(h.recordType)
  {
    hide Codec.Lawful, Sound, OwnOrder, PushedAll, PushedUnrecognized, TakenFields, SlotSettled, FieldsOf, SlotsOf, Claimed, KeysIn, KeyOf;
    PushedAllSound(c, h, OwnOrder(h.recordType));
    PushedAllSound(c, h, CORE_ORDER);
    forall i | 0 <= i < |h.unrecognized|
      ensures IsNormal(h.unrecognized[i].1) && KeyOf(h.unrecognized[i].0) !in TakenFields(h.recordType)
    {
      assert FieldSettled(h.recordType, h.unrecognized[i]);
    }
    UnrecognizedIsKept(c, h.version, h.recordType, h.unrecognized);
    forall i | 0 <= i < |kept|
      ensures kept[i].key !in TakenFields(h.recordType)
    {
      assert KeptAs(kept[i], h.unrecognized[i]);
    }
  }

  /** The values of a field that is taken are those it was rendered from. */
  lemma RenderedValues(c: Codec, h: Header, own: seq<HeaderLine>, core: seq<HeaderLine>, kept: seq<HeaderLine>, f: nat)
    requires c.Lawful() && IsSettled(c, h) && Renders(c, h, own, core, kept)
    requires f in TakenFields(h.recordType)
    ensures f < EXTENSION && Data(Of(Ordered(own + core + kept), f)) == ValuesFor(h, f)
  {
    hide Codec.Lawful, PushedAll, PushedUnrecognized, TakenFields, OwnOrder, CORE_ORDER, IsSettled, Of, ValuesFor, Ordered, AllSound, KeysIn,
      AllKeptAs, Data;
    Orders(h.recordType);
    RenderedParts(c, h, own, core, kept);
    OrderedKeepsFields(own + core + kept, f);
    OfConcat(own + core, kept, f);
    OfConcat(own, core, f);
    AllOutside(kept, TakenFields(h.recordType));
    assert Of(own + core, f) + [] == Of(own + core, f);
    if f in OwnOrder(h.recordType) {
      PushedAllReads(c, h, OwnOrder(h.recordType), f);
      OfNone(core, CORE_ORDER, f);
      assert Of(own, f) + [] == Of(own, f);
    } else {
      PushedAllReads(c, h, CORE_ORDER, f);
      OfNone(own, OwnOrder(h.recordType), f);
      assert [] + Of(core, f) == Of(core, f);
    }
  }

  lemma SlotsHeld(c: Codec, h: Header, own: seq<HeaderLine>, core: seq<HeaderLine>, kept: seq<HeaderLine>)
    requires c.Lawful() && IsSettled(c, h) && Renders(c, h, own, core, kept)
    ensures var slots := SlotsOf(h.recordType);
            forall i | 0 <= i < |slots| :: SlotHeld(c, h.version, Ordered(own + core + kept), slots[i], h.values)
  {
    hide Codec.Lawful, Renders, Claimed, FieldSettled, OwnSlots, CORE, Of, Ordered, Data;
    var slots := SlotsOf(h.recordType);
    SlotsAreDistinct(h.recordType);
    forall i | 0 <= i < |slots|
      ensures SlotHeld(c, h.version, Ordered(own + core + kept), slots[i], h.values)
    {
      assert SlotSettled(c, h.version, slots[i], h.values);
      assert slots[i].field in FieldsOf(slots);
      RenderedValues(c, h, own, core, kept, slots[i].field);
    }
  }

  /** The values are taken again from the rendered lines. */
  lemma ValuesAgain(c: Codec, h: Header, lines: seq<HeaderLine>)
    requires IsSettled(c, h) && !LacksDigest(c, h.values)
    requires forall i | 0 <= i < |SlotsOf(h.recordType)| :: SlotHeld(c, h.version, lines, SlotsOf(h.recordType)[i], h.values)
    ensures var core := TakeSlots(c, h.version, lines, CORE, 0, map[]);
            && core.Success?
            && TakeSlots(c, h.version, lines, OwnSlots(h.recordType), 0, core.value) == Success(h.values)
  {
    hide OwnSlots, CORE, Claimed, FieldSettled, SlotHeld, TakeSlots, LacksDigest, FieldsOf;
    var own := OwnSlots(h.recordType);
    ProfileFollowsDigest(h.recordType);
    FieldsConcat(CORE, own);
    assert forall j | 0 <= j < |CORE| :: SlotsOf(h.recordType)[j] == CORE[j];
    assert forall j | 0 <= j < |own| :: SlotsOf(h.recordType)[|CORE| + j] == own[j];
    TakeSlotsAgain(c, h.version, lines, CORE, 0, map[], h.values);
    var core := TakeSlots(c, h.version, lines, CORE, 0, map[]).value;
    TakeSlotsAgain(c, h.version, lines, own, 0, core, h.values);
    assert CORE[0..] == CORE && own[0..] == own;
    AgreeingIsSame(TakeSlots(c, h.version, lines, own, 0, core).value, h.values);
  }

  /** Rendered lines are lifted as the header they were rendered from, fields kept as read in order. */
  lemma RenderedLinesLift(c: Codec, h: Header, own: seq<HeaderLine>, core: seq<HeaderLine>, kept: seq<HeaderLine>)
    requires c.Lawful() && IsSettled(c, h) && Renders(c, h, own, core, kept)
    requires !LacksDigest(c, h.values) && RepeatedFrom(own + core + kept, 0, {}).None?
    ensures LiftLines(c, h.version, Ordered(own + core + kept)) == Success(h.(unrecognized := InOrder(h.unrecognized)))
  {
    hide Codec.Lawful, Claimed, OwnSlots, CORE, CORE_ORDER, OwnOrder, PushedAll, PushedUnrecognized, TakeSlots, Finish, RepeatedFrom,
      UndefinedFrom, Ordered, Of, Without, LacksDigest, TypeOf, TypeName, SlotsOf, FieldsOf, SlotSettled, FieldSettled, AllSound,
      AllKeptAs, KeysIn, SlotHeld, InOrder, Data;
    var lines := Ordered(own + core + kept);
    RenderedParts(c, h, own, core, kept);
    OrderedRepeatsNothing(own + core + kept);
    OrderedIsSoundWhole(c, h.version, own + core + kept);
    SoundIsDefined(c, h.version, lines, 0);
    RenderedValues(c, h, own, core, kept, TYPE);
    DataOfFirst(Of(lines, TYPE), TypeName(h.recordType));
    SlotsHeld(c, h, own, core, kept);
    ValuesAgain(c, h, lines);
    RestIsKept(h.recordType, own, core, kept);
    KeptAgain(h.recordType, kept, h.unrecognized);
  }

  lemma OrderedIsSoundWhole(c: Codec, version: Raw.Version, lines: seq<HeaderLine>)
    requires AllSound(c, version, lines)
    ensures AllSound(c, version, Ordered(lines))
  {
    hide Sound, OrderedFrom;
    OrderedIsSound(c, version, lines, 0);
  }

  lemma DataOfFirst(lines: seq<HeaderLine>, datum: bytes)
    requires Data(lines) == [datum]
    ensures lines != [] && lines[0].datum == datum
  {
    assert |Data(lines)| == 1 && Data(lines)[0] == datum;
  }

  lemma RestIsKept(t: RecordType, own: seq<HeaderLine>, core: seq<HeaderLine>, kept: seq<HeaderLine>)
    requires KeysIn(own, OwnOrder(t)) && KeysIn(core, CORE_ORDER)
    requires forall i | 0 <= i < |kept| :: kept[i].key !in TakenFields(t)
    ensures Without(Ordered(own + core + kept), TakenFields(t)) == Ordered(kept)
  {
    hide TakenFields, OwnOrder, CORE_ORDER, Without, OrderedFrom, KeysIn;
    Orders(t);
    WithoutOrderedFrom(own + core + kept, TakenFields(t), 0);
    WithoutConcat(own + core, kept, TakenFields(t));
    WithoutConcat(own, core, TakenFields(t));
    NoneOutside(own, OwnOrder(t), TakenFields(t));
    NoneOutside(core, CORE_ORDER, TakenFields(t));
    AllOutside(kept, TakenFields(t));
    assert [] + [] + kept == kept;
  }

  /** A settled record that can be rendered is lifted from what is rendered. */
  lemma RenderedLifts(c: Codec, checks: Checks, r: Record)
    requires c.Lawful() && IsSettled(c, r.header) && WithBody(c, r.header, r.body) == Some(r)
    requires IntoRaw(c, checks, r).Success?
    ensures var out := IntoRaw(c, checks, r).value;
            && out.body == r.body
            && Lift(c, out.header) == Success(r.header.(unrecognized := InOrder(r.header.unrecognized)))
  {
    hide Codec.Lawful, IsSettled, PushedAll, PushedUnrecognized, RepeatedFrom, LacksDigest, UndeclaredPart, OwnOrder, CORE_ORDER, Ordered,
      LiftLines, InOrder, WithBody, LinesOf, Written;
    var h := r.header;
    OrderIsStandard(h.recordType);
    var own := PushedAll(c, h, OwnOrder(h.recordType)).value;
    var core := PushedAll(c, h, CORE_ORDER).value;
    var kept := PushedUnrecognized(c, h.version, h.recordType, h.unrecognized).value;
    RenderedLinesLift(c, h, own, core, kept);
    RenderedParts(c, h, own, core, kept);
    OrderedIsSoundWhole(c, h.version, own + core + kept);
    WrittenReads(c, h.version, Ordered(own + core + kept));
  }

  lemma PairedTwice(c: Codec, h: Header, body: bytes)
    requires WithBody(c, h, body).Some?
    ensures var r := WithBody(c, h, body).value; WithBody(c, r.header, r.body) == Some(r)
  {
    var r := WithBody(c, h, body).value;
    assert r.header.values[CONTENT_LENGTH := [c.count(|body|)]] == r.header.values;
  }

  /** For a type of the standard, fields kept as read are in order as they stand. */
  lemma SettledOrder(c: Codec, h: Header)
    requires IsSettled(c, h)
    ensures !h.recordType.Other? ==> InOrder(h.unrecognized) == h.unrecognized
  {
    hide Claimed, SlotSettled, SlotsOf, FieldsOf, Raw.IsUtf8, IsNormal, TakenFields, KeyOf, OrderedFrom;
    var lines := LinesFor(h.unrecognized);
    if !h.recordType.Other? {
      forall i | 0 <= i < |lines|
        ensures lines[i].key == EXTENSION
      {
        assert FieldSettled(h.recordType, h.unrecognized[i]);
      }
      OneFieldIsOrdered(lines, 0, EXTENSION);
      assert PairsOf(lines) == h.unrecognized;
    }
  }
}
