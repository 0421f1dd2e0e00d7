/**
 * Records that rendering does not give back as they were lifted. Only a type from outside the
 * standard has them, since it alone may keep standard fields among its others (`src/record/mod.rs:1279-1307`).
 */
module Reordering {
  import opened Bytes
  import opened FormCodec
  import opened Headers
  import opened Lens
  import opened LensLaw
  import opened LensNames
  import opened LensRoundTrip
  import opened Lifting
  import opened Parsing
  import Date
  import Radix
  import Raw

  // ---------------------------------------------------------------------------------------------
  // Lists of lines
  // ---------------------------------------------------------------------------------------------

  lemma OfOnly(lines: seq<HeaderLine>, i: nat)
    requires i < |lines| && forall j | 0 <= j < |lines| && j != i :: lines[j].key != lines[i].key
    ensures Of(lines, lines[i].key) == [lines[i]]
  {
    hide Of;
    var key := lines[i].key;
    var before, after := lines[..i], lines[i + 1..];
    assert lines == before + ([lines[i]] + after);
    OfConcat(before, [lines[i]] + after, key);
    OfConcat([lines[i]], after, key);
    OfOne(lines[i], key);
    OfNoneBefore(before, key);
    OfNoneBefore(after, key);
  }

  lemma {:induction false} AllDefined(lines: seq<HeaderLine>, i: nat)
    requires i <= |lines|
    ensures UndefinedFrom(lines, Raw.V1_1, i).None?
    decreases |lines| - i
  {
    if i < |lines| {
      AllDefined(lines, i + 1);
    }
  }

  /** The values after each slot has taken what it takes. */
  function With(slots: seq<Slot>, taken: seq<seq<bytes>>, n: nat, values: map<nat, seq<bytes>>): map<nat, seq<bytes>>
    requires n <= |slots| == |taken|
  {
    if n == 0 then values else With(slots, taken, n - 1, values)[slots[n - 1].field := taken[n - 1]]
  }

  /** Slots that each take what they may take it one after the other. */
  lemma {:induction false} EachTakes(
    c: Codec, lines: seq<HeaderLine>, slots: seq<Slot>, taken: seq<seq<bytes>>, i: nat, before: map<nat, seq<bytes>>)
    requires i <= |slots| == |taken|
    requires forall j | 0 <= j < |slots| ::
               && slots[j].field != PROFILE
               && Taken(c, Raw.V1_1, slots[j], Data(Of(lines, slots[j].field))) == Success(taken[j])
    ensures TakeSlots(c, Raw.V1_1, lines, slots, i, With(slots, taken, i, before)) == Success(With(slots, taken, |slots|, before))
    decreases |slots| - i
  {
    hide Taken, Of;
    if i < |slots| {
      EachTakes(c, lines, slots, taken, i + 1, before);
    }
  }

  lemma TakenOne(c: Codec, field: nat, datum: bytes)
    requires c.meaning(Raw.V1_1, field, datum) == Some(datum)
    ensures Taken(c, Raw.V1_1, Slot(field, Required), [datum]) == Success([datum])
  {
    var data := [datum];
    assert data[..1] == data && data[..0] == [];
    assert Meanings(c, Raw.V1_1, field, data[..0]) == Success([]);
    assert Meanings(c, Raw.V1_1, field, data).Success? && Meanings(c, Raw.V1_1, field, data).value == data;
  }

  function KeptFrom(lines: seq<HeaderLine>): (fields: seq<(bytes, bytes)>)
    ensures |fields| == |lines| && forall i | 0 <= i < |lines| :: fields[i] == Kept(lines[i])
  {
    seq(|lines|, i requires 0 <= i < |lines| => Kept(lines[i]))
  }

  lemma {:induction false} EachIsPushed(c: Codec, t: RecordType, fields: seq<(bytes, bytes)>)
    requires forall i | 0 <= i < |fields| :: PushedAsRead(c, Raw.V1_1, t, fields[i]).Success?
    ensures PushedUnrecognized(c, Raw.V1_1, t, fields).Success?
    ensures var lines := PushedUnrecognized(c, Raw.V1_1, t, fields).value;
            |lines| == |fields| && forall i | 0 <= i < |lines| :: lines[i].key == KeyOf(fields[i].0)
    decreases |fields|
  {
    hide PushedAsRead, KeyOf;
    if fields != [] {
      var n := |fields| - 1;
      EachIsPushed(c, t, fields[..n]);
      PushedKey(c, t, fields[n]);
    }
  }

  lemma PushedKey(c: Codec, t: RecordType, field: (bytes, bytes))
    ensures var line := PushedAsRead(c, Raw.V1_1, t, field); line.Success? ==> line.value.key == KeyOf(field.0)
  {
    hide KeyOf, IsToken, Unfolded, IsFolded, Spelled;
  }

  /** Lines of the same ranks in the same order hold as many of each. */
  lemma {:induction false} OfSameKeys(a: seq<HeaderLine>, b: seq<HeaderLine>, k: nat)
    requires |a| == |b| && forall i | 0 <= i < |a| :: a[i].key == b[i].key
    ensures |Of(a, k)| == |Of(b, k)|
    decreases |a|
  {
    if a != [] {
      OfSameKeys(a[..|a| - 1], b[..|b| - 1], k);
    }
  }

  lemma {:induction false} PushedSucceeds(c: Codec, field: nat, data: seq<bytes>)
    requires field < EXTENSION && forall i | 0 <= i < |data| :: c.writable(Raw.V1_1, field, data[i])
    ensures Pushed(c, Raw.V1_1, field, data).Success?
    decreases |data|
  {
    hide STANDARD_NAMES;
    NamesCount();
    if data != [] {
      PushedSucceeds(c, field, data[..|data| - 1]);
    }
  }

  ghost predicate Pushes(c: Codec, h: Header, field: nat) {
    field < EXTENSION && forall i | 0 <= i < |ValuesFor(h, field)| :: c.writable(Raw.V1_1, field, ValuesFor(h, field)[i])
  }

  lemma {:induction false} PushedAllSucceeds(c: Codec, h: Header, order: seq<nat>)
    requires h.version == Raw.V1_1
    requires forall i | 0 <= i < |order| :: order[i] < EXTENSION && Pushes(c, h, order[i])
    ensures PushedAll(c, h, order).Success?
    decreases |order|
  {
    hide Pushed, ValuesFor;
    if order != [] {
      PushedAllSucceeds(c, h, order[..|order| - 1]);
      assert Pushes(c, h, order[|order| - 1]);
      PushedSucceeds(c, order[|order| - 1], ValuesFor(h, order[|order| - 1]));
    }
  }

  // ---------------------------------------------------------------------------------------------
  // Headers of such a type
  // ---------------------------------------------------------------------------------------------

  /** What a codec makes of the mandatory fields of a type that it claims under `name`. */
  ghost predicate Claims(c: Codec, name: bytes, typeDatum: bytes, id: bytes, date: bytes) {
    && Claimed(c, TypeOf(typeDatum)) == Success(Other(name)) && c.writable(Raw.V1_1, TYPE, name)
    && c.meaning(Raw.V1_1, RECORD_ID, id) == Some(id) && c.writable(Raw.V1_1, RECORD_ID, id)
    && c.meaning(Raw.V1_1, DATE, date) == Some(date) && c.writable(Raw.V1_1, DATE, date)
    && c.writable(Raw.V1_1, CONTENT_LENGTH, c.count(0))
  }

  /** The first three lines are the mandatory ones, and the type takes none of the others. */
  ghost predicate Extends(lines: seq<HeaderLine>, name: bytes) {
    && |lines| >= 3 && lines[0].key == TYPE && lines[1].key == RECORD_ID && lines[2].key == DATE
    && RepeatedFrom(lines, 0, {}).None?
    && forall i | 3 <= i < |lines| :: lines[i].key == KeyOf(lines[i].name) && lines[i].key !in TakenFields(Other(name))
  }

  function LiftedFrom(lines: seq<HeaderLine>, name: bytes): Header
    requires |lines| >= 3
  {
    Header(
      Raw.V1_1, Other(name),
      map[RECORD_ID := [lines[1].datum], DATE := [lines[2].datum], CONTENT_LENGTH := [], BLOCK_DIGEST := [],
          CONTENT_TYPE := [], TRUNCATED := [], SEGMENT_NUMBER := []],
      KeptFrom(lines[3..]))
  }

  /** The record of such a header with an empty body. */
  function RecordOf(c: Codec, lines: seq<HeaderLine>, name: bytes): Record
    requires |lines| >= 3
  {
    var h := LiftedFrom(lines, name);
    Record(h.(values := h.values[CONTENT_LENGTH := [c.count(0)]]), [])
  }

  /** The lines of the fields the type takes, and where there are none. */
  lemma OfTaken(lines: seq<HeaderLine>, name: bytes, f: nat)
    requires Extends(lines, name) && f in TakenFields(Other(name))
    ensures Of(lines, f) ==
            if f == TYPE then [lines[0]] else if f == RECORD_ID then [lines[1]] else if f == DATE then [lines[2]] else []
  {
    hide Of, TakenFields, KeyOf, RepeatedFrom;
    TakenAre(name);
    if f == TYPE {
      OfOnly(lines, 0);
    } else if f == RECORD_ID {
      OfOnly(lines, 1);
    } else if f == DATE {
      OfOnly(lines, 2);
    } else {
      AllOutside(lines, {f});
    }
  }

  lemma TakenAre(name: bytes)
    ensures TakenFields(Other(name)) ==
            {TYPE, RECORD_ID, DATE, CONTENT_LENGTH, BLOCK_DIGEST, CONTENT_TYPE, TRUNCATED, SEGMENT_NUMBER}
  {
    var slots := SlotsOf(Other(name));
    assert slots[0].field == RECORD_ID && slots[1].field == DATE && slots[2].field == CONTENT_LENGTH;
    assert slots[3].field == BLOCK_DIGEST && slots[4].field == CONTENT_TYPE && slots[5].field == TRUNCATED;
    assert slots[6].field == SEGMENT_NUMBER;
  }

  lemma FirstThree(lines: seq<HeaderLine>, name: bytes)
    requires Extends(lines, name)
    ensures |lines| >= 3 && RepeatedFrom(lines, 0, {}).None?
    ensures forall i | 3 <= i < |lines| :: lines[i].key == KeyOf(lines[i].name)
  {
    hide KeyOf, RepeatedFrom, TakenFields;
  }

  /** Such lines lift, and those the type does not take are kept as they stand. */
  lemma LinesLift(c: Codec, lines: seq<HeaderLine>, name: bytes)
    requires Extends(lines, name) && Claims(c, name, lines[0].datum, lines[1].datum, lines[2].datum)
    requires forall i | 3 <= i < |lines| :: Raw.IsUtf8(Unfolded(lines[i].value))
    ensures LiftLines(c, Raw.V1_1, lines) == Success(LiftedFrom(lines, name))
  {
    hide Of, TakenFields, KeyOf, RepeatedFrom, UndefinedFrom, TakeSlots, Taken, TypeOf, Without, KeptAll,
      Raw.IsUtf8, Unfolded, With, Extends;
    FirstThree(lines, name);
    TakenAre(name);
    AllDefined(lines, 0);
    OfTaken(lines, name, TYPE);
    forall f | f in TakenFields(Other(name)) && f != TYPE
      ensures Data(Of(lines, f)) == if f == RECORD_ID then [lines[1].datum] else if f == DATE then [lines[2].datum] else []
    {
      OfTaken(lines, name, f);
    }
    TakenOne(c, RECORD_ID, lines[1].datum);
    TakenOne(c, DATE, lines[2].datum);
    var core: seq<seq<bytes>> := [[lines[1].datum], [lines[2].datum], [], [], [], []];
    OptionalTakes(c);
    EachTakes(c, lines, CORE, core, 0, map[]);
    WithNone(CORE, core, map[]);
    CoreValues(core);
    var values := With(CORE, core, 6, map[]);
    EachTakes(c, lines, ORIGIN, [[]], 0, values);
    WithNone(ORIGIN, [[]], values);
    WithMore(ORIGIN, [[]], 0, values);
    assert OwnSlots(Other(name)) == ORIGIN;
    KeptRest(lines, name);
    var kept := LinesFor(KeptFrom(lines[3..]));
    KeptAlike(lines[3..], kept);
    assert PairsOf(kept) == KeptFrom(lines[3..]);
  }

  lemma OptionalTakes(c: Codec)
    ensures forall slot: Slot | slot.arity.Optional? || slot.arity.Origin? :: Taken(c, Raw.V1_1, slot, []) == Success([])
  {
  }

  lemma CoreValues(core: seq<seq<bytes>>)
    requires |core| == 6
    ensures With(CORE, core, 6, map[]) ==
            map[RECORD_ID := core[0], DATE := core[1], CONTENT_LENGTH := core[2], BLOCK_DIGEST := core[3],
                CONTENT_TYPE := core[4], TRUNCATED := core[5]]
  {
    hide With;
    forall n: nat | n < 6
      ensures With(CORE, core, n + 1, map[]) == With(CORE, core, n, map[])[CORE[n].field := core[n]]
    {
      WithMore(CORE, core, n, map[]);
    }
    WithNone(CORE, core, map[]);
  }

  lemma WithMore(slots: seq<Slot>, taken: seq<seq<bytes>>, n: nat, values: map<nat, seq<bytes>>)
    requires n < |slots| == |taken|
    ensures With(slots, taken, n + 1, values) == With(slots, taken, n, values)[slots[n].field := taken[n]]
  {
  }

  lemma WithNone(slots: seq<Slot>, taken: seq<seq<bytes>>, values: map<nat, seq<bytes>>)
    requires |slots| == |taken|
    ensures With(slots, taken, 0, values) == values
  {
  }

  lemma KeptRest(lines: seq<HeaderLine>, name: bytes)
    requires Extends(lines, name)
    ensures Without(lines, TakenFields(Other(name))) == lines[3..]
  {
    hide TakenFields, KeyOf, RepeatedFrom, Without;
    TakenAre(name);
    assert lines == lines[..3] + lines[3..];
    WithoutConcat(lines[..3], lines[3..], TakenFields(Other(name)));
    NoneOutside(lines[..3], [TYPE, RECORD_ID, DATE], TakenFields(Other(name)));
    AllOutside(lines[3..], TakenFields(Other(name)));
  }

  /** Each field the type takes has at most one value, which can be written. */
  lemma ValuesFit(c: Codec, lines: seq<HeaderLine>, name: bytes, f: nat)
    requires |lines| >= 3 && Claims(c, name, lines[0].datum, lines[1].datum, lines[2].datum)
    requires f in {TYPE, RECORD_ID, DATE, CONTENT_LENGTH, BLOCK_DIGEST, CONTENT_TYPE, TRUNCATED, SEGMENT_NUMBER}
    ensures Pushes(c, RecordOf(c, lines, name).header, f) && |ValuesFor(RecordOf(c, lines, name).header, f)| <= 1
  {
    hide TypeOf, KeptFrom;
  }

  /** What is rendered repeats no field. */
  lemma RendersOnce(
    c: Codec, lines: seq<HeaderLine>, name: bytes, own: seq<HeaderLine>, core: seq<HeaderLine>, kept: seq<HeaderLine>)
    requires Extends(lines, name)
    requires forall f | f in TakenFields(Other(name)) :: |Of(own + core, f)| <= 1
    requires forall f: nat | f !in TakenFields(Other(name)) :: Of(own + core, f) == []
    requires |kept| == |lines| - 3 && forall i | 0 <= i < |kept| :: kept[i].key == lines[3 + i].key
    ensures RepeatedFrom(own + core + kept, 0, {}).None?
  {
    hide Of, TakenFields, KeyOf, RepeatedFrom;
    RepeatedIff(lines, 0, {});
    RepeatedIff(own + core + kept, 0, {});
    assert lines[0..] == lines && (own + core + kept)[0..] == own + core + kept && lines == lines[..3] + lines[3..];
    forall f: nat | !IsRepeatable(f)
      ensures |Of(own + core + kept, f)| <= 1
    {
      OfConcat(own + core, kept, f);
      OfConcat(lines[..3], lines[3..], f);
      OfSameKeys(kept, lines[3..], f);
      if f in TakenFields(Other(name)) {
        AllOutside(lines[3..], {f});
      }
    }
  }

  /** What is pushed for the fields a type takes holds one line at most of each, and no other. */
  lemma PushedOnce(c: Codec, h: Header, own: seq<HeaderLine>, core: seq<HeaderLine>, f: nat)
    requires c.Lawful() && (forall i | 0 <= i < |OwnOrder(h.recordType)| :: OwnOrder(h.recordType)[i] < EXTENSION)
    requires forall i | 0 <= i < |CORE_ORDER| :: CORE_ORDER[i] < EXTENSION
    requires PushedAll(c, h, OwnOrder(h.recordType)) == Success(own) && PushedAll(c, h, CORE_ORDER) == Success(core)
    ensures f in TakenFields(h.recordType) && |ValuesFor(h, f)| <= 1 ==> |Of(own + core, f)| <= 1
    ensures f !in TakenFields(h.recordType) ==> Of(own + core, f) == []
  {
    hide Codec.Lawful, Of, TakenFields, PushedAll, ValuesFor, OwnOrder, CORE_ORDER;
    Orders(h.recordType);
    OfConcat(own, core, f);
    PushedAllReads(c, h, OwnOrder(h.recordType), f);
    PushedAllReads(c, h, CORE_ORDER, f);
  }

  /** The record renders. */
  lemma RecordRenders(c: Codec, checks: Checks, lines: seq<HeaderLine>, name: bytes)
    requires c.Lawful() && Extends(lines, name) && Claims(c, name, lines[0].datum, lines[1].datum, lines[2].datum)
    requires checks.payload(RecordOf(c, lines, name)) && checks.block(RecordOf(c, lines, name))
    requires forall i | 3 <= i < |lines| :: PushedAsRead(c, Raw.V1_1, Other(name), Kept(lines[i])).Success?
    ensures IntoRaw(c, checks, RecordOf(c, lines, name)).Success?
  {
    hide Codec.Lawful, Of, TakenFields, KeyOf, RepeatedFrom, TypeOf, PushedAsRead, PushedUnrecognized, PushedAll, Unfolded, Pushes,
      Claims, CORE_ORDER, OwnOrder, ValuesFor;
    var r := RecordOf(c, lines, name);
    var h, t := r.header, Other(name);
    OrderIsStandard(t);
    Orders(t);
    TakenAre(name);
    forall f | f in TakenFields(t)
      ensures Pushes(c, h, f) && |ValuesFor(h, f)| <= 1
    {
      ValuesFit(c, lines, name, f);
    }
    PushedAllSucceeds(c, h, OwnOrder(t));
    PushedAllSucceeds(c, h, CORE_ORDER);
    EachIsPushed(c, t, h.unrecognized);
    var own, core := PushedAll(c, h, OwnOrder(t)).value, PushedAll(c, h, CORE_ORDER).value;
    var kept := PushedUnrecognized(c, Raw.V1_1, t, h.unrecognized).value;
    forall f: nat
      ensures f in TakenFields(t) ==> |Of(own + core, f)| <= 1
      ensures f !in TakenFields(t) ==> Of(own + core, f) == []
    {
      PushedOnce(c, h, own, core, f);
    }
    RendersOnce(c, lines, name, own, core, kept);
    assert r.header.values[CONTENT_LENGTH := [c.count(0)]] == r.header.values;
  }

  /**
   * A header of a type no standard defines, with the mandatory fields and any others that the type
   * does not take. It lifts and renders, and what is rendered lifts to the record with those others
   * in conventional order: to the same record exactly when their ranks never descend.
   */
  lemma ExtensionTypesAreReordered(c: Codec, checks: Checks, header: Raw.Header, lines: seq<HeaderLine>, name: bytes)
    requires c.Lawful() && header.version == Raw.V1_1 && LinesOf(c, header.fields) == Success(lines)
    requires Extends(lines, name) && Claims(c, name, lines[0].datum, lines[1].datum, lines[2].datum)
    requires checks.payload(RecordOf(c, lines, name)) && checks.block(RecordOf(c, lines, name))
    requires forall i | 3 <= i < |lines| ::
               Raw.IsUtf8(Unfolded(lines[i].value)) && PushedAsRead(c, Raw.V1_1, Other(name), Kept(lines[i])).Success?
    ensures Lift(c, header) == Success(LiftedFrom(lines, name))
    ensures WithBody(c, LiftedFrom(lines, name), []) == Some(RecordOf(c, lines, name))
    ensures IntoRaw(c, checks, RecordOf(c, lines, name)).Success?
    ensures var r := RecordOf(c, lines, name);
            var out := IntoRaw(c, checks, r).value;
            var again := Lift(c, out.header);
            && again.Success?
            && WithBody(c, again.value, out.body) == Some(r.(header := r.header.(unrecognized := InOrder(r.header.unrecognized))))
            && (WithBody(c, again.value, out.body) == Some(r) <==>
                  forall i, j | 3 <= i < j < |lines| :: lines[i].key <= lines[j].key)
  {
    hide Codec.Lawful, Claims, LiftLines, LinesOf, IntoRaw, InOrder, PushedAsRead, Raw.IsUtf8, Unfolded, Kept, KeyOf, TakenFields,
      RepeatedFrom, Lift;
    LinesLift(c, lines, name);
    LiftIs(c, header, lines);
    RecordRenders(c, checks, lines, name);
    LiftAndRenderUndo(c, checks, header, []);
    RanksAre(lines);
  }

  lemma LiftIs(c: Codec, header: Raw.Header, lines: seq<HeaderLine>)
    requires LinesOf(c, header.fields) == Success(lines)
    ensures Lift(c, header) == LiftLines(c, header.version, lines)
  {
  }

  /** The ranks of what is kept are those of the lines. */
  lemma RanksAre(lines: seq<HeaderLine>)
    requires |lines| >= 3 && forall i | 3 <= i < |lines| :: lines[i].key == KeyOf(lines[i].name)
    ensures RanksAscend(KeptFrom(lines[3..])) <==> forall i, j | 3 <= i < j < |lines| :: lines[i].key <= lines[j].key
  {
    hide KeyOf, Unfolded;
    var kept := KeptFrom(lines[3..]);
    assert forall i | 0 <= i < |kept| :: kept[i].0 == lines[3 + i].name;
    if RanksAscend(kept) {
      forall i, j | 3 <= i < j < |lines|
        ensures lines[i].key <= lines[j].key
      {
        assert KeyOf(kept[i - 3].0) <= KeyOf(kept[j - 3].0);
      }
    }
  }

  // ---------------------------------------------------------------------------------------------
  // Under the grammars of the library
  // ---------------------------------------------------------------------------------------------

  const NOTE: bytes := Ascii("x-note")

  lemma {:induction false} NoteIsExtension(k: nat)
    requires k <= |STANDARD_NAMES|
    ensures RankFrom(NOTE, k).None?
    decreases |STANDARD_NAMES| - k
  {
    hide Mark, Ascii;
    if k < |STANDARD_NAMES| {
      NameHasMark(k);
      MarkIsLong(k);
      NoteIsExtension(k + 1);
    }
  }

  lemma MarkIsLong(k: nat)
    requires k < EXTENSION
    ensures Mark(k).0 >= 9
  {
  }

  lemma NoteKey()
    ensures KeyOf(NOTE) == EXTENSION
  {
    hide RankFrom, Ascii;
    NoteIsExtension(0);
  }

  /** The contents of the fields a record of an extension type is to have, and of two that it keeps. */
  datatype Contents = Contents(typeName: bytes, id: bytes, date: bytes, note: bytes, uri: bytes)

  /** A header with a field of no standard name before a standard one that its type does not take. */
  function HeaderOf(v: Contents): Raw.Header {
    var lines := LinesFrom(v);
    Raw.Header(Raw.V1_1, seq(5, i requires 0 <= i < 5 => Raw.Field(lines[i].name, lines[i].value)))
  }

  /** The line read of a field with a space before its content. */
  function Line(key: nat, content: bytes): HeaderLine
    requires key <= EXTENSION
  {
    NamesCount();
    HeaderLine(if key == EXTENSION then NOTE else STANDARD_NAMES[key], key, [SP] + content, content)
  }

  function LinesFrom(v: Contents): (lines: seq<HeaderLine>)
    ensures |lines| == 5
  {
    [Line(TYPE, v.typeName), Line(RECORD_ID, v.id), Line(DATE, v.date), Line(EXTENSION, v.note), Line(TARGET_URI, v.uri)]
  }

  lemma LineIsRead(c: Codec, key: nat, content: bytes)
    requires key <= EXTENSION && IsNormal(content)
    requires if key == EXTENSION then IsText(content) else c.read(key, content) == Some(content)
    ensures LineOf(c, Raw.Field(Line(key, content).name, [SP] + content)) == Success(Line(key, content))
    ensures KeyOf(Line(key, content).name) == key
  {
    hide IsNormal, Unfolded, IsFolded, STANDARD_NAMES, Ascii, RankOf;
    NamesCount();
    NormalIsRead(content);
    if key == EXTENSION {
      NoteKey();
    } else {
      StandardNameKey(key);
    }
  }

  lemma NameIsToken()
    ensures |STANDARD_NAMES| > TARGET_URI && IsToken(STANDARD_NAMES[TARGET_URI]) && IsToken(NOTE)
  {
    NamesCount();
    var s: string := "WARC-Target-URI";
    assert forall i | 0 <= i < |s| :: s[i] in "WARC-TgetUI" || s[i] == 'a' || s[i] == 'r';
    var t: string := "x-note";
    assert forall i | 0 <= i < |t| :: t[i] in "x-note";
  }

  /** A content kept from a line is pushed as it was read. */
  lemma KeptIsPushed(c: Codec, t: RecordType, key: nat, content: bytes)
    requires t.Other? && IsNormal(content) && (key == EXTENSION || key == TARGET_URI)
    requires if key == EXTENSION then IsText(content) else c.read(key, content) == Some(content)
    ensures PushedAsRead(c, Raw.V1_1, t, Kept(Line(key, content))).Success? && Unfolded(Line(key, content).value) == content
  {
    hide IsToken, Unfolded, IsFolded, STANDARD_NAMES, Ascii, RankOf, LineOf;
    NamesCount();
    NameIsToken();
    LineIsRead(c, key, content);
    NormalIsRead(content);
    assert Spelled(content) == [SP] + content;
  }

  lemma UriIsItself(f: Foreign, normalize: (nat, bytes) -> Option<bytes>, field: nat, uri: bytes)
    requires f.Lawful() && f.isUri(uri) && Raw.IsUtf8(uri) && (field == RECORD_ID || field == TARGET_URI)
    ensures IsNormal(uri) && Datum(f, KindOf(field), uri) == Some(uri)
    ensures MeaningOf(normalize, Raw.V1_1, field, uri) == Some(uri) && CanWrite(f, Raw.V1_1, field, uri)
  {
    hide Foreign.Lawful, IsNormal, Raw.IsUtf8, Datum, IsUriText;
    UriIsText(f, uri);
    UriIsNormal(uri);
    UriDatum(f, uri, false);
    BareSpelling(f, uri);
  }

  lemma DateIsItself(f: Foreign, normalize: (nat, bytes) -> Option<bytes>, date: bytes)
    requires IsNormal(date) && Date.Parse(date, Raw.V1_1).Some?
    ensures Datum(f, KindOf(DATE), date) == Some(date)
    ensures MeaningOf(normalize, Raw.V1_1, DATE, date) == Some(date) && CanWrite(f, Raw.V1_1, DATE, date)
  {
    hide IsNormal, Raw.IsUtf8, Date.Parse, Date.Print;
    DateReadsBack(date);
  }

  lemma TokenIsItself(f: Foreign, token: bytes)
    requires IsToken(token)
    ensures IsNormal(token) && Datum(f, KindOf(TYPE), token) == Some(token) && CanWrite(f, Raw.V1_1, TYPE, token)
  {
    hide Raw.IsUtf8, Trim, IsToken;
    TokenIsPlain(token);
  }

  lemma CountIsWritable(f: Foreign)
    ensures CanWrite(f, Raw.V1_1, CONTENT_LENGTH, Radix.DecimalText(0))
  {
    hide IsNormal, Raw.IsUtf8, Radix.DecimalText, Parsing.ParseContentLength;
    DigitsReadBack(0);
  }

  /**
   * The grammars accept such headers of whatever type an extension claims, with any URIs, any date
   * and any text: their lines are read and kept, with the note before the URI.
   */
  lemma GrammarsClaim(
    f: Foreign, normalize: (nat, bytes) -> Option<bytes>, identical: bytes -> bool, lengthReason: bytes,
    extension: bytes -> Option<bytes>, v: Contents)
    requires f.Lawful()
    requires IsToken(v.typeName) && TypeOf(v.typeName).Other? && extension(TypeOf(v.typeName).name) == Some(v.typeName)
    requires f.isUri(v.id) && Raw.IsUtf8(v.id) && f.isUri(v.uri) && Raw.IsUtf8(v.uri)
    requires IsNormal(v.date) && Date.Parse(v.date, Raw.V1_1).Some?
    requires IsNormal(v.note) && IsText(v.note) && Raw.IsUtf8(v.note)
    ensures var c, lines := CodecOf(f, normalize, identical, lengthReason, extension), LinesFrom(v);
            && LinesOf(c, HeaderOf(v).fields) == Success(lines) && Extends(lines, v.typeName)
            && Claims(c, v.typeName, v.typeName, v.id, v.date)
            && forall i | 3 <= i < 5 ::
                 Raw.IsUtf8(Unfolded(lines[i].value)) && PushedAsRead(c, Raw.V1_1, Other(v.typeName), Kept(lines[i])).Success?
  {
    hide Foreign.Lawful, IsNormal, Raw.IsUtf8, TypeOf, IsToken, Datum, CanWrite, IsText, Date.Parse, MeaningOf, Radix.DecimalText,
      LineOf, LinesOf, KeyOf, TakenFields, RepeatedFrom, PushedAsRead, Kept, Unfolded, STANDARD_NAMES, Ascii, NOTE;
    var c, t := CodecOf(f, normalize, identical, lengthReason, extension), Other(v.typeName);
    UriIsItself(f, normalize, RECORD_ID, v.id);
    UriIsItself(f, normalize, TARGET_URI, v.uri);
    DateIsItself(f, normalize, v.date);
    TokenIsItself(f, v.typeName);
    CountIsWritable(f);
    LineIsRead(c, TYPE, v.typeName);
    LineIsRead(c, RECORD_ID, v.id);
    LineIsRead(c, DATE, v.date);
    LineIsRead(c, EXTENSION, v.note);
    LineIsRead(c, TARGET_URI, v.uri);
    LinesAreRead(c, HeaderOf(v).fields, LinesFrom(v));
    KeptIsPushed(c, t, EXTENSION, v.note);
    KeptIsPushed(c, t, TARGET_URI, v.uri);
    TakenAre(v.typeName);
    NoneRepeated(LinesFrom(v));
  }

  lemma NoneRepeated(lines: seq<HeaderLine>)
    requires forall a, b | 0 <= a < b < |lines| :: lines[a].key != lines[b].key
    ensures RepeatedFrom(lines, 0, {}).None?
  {
    hide Of, RepeatedFrom;
    RepeatedIff(lines, 0, {});
    assert lines[0..] == lines;
    forall f: nat
      ensures |Of(lines, f)| <= 1
    {
      if i: nat :| i < |lines| && lines[i].key == f {
        OfOnly(lines, i);
      } else {
        AllOutside(lines, {f});
      }
    }
  }

  /** One such record: of the type `list`, in the year `2020`. */
  const LISTED: Contents := Contents([108, 105, 115, 116], [97], [50, 48, 50, 48], [98], [99])

  /** Grammars that take every text without white space or angle brackets for a URI. */
  const LENIENT: Foreign := Foreign((s: bytes) => IsUriText(s), (s: bytes) => None, (s: bytes) => s, (s: bytes) => None, (s: bytes) => s)

  const NORMALIZE := (field: nat, datum: bytes) => Some(datum)

  /** An extension whose only type is `list`. */
  const EXTENDING := (name: bytes) => if name == LISTED.typeName then Some(name) else None

  function ListCodec(): Codec {
    CodecOf(LENIENT, NORMALIZE, (profile: bytes) => false, [], EXTENDING)
  }

  const ACCEPTING: Checks := Checks((record: Record) => true, (record: Record) => true)

  /** It lifts and renders, and does not come back as it was. */
  lemma ListedIsReordered()
    ensures ListCodec().Lawful()
    ensures var c, lines := ListCodec(), LinesFrom(LISTED);
            var r := RecordOf(c, lines, LISTED.typeName);
            && Lift(c, HeaderOf(LISTED)) == Success(LiftedFrom(lines, LISTED.typeName))
            && WithBody(c, LiftedFrom(lines, LISTED.typeName), []) == Some(r) && IntoRaw(c, ACCEPTING, r).Success?
            && var out := IntoRaw(c, ACCEPTING, r).value;
            && Lift(c, out.header).Success? && WithBody(c, Lift(c, out.header).value, out.body) != Some(r)
  {
    hide Claims, Codec.Lawful, Lift, IntoRaw, WithBody, CodecOf, LiftedFrom, RecordOf, LinesOf, Extends, TypeOf, Date.Parse,
      IsNormal, Raw.IsUtf8, IsText, IsUriText, IsToken, PushedAsRead, Unfolded, Kept;
    var lines := LinesFrom(LISTED);
    LenientIsLawful();
    ListIsToken();
    OneLetter(97);
    OneLetter(98);
    OneLetter(99);
    YearIsDate();
    CodecIsLawful(LENIENT, NORMALIZE, (profile: bytes) => false, [], EXTENDING);
    GrammarsClaim(LENIENT, NORMALIZE, (profile: bytes) => false, [], EXTENDING, LISTED);
    ExtensionTypesAreReordered(ListCodec(), ACCEPTING, HeaderOf(LISTED), lines, LISTED.typeName);
    assert lines[3].key > lines[4].key;
  }

  lemma LenientIsLawful()
    ensures LENIENT.Lawful() && forall s :: LENIENT.isUri(s) == IsUriText(s)
  {
  }

  lemma ListIsToken()
    ensures IsToken(LISTED.typeName) && TypeOf(LISTED.typeName) == Other(LISTED.typeName) && Lowered(LISTED.typeName) == LISTED.typeName
  {
  }

  lemma OneLetter(b: byte)
    requires 97 <= b <= 122
    ensures IsNormal([b]) && IsText([b]) && Raw.IsUtf8([b]) && IsUriText([b])
  {
    assert Raw.IsUtf8From([b], 1);
  }

  lemma YearIsDate()
    ensures IsNormal(LISTED.date) && Date.Parse(LISTED.date, Raw.V1_1).Some?
  {
  }
}
