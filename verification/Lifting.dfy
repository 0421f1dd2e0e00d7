/** The lifter, which takes fields out of a header in place (`src/record/lift.rs`). */
module Lifting {
  import opened Bytes
  import opened Lens
  import opened LensRoundTrip
  import Raw

  /** The first line of a field at or after `i`, or the number of lines when there is none. */
  function Position(lines: seq<HeaderLine>, field: nat, i: nat): (p: nat)
    requires i <= |lines|
    ensures i <= p <= |lines|
    ensures forall j | i <= j < p :: lines[j].key != field
    ensures p < |lines| ==> lines[p].key == field
    decreases |lines| - i
  {
    if i == |lines| || lines[i].key == field then i else Position(lines, field, i + 1)
  }

  lemma {:induction false} OfNoneBefore(lines: seq<HeaderLine>, field: nat)
    requires forall i | 0 <= i < |lines| :: lines[i].key != field
    ensures Of(lines, field) == [] && Without(lines, {field}) == lines
    decreases |lines|
  {
    if lines != [] {
      OfNoneBefore(lines[..|lines| - 1], field);
    }
  }

  /** Removing the first line of a field leaves the others of it, and every other field. */
  lemma RemovedFirst(lines: seq<HeaderLine>, p: nat, field: nat)
    requires p < |lines| && lines[p].key == field && forall i | 0 <= i < p :: lines[i].key != field
    ensures var rest := lines[..p] + lines[p + 1..];
            && Of(lines, field) == [lines[p]] + Of(rest, field)
            && Without(lines, {field}) == Without(rest, {field})
  {
    hide Of, Without;
    var before, after := lines[..p], lines[p + 1..];
    assert lines == before + ([lines[p]] + after);
    OfNoneBefore(before, field);
    OfConcat(before, [lines[p]] + after, field);
    OfConcat([lines[p]], after, field);
    OfConcat(before, after, field);
    OfOne(lines[p], field);
    WithoutConcat(before, [lines[p]] + after, {field});
    WithoutConcat([lines[p]], after, {field});
    WithoutConcat(before, after, {field});
    WithoutOne(lines[p], {field});
  }

  /** Fields taken one after the other are gone together. */
  lemma {:induction false} WithoutTwice(lines: seq<HeaderLine>, a: set<nat>, b: set<nat>)
    ensures Without(Without(lines, a), b) == Without(lines, a + b)
    decreases |lines|
  {
    hide Without;
    if lines == [] {
      WithoutNothing(a);
      WithoutNothing(b);
      WithoutNothing(a + b);
    } else {
      var init, last := lines[..|lines| - 1], lines[|lines| - 1];
      assert lines == init + [last];
      WithoutTwice(init, a, b);
      WithoutConcat(init, [last], a);
      WithoutConcat(init, [last], a + b);
      WithoutOne(last, a);
      WithoutOne(last, a + b);
      WithoutOne(last, b);
      WithoutConcat(Without(init, a), Without([last], a), b);
      WithoutNothing(b);
    }
  }

  lemma {:induction false} WithoutNoKeys(lines: seq<HeaderLine>)
    ensures Without(lines, {}) == lines
    decreases |lines|
  {
    if lines != [] {
      WithoutNoKeys(lines[..|lines| - 1]);
    }
  }

  lemma MeaningsOneMore(c: Codec, version: Raw.Version, field: nat, data: seq<bytes>, datum: bytes)
    requires Meanings(c, version, field, data).Success?
    ensures Meanings(c, version, field, data + [datum]) ==
            match c.meaning(version, field, datum)
            case Some(value) => Success(Meanings(c, version, field, data).value + [value])
            case None => Failure(MalformedField(field))
  {
    var more := data + [datum];
    assert more[..|more| - 1] == data && more[|more| - 1] == datum;
  }

  lemma {:induction false} MeaningsFail(c: Codec, version: Raw.Version, field: nat, data: seq<bytes>, i: nat)
    requires i <= |data| && Meanings(c, version, field, data[..i]).Failure?
    ensures Meanings(c, version, field, data) == Failure(MalformedField(field))
    decreases |data|
  {
    if i < |data| {
      assert data[..|data| - 1][..i] == data[..i];
      MeaningsFail(c, version, field, data[..|data| - 1], i);
    } else {
      assert data[..i] == data;
      MeaningsFailAlike(c, version, field, data);
    }
  }

  lemma {:induction false} MeaningsFailAlike(c: Codec, version: Raw.Version, field: nat, data: seq<bytes>)
    ensures Meanings(c, version, field, data).Failure? ==> Meanings(c, version, field, data) == Failure(MalformedField(field))
    decreases |data|
  {
    if data != [] {
      MeaningsFailAlike(c, version, field, data[..|data| - 1]);
    }
  }

  /** The unclaimed fields of a header being lifted. */
  class Lifter {
    const codec: Codec
    const version: Raw.Version
    var fields: seq<HeaderLine>

    constructor (codec: Codec, version: Raw.Version, fields: seq<HeaderLine>)
      ensures this.codec == codec && this.version == version && this.fields == fields
    {
      this.codec, this.version, this.fields := codec, version, fields;
    }

    /** Remove the first line of a field, and return what it denotes. */
    method TakeForm(field: nat) returns (r: Option<bytes>)
      modifies this`fields
      ensures Without(fields, {field}) == Without(old(fields), {field})
      ensures r.None? ==> fields == old(fields) == Without(old(fields), {field}) && Of(old(fields), field) == []
      ensures r.Some? ==> |fields| < |old(fields)|
      ensures r.Some? ==> Data(Of(old(fields), field)) == [r.value] + Data(Of(fields, field))
    {
      hide Of, Without;
      var p := Position(fields, field, 0);
      if p == |fields| {
        OfNoneBefore(fields, field);
        return None;
      }
      RemovedFirst(fields, p, field);
      r := Some(fields[p].datum);
      fields := fields[..p] + fields[p + 1..];
    }

    /** Remove every line of a field, in order. */
    method TakeRepeated(field: nat) returns (r: Result<seq<bytes>, Error>)
      modifies this`fields
      ensures r == Meanings(codec, version, field, Data(Of(old(fields), field)))
      ensures r.Success? ==> fields == Without(old(fields), {field})
    {
      hide Of, Without, Meanings;
      ghost var data := Data(Of(fields, field));
      ghost var done := 0;
      var values: seq<bytes> := [];
      NoMeanings(codec, version, field, data);
      var next := TakeForm(field);
      while next.Some?
        invariant done <= |data|
        invariant Meanings(codec, version, field, data[..done]) == Success(values)
        invariant Without(fields, {field}) == Without(old(fields), {field})
        invariant next.Some? ==> data[done..] == [next.value] + Data(Of(fields, field))
        invariant next.None? ==> data[done..] == [] && fields == Without(old(fields), {field})
        decreases if next.Some? then |fields| + 1 else 0
      {
        assert data[done] == next.value && data[..done + 1] == data[..done] + [data[done]];
        MeaningsOneMore(codec, version, field, data[..done], data[done]);
        var value := codec.meaning(version, field, next.value);
        if value.None? {
          MeaningsFail(codec, version, field, data, done + 1);
          return Failure(MalformedField(field));
        }
        values := values + [value.value];
        done := done + 1;
        assert data[done..] == Data(Of(fields, field));
        next := TakeForm(field);
      }
      assert data[..done] == data;
      r := Success(values);
    }

    /** Take what a slot takes of its field, of which there is no more than one line unless it may be repeated. */
    method TakeSlot(slot: Slot) returns (r: Result<seq<bytes>, Error>)
      requires |Of(fields, slot.field)| <= 1 || slot.arity.Repeated?
      modifies this`fields
      ensures r == Taken(codec, version, slot, Data(Of(old(fields), slot.field)))
      ensures r.Success? ==> fields == Without(old(fields), {slot.field})
    {
      hide Of, Without, Meanings;
      if slot.arity.Repeated? {
        r := TakeRepeated(slot.field);
        return;
      }
      ghost var data := Data(Of(fields, slot.field));
      var form := TakeForm(slot.field);
      if form.None? {
        return if slot.arity.Required? then Failure(MissingField(slot.field)) else Success([]);
      }
      TookOnly(fields, slot.field, data, form.value);
      if slot.arity.Origin? {
        return if form.value != codec.count(1) then Failure(MalformedField(slot.field)) else Success([codec.count(1)]);
      }
      NoMeanings(codec, version, slot.field, data);
      MeaningsOneMore(codec, version, slot.field, [], form.value);
      assert [] + [form.value] == data[..1];
      match codec.meaning(version, slot.field, form.value) {
        case Some(value) =>
          assert [] + [value] == [value];
          r := Success([value]);
        case None =>
          r := Failure(MalformedField(slot.field));
      }
    }
  }

  lemma NoMeanings(c: Codec, version: Raw.Version, field: nat, data: seq<bytes>)
    ensures Meanings(c, version, field, data[..0]) == Success([]) && Meanings(c, version, field, []) == Success([])
  {
    assert data[..0] == [];
  }

  /** The only line of a field was taken. */
  lemma TookOnly(fields: seq<HeaderLine>, field: nat, data: seq<bytes>, datum: bytes)
    requires data == [datum] + Data(Of(fields, field)) && |data| <= 1
    ensures data == [datum] && Of(fields, field) == [] && fields == Without(fields, {field})
  {
    NoneLeft(fields, field);
  }

  lemma {:induction false} NoneLeft(fields: seq<HeaderLine>, field: nat)
    requires |Of(fields, field)| == 0
    ensures fields == Without(fields, {field})
    decreases |fields|
  {
    hide Of, Without;
    if fields == [] {
      WithoutNothing({field});
    } else {
      var init, last := fields[..|fields| - 1], fields[|fields| - 1];
      assert fields == init + [last];
      OfConcat(init, [last], field);
      OfOne(last, field);
      WithoutConcat(init, [last], {field});
      WithoutOne(last, {field});
      NoneLeft(init, field);
    }
  }

  // ---------------------------------------------------------------------------------------------
  // Whole headers
  // ---------------------------------------------------------------------------------------------

  /** Read every field against its grammar. */
  method ReadLines(c: Codec, fields: Headers.Fields) returns (r: Result<seq<HeaderLine>, Error>)
    ensures r == LinesOf(c, fields)
  {
    hide LineOf;
    var lines: seq<HeaderLine> := [];
    NoLines(c, fields);
    for i := 0 to |fields|
      invariant LinesOf(c, fields[..i]) == Success(lines)
    {
      LinesOneMore(c, fields, i);
      var line := LineOf(c, fields[i]);
      if line.Failure? {
        LinesFail(c, fields, i + 1);
        return Failure(line.error);
      }
      lines := lines + [line.value];
    }
    assert fields[..|fields|] == fields;
    r := Success(lines);
  }

  lemma NoLines(c: Codec, fields: Headers.Fields)
    ensures LinesOf(c, fields[..0]) == Success([])
  {
    assert fields[..0] == [];
  }

  lemma LinesOneMore(c: Codec, fields: Headers.Fields, i: nat)
    requires i < |fields| && LinesOf(c, fields[..i]).Success?
    ensures LinesOf(c, fields[..i + 1]) ==
            match LineOf(c, fields[i])
            case Success(line) => Success(LinesOf(c, fields[..i]).value + [line])
            case Failure(error) => Failure(error)
  {
    hide LineOf;
    assert fields[..i + 1][..i] == fields[..i];
  }

  lemma {:induction false} LinesFail(c: Codec, fields: Headers.Fields, i: nat)
    requires i <= |fields| && LinesOf(c, fields[..i]).Failure?
    ensures LinesOf(c, fields) == LinesOf(c, fields[..i])
    decreases |fields|
  {
    hide LineOf;
    if i < |fields| {
      assert fields[..|fields| - 1][..i] == fields[..i];
      LinesFail(c, fields[..|fields| - 1], i);
    } else {
      assert fields[..i] == fields;
    }
  }

  method FindRepeated(lines: seq<HeaderLine>) returns (r: Option<nat>)
    ensures r == RepeatedFrom(lines, 0, {})
  {
    var seen: set<nat> := {};
    for i := 0 to |lines|
      invariant RepeatedFrom(lines, i, seen) == RepeatedFrom(lines, 0, {})
    {
      var field := lines[i].key;
      if !IsRepeatable(field) {
        if field in seen {
          return Some(field);
        }
        seen := seen + {field};
      }
    }
    r := None;
  }

  /** Slots that take one line take it of a field that is not repeated. */
  ghost predicate TakesOnce(slots: seq<Slot>) {
    forall i | 0 <= i < |slots| :: slots[i].arity.Repeated? || !IsRepeatable(slots[i].field)
  }

  lemma SlotsTakeOnce(t: RecordType)
    ensures TakesOnce(CORE) && TakesOnce(OwnSlots(t))
  {
  }

  lemma AtMostOne(lines: seq<HeaderLine>, field: nat)
    requires RepeatedFrom(lines, 0, {}).None? && !IsRepeatable(field)
    ensures |Of(lines, field)| <= 1
  {
    hide Of, IsRepeatable, RepeatedFrom;
    RepeatedIff(lines, 0, {});
    assert lines[0..] == lines;
  }

  lemma FieldsOneMore(slots: seq<Slot>, i: nat)
    requires i < |slots| && DistinctSlots(slots)
    ensures FieldsOf(slots[..i + 1]) == FieldsOf(slots[..i]) + {slots[i].field}
    ensures slots[i].field !in FieldsOf(slots[..i])
  {
    assert slots[..i + 1] == slots[..i] + [slots[i]];
    FieldsConcat(slots[..i], [slots[i]]);
    assert [slots[i]][0].field == slots[i].field;
    assert FieldsOf([slots[i]]) == {slots[i].field};
  }

  /** Take the fields of some slots, one after the other. */
  method TakeAll(lifter: Lifter, slots: seq<Slot>, before: map<nat, seq<bytes>>, ghost all: seq<HeaderLine>, ghost gone: set<nat>)
    returns (r: Result<map<nat, seq<bytes>>, Error>)
    requires lifter.fields == Without(all, gone) && RepeatedFrom(all, 0, {}).None?
    requires DistinctSlots(slots) && TakesOnce(slots) && forall i | 0 <= i < |slots| :: slots[i].field !in gone
    modifies lifter`fields
    ensures r == TakeSlots(lifter.codec, lifter.version, all, slots, 0, before)
    ensures r.Success? ==> lifter.fields == Without(all, gone + FieldsOf(slots))
  {
    hide Of, Without, Taken, RepeatedFrom, LacksDigest, FieldsOf, IsRepeatable;
    var values: map<nat, seq<bytes>> := before;
    NoFields(slots);
    assert gone + {} == gone;
    for i := 0 to |slots|
      invariant lifter.fields == Without(all, gone + FieldsOf(slots[..i]))
      invariant TakeSlots(lifter.codec, lifter.version, all, slots, i, values)
                == TakeSlots(lifter.codec, lifter.version, all, slots, 0, before)
    {
      FieldsOneMore(slots, i);
      OfWithout(all, gone + FieldsOf(slots[..i]), slots[i].field);
      if !slots[i].arity.Repeated? {
        AtMostOne(all, slots[i].field);
      }
      var taken := lifter.TakeSlot(slots[i]);
      if taken.Failure? {
        return Failure(taken.error);
      }
      WithoutTwice(all, gone + FieldsOf(slots[..i]), {slots[i].field});
      assert gone + FieldsOf(slots[..i]) + {slots[i].field} == gone + FieldsOf(slots[..i + 1]);
      values := values[slots[i].field := taken.value];
      if slots[i].field == PROFILE && LacksDigest(lifter.codec, values) {
        return Failure(MissingField(PAYLOAD_DIGEST));
      }
    }
    assert slots[..|slots|] == slots;
    r := Success(values);
  }

  lemma NoFields(slots: seq<Slot>)
    ensures FieldsOf(slots[..0]) == {}
  {
  }

  /** Convert a header to its semantic representation. */
  method LiftHeader(c: Codec, header: Raw.Header) returns (r: Result<Header, Error>)
    ensures r == Lift(c, header)
  {
    hide LinesOf, RepeatedFrom, UndefinedFrom, Of, Without, TakeSlots, Claimed, Finish, TypeOf, OwnSlots, CORE, FieldsOf, KeyOf;
    var read := ReadLines(c, header.fields);
    if read.Failure? {
      return Failure(read.error);
    }
    var lines := read.value;
    var repeated := FindRepeated(lines);
    if repeated.Some? {
      return Failure(RepeatedField(repeated.value));
    }
    if UndefinedFrom(lines, header.version, 0).Some? {
      return Failure(FieldNotInVersion(UndefinedFrom(lines, header.version, 0).value));
    }
    var lifter := new Lifter(c, header.version, lines);
    WithoutNoKeys(lines);
    assert IsRepeatable(TYPE) == false;
    AtMostOne(lines, TYPE);
    var token := lifter.TakeForm(TYPE);
    if token.None? {
      return Failure(MissingField(TYPE));
    }
    TookOnly(lifter.fields, TYPE, Data(Of(lines, TYPE)), token.value);
    DataOfFirst(Of(lines, TYPE), token.value);
    SlotsAreDistinct(Warcinfo);
    SlotsTakeOnce(Warcinfo);
    var core := TakeAll(lifter, CORE, map[], lines, {TYPE});
    if core.Failure? {
      return Failure(core.error);
    }
    var claimed := Claimed(c, TypeOf(token.value));
    if claimed.Failure? {
      return Failure(claimed.error);
    }
    var t := claimed.value;
    SlotsAreDistinct(t);
    SlotsTakeOnce(t);
    NoCommonField(OwnSlots(t), CORE);
    var values := TakeAll(lifter, OwnSlots(t), core.value, lines, {TYPE} + FieldsOf(CORE));
    if values.Failure? {
      return Failure(values.error);
    }
    FieldsConcat(CORE, OwnSlots(t));
    assert {TYPE} + FieldsOf(CORE) + FieldsOf(OwnSlots(t)) == TakenFields(t);
    var rest := Finish(t, lifter.fields);
    r := if rest.Failure? then Failure(rest.error) else Success(Header(header.version, t, values.value, rest.value));
  }
}
