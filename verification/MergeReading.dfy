/** The first pass of a merge over the streams it reads (`crates/archivindex-warc-ops/src/merge.rs:133-151`). */
module MergeReading {
  import opened Bytes
  import opened Framing
  import opened Headers
  import opened MergePlan
  import opened MergeMeaning
  import opened Reader
  import Raw

  /** The filter that keeps warcinfo records, and counts what it is asked about. */
  const WARCINFOS: Filter<int, Raw.Header> :=
    Filter((count: int, header: Raw.Header) => IsWarcinfo(header), (count: int, header: Raw.Header) => count + 1)

  datatype Error = Unreadable(fault: Framing.Error) | Unmergeable(reason: MergePlan.Error)

  /** Reading meets no fault. */
  predicate AllRead(items: seq<Item>) {
    forall i | 0 <= i < |items| :: items[i].value.Success?
  }

  function RecordsOf(items: seq<Item>): (records: seq<Raw.Record>)
    requires AllRead(items)
    ensures |records| == |items| && forall i | 0 <= i < |items| :: records[i] == items[i].value.value
  {
    seq(|items|, i requires 0 <= i < |items| => items[i].value.value)
  }

  // ---------------------------------------------------------------------------------------------
  // One call of the filter
  // ---------------------------------------------------------------------------------------------

  /** What is left of the items of a stream after those already dealt with. */
  ghost predicate Leaves(items: seq<Item>, infos: seq<Raw.Record>, asked: nat, rest: seq<Item>) {
    && (AllRead(items) <==> AllRead(rest))
    && asked + |rest| == |items|
    && (AllRead(items) ==> Warcinfos(RecordsOf(items)) == infos + Warcinfos(RecordsOf(rest)))
  }

  lemma LeavesAll(items: seq<Item>)
    ensures Leaves(items, [], 0, items)
  {
    hide Warcinfos;
  }

  lemma LeavesMore(items: seq<Item>, infos: seq<Raw.Record>, asked: nat, rest: seq<Item>, more: seq<Raw.Record>, n: nat, last: seq<Item>)
    requires Leaves(items, infos, asked, rest) && Leaves(rest, more, n, last)
    ensures Leaves(items, infos + more, asked + n, last)
  {
    hide Warcinfos, RecordsOf, AllRead;
    if AllRead(items) {
      ConcatAssociates(infos, more, Warcinfos(RecordsOf(last)));
    }
  }

  lemma LeavesNext(items: seq<Item>)
    requires items != [] && items[0].value.Success?
    ensures var record := items[0].value.value;
            Leaves(items, if IsWarcinfo(record.header) then [record] else [], 1, items[1..])
  {
    hide Warcinfos, IsWarcinfo;
    var rest := items[1..];
    assert AllRead(items) <==> AllRead(rest) by {
      assert forall i | 0 < i < |items| :: items[i] == rest[i - 1];
    }
    if AllRead(items) {
      var one := [items[0].value.value];
      assert RecordsOf(items) == one + RecordsOf(rest);
      WarcinfosConcat(one, RecordsOf(rest));
      OneWarcinfo(one);
    }
  }

  lemma OneWarcinfo(records: seq<Raw.Record>)
    requires |records| == 1
    ensures Warcinfos(records) == if IsWarcinfo(records[0].header) then records else []
  {
    hide IsWarcinfo;
    assert records[..0] == [];
  }

  lemma SkippedIsRead(input: Input, e: nat, n: nat)
    requires e <= |input.octets| <= U64_MAX
    ensures SkipAt(input, e, n).Success? <==> BodyAt(input, e, n).Success?
    ensures BodyAt(input, e, n).Success? ==> e + n + 4 <= |input.octets|
  {
  }

  /** One call passes over the records that are refused, and has been asked about each record up to the one kept. */
  lemma {:induction false} FilterTakes(input: Input, p: nat, before: nat, count: nat)
    requires p <= |input.octets| <= U64_MAX
    ensures var pick := Filtered(input, p, before, RAW_LEVEL, WARCINFOS, count);
            var items, asked := Items(input, p, before), Asked(input, p, RAW_LEVEL, WARCINFOS, count);
            && (pick.NoPick? ==> AllRead(items) && asked >= count && Leaves(items, [], asked - count, []))
            && (pick.Pick? && pick.value.Failure? ==> !AllRead(items))
            && (pick.Pick? && pick.value.Success? ==>
                  && pick.next.Some? && asked >= count
                  && Leaves(items, [pick.value.value], asked - count, Items(input, pick.next.value, pick.blankLines)))
    decreases |input.octets| - p
  {
    hide Filtered, Asked, Items, HeaderAt, BodyAt, SkipAt, Padding, BlankLinesAt, IsWarcinfo, Warcinfos, Leaves;
    FilteredStep(input, p, before, RAW_LEVEL, WARCINFOS, count);
    ItemsFirst(input, p, before);
    var header := HeaderAt(input, Padding(input.octets, p).1);
    var items := Items(input, p, before);
    if header.NoHeader? {
      LeavesAll(items);
    } else if header.GotHeader? {
      SkippedIsRead(input, header.body, header.length);
      if BodyAt(input, header.body, header.length).Success? {
        LeavesNext(items);
        if !IsWarcinfo(header.header) {
          var next, blank := header.body + header.length + 4, BlankLinesAt(input, p, before);
          FilterTakes(input, next, blank, count + 1);
          RefusedLeaves(input, items, next, blank, count);
        }
      }
    }
  }

  /** What one more record refused adds to a call. */
  lemma RefusedLeaves(input: Input, items: seq<Item>, next: nat, blank: nat, count: nat)
    requires next <= |input.octets| && Leaves(items, [], 1, Items(input, next, blank))
    ensures var rest := Items(input, next, blank);
            && (AllRead(items) <==> AllRead(rest))
            && (forall infos, asked: nat, last | Leaves(rest, infos, asked, last) :: Leaves(items, infos, asked + 1, last))
  {
    hide Items, Warcinfos, RecordsOf;
    var rest := Items(input, next, blank);
    forall infos, asked: nat, last | Leaves(rest, infos, asked, last)
      ensures Leaves(items, infos, asked + 1, last)
    {
      LeavesMore(items, [], 1, rest, infos, asked, last);
      assert [] + infos == infos;
    }
  }

  lemma ItemsFirst(input: Input, p: nat, before: nat)
    requires p <= |input.octets|
    ensures var header := HeaderAt(input, Padding(input.octets, p).1);
            var items, blank := Items(input, p, before), BlankLinesAt(input, p, before);
            && (header.NoHeader? ==> items == [])
            && (header.HeaderFault? ==> |items| == 1 && items[0].value.Failure?)
            && (header.GotHeader? ==>
                  var body := BodyAt(input, header.body, header.length);
                  && items != []
                  && (body.Failure? ==> items[0].value.Failure?)
                  && (body.Success? ==>
                        && items[0].value == Success(Raw.Record(header.header, body.value))
                        && header.body + header.length + 4 <= |input.octets|
                        && items[1..] == Items(input, header.body + header.length + 4, blank)))
  {
    hide HeaderAt, Padding, BlankLinesAt;
  }

  // ---------------------------------------------------------------------------------------------
  // Whole streams
  // ---------------------------------------------------------------------------------------------

  /** The warcinfo records of a stream, and the number of all its records, which the filter has counted. */
  method ReadWarcinfos(reading: Reading) returns (r: Result<(seq<Raw.Record>, nat), Framing.Error>)
    requires reading.AtBoundary() && |reading.Octets()| <= U64_MAX
    modifies reading, reading.reader, reading.reader.source.Object()
    ensures old(reading.boundary) <= |reading.Octets()|
    ensures var items := Items(reading.Input(), old(reading.boundary), old(reading.blankLines));
            && (r.Success? <==> AllRead(items))
            && (r.Success? ==> r.value.0 == Warcinfos(RecordsOf(items)) && r.value.1 == |items|)
  {
    hide Filtered, Asked, Items, Warcinfos, RecordsOf, AllRead, Leaves, Reading.AtBoundary, Reading.Attached, Reading.LocationOf;
    BoundaryMeans(reading);
    ghost var items := Items(reading.Input(), reading.boundary, reading.blankLines);
    var infos, count: int := [], 0;
    LeavesAll(items);
    while true
      invariant reading.AtBoundary() && !reading.finished && reading.boundary <= |reading.Octets()|
      invariant 0 <= count
      invariant Leaves(items, infos, count, Items(reading.Input(), reading.boundary, reading.blankLines))
      decreases |reading.Octets()| - reading.boundary
    {
      ghost var p, before, asked := reading.boundary, reading.blankLines, count;
      FilterTakes(reading.Input(), p, before, count);
      var next;
      next, count := reading.NextFiltered(RAW_LEVEL, WARCINFOS, count);
      ghost var pick := Filtered(reading.Input(), p, before, RAW_LEVEL, WARCINFOS, asked);
      if next.None? {
        LeavesMore(items, infos, asked, Items(reading.Input(), p, before), [], count - asked, []);
        NothingLeft(items, infos + [], count);
        assert infos + [] == infos;
        return Success((infos, count));
      }
      if next.value.value.Failure? {
        StillFaulty(items, infos, asked, Items(reading.Input(), p, before));
        return Failure(next.value.value.error);
      }
      BoundaryMeans(reading);
      LeavesMore(
        items, infos, asked, Items(reading.Input(), p, before), [pick.value.value], count - asked,
        Items(reading.Input(), reading.boundary, reading.blankLines));
      infos := infos + [next.value.value.value];
    }
  }

  lemma BoundaryMeans(reading: Reading)
    requires reading.AtBoundary()
    ensures !reading.finished && reading.boundary <= |reading.Octets()|
  {
  }

  lemma NothingLeft(items: seq<Item>, infos: seq<Raw.Record>, asked: nat)
    requires Leaves(items, infos, asked, [])
    ensures AllRead(items) && asked == |items| && Warcinfos(RecordsOf(items)) == infos
  {
    assert infos + [] == infos;
  }

  lemma StillFaulty(items: seq<Item>, infos: seq<Raw.Record>, asked: nat, rest: seq<Item>)
    requires Leaves(items, infos, asked, rest) && !AllRead(rest)
    ensures !AllRead(items)
  {
  }

  /**
   * Read both inputs and decide which warcinfo records survive. The number of records of the first,
   * at which the second pass leaves its scope, is the count the filter kept.
   */
  method BuildFromStreams(w: Matching, first: Reading, second: Reading)
    returns (r: Result<Plan, Error>, ghost order: seq<GroupKey>)
    requires first.AtBoundary() && second.AtBoundary()
    requires |first.Octets()| <= U64_MAX && |second.Octets()| <= U64_MAX
    requires {first, first.reader as object, first.reader.source.Object()} !! {second, second.reader as object, second.reader.source.Object()}
    modifies first, first.reader, first.reader.source.Object(), second, second.reader, second.reader.source.Object()
    ensures old(first.boundary) <= |first.Octets()| && old(second.boundary) <= |second.Octets()|
    ensures var a := Items(first.Input(), old(first.boundary), old(first.blankLines));
            var b := Items(second.Input(), old(second.boundary), old(second.blankLines));
            && (r.Failure? && r.error.Unreadable? <==> !(AllRead(a) && AllRead(b)))
            && (AllRead(a) && AllRead(b) ==>
                  Builds(
                    w, Warcinfos(RecordsOf(a)) + Warcinfos(RecordsOf(b)), |a|,
                    if r.Success? then Success(r.value) else Failure(r.error.reason), order))
  {
    hide Items, Warcinfos, RecordsOf, AllRead, Reading.AtBoundary, Reading.Attached, Builds;
    order := [];
    BoundaryMeans(first);
    BoundaryMeans(second);
    var fromFirst := ReadWarcinfos(first);
    if fromFirst.Failure? {
      r := Failure(Unreadable(fromFirst.error));
      return;
    }
    var fromSecond := ReadWarcinfos(second);
    if fromSecond.Failure? {
      r := Failure(Unreadable(fromSecond.error));
      return;
    }
    var built;
    built, order := BuildFrom(w, fromFirst.value.0 + fromSecond.value.0, fromFirst.value.1);
    r := if built.Success? then Success(built.value) else Failure(Unmergeable(built.error));
  }
}
