/** Gzip files of one record per member (Annex B.1 of WARC 1.1), of a member that breaks off, and of a source that fails. */
module GzipArchive {
  import opened Bytes
  import opened Framing
  import opened Members
  import opened Placements
  import opened RecordText
  import opened Frames
  import opened Iterators
  import Raw

  /** Each member holds the octets of one record, as the writer leaves them, whatever comes of reading on. */
  ghost predicate RecordPerMember(f: File, records: seq<Raw.Record>) {
    && f.Valid() && f.TailOctets() == [] && |records| == |f.members|
    && forall i | 0 <= i < |records| ::
         Storable(records[i]) && f.members[i].octets == Raw.RenderRecord(records[i])
  }

  lemma {:induction false} AllHeld(f: File, records: seq<Raw.Record>, i: nat)
    requires RecordPerMember(f, records) && i <= |records|
    ensures f.Held(i) == i
    decreases i
  {
    hide Storable, Raw.RenderRecord, File.Valid;
    if i > 0 {
      AllHeld(f, records, i - 1);
      RenderedNotEmpty(records[i - 1]);
    }
  }

  lemma RenderedNotEmpty(record: Raw.Record)
    ensures |Raw.RenderRecord(record)| > 4 && Raw.RenderRecord(record)[0] == 87
  {
    RenderingOpensWithVersion(record.header);
  }

  /** Where a member begins, or the last ends, a boundary stands, and no blank line. */
  lemma MemberBegins(f: File, records: seq<Raw.Record>, i: nat)
    requires RecordPerMember(f, records) && i <= |records|
    ensures f.Start(i) <= |f.Contents()|
    ensures f.PositionAt(f.Start(i)) == Position(f.Offset(i), true, i)
    ensures BlankAt(f.Contents(), f.Start(i)) == 0
    ensures i == |records| ==> f.Start(i) == |f.Contents()|
  {
    hide Storable, Raw.RenderRecord, File.PositionAt, File.Valid;
    StartsWithin(f, i);
    AllHeld(f, records, i);
    if i < |records| {
      RenderedNotEmpty(records[i]);
      assert f.Contents()[f.Start(i)] == f.Contents()[f.Start(i)..f.End(i)][0];
      PositionOf(f, i, f.Start(i));
    } else {
      PositionAfterLast(f);
    }
  }

  lemma PositionAfterLast(f: File)
    ensures f.PositionAt(|f.Contents()|) == Position(f.Offset(|f.members|), true, f.Held(|f.members|))
  {
  }

  lemma MemberStep(f: File, records: seq<Raw.Record>, i: nat, before: nat)
    requires RecordPerMember(f, records) && i < |records|
    requires f.Start(i) <= |f.Contents()|
    ensures var step := StepAt(f.Input(), f.Start(i), before);
            && step.Got? && step.item == Item(0, f.Start(i), Success(records[i])) && step.next == f.Start(i + 1)
  {
    hide Storable, Raw.RenderRecord, File.PositionAt, File.Valid, StepAt, IsRecord, Padding, BlankAt;
    var s := f.Contents();
    var text := Raw.RenderRecord(records[i]);
    RenderingIsText(records[i]);
    StartsWithin(f, i);
    MemberBegins(f, records, i);
    PaddingNone(s, f.Start(i));
    TextStep(f.Input(), f.Start(i), before, text, records[i]);
  }

  lemma PaddingNone(s: bytes, p: nat)
    requires p <= |s| && BlankAt(s, p) == 0
    ensures Padding(s, p).0 == 0 && Padding(s, p).1 == p
  {
  }

  lemma BoundaryNone(f: File, p: nat)
    requires p <= |f.Contents()| && BlankAt(f.Contents(), p) == 0 && f.PositionAt(p).boundary
    ensures LastBoundary(f, p, None) == Some(f.PositionAt(p).member)
  {
    hide File.PositionAt, File.Contents;
  }

  /**
   * A gzip file of one record per member reads back as those records in order, each framed by the
   * member it was written in, and then as what follows the members: nothing, or the failure met.
   */
  lemma {:induction false} RecordsFillMembers(f: File, records: seq<Raw.Record>, i: nat, before: nat, run: seq<Yield>)
    requires RecordPerMember(f, records) && i <= |records|
    requires f.Start(i) <= |f.Contents()| && Run(OfMembers(f), f.Start(i), before, run)
    ensures |run| == |records| - i + if f.tail.NoTail? then 0 else 1
    ensures forall k | 0 <= k < |records| - i :: FillsMember(f, records[i + k], i + k, run[k])
    ensures !f.tail.NoTail? ==> run[|run| - 1].value == Failure(Framing.Source(f.tail.kind))
    decreases |records| - i
  {
    hide RecordPerMember, StepAt, File.PositionAt, File.Contents, File.Valid, PlacementOf, BlankAt, FillsMember, Run;
    MembersMatch(f, records);
    MemberBegins(f, records, i);
    RunStep(OfMembers(f), f.Start(i), before, run);
    if i == |records| {
      FileEnds(f, before);
    } else {
      MemberStep(f, records, i, before);
      MemberBegins(f, records, i + 1);
      MemberPlacement(f, records, i);
      Fills(f, records, i, run[0]);
      RecordsFillMembers(f, records, i + 1, 0, run[1..]);
      forall k | 0 < k < |records| - i
        ensures FillsMember(f, records[i + k], i + k, run[k])
      {
        assert run[k] == run[1..][k - 1];
      }
    }
  }

  /** What is yielded is the record, framed by member `k`. */
  ghost predicate FillsMember(f: File, record: Raw.Record, k: nat, item: Yield)
    requires k < |f.members|
  {
    && item.value == Success(record) && item.blankLines == 0
    && item.location == InGzip(Placement(f.Offset(k), Some(f.members[k].size), 1, true))
    && FrameOf(item.location) == Some(Frame(f.Offset(k), f.members[k].size))
  }

  lemma MembersMatch(f: File, records: seq<Raw.Record>)
    requires RecordPerMember(f, records)
    ensures |records| == |f.members|
  {
    hide Storable, File.Valid, Raw.RenderRecord;
  }

  lemma Fills(f: File, records: seq<Raw.Record>, i: nat, item: Yield)
    requires i < |records| == |f.members|
    requires SameValue(Item(0, f.Start(i), Success(records[i])), item)
    requires item.location == InGzip(Placement(f.Offset(i), Some(f.members[i].size), 1, true))
    ensures FillsMember(f, records[i], i, item)
  {
  }

  lemma RunStep(stream: Stream, p: nat, before: nat, run: seq<Yield>)
    requires p <= |stream.Input().octets| && Run(stream, p, before, run)
    ensures var step := StepAt(stream.Input(), p, before);
            && (step.Stop? ==> run == [])
            && (step.Fault? ==> |run| == 1 && SameValue(step.item, run[0]))
            && (step.Got? ==>
                  && run != [] && SameValue(step.item, run[0])
                  && run[0].location == stream.LocationOf(p, step.item.offset, step.next)
                  && Run(stream, step.next, step.item.blankLines, run[1..]))
  {
    hide StepAt, Stream.LocationOf, SameValue;
  }

  /** Reading on after the last octet stops, or meets what fails there. */
  lemma FileEnds(f: File, before: nat)
    ensures f.tail.NoTail? ==> StepAt(f.Input(), |f.Contents()|, before).Stop?
    ensures !f.tail.NoTail? ==>
              && StepAt(f.Input(), |f.Contents()|, before).Fault?
              && StepAt(f.Input(), |f.Contents()|, before).item.value == Failure(Framing.Source(f.tail.kind))
  {
    hide Raw.ParseHeader;
    PaddingNone(f.Contents(), |f.Contents()|);
  }

  lemma MemberPlacement(f: File, records: seq<Raw.Record>, i: nat)
    requires RecordPerMember(f, records) && i < |records|
    requires f.Start(i) <= f.Start(i + 1) <= |f.Contents()|
    ensures PlacementOf(f, f.Start(i), f.Start(i), f.Start(i + 1)) == Placement(f.Offset(i), Some(f.members[i].size), 1, true)
  {
    hide RecordPerMember, File.PositionAt, File.Contents, File.Valid, LastBoundary, BlankAt;
    MembersMatch(f, records);
    MemberBegins(f, records, i);
    MemberBegins(f, records, i + 1);
    BoundaryNone(f, f.Start(i));
    BoundaryNone(f, f.Start(i + 1));
  }

  // ---------------------------------------------------------------------------------------------
  // A member that breaks off
  // ---------------------------------------------------------------------------------------------

  /** A file whose first member decodes to one record and then fails. */
  function Broken(record: Raw.Record): File {
    File(0, [], BrokenTail(Raw.RenderRecord(record), Other))
  }

  /**
   * A decoder that fails inside a member leaves the position at the end of the member before it.
   * The record read from the broken member is then framed by no octets at all and counted in no
   * member, and reading that frame finds no record.
   */
  lemma BrokenMemberMisplaces(record: Raw.Record)
    requires Storable(record)
    ensures var f := Broken(record);
            && StepAt(f.Input(), 0, 0).Got? && StepAt(f.Input(), 0, 0).item.value == Success(record)
            && var step := StepAt(f.Input(), 0, 0);
            && PlacementOf(f, 0, step.item.offset, step.next) == Placement(0, Some(0), 0, true)
            && FrameOf(InGzip(PlacementOf(f, 0, step.item.offset, step.next))) == Some(Frame(0, 0))
            && Covers(f, Frame(0, 0), 0, 0)
            && OnlyRecord(MembersWithin(f, 0, 0).Input()) == Failure(EmptyFrame)
  {
    hide StepAt, Storable, Raw.RenderRecord, IsRecord, BlankAt, Padding, LastBoundary;
    var f := Broken(record);
    var text := Raw.RenderRecord(record);
    assert f.Contents() == text;
    RenderingIsText(record);
    RenderedNotEmpty(record);
    TextBlank(text, record);
    PaddingNone(text, 0);
    assert text[0..|text|] == text;
    TextStep(f.Input(), 0, 0, text, record);
    assert f.Holds(0, 0);
    PositionOf(f, 0, 0);
    BoundaryNone(f, 0);
    PositionAfterLast(f);
    NoBlankAtEnd(text);
    BoundaryNone(f, |text|);
    EmptyFileHasNone(MembersWithin(f, 0, 0));
  }

  lemma TextBlank(text: bytes, record: Raw.Record)
    requires IsRecord(text, record)
    ensures BlankAt(text, 0) == 0
  {
  }

  lemma NoBlankAtEnd(s: bytes)
    ensures BlankAt(s, |s|) == 0
  {
  }

  lemma EmptyFileHasNone(f: File)
    requires f.members == [] && f.tail.NoTail?
    ensures OnlyRecord(f.Input()) == Failure(EmptyFrame)
  {
  }

  // ---------------------------------------------------------------------------------------------
  // A source that fails between members
  // ---------------------------------------------------------------------------------------------

  /** A file of one record in one member, whose source fails after it. */
  function Cut(record: Raw.Record, size: nat, kind: Kind): File {
    File(0, [Member(Raw.RenderRecord(record), size)], SourceFails(kind))
  }

  /**
   * A source that fails where the last member ends leaves its record whole, and framed by its
   * member. Reading that frame asks the source for more where it ends, and fails as it does.
   */
  lemma FailingSourceHidesLast(record: Raw.Record, size: nat, kind: Kind)
    requires Storable(record) && size > 0
    ensures var f := Cut(record, size, kind);
            && StepAt(f.Input(), 0, 0).Got? && StepAt(f.Input(), 0, 0).item.value == Success(record)
            && var step := StepAt(f.Input(), 0, 0);
            && FrameOf(InGzip(PlacementOf(f, 0, step.item.offset, step.next))) == Some(Frame(0, size))
            && Covers(f, Frame(0, size), 0, 1)
            && OnlyRecord(MembersWithin(f, 0, 1).Input()) == Failure(Framing.Source(kind))
  {
    hide StepAt, Storable, Raw.RenderRecord, LastBoundary, PlacementOf, OnlyRecord, File.Contents, MembersWithin;
    var f, records := Cut(record, size, kind), [record];
    assert RecordPerMember(f, records);
    assert f.Start(0) == 0 && f.Offset(0) == 0 && f.Offset(1) == size;
    MemberBegins(f, records, 0);
    MemberStep(f, records, 0, 0);
    MemberBegins(f, records, 1);
    MemberPlacement(f, records, 0);
    WithinContents(f, 0, 1);
    assert MembersWithin(f, 0, 1).Input() == f.Input() by {
      assert f.Contents()[f.Start(0)..f.Start(1)] == f.Contents();
    }
    OnlyRecordSteps(f.Input(), 0);
    FileEnds(f, 0);
    PaddingNone(f.Contents(), |f.Contents()|);
    FaultAtEnd(f.Input());
  }

  lemma FaultAtEnd(input: Input)
    requires input.ending.Failing?
    ensures HeaderAt(input, |input.octets|) == HeaderFault(Framing.Source(input.ending.kind))
  {
    hide Raw.ParseHeader;
  }
}
