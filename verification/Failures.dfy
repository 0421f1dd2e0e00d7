/**
 * Streams that fail, on which what the reader promises elsewhere does not hold: they are the
 * exceptions the exact conditions make, met by records that can be written.
 */
module Failures {
  import opened Bytes
  import opened Framing
  import opened Members
  import opened Placements
  import opened RecordText
  import opened Frames
  import Exactness
  import GzipArchive
  import Parsing
  import Radix
  import Raw
  import RawRoundTrip

  /** `content-length:0` */
  const SMALL: Raw.Record := Raw.Record(Raw.Header(Raw.V1_1, [Raw.Field(Raw.CONTENT_LENGTH, [48])]), [])

  lemma SmallIsStorable()
    ensures Storable(SMALL)
  {
    var v: bytes := [48];
    assert Parsing.Trim(v) == v;
    Parsing.UnfoldPlain(v, 0);
    assert Raw.IsUtf8From(v, 1);
    assert v[..0] == [];
    Radix.DecimalTextReads(0);
    assert Raw.LengthOf(v) == Success(0);
    var fields := SMALL.header.fields;
    assert fields[0].name == Raw.CONTENT_LENGTH && fields[0].value == v;
    assert Raw.IsContentLength(fields[0].name) && IsToken(fields[0].name) && Parsing.IsFolded(v);
    assert Raw.ValidateFrom(fields, 1, Some(0)) == Success(0);
    assert Raw.ValidateHeader(SMALL.header) == Success(0);
    assert fields[..0] == [];
    assert Raw.RenderFields(fields[..0]) == [];
    assert |Raw.RenderFields(fields)| == |Raw.RenderField(fields[0])| <= 100;
    assert |Raw.RenderHeader(SMALL.header)| <= 200;
  }

  /** A file whose one member breaks off after a whole record: the record is read, and its frame finds none. */
  lemma SmallIsMisplaced()
    ensures var f := GzipArchive.Broken(SMALL);
            && StepAt(f.Input(), 0, 0).Got? && StepAt(f.Input(), 0, 0).item.value == Success(SMALL)
            && var step := StepAt(f.Input(), 0, 0);
            && FrameOf(InGzip(PlacementOf(f, 0, step.item.offset, step.next))) == Some(Frame(0, 0))
            && PlacementOf(f, 0, step.item.offset, step.next).members == 0
            && Exactness.Overlaps(f, 0, step.item.offset, step.next)
            && OnlyRecord(MembersWithin(f, 0, 0).Input()) == Failure(EmptyFrame)
  {
    hide StepAt, Raw.RenderRecord, PlacementOf, OnlyRecord, MembersWithin, Storable, SMALL, Exactness.Overlaps, File.Contents;
    SmallIsStorable();
    GzipArchive.BrokenMemberMisplaces(SMALL);
    TailHolds(GzipArchive.Broken(SMALL), StepAt(GzipArchive.Broken(SMALL).Input(), 0, 0));
  }

  /** In a file of nothing but a broken member, that member holds whatever is read. */
  lemma TailHolds(f: File, step: Step)
    requires f.members == [] && step == StepAt(f.Input(), 0, 0) && step.Got?
    ensures Exactness.Overlaps(f, 0, step.item.offset, step.next)
  {
    hide StepAt;
  }

  /** A file whose source fails after its one member: the record is read, and its frame fails. */
  lemma SmallIsHidden()
    ensures var f := GzipArchive.Cut(SMALL, 64, Other);
            && StepAt(f.Input(), 0, 0).Got? && StepAt(f.Input(), 0, 0).item.value == Success(SMALL)
            && var step := StepAt(f.Input(), 0, 0);
            && FrameOf(InGzip(PlacementOf(f, 0, step.item.offset, step.next))) == Some(Frame(0, 64))
            && OnlyRecord(MembersWithin(f, 0, 1).Input()) == Failure(Framing.Source(Other))
  {
    hide *;
    SmallIsStorable();
    GzipArchive.FailingSourceHidesLast(SMALL, 64, Other);
  }

  // ---------------------------------------------------------------------------------------------
  // A stream that fails within the end of a record
  // ---------------------------------------------------------------------------------------------

  /** What a stream holds that fails after `n` octets of the end of its only record. */
  function CutShort(record: Raw.Record, n: nat): Input
    requires n < 4
  {
    Input(Raw.RenderHeader(record.header) + record.body + Raw.TERMINATOR[..n], Failing(UnexpectedEof))
  }

  /** The header is read whatever comes of the body. */
  lemma HeaderIsReached(record: Raw.Record, n: nat)
    requires Storable(record) && n < 4
    ensures Padding(CutShort(record, n).octets, 0).0 == 0 && Padding(CutShort(record, n).octets, 0).1 == 0
    ensures HeaderAt(CutShort(record, n), 0) == GotHeader(record.header, |record.body|, |Raw.RenderHeader(record.header)|)
  {
    hide Raw.RenderHeader, Raw.ParseHeader, Raw.ValidateHeader, BlockFrom;
    var block, input := Raw.RenderHeader(record.header), CutShort(record, n);
    RawRoundTrip.ParseInvertsRender(record.header);
    assert block <= input.octets && input.octets[0..|block|] == block;
    ParsedBlockIsRead(block, input);
    RenderingOpensWithVersion(record.header);
    assert input.octets[0] == block[0];
  }

  /**
   * A stream of one record that fails within its end, filtered by a condition the record does not
   * meet: the failure is reported as a truncated body, while iterating reports that the source failed.
   */
  lemma FilteringHidesFailure<S>(record: Raw.Record, n: nat, filter: Filter<S, Raw.Header>, state: S)
    requires Storable(record) && n < 4 && !filter.keep(state, record.header)
    ensures var input := CutShort(record, n);
            && Filtered(input, 0, 0, RAW_LEVEL, filter, state) == Pick(0, 0, 0, Failure(UnexpectedEndOfBody), None)
            && Selected(input, 0, 0, RAW_LEVEL, filter, state) == Pick(0, 0, 0, Failure(Framing.Source(UnexpectedEof)), None)
  {
    hide HeaderAt, Padding, Raw.RenderHeader, Raw.ParseHeader, Raw.ValidateHeader, Storable;
    var input, e := CutShort(record, n), |Raw.RenderHeader(record.header)|;
    HeaderIsReached(record, n);
    StorableIsShort(record);
    LineIsRead(input);
    assert BodyAt(input, e, |record.body|) == Failure(Framing.Source(UnexpectedEof));
    assert SkipAt(input, e, |record.body|) == Failure(UnexpectedEndOfBody);
  }

  lemma StorableIsShort(record: Raw.Record)
    requires Storable(record)
    ensures |record.body| + 4 <= MAX_USIZE
  {
  }

  /** A header that is read has a first line that is. */
  lemma LineIsRead(input: Input)
    requires HeaderAt(input, 0).GotHeader?
    ensures LineOutcome(input, 0, MAX_HEADER_BLOCK).Success?
  {
    hide Raw.ParseHeader;
    BlockLine(input, 0, 0);
  }

  const KEEPS_NONE: Filter<(), Raw.Header> := Filter((state: (), header: Raw.Header) => false, (state: (), header: Raw.Header) => state)

  /** A filter that keeps nothing, over the smallest record, whose stream fails before its end. */
  lemma SmallIsTruncated()
    ensures Filtered(CutShort(SMALL, 2), 0, 0, RAW_LEVEL, KEEPS_NONE, ()) == Pick(0, 0, 0, Failure(UnexpectedEndOfBody), None)
    ensures Selected(CutShort(SMALL, 2), 0, 0, RAW_LEVEL, KEEPS_NONE, ()) ==
            Pick(0, 0, 0, Failure(Framing.Source(UnexpectedEof)), None)
    ensures !SkipsAreSafe(CutShort(SMALL, 2), 0, RAW_LEVEL, KEEPS_NONE, ())
  {
    hide SkipsAreSafe, Filtered, Selected, CutShort;
    SmallIsStorable();
    FilteringHidesFailure(SMALL, 2, KEEPS_NONE, ());
    FilteringIsSelection(CutShort(SMALL, 2), 0, 0, RAW_LEVEL, KEEPS_NONE, ());
  }
}
