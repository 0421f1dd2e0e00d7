/** Whole runs of the raw iterator, and reading one record by its frame (`src/io/read.rs:346-601, 1076-1100`). */
module Iterators {
  import opened Bytes
  import opened Framing
  import opened Members
  import opened Placements
  import opened Sources
  import opened Reader
  import Frames
  import Raw

  /** What an iterator is opened on, told by all that it will ever deliver. */
  datatype Stream = OfOctets(input: Input) | OfMembers(file: File) {
    ghost predicate Valid() {
      && |Input().octets| <= U64_MAX
      && (OfMembers? ==> file.Valid())
    }

    ghost function Input(): Framing.Input {
      match this
      case OfOctets(input) => input
      case OfMembers(file) => file.Input()
    }

    /** Where a record lies that follows the boundary `p` and occupies the octets from `q` to `end`. */
    ghost function LocationOf(p: nat, q: nat, end: nat): Location
      requires p <= q <= end <= |Input().octets|
    {
      match this
      case OfOctets(_) => InPlain(Frame(q, end - q))
      case OfMembers(file) => InGzip(PlacementOf(file, p, q, end))
    }

    /** Where the end of the stream lies, once it is reached cleanly. */
    ghost function EndLocation(): Location {
      match this
      case OfOctets(input) => InPlain(Frame(|input.octets|, 0))
      case OfMembers(file) => InGzip(EndPlacement(file))
    }
  }

  type Yield = Located<Result<Raw.Record, Error>>

  /** What `located` says agrees with `item`, wherever it says it was found. */
  ghost predicate SameValue(item: Item, located: Yield) {
    located.value == item.value && located.blankLines == item.blankLines
  }

  /** A whole run from the boundary `p` on: every item, each record where it lies. */
  ghost predicate Run(stream: Stream, p: nat, before: nat, run: seq<Yield>)
    requires p <= |stream.Input().octets|
    decreases |stream.Input().octets| - p
  {
    match StepAt(stream.Input(), p, before)
    case Stop(_) => run == []
    case Fault(item) => |run| == 1 && SameValue(item, run[0])
    case Got(item, _, next) =>
      && run != [] && SameValue(item, run[0])
      && run[0].location == stream.LocationOf(p, item.offset, next)
      && Run(stream, next, item.blankLines, run[1..])
  }

  /** Where an iterator stands in its stream. */
  class RawIter {
    const reading: Reading
    ghost const stream: Stream

    ghost predicate Valid()
      reads this, reading, reading.reader, reading.reader.source.Object()
    {
      && stream.Valid()
      && reading.reader.origin == 0
      && reading.Input() == stream.Input()
      && reading.IsGzip() == stream.OfMembers?
      && (stream.OfMembers? ==> reading.Layout() == stream.file)
      && (reading.finished || reading.AtBoundary())
    }

    /** Iterate over the records of a plain stream. */
    constructor OfOctets(input: Input)
      requires Stream.OfOctets(input).Valid()
      ensures Valid() && fresh(reading) && fresh(reading.reader) && fresh(reading.reader.source.Object())
      ensures stream == Stream.OfOctets(input)
      ensures !reading.finished && reading.boundary == 0 && reading.blankLines == 0
    {
      hide Reading.AtBoundary, Reading.FirstLine, WindowOf, Counted.Valid;
      var octets := new ByteReader(input, 0);
      var counted := new Counted(Source.Plain(octets));
      WholeWindow(input);
      reading := new Reading(counted);
      stream := Stream.OfOctets(input);
      new;
      assert reading.reader.source.Object() == octets;
    }

    /** Iterate over the records of a gzip file. */
    constructor OfMembers(file: File)
      requires Stream.OfMembers(file).Valid()
      ensures Valid() && fresh(reading) && fresh(reading.reader) && fresh(reading.reader.source.Object())
      ensures stream == Stream.OfMembers(file)
      ensures !reading.finished && reading.boundary == 0 && reading.blankLines == 0
    {
      hide Reading.AtBoundary, Reading.FirstLine, WindowOf, Counted.Valid, File.Contents, File.Input, File.Valid, MemberReader.Valid;
      var members := new MemberReader(file.base, file.members, file.tail);
      var counted := new Counted(Source.Gzip(members));
      WholeWindow(file.Input());
      reading := new Reading(counted);
      stream := Stream.OfMembers(file);
      new;
      assert reading.reader.source.Object() == members;
    }

    method Next() returns (r: Option<Yield>)
      requires Valid()
      modifies reading, reading.reader, reading.reader.source.Object()
      ensures Valid()
      ensures old(reading.finished) ==> r.None? && reading.finished && reading.End() == old(reading.End())
      ensures !old(reading.finished) ==>
                && old(reading.boundary) <= |stream.Input().octets|
                && match StepAt(stream.Input(), old(reading.boundary), old(reading.blankLines))
                   case Stop(blank) =>
                     && r.None? && reading.finished
                     && reading.End().Some? && reading.End().value.blankLines == blank
                     && reading.End().value.location == stream.EndLocation()
                   case Fault(item) =>
                     && r.Some? && SameValue(item, r.value)
                     && (stream.OfOctets? ==> r.value.location.InPlain? && r.value.location.frame.offset == item.offset)
                     && reading.finished && reading.End().None?
                   case Got(item, _, next) =>
                     && r.Some? && SameValue(item, r.value)
                     && r.value.location == stream.LocationOf(old(reading.boundary), item.offset, next)
                     && !reading.finished && reading.boundary == next && reading.blankLines == item.blankLines
    {
      hide File.PositionAt, File.Contents, LastBoundary, Padding, BodyAt, HeaderAt, PlacementOf, BlankLinesAt, Reading.FirstLine;
      var result := reading.NextRecord();
      if result.None? {
        return None;
      }
      r := Some(reading.LocatedHere(result.value));
    }

    /** Read to the end, as collecting the iterator does. */
    method Collect() returns (run: seq<Yield>)
      requires Valid()
      modifies reading, reading.reader, reading.reader.source.Object()
      ensures Valid() && reading.finished
      ensures old(reading.finished) ==> run == []
      ensures !old(reading.finished) ==>
                && old(reading.boundary) <= |stream.Input().octets|
                && Run(stream, old(reading.boundary), old(reading.blankLines), run)
      decreases if reading.finished then 0 else 1 + |stream.Input().octets| - reading.boundary
    {
      hide StepAt, Stream.LocationOf, SameValue;
      var next := Next();
      if next.None? {
        return [];
      }
      var rest := Collect();
      run := [next.value] + rest;
    }
  }

  lemma WholeWindow(input: Input)
    requires |input.octets| <= U64_MAX
    ensures WindowOf(input, 0, U64_MAX) == input
  {
  }

  // ---------------------------------------------------------------------------------------------
  // Runs
  // ---------------------------------------------------------------------------------------------

  /** A run yields the items of its stream, one for one. */
  lemma {:induction false} RunYieldsItems(stream: Stream, p: nat, before: nat, run: seq<Yield>)
    requires p <= |stream.Input().octets| && Run(stream, p, before, run)
    ensures |run| == |Items(stream.Input(), p, before)|
    ensures forall i | 0 <= i < |run| :: SameValue(Items(stream.Input(), p, before)[i], run[i])
    decreases |stream.Input().octets| - p
  {
    hide StepAt, Stream.LocationOf, Stream.Input;
    var step := StepAt(stream.Input(), p, before);
    if step.Got? {
      RunYieldsItems(stream, step.next, step.item.blankLines, run[1..]);
      assert forall i | 0 < i < |run| :: run[i] == run[1..][i - 1];
    }
  }

  /**
   * Reading the members of a gzip file yields the values and blank lines that reading their
   * contents as a plain stream does, however the members split them.
   */
  lemma GzipReadsAsPlain(file: File, plain: seq<Yield>, gzip: seq<Yield>)
    requires Run(OfOctets(file.Input()), 0, 0, plain) && Run(OfMembers(file), 0, 0, gzip)
    ensures |plain| == |gzip|
    ensures forall i | 0 <= i < |plain| ::
              plain[i].value == gzip[i].value && plain[i].blankLines == gzip[i].blankLines
  {
    hide Run, Items;
    RunYieldsItems(OfOctets(file.Input()), 0, 0, plain);
    RunYieldsItems(OfMembers(file), 0, 0, gzip);
  }

  // ---------------------------------------------------------------------------------------------
  // Reading one record by its frame
  // ---------------------------------------------------------------------------------------------

  /** Read the one record of the window a reader was opened on. */
  method OnlyRecordOf(reading: Reading) returns (r: Result<Raw.Record, Error>)
    requires reading.AtBoundary() && reading.boundary == 0
    modifies reading, reading.reader, reading.reader.source.Object()
    ensures r == Frames.OnlyRecord(reading.Input())
  {
    hide HeaderAt, BodyAt, Padding, BlankLinesAt, Reading.FirstLine, PlacementOf, Reading.Attached,
         Reading.AtBody, Counted.Valid, Counted.Input, File.Contents, File.PositionAt;
    var first := reading.NextHeader();
    if first.None? {
      return Failure(EmptyFrame);
    }
    if first.value.Failure? {
      return Failure(first.value.error);
    }
    var (header, n) := first.value.value;
    var body := reading.ReadRecordBody(n);
    if body.Failure? {
      return Failure(body.error);
    }
    var second := reading.NextHeader();
    if second.None? {
      return Success(Raw.Record(header, body.value));
    }
    r := Failure(if second.value.Success? then OverfullFrame else second.value.error);
  }

  /** Read the record a frame of a plain stream locates. */
  method RawRecordAtPlain(input: Input, frame: Frame) returns (r: Result<Raw.Record, Error>)
    requires |input.octets| <= U64_MAX && frame.offset <= U64_MAX
    ensures r == Frames.OnlyRecord(WindowOf(input, frame.offset, frame.offset + frame.length))
  {
    hide Reading.AtBoundary, Frames.OnlyRecord;
    var at := if frame.offset < |input.octets| then frame.offset else |input.octets|;
    var octets := new ByteReader(input, at);
    var counted := new Counted.Window(Source.Plain(octets), frame.offset, frame.length);
    LimitedWindow(input, at, frame, counted.limit);
    var reading := new Reading(counted);
    r := OnlyRecordOf(reading);
  }

  lemma LimitedWindow(input: Input, at: nat, frame: Frame, limit: nat)
    requires |input.octets| <= U64_MAX && frame.offset <= U64_MAX
    requires at == if frame.offset < |input.octets| then frame.offset else |input.octets|
    requires limit == if frame.offset + frame.length > U64_MAX then U64_MAX else frame.offset + frame.length
    ensures WindowOf(input, at, at + (limit - frame.offset)) == WindowOf(input, frame.offset, frame.offset + frame.length)
  {
  }

  /**
   * The result is that of `OnlyRecord` on the members from `i` to `j`, those the frame covers. The source is
   * positioned at member `i` beforehand.
   */
  method RawRecordAtGzip(file: File, frame: Frame, i: nat, ghost j: nat) returns (r: Result<Raw.Record, Error>)
    requires Stream.OfMembers(file).Valid() && Frames.Covers(file, frame, i, j)
    ensures r == Frames.OnlyRecord(MembersWithin(file, i, j).Input())
  {
    hide Reading.AtBoundary, Frames.OnlyRecord, File.Offset, File.Contents, File.PositionAt, MembersWithin, MemberReader.Valid, Frames.EndingAt;
    Frames.WithinContents(file, i, j);
    OffsetFrom(file, i, j);
    WithinFrom(file, i, j);
    var members := new MemberReader.Window(frame.offset, frame.length, file.members[i..], file.tail, j - i);
    var counted := new Counted(Source.Gzip(members));
    WholeWindow(MembersWithin(file, i, j).Input());
    var reading := new Reading(counted);
    r := OnlyRecordOf(reading);
  }
}
