/** The reader shared by the iterators over records (`src/io/read.rs:755-1100`). */
module Reader {
  import opened Bytes
  import opened Framing
  import opened Members
  import opened Placements
  import opened Sources
  import opened Bounded
  import Raw

  /** The blank lines counted before a record, and how reading the line after them went. */
  datatype PaddingRead = PaddingRead(blankLines: nat, read: LineRead)

  /** A value with its location and the blank lines counted before it. */
  datatype Located<T> = Located(location: Location, blankLines: nat, value: T)

  predicate IsBlankLine(buffer: bytes) {
    buffer == CRLF || buffer == [LF]
  }

  /** A line is blank as the reader tells it exactly when one stands there. */
  lemma BlankLineRead(input: Input, p: nat, buffer: bytes)
    requires p <= |input.octets|
    requires var read := LineOutcome(input, p, MAX_HEADER_BLOCK);
             read.Success? && read.value.Line? ==> buffer == input.octets[p..p + read.value.length]
    ensures var read := LineOutcome(input, p, MAX_HEADER_BLOCK);
            if read.Success? && read.value.Line? && IsBlankLine(buffer)
            then BlankAt(input.octets, p) == read.value.length > 0
            else BlankAt(input.octets, p) == 0
  {
    var s := input.octets;
    var read := LineOutcome(input, p, MAX_HEADER_BLOCK);
    var n := BlankAt(s, p);
    if n > 0 {
      FindUnique(s, LF, p, p + n - 1);
      assert s[p..p + n] == if n == 1 then [LF] else CRLF;
    } else if read.Success? && read.value.Line? {
      assert |buffer| == read.value.length && buffer[0] == s[p];
      if |buffer| == 2 {
        assert buffer[1] == s[p + 1];
      }
    }
  }

  // ---------------------------------------------------------------------------------------------
  // The loop over blank lines
  // ---------------------------------------------------------------------------------------------

  /** The lines from `from` to `p` are blank, and there are `blank` of them. */
  ghost predicate Skipped(input: Input, from: nat, p: nat, blank: nat) {
    && from <= p <= |input.octets|
    && Padding(input.octets, from) == (blank + Padding(input.octets, p).0, Padding(input.octets, p).1)
  }

  lemma SkipNothing(input: Input, from: nat)
    requires from <= |input.octets|
    ensures Skipped(input, from, from, 0)
  {
  }

  lemma SkipStep(input: Input, from: nat, p: nat, blank: nat)
    requires Skipped(input, from, p, blank)
    ensures from <= p <= |input.octets|
    ensures var n := BlankAt(input.octets, p);
            if n == 0 then Padding(input.octets, from) == (blank, p)
            else p + n <= |input.octets| && Skipped(input, from, p + n, blank + 1)
  {
  }

  /** The last boundary met from `from` on, up to `p` but not at it, is the one in `began`. */
  ghost predicate Passed(f: File, from: nat, p: nat, began: Option<nat>) {
    && from <= p <= |f.Contents()|
    && LastBoundary(f, from, None) == LastBoundary(f, p, began)
    && (began.Some? ==> f.PositionAt(from).member <= began.value)
  }

  lemma PassNothing(f: File, from: nat)
    requires from <= |f.Contents()|
    ensures Passed(f, from, from, None)
  {
  }

  lemma PassHere(f: File, from: nat, p: nat, began: Option<nat>)
    requires Passed(f, from, p, began)
    ensures from <= p <= |f.Contents()| && f.PositionAt(from).member <= f.PositionAt(p).member
    ensures began.Some? ==> f.PositionAt(from).member <= began.value
  {
    PositionsAscend(f, from, p);
  }

  lemma PassStep(f: File, from: nat, p: nat, began: Option<nat>)
    requires Passed(f, from, p, began)
    ensures from <= p <= |f.Contents()|
    ensures var n := BlankAt(f.Contents(), p);
            var here := BoundaryAt(f, p, began);
            if n == 0 then LastBoundary(f, from, None) == here else p + n <= |f.Contents()| && Passed(f, from, p + n, here)
  {
    hide File.Contents, File.PositionAt, BlankAt;
    PositionsAscend(f, from, p);
  }

  lemma StartIs(f: File, from: nat, p: nat, here: Option<nat>)
    requires from <= p <= |f.Contents()|
    requires Padding(f.Contents(), from).1 == p && LastBoundary(f, from, None) == here
    ensures StartAfter(f, from) == f.PositionAt(p).(boundary := here == Some(f.PositionAt(p).member))
  {
  }

  ghost predicate Follows(placement: Option<Placement>, last: Option<nat>) {
    placement.Some? && last.Some? ==> placement.value.offset <= last.value
  }

  /** The placement of the record before some blank lines, once they have been read past. */
  function Extended(placement: Option<Placement>, last: Option<nat>): Option<Placement>
    requires Follows(placement, last)
  {
    if placement.Some? && last.Some? then
      Some(placement.value.(length := Some(last.value - placement.value.offset)))
    else placement
  }

  class Reading {
    const reader: Counted
    /** Once true, every later call returns nothing and changes nothing. */
    var finished: bool
    /** True only after a stop that was no error, which `End` then reports. */
    var ended: bool
    /** What reading ahead failed with; the next call returns it in place of a record. */
    var pending: Option<Error>
    /** The padding counted while reading ahead; the line it stopped at is then in `headerBuffer`. */
    var ahead: Option<PaddingRead>
    var headerBuffer: bytes
    var blankLines: nat
    var offset: nat
    var length: nat
    var start: Position
    var placement: Option<Placement>

    /** The record boundary the record being read follows. */
    ghost var boundary: nat

    ghost function Input(): Framing.Input {
      reader.Input()
    }

    ghost function Octets(): bytes {
      Input().octets
    }

    predicate IsGzip() {
      reader.source.IsGzip()
    }

    ghost function Layout(): File
      requires IsGzip()
    {
      reader.source.members.file
    }

    /** The reader reads the stream it was given, from its first octet. */
    ghost predicate Attached()
      reads this, reader, reader.source.Object()
      ensures Attached() ==> reader.Valid() && reader.At() <= |Octets()|
    {
      && reader.Valid() && this != reader.source.Object()
      && (IsGzip() ==> Input() == Layout().Input() && Octets() == Layout().Contents() && reader.origin == reader.from == 0)
      && (!IsGzip() ==> placement.None?)
      && |headerBuffer| <= MAX_HEADER_BLOCK
    }

    /** The header buffer holds the octets from `q` to where the reader stands. */
    ghost predicate Buffered(q: nat)
      reads this, reader, reader.source.Object()
    {
      && Attached()
      && q <= reader.At()
      && headerBuffer == Octets()[q..reader.At()]
    }

    /** Where the header block after the boundary begins. */
    ghost function Head(): nat
      requires boundary <= |Octets()|
      reads this
    {
      Padding(Octets(), boundary).1
    }

    /** The first line after the boundary was read with the given outcome. */
    ghost predicate FirstLine(read: Result<LineRead, Error>)
      requires boundary <= |Octets()|
      reads this, reader, reader.source.Object()
    {
      && Buffered(Head())
      && read == LineOutcome(Input(), Head(), MAX_HEADER_BLOCK)
      && (read.Success? ==> reader.Fresh())
      && (read != Success(LimitExceeded) ==> reader.At() == LineStop(Input(), Head(), read))
      && (IsGzip() ==> start == if read.Success? then StartAfter(Layout(), boundary) else Layout().PositionAt(Head()))
    }

    /** The reader stands at a record boundary, or has read ahead of it. */
    ghost predicate AtBoundary()
      reads this, reader, reader.source.Object()
    {
      && Attached() && !finished && !ended
      && boundary <= |Octets()|
      && match (pending, ahead)
         case (None, None) => reader.At() == boundary && reader.Fresh() && placement.None?
         case (None, Some(padding)) =>
           && padding.blankLines == Padding(Octets(), boundary).0
           && FirstLine(Success(padding.read))
         case (Some(error), None) => FirstLine(Failure(error))
         case (Some(_), Some(_)) => false
    }

    /** The reader stands at the body of the record whose header it returned last. */
    ghost predicate AtBody()
      reads this, reader, reader.source.Object()
    {
      && Attached() && !finished && !ended
      && boundary <= |Octets()|
      && reader.Fresh()
      && boundary <= Head() < reader.At()
      && offset == reader.origin + Head()
      && pending.None? && ahead.None?
      && (IsGzip() ==> start == StartAfter(Layout(), boundary))
    }

    constructor (reader: Counted)
      requires reader.Valid() && reader.Fresh() && reader.At() == 0
      requires reader.source.IsGzip() ==>
                 reader.Input() == reader.source.members.file.Input() && reader.origin == reader.from == 0
      ensures AtBoundary() && boundary == 0 && this.reader == reader
      ensures blankLines == 0
    {
      this.reader := reader;
      finished, ended, pending, ahead := false, false, None, None;
      headerBuffer, blankLines, offset, length := [], 0, 0, 0;
      start, placement := Members.Position(0, false, 0), None;
      boundary := 0;
    }

    /**
     * Take the position of the line about to be read. If that is a boundary, it becomes the end of the
     * placement before, and the result; if not, both stay as they are.
     */
    method NoteBoundary(began: Option<nat>) returns (now: Option<nat>)
      requires Attached() && reader.Fresh()
      requires IsGzip() ==> Passed(Layout(), boundary, reader.At(), began)
      requires IsGzip() && placement.Some? ==> placement.value.offset <= Layout().PositionAt(boundary).member
      modifies this`start, this`placement, reader.source.Object()
      ensures Attached() && reader.Fresh() && reader.At() == old(reader.At())
      ensures !IsGzip() ==> now == began && start == old(start) && placement == old(placement)
      ensures IsGzip() ==>
                && reader.At() <= |Layout().Contents()|
                && start == Layout().PositionAt(reader.At())
                && now == BoundaryAt(Layout(), reader.At(), began)
                && Follows(old(placement), now)
                && placement == if start.boundary then Extended(old(placement), now) else old(placement)
    {
      hide Counted.Valid, Counted.At, Counted.Input, Counted.Fresh, File.PositionAt, File.Contents, File.Input, Passed;
      now := began;
      var location := reader.Position();
      if location.Some? {
        PassHere(Layout(), boundary, reader.At(), began);
        if location.value.boundary {
          now := Some(location.value.member);
          if placement.Some? {
            placement := Some(placement.value.(length := Some(location.value.member - placement.value.offset)));
          }
        }
        start := location.value;
      }
    }

    /**
     * Count the blank lines from the boundary on, as `Padding` does, and buffer the line they end at. The
     * placement before them is extended as far as `LastBoundary` tells.
     */
    method ReadPastPadding() returns (r: Result<PaddingRead, Error>)
      requires Attached() && reader.Fresh()
      requires headerBuffer == []
      requires boundary == reader.At()
      requires IsGzip() && placement.Some? ==> placement.value.offset <= Layout().PositionAt(boundary).member
      modifies this`headerBuffer, this`start, this`placement, reader, reader.source.Object()
      ensures Attached()
      ensures r.Success? ==> r.value.blankLines == Padding(Octets(), boundary).0
      ensures FirstLine(match r case Success(padding) => Success(padding.read) case Failure(error) => Failure(error))
      ensures IsGzip() ==>
                && Follows(old(placement), LastBoundary(Layout(), boundary, None))
                && placement == Extended(old(placement), LastBoundary(Layout(), boundary, None))
    {
      hide Counted.Valid, Counted.At, Counted.Input, Counted.Fresh, LineOutcome, Skipped, Passed, BlankAt,
           LastBoundary, Padding, StartAfter, File.PositionAt, File.Contents, File.Input;
      ghost var input := Input();
      var blank := 0;
      var began: Option<nat> := None;
      SkipNothing(input, boundary);
      if IsGzip() {
        PassNothing(Layout(), boundary);
      }
      while true
        invariant Attached() && reader.Fresh()
        invariant headerBuffer == []
        invariant Skipped(input, boundary, reader.At(), blank)
        invariant IsGzip() ==> Passed(Layout(), boundary, reader.At(), began)
        invariant IsGzip() ==> Follows(old(placement), began) && placement == Extended(old(placement), began)
        invariant !IsGzip() ==> start == old(start)
        decreases |input.octets| - reader.At()
      {
        ghost var p := reader.At();
        ghost var before := began;
        began := NoteBoundary(began);
        var read;
        headerBuffer, read := ReadLineBounded(reader, headerBuffer, MAX_HEADER_BLOCK);
        BlankLineRead(input, p, headerBuffer);
        SkipStep(input, boundary, p, blank);
        if IsGzip() {
          PassStep(Layout(), boundary, p, before);
        }
        if read.Failure? {
          return Failure(read.error);
        }
        if read.value.Line? && IsBlankLine(headerBuffer) {
          headerBuffer := [];
          blank := blank + 1;
        } else {
          start := start.(boundary := began == Some(start.member));
          if IsGzip() {
            StartIs(Layout(), boundary, p, began);
          }
          return Success(PaddingRead(blank, read.value));
        }
      }
    }

    /**
     * Complete the block begun by a buffered line, with the outcome of `BlockFrom`. `None` stands for an
     * input that ends before the block has an octet.
     */
    method ReadHeaderBlock(first: LineRead) returns (r: Option<Result<(), Error>>)
      requires boundary <= |Octets()| && FirstLine(Success(first))
      modifies this`headerBuffer, reader, reader.source.Object()
      ensures Buffered(Head())
      ensures match BlockFrom(Input(), Head(), Head())
              case EndOfInput => r == None && reader.At() == Head()
              case Broken(error) => r == Some(Failure(error))
              case Block(end) => r == Some(Success(())) && reader.At() == end && reader.Fresh()
    {
      hide Counted.Valid, Counted.At, Counted.Input, Counted.Fresh, LineOutcome, BlockFrom, Padding, StartAfter,
           File.PositionAt, File.Contents, File.Input, LineStop;
      var read := first;
      ghost var q := Head();
      ghost var e := q;
      while true
        invariant Buffered(q) && reader.Fresh()
        invariant q <= e <= reader.At() && e - q <= MAX_HEADER_BLOCK
        invariant Success(read) == LineOutcome(Input(), e, MAX_HEADER_BLOCK - (e - q))
        invariant !read.LimitExceeded? ==> reader.At() == LineStop(Input(), e, Success(read))
        invariant BlockFrom(Input(), q, q) == BlockFrom(Input(), q, e)
        decreases |Octets()| - e
      {
        BlockStep(Input(), q, e, read, reader.At());
        match read {
          case Eof =>
            return if headerBuffer == [] then None else Some(Failure(RawFault(Raw.UnexpectedEndOfHeaderBlock)));
          case LimitExceeded =>
            return Some(Failure(HeaderBlockTooLarge));
          case Line(n) =>
            if n == 2 && |headerBuffer| >= 2 && headerBuffer[|headerBuffer| - 2..] == CRLF {
              return Some(Success(()));
            }
            e := reader.At();
        }
        ghost var buffer := headerBuffer;
        var next;
        headerBuffer, next := ReadLineBounded(reader, headerBuffer, MAX_HEADER_BLOCK);
        SlicesMeet(Octets(), q, e, reader.At());
        if next.Failure? {
          BlockFails(Input(), q, e);
          return Some(Failure(next.error));
        }
        read := next.value;
      }
    }

    /** `offset` and `start` are those of a record whose header block opens at `head`. */
    ghost predicate Started(head: nat)
      reads this, reader, reader.source.Object()
    {
      && Attached()
      && head <= reader.At()
      && offset == reader.origin + head
      && (IsGzip() ==>
            var first := Layout().PositionAt(head);
            start.member == first.member && start.held == first.held)
    }

    /**
     * Measure what was consumed from `head` on, and in a gzip stream the placement from there to here. No
     * subtraction underflows, since positions ascend.
     */
    method EndFinished(ghost head: nat)
      requires finished && Started(head)
      modifies this`length, this`placement, reader.source.Object()
      ensures Attached() && reader.At() == old(reader.At())
      ensures length == reader.At() - head
      ensures IsGzip() ==>
                var end := Layout().PositionAt(reader.At());
                start.member <= end.member && start.held <= end.held && placement == Some(PlacementBetween(start, end))
    {
      hide File.PositionAt, File.Contents, File.Input, Counted.Valid, Counted.Input, Counted.Fresh, LineOutcome, Padding;
      length := reader.position - offset;
      var end := reader.Position();
      if end.Some? {
        PositionsAscend(Layout(), head, reader.At());
        placement := Some(PlacementBetween(start, end.value));
      }
    }

    /** Stop iteration where reading stopped. */
    method Finish(ghost head: nat)
      requires Started(head)
      modifies this`finished, this`length, this`placement, reader.source.Object()
      ensures finished && Attached() && reader.At() == old(reader.At())
      ensures length == reader.At() - head
      ensures IsGzip() ==>
                var end := Layout().PositionAt(reader.At());
                start.member <= end.member && start.held <= end.held && placement == Some(PlacementBetween(start, end))
    {
      finished := true;
      EndFinished(head);
    }

    /**
     * Measure the record that has just been read. A gzip stream is then read on through the padding, which
     * fixes the record's placement, and what is met there is kept for the next call.
     */
    method EndRecord(ghost head: nat)
      requires !finished && !ended && Started(head)
      requires reader.Fresh() && pending.None? && ahead.None?
      requires boundary <= head && head == Head()
      requires IsGzip() ==> start == StartAfter(Layout(), boundary)
      modifies this`length, this`placement, this`headerBuffer, this`start, this`ahead, this`pending, this`boundary,
               reader, reader.source.Object()
      ensures AtBoundary() && boundary == old(reader.At())
      ensures length == boundary - head
      ensures IsGzip() ==> placement == Some(PlacementOf(Layout(), old(boundary), head, boundary))
    {
      hide File.PositionAt, File.Contents, File.Input, LastBoundary, Padding, LineOutcome,
           PlacementOf, Extended, Counted.Valid, Counted.Input, Counted.Fresh;
      length := reader.position - offset;
      ghost var before := boundary;
      boundary := reader.At();
      var end := reader.Position();
      if end.None? {
        return;
      }
      PositionsAscend(Layout(), head, boundary);
      placement := Some(PlacementBetween(start, end.value));
      ghost var first := placement;
      ReadAhead();
      PlacedAcross(Layout(), before, head, boundary, first);
    }

    /** Keep what reading past the blank lines after a record meets. */
    method ReadAhead()
      requires Attached() && reader.Fresh() && !finished && !ended
      requires pending.None? && ahead.None? && boundary == reader.At()
      requires IsGzip() && placement.Some? && placement.value.offset <= Layout().PositionAt(boundary).member
      modifies this`placement, this`headerBuffer, this`start, this`ahead, this`pending, reader, reader.source.Object()
      ensures AtBoundary()
      ensures Follows(old(placement), LastBoundary(Layout(), boundary, None))
      ensures placement == Extended(old(placement), LastBoundary(Layout(), boundary, None))
    {
      hide Layout, File.PositionAt, File.Contents, File.Input, LastBoundary, Padding, StartAfter, LineOutcome, Extended, Follows,
           Counted.Valid, Counted.Input, Counted.Fresh;
      headerBuffer := [];
      var padding := ReadPastPadding();
      match padding {
        case Success(read) => ahead := Some(read);
        case Failure(error) => pending := Some(error);
      }
    }

    /** The blank lines reported once the header block after the boundary is reached. */
    ghost function BlankLinesNext(before: nat): nat
      requires boundary <= |Octets()|
      reads this
    {
      BlankLinesAt(Input(), boundary, before)
    }

    /** Read the first line after the boundary, unless it was read ahead. */
    method ReachHead() returns (r: Result<PaddingRead, Error>)
      requires AtBoundary()
      modifies this`headerBuffer, this`start, this`placement, this`pending, this`ahead, reader, reader.source.Object()
      ensures pending.None? && ahead.None?
      ensures r.Success? ==> r.value.blankLines == Padding(Octets(), boundary).0
      ensures FirstLine(match r case Success(padding) => Success(padding.read) case Failure(error) => Failure(error))
    {
      hide File.PositionAt, File.Contents, File.Input, LastBoundary, Padding, StartAfter, LineOutcome, Extended, Follows,
           Counted.Valid, Counted.Input, Counted.Fresh;
      if pending.Some? {
        r := Failure(pending.value);
        pending := None;
      } else if ahead.Some? {
        r := Success(ahead.value);
        ahead := None;
      } else {
        headerBuffer := [];
        r := ReadPastPadding();
      }
    }

    /** In a gzip stream, the end is located past the last complete member. */
    ghost predicate EndIsLocated()
      reads this
    {
      IsGzip() ==> placement == Some(EndPlacement(Layout()))
    }

    /**
     * A header and its declared length, with the outcome of `HeaderAt` where the padding ends, whether or
     * not any of it was read ahead. `None` means a clean end, or that nothing is left to return.
     */
    method NextHeader() returns (r: Option<Result<(Raw.Header, nat), Error>>)
      requires finished || AtBoundary()
      modifies this, reader, reader.source.Object()
      ensures boundary == old(boundary)
      ensures old(finished) ==> r.None? && unchanged(this) && unchanged(reader)
      ensures !old(finished) ==>
                && Attached() && boundary <= |Octets()|
                && blankLines == BlankLinesNext(old(blankLines))
                && offset == reader.origin + Head()
                && match HeaderAt(Input(), Head())
                   case NoHeader => r == None && finished && ended && length == 0 && EndIsLocated()
                   case HeaderFault(error) => r == Some(Failure(error)) && finished && ended == old(ended)
                   case GotHeader(header, n, body) => r == Some(Success((header, n))) && AtBody() && reader.At() == body
    {
      hide File.PositionAt, File.Contents, File.Input, LastBoundary, Padding, StartAfter, LineOutcome, HeaderAt,
           Counted.Valid, Counted.Input, Counted.Fresh;
      if finished {
        return None;
      }
      var padding := ReachHead();
      ghost var head := Head();
      offset := reader.position - |headerBuffer|;
      if padding.Failure? {
        HeaderOutcome(Input(), head);
        Finish(head);
        return Some(Failure(padding.error));
      }
      blankLines := padding.value.blankLines;
      r := HeaderAfter(padding.value.read);
    }

    /** Read and parse the header block whose first line has been read. */
    method HeaderAfter(first: LineRead) returns (r: Option<Result<(Raw.Header, nat), Error>>)
      requires boundary <= |Octets()| && FirstLine(Success(first))
      requires !finished && !ended && pending.None? && ahead.None?
      requires offset == reader.origin + Head()
      modifies this`headerBuffer, this`finished, this`ended, this`length, this`placement, reader, reader.source.Object()
      ensures Attached()
      ensures match HeaderAt(Input(), Head())
              case NoHeader => r == None && finished && ended && length == 0 && EndIsLocated()
              case HeaderFault(error) => r == Some(Failure(error)) && finished && !ended
              case GotHeader(header, n, body) => r == Some(Success((header, n))) && AtBody() && reader.At() == body
    {
      hide File.PositionAt, File.Contents, File.Input, LastBoundary, Padding, StartAfter, LineOutcome, HeaderAt, BlockFrom,
           Raw.ParseHeader, Counted.Valid, Counted.Input, Counted.Fresh;
      ghost var head := Head();
      if IsGzip() {
        StartAtHead(Layout(), boundary);
      }
      HeaderOutcome(Input(), head);
      var block := ReadHeaderBlock(first);
      if block.None? {
        if IsGzip() {
          EndIsPlaced(Layout(), boundary);
        }
        Finish(head);
        ended := true;
        return None;
      }
      if block.value.Failure? {
        Finish(head);
        return Some(Failure(block.value.error));
      }
      var parsed := Raw.Parse(headerBuffer);
      if parsed.Failure? {
        Finish(head);
        return Some(Failure(RawFault(parsed.error)));
      }
      r := Some(Success(parsed.value));
    }

    /** The outcome of `BodyAt`. A body leaves the reader at the next boundary; a fault finishes it. */
    method ReadRecordBody(n: nat) returns (r: Result<bytes, Error>)
      requires AtBody()
      modifies this, reader, reader.source.Object()
      ensures r == BodyAt(Input(), old(reader.At()), n)
      ensures blankLines == old(blankLines) && offset == old(offset)
      ensures r.Failure? ==> finished && !ended && Attached()
      ensures r.Success? ==> RecordEnded(old(boundary), old(reader.At()) + n + 4)
    {
      hide File.PositionAt, File.Contents, File.Input, LastBoundary, Padding, StartAfter, LineOutcome, BodyAt,
           PlacementOf, Counted.Valid, Counted.Input, Counted.Fresh;
      ghost var head := Head();
      if IsGzip() {
        StartAtHead(Layout(), boundary);
      }
      r := ReadBody(reader, n);
      if r.Failure? {
        Finish(head);
      } else {
        EndRecord(head);
      }
    }

    /** The outcome of `SkipAt`, with the effects on the reader that reading the body has. */
    method SkipRecordBody(n: nat) returns (r: Result<(), Error>)
      requires AtBody()
      modifies this, reader, reader.source.Object()
      ensures r == SkipAt(Input(), old(reader.At()), n)
      ensures blankLines == old(blankLines) && offset == old(offset)
      ensures r.Failure? ==> finished && !ended && Attached()
      ensures r.Success? ==> RecordEnded(old(boundary), old(reader.At()) + n + 4)
    {
      hide File.PositionAt, File.Contents, File.Input, LastBoundary, Padding, StartAfter, LineOutcome, SkipAt,
           PlacementOf, Counted.Valid, Counted.Input, Counted.Fresh;
      ghost var head := Head();
      if IsGzip() {
        StartAtHead(Layout(), boundary);
      }
      r := SkipBody(reader, n);
      if r.Failure? {
        Finish(head);
      } else {
        EndRecord(head);
      }
    }

    /** The record after the boundary `p` ended at `end`, and is placed there. */
    ghost predicate RecordEnded(p: nat, end: nat)
      reads this, reader, reader.source.Object()
    {
      && AtBoundary() && boundary == end && p <= end
      && p <= Padding(Octets(), p).1 <= end
      && length == end - Padding(Octets(), p).1
      && (IsGzip() ==> placement == Some(PlacementOf(Layout(), p, Padding(Octets(), p).1, end)))
    }

    /** Where a record lies that follows the boundary `p` and occupies the octets from `q` to `end`. */
    ghost function LocationOf(p: nat, q: nat, end: nat): Location
      requires IsGzip() ==> p <= q <= end <= |Layout().Contents()|
    {
      if IsGzip() then InGzip(PlacementOf(Layout(), p, q, end))
      else InPlain(Frame(reader.origin + q, if end < q then 0 else end - q))
    }

    /** Pairs a value with the location and the blank lines that the fields now hold. */
    function LocatedHere<T>(value: T): Located<T>
      reads this
    {
      Located(if placement.Some? then InGzip(placement.value) else InPlain(Frame(offset, length)), blankLines, value)
    }

    /** Present exactly when reading stopped without an error. */
    function End(): Option<Located<()>>
      reads this
    {
      if ended then Some(LocatedHere(())) else None
    }

    /** One step of reading, with the outcome of `StepAt` from the boundary. */
    method NextRecord() returns (r: Option<Result<Raw.Record, Error>>)
      requires finished || AtBoundary()
      modifies this, reader, reader.source.Object()
      ensures old(finished) ==> r.None? && unchanged(this) && unchanged(reader)
      ensures !old(finished) ==>
                && Attached() && old(boundary) <= |Octets()|
                && match StepAt(Input(), old(boundary), old(blankLines))
                   case Stop(blank) =>
                     r.None? && finished && ended && blankLines == blank && offset == reader.origin + |Octets()| && length == 0
                     && EndIsLocated()
                   case Fault(item) => r == Some(item.value) && finished && !ended && At(item)
                   case Got(item, _, next) => r == Some(item.value) && RecordEnded(old(boundary), next) && At(item)
    {
      hide File.PositionAt, File.Contents, File.Input, LastBoundary, Padding, StartAfter, LineOutcome, BodyAt, HeaderAt,
           PlacementOf, BlankLinesAt, Counted.Valid, Counted.Input, Counted.Fresh, FirstLine, Attached;
      var header := NextHeader();
      if header.None? {
        return None;
      }
      if header.value.Failure? {
        return Some(Failure(header.value.error));
      }
      var (head, n) := header.value.value;
      var body := ReadRecordBody(n);
      r := Some(match body case Success(octets) => Success(Raw.Record(head, octets)) case Failure(error) => Failure(error));
    }

    /** The item read last is reported with its blank lines and where it begins. */
    ghost predicate At(item: Item)
      reads this
    {
      blankLines == item.blankLines && offset == reader.origin + item.offset
    }

    /** What one call of a filtering iterator returns, and the boundary it leaves the reader at. */
    ghost predicate Picked<T>(pick: Pick<T>, r: Option<Located<Result<T, Error>>>)
      requires IsGzip() && pick.Pick? && pick.next.Some? ==> pick.boundary <= pick.offset <= pick.next.value <= |Layout().Contents()|
      reads this, reader, reader.source.Object()
    {
      match pick
      case NoPick(blank) => r.None? && finished && ended && blankLines == blank && EndIsLocated()
      case Pick(p, blank, q, value, next) =>
        && blankLines == blank && offset == reader.origin + q
        && r.Some? && r.value.value == value && r.value.blankLines == blank
        && match next
           case None => finished && !ended
           case Some(end) => AtBoundary() && boundary == end && r.value.location == LocationOf(p, q, end)
    }

    /** Where a record ended, the reader stands at a boundary. */
    lemma EndedAt(p: nat, end: nat)
      requires RecordEnded(p, end)
      ensures AtBoundary() && boundary == end && p <= Padding(Octets(), p).1 <= end
    {
    }

    /** A record that ended is picked where it lies. */
    lemma PickedAsPlaced<T>(p: nat, value: Result<T, Error>)
      requires RecordEnded(p, boundary) && offset == reader.origin + Padding(Octets(), p).1
      ensures var q := Padding(Octets(), p).1;
              && (IsGzip() ==> p <= q <= boundary <= |Layout().Contents()|)
              && p <= q <= boundary <= |Octets()|
              && Picked(Pick(p, blankLines, q, value, Some(boundary)), Some(LocatedHere(value)))
    {
      hide File.PositionAt, File.Contents, File.Input, LastBoundary, Padding, StartAfter, LineOutcome, PlacementOf,
           Counted.Valid, Counted.Input, Counted.Fresh, FirstLine;
    }

    lemma PickedNone<T>()
      requires finished && ended && EndIsLocated()
      ensures Picked<T>(NoPick(blankLines), None)
    {
    }

    /** A fault is picked at the header it was met in or after. */
    lemma PickedAsFault<T>(p: nat, q: nat, error: Error)
      requires finished && !ended && offset == reader.origin + q
      ensures Picked<T>(Pick(p, blankLines, q, Failure(error), None), Some(LocatedHere(Failure(error))))
    {
    }

    /**
     * One step of filtering, with the outcome of `Filtered` from the boundary: a body that fails decides
     * the outcome, even for a header that could not be converted.
     */
    method NextFiltered<H, T, S>(level: Level<H, T>, filter: Filter<S, H>, state: S)
      returns (r: Option<Located<Result<T, Error>>>, after: S)
      requires finished || AtBoundary()
      modifies this, reader, reader.source.Object()
      ensures old(finished) ==> r.None? && after == state && unchanged(this) && unchanged(reader)
      ensures !old(finished) ==>
                && old(boundary) <= |Octets()|
                && after == Asked(Input(), old(boundary), level, filter, state)
                && var pick := Filtered(Input(), old(boundary), old(blankLines), level, filter, state);
                && (IsGzip() && pick.Pick? && pick.next.Some? ==> pick.boundary <= pick.offset <= pick.next.value <= |Layout().Contents()|)
                && (pick.Pick? && pick.next.Some? ==> old(boundary) < pick.next.value <= |Octets()|)
                && Picked(pick, r)
    {
      hide File.PositionAt, File.Contents, File.Input, LastBoundary, StartAfter, LineOutcome, BodyAt, SkipAt, HeaderAt,
           PlacementOf, BlankLinesAt, Padding, Counted.Valid, Counted.Input, Counted.Fresh, FirstLine, Filtered, Asked,
           Attached, LocationOf, Picked, LocatedHere, RecordEnded, AtBody;
      after := state;
      if finished {
        r := None;
        return;
      }
      ghost var pick := Filtered(Input(), boundary, blankLines, level, filter, state);
      while true
        invariant AtBoundary()
        invariant Filtered(Input(), boundary, blankLines, level, filter, after) == pick
        invariant Asked(Input(), boundary, level, filter, after) == Asked(Input(), old(boundary), level, filter, state)
        decreases |Octets()| - boundary
      {
        FilteredStep(Input(), boundary, blankLines, level, filter, after);
        ghost var from := boundary;
        var read := NextHeader();
        if read.None? {
          PickedNone<T>();
          r := None;
          return;
        }
        if read.value.Failure? {
          PickedAsFault<T>(from, Padding(Octets(), from).1, read.value.error);
          r := Some(LocatedHere(Failure(read.value.error)));
          return;
        }
        var (raw, n) := read.value.value;
        ghost var end := reader.At() + n + 4;
        var converted := level.convert(raw);
        if converted.Failure? {
          var skipped := SkipRecordBody(n);
          if skipped.Success? {
            EndedAt(from, end);
            PickedAsPlaced<T>(from, Failure(converted.error));
          } else {
            PickedAsFault<T>(from, Padding(Octets(), from).1, skipped.error);
          }
          r := Some(LocatedHere(Failure(if skipped.Success? then converted.error else skipped.error)));
          return;
        }
        var kept := filter.keep(after, converted.value);
        after := filter.next(after, converted.value);
        if kept {
          var body := ReadRecordBody(n);
          if body.Success? {
            EndedAt(from, end);
            PickedAsPlaced<T>(from, level.attach(converted.value, body.value));
          } else {
            PickedAsFault<T>(from, Padding(Octets(), from).1, body.error);
          }
          r := Some(LocatedHere(if body.Success? then level.attach(converted.value, body.value) else Failure(body.error)));
          return;
        }
        var skipped := SkipRecordBody(n);
        if skipped.Failure? {
          PickedAsFault<T>(from, Padding(Octets(), from).1, skipped.error);
          r := Some(LocatedHere(Failure(skipped.error)));
          return;
        }
        EndedAt(from, end);
      }
    }
  }

  lemma StartAtHead(f: File, p: nat)
    requires p <= |f.Contents()|
    ensures var first := f.PositionAt(Padding(f.Contents(), p).1);
            StartAfter(f, p).member == first.member && StartAfter(f, p).held == first.held
  {
  }

  /** What one record does to a filtering iterator. */
  lemma FilteredStep<H, T, S>(input: Input, p: nat, before: nat, level: Level<H, T>, filter: Filter<S, H>, state: S)
    requires p <= |input.octets|
    ensures var q := Padding(input.octets, p).1;
            var blank := BlankLinesAt(input, p, before);
            var header := HeaderAt(input, q);
            var r := Filtered(input, p, before, level, filter, state);
            var asked := Asked(input, p, level, filter, state);
            && (!header.GotHeader? ==> asked == state)
            && (header.NoHeader? ==> r == NoPick(blank))
            && (header.HeaderFault? ==> r == Pick(p, blank, q, Failure(header.error), None))
            && (header.GotHeader? ==>
                  var converted := level.convert(header.header);
                  var skipped := SkipAt(input, header.body, header.length);
                  var read := BodyAt(input, header.body, header.length);
                  var next := header.body + header.length + 4;
                  && (skipped.Success? || read.Success? ==> next <= |input.octets|)
                  && (converted.Failure? && skipped.Success? ==> r == Pick(p, blank, q, Failure(converted.error), Some(next)))
                  && (converted.Failure? && skipped.Failure? ==> r == Pick(p, blank, q, Failure(skipped.error), None))
                  && (converted.Failure? ==> asked == state)
                  && (converted.Success? ==>
                        var kept := filter.keep(state, converted.value);
                        var after := filter.next(state, converted.value);
                        && (!kept && skipped.Success? ==>
                              && r == Filtered(input, next, blank, level, filter, after)
                              && asked == Asked(input, next, level, filter, after))
                        && (kept || skipped.Failure? ==> asked == after)
                        && (!kept && skipped.Failure? ==> r == Pick(p, blank, q, Failure(skipped.error), None))
                        && (kept && read.Success? ==>
                              r == Pick(p, blank, q, level.attach(converted.value, read.value), Some(next)))
                        && (kept && read.Failure? ==> r == Pick(p, blank, q, Failure(read.error), None))))
  {
    hide BlankLinesAt, Padding, HeaderAt;
  }

  /** A header read is decided by its block, whose first line is read first. */
  lemma HeaderOutcome(input: Input, q: nat)
    requires q <= |input.octets|
    ensures LineOutcome(input, q, MAX_HEADER_BLOCK).Failure? ==>
            HeaderAt(input, q) == HeaderFault(LineOutcome(input, q, MAX_HEADER_BLOCK).error)
    ensures BlockFrom(input, q, q).EndOfInput? ==> HeaderAt(input, q) == NoHeader
    ensures BlockFrom(input, q, q).Broken? ==> HeaderAt(input, q) == HeaderFault(BlockFrom(input, q, q).error)
    ensures BlockFrom(input, q, q).Block? ==>
            var e := BlockFrom(input, q, q).end;
            HeaderAt(input, q) == ParsedBlock(input.octets[q..e], e)
  {
  }

  lemma PlacedAcross(f: File, p: nat, q: nat, end: nat, first: Option<Placement>)
    requires p <= q <= end <= |f.Contents()| && q == Padding(f.Contents(), p).1
    requires f.PositionAt(q).member <= f.PositionAt(end).member && f.PositionAt(q).held <= f.PositionAt(end).held
    requires first == Some(PlacementBetween(StartAfter(f, p), f.PositionAt(end)))
    requires Follows(first, LastBoundary(f, end, None))
    ensures Extended(first, LastBoundary(f, end, None)) == Some(PlacementOf(f, p, q, end))
  {
    hide File.PositionAt, File.Contents, LastBoundary, Padding;
    LastBoundarySticks(f, end);
  }

  /** A boundary at the end of a record is met, so the last boundary after it is never none. */
  lemma {:induction false} LastBoundaryKept(f: File, p: nat, last: Option<nat>)
    requires p <= |f.Contents()| && last.Some?
    ensures LastBoundary(f, p, last).Some?
    decreases |f.Contents()| - p
  {
    hide File.PositionAt, File.Contents, BlankAt;
    var n := BlankAt(f.Contents(), p);
    if n != 0 {
      LastBoundaryKept(f, p + n, BoundaryAt(f, p, last));
    }
  }

  lemma LastBoundarySticks(f: File, p: nat)
    requires p <= |f.Contents()|
    ensures f.PositionAt(p).boundary ==> LastBoundary(f, p, None).Some?
  {
    hide File.PositionAt, File.Contents, BlankAt;
    var n := BlankAt(f.Contents(), p);
    if f.PositionAt(p).boundary && n != 0 {
      LastBoundaryKept(f, p + n, BoundaryAt(f, p, None));
    }
  }

  /** What one line read says of the block it continues. */
  lemma BlockStep(input: Input, q: nat, e: nat, read: LineRead, at: nat)
    requires q <= e <= at <= |input.octets| && e - q <= MAX_HEADER_BLOCK && at - q <= MAX_HEADER_BLOCK
    requires Success(read) == LineOutcome(input, e, MAX_HEADER_BLOCK - (e - q))
    requires !read.LimitExceeded? ==> at == LineStop(input, e, Success(read))
    ensures match read
            case Eof => BlockFrom(input, q, e) == if q == at then EndOfInput else Broken(RawFault(Raw.UnexpectedEndOfHeaderBlock))
            case LimitExceeded => BlockFrom(input, q, e) == Broken(HeaderBlockTooLarge)
            case Line(n) =>
              && at == e + n > e
              && (var buffer := input.octets[q..at];
                  if n == 2 && |buffer| >= 2 && buffer[|buffer| - 2..] == CRLF then BlockFrom(input, q, e) == Block(at)
                  else BlockFrom(input, q, e) == BlockFrom(input, q, at))
  {
    hide LineOutcome;
    if read.Line? {
      LineEnds(input, e, MAX_HEADER_BLOCK - (e - q), read.length);
      BlockLineIs(input, q, at);
    }
  }

  lemma LineEnds(input: Input, e: nat, allowance: nat, n: nat)
    requires e <= |input.octets| && LineOutcome(input, e, allowance) == Success(Line(n))
    ensures 0 < n <= allowance && e + n <= |input.octets| && input.octets[e + n - 1] == LF
  {
  }

  /** Whether the octets from `q` to `at` end in a line break, told from the last two. */
  lemma BlockLineIs(input: Input, q: nat, at: nat)
    requires q < at <= |input.octets| && input.octets[at - 1] == LF
    ensures var buffer := input.octets[q..at];
            |buffer| >= 2 && buffer[|buffer| - 2..] == CRLF <==> at - q >= 2 && input.octets[at - 2] == CR
  {
    var buffer := input.octets[q..at];
    if |buffer| >= 2 {
      var last := buffer[|buffer| - 2..];
      assert |last| == 2 && last[0] == input.octets[at - 2] && last[1] == input.octets[at - 1];
    }
  }

  lemma BlockFails(input: Input, q: nat, e: nat)
    requires q <= e <= |input.octets| && e - q <= MAX_HEADER_BLOCK
    requires LineOutcome(input, e, MAX_HEADER_BLOCK - (e - q)).Failure?
    ensures BlockFrom(input, q, e) == Broken(LineOutcome(input, e, MAX_HEADER_BLOCK - (e - q)).error)
  {
  }
}
