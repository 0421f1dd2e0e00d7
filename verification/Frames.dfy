/** Reading one record by its frame agrees with reading the stream it lies in. */
module Frames {
  import opened Bytes
  import opened Framing
  import opened Members
  import opened Placements
  import opened RecordText
  import opened Sources
  import Raw

  /** What reading the one record of a window gives (`src/io/read.rs:554-566`). */
  function OnlyRecord(input: Input): Result<Raw.Record, Error> {
    match HeaderAt(input, Padding(input.octets, 0).1)
    case NoHeader => Failure(EmptyFrame)
    case HeaderFault(error) => Failure(error)
    case GotHeader(header, n, body) =>
      match BodyAt(input, body, n)
      case Failure(error) => Failure(error)
      case Success(octets) =>
        match HeaderAt(input, Padding(input.octets, body + n + 4).1)
        case NoHeader => Success(Raw.Record(header, octets))
        case HeaderFault(error) => Failure(error)
        case GotHeader(_, _, _) => Failure(OverfullFrame)
  }

  // ---------------------------------------------------------------------------------------------
  // Windows that hold one record
  // ---------------------------------------------------------------------------------------------

  lemma EndAfterBlank(input: Input, p: nat)
    requires p <= |input.octets|
    ensures input.ending.Clean? ==>
            (HeaderAt(input, Padding(input.octets, p).1).NoHeader? <==> Padding(input.octets, p).1 == |input.octets|)
    ensures input.ending.Failing? ==> !HeaderAt(input, Padding(input.octets, p).1).NoHeader?
  {
    hide Raw.ParseHeader, Padding;
    var q := Padding(input.octets, p).1;
    BlockEnds(input, q);
  }

  lemma BlockEnds(input: Input, q: nat)
    requires q <= |input.octets|
    ensures BlockFrom(input, q, q).EndOfInput? <==> q == |input.octets| && input.ending.Clean?
  {
  }

  /** A window holding whole blank lines, one record, and whole blank lines reads as that record. */
  lemma FramedAlone(w: bytes, q: nat, end: nat, record: Raw.Record, ending: Ending)
    requires q <= end <= |w|
    requires AllBlank(w[..q]) && IsRecord(w[q..end], record) && AllBlank(w[end..])
    ensures OnlyRecord(Input(w, ending)).Success? <==> ending.Clean?
    ensures ending.Clean? ==> OnlyRecord(Input(w, ending)) == Success(record)
  {
    hide HeaderAt, BodyAt, Padding, IsRecord, BlankAt, AllBlank;
    var input := Input(w, ending);
    ThreeParts(w, q, end);
    StepOverText(input, 0, 0, w[..q], w[q..end], w[end..], record);
    TailIsBlank(w, end);
    EndAfterBlank(input, end);
    OnlyRecordSteps(input, 0);
  }

  lemma ThreeParts(w: bytes, q: nat, end: nat)
    requires q <= end <= |w|
    ensures w[0..] == w[..q] + (w[q..end] + w[end..])
  {
    assert w[q..end] + w[end..] == w[q..];
  }

  lemma TailIsBlank(w: bytes, end: nat)
    requires end <= |w| && AllBlank(w[end..])
    ensures Padding(w, end).1 == |w|
  {
    hide Padding;
    PaddingOfTail(w, end);
  }

  /** The one record of a window is the first item read, when nothing but blank lines follows it. */
  lemma OnlyRecordSteps(input: Input, before: nat)
    ensures var step := StepAt(input, 0, before);
            if step.Got? then
              match HeaderAt(input, Padding(input.octets, step.next).1)
              case NoHeader => OnlyRecord(input) == step.item.value
              case HeaderFault(error) => OnlyRecord(input) == Failure(error)
              case GotHeader(_, _, _) => OnlyRecord(input) == Failure(OverfullFrame)
            else OnlyRecord(input).Failure?
  {
    hide HeaderAt, BodyAt, Padding;
  }

  /** The only windows read as a record hold its octets, with whole blank lines around them. */
  lemma OnlyRecordIsFramed(w: bytes, record: Raw.Record)
    requires OnlyRecord(Input(w, Clean)) == Success(record)
    ensures var q := Padding(w, 0).1;
            var end := q + |Raw.RenderRecord(record)|;
            && end <= |w| && AllBlank(w[..q])
            && w[q..end] == Raw.RenderRecord(record)
            && Padding(w, end).1 == |w|
  {
    hide *;
    var input := Input(w, Clean);
    OnlyRecordSteps(input, 0);
    var step := StepAt(input, 0, 0);
    assert step.Got?;
    var q, end := step.item.offset, step.next;
    StepReadsText(input, 0, 0);
    TextIsRendering(w[q..end], record);
    EndAfterBlank(input, end);
    PaddingStops(w, 0);
    PaddingIsBlank(w, 0, q);
    assert w[0..q] == w[..q];
  }

  // ---------------------------------------------------------------------------------------------
  // Plain streams
  // ---------------------------------------------------------------------------------------------

  /**
   * The frame of a record read from a plain stream reads back as that record, unless the stream
   * fails where the frame ends: at its limit a window still asks the stream for octets.
   */
  lemma PlainFrameIsSound(input: Input, p: nat, before: nat)
    requires p <= |input.octets| && StepAt(input, p, before).Got?
    ensures var step := StepAt(input, p, before);
            var window := WindowOf(input, step.item.offset, step.next);
            && (OnlyRecord(window) == step.item.value <==> step.next < |input.octets| || input.ending.Clean?)
  {
    hide HeaderAt, BodyAt, Padding, IsRecord, BlankAt, AllBlank, StepAt, OnlyRecord;
    var step := StepAt(input, p, before);
    var q, end := step.item.offset, step.next;
    StepReadsText(input, p, before);
    var window := WindowOf(input, q, end);
    var w := window.octets;
    assert w == input.octets[q..end];
    assert w[..0] == [] && w[0..|w|] == w && w[|w|..] == [];
    NothingIsBlank();
    FramedAlone(w, 0, |w|, step.item.value.value, window.ending);
  }

  lemma NothingIsBlank()
    ensures AllBlank([])
  {
  }

  // ---------------------------------------------------------------------------------------------
  // The last boundary among some blank lines
  // ---------------------------------------------------------------------------------------------

  /** A line reached from `p` over whole blank lines stands at `t`, where a member begins or the last ends. */
  ghost predicate BoundaryLine(f: File, p: nat, t: nat)
    requires p <= |f.Contents()|
  {
    LineStart(f.Contents(), p, t) && t <= |f.Contents()| && f.PositionAt(t).boundary
  }

  lemma {:induction false} LastBoundaryLine(f: File, p: nat, last: Option<nat>) returns (t: Option<nat>)
    requires p <= |f.Contents()|
    ensures t.None? ==> LastBoundary(f, p, last) == last && forall r: nat :: !BoundaryLine(f, p, r)
    ensures t.Some? ==>
              && BoundaryLine(f, p, t.value)
              && LastBoundary(f, p, last) == Some(f.PositionAt(t.value).member)
              && forall r: nat | BoundaryLine(f, p, r) :: r <= t.value
    decreases |f.Contents()| - p
  {
    hide File.PositionAt, File.Contents, BlankAt;
    var n := BlankAt(f.Contents(), p);
    if n == 0 {
      t := if f.PositionAt(p).boundary then Some(p) else None;
    } else {
      t := LastBoundaryLine(f, p + n, BoundaryAt(f, p, last));
      forall r: nat
        ensures BoundaryLine(f, p, r) <==> (r == p && f.PositionAt(p).boundary) || BoundaryLine(f, p + n, r)
      {
      }
      if t.Some? {
        LineStartWithin(f.Contents(), p + n, t.value);
      } else if f.PositionAt(p).boundary {
        t := Some(p);
      }
    }
  }

  /**
   * The boundary kept while reading past blank lines is the last one a line stands at; none is kept
   * exactly when no line stands at one.
   */
  lemma LastBoundaryMeaning(f: File, p: nat, m: nat)
    requires p <= |f.Contents()|
    ensures LastBoundary(f, p, None) == Some(m) <==>
            exists t: nat :: BoundaryLine(f, p, t) && f.PositionAt(t).member == m && forall r: nat | BoundaryLine(f, p, r) :: r <= t
  {
    hide LastBoundary, BoundaryLine;
    var t := LastBoundaryLine(f, p, None);
  }

  /** A boundary is where a member begins, or the end of the contents. */
  lemma BoundaryMember(f: File, t: nat) returns (k: nat)
    requires t <= |f.Contents()| && f.PositionAt(t).boundary
    ensures k <= |f.members| && f.PositionAt(t).member == f.Offset(k)
    ensures if t < |f.Contents()| then t == f.Start(k) && f.Holds(k, t) else k == |f.members|
  {
    k := if t < |f.Contents()| then f.HolderFrom(0, t) else |f.members|;
  }

  // ---------------------------------------------------------------------------------------------
  // Windows of a gzip file
  // ---------------------------------------------------------------------------------------------

  lemma {:induction false} WithinBefore(f: File, i: nat, j: nat, k: nat)
    requires i <= j <= |f.members| && k <= j - i
    ensures f.Before(i) + MembersWithin(f, i, j).Before(k) == f.Before(i + k)
    decreases k
  {
    if k > 0 {
      WithinBefore(f, i, j, k - 1);
      ConcatAssociates(f.Before(i), MembersWithin(f, i, j).Before(k - 1), f.members[i + k - 1].octets);
      assert MembersWithin(f, i, j).members[k - 1] == f.members[i + k - 1];
    }
  }

  /** How a window ends that ends where member `j` begins. */
  ghost function EndingAt(f: File, j: nat): Ending {
    if j == |f.members| && f.tail.SourceFails? then Failing(f.tail.kind) else Clean
  }

  lemma WithinContents(f: File, i: nat, j: nat)
    requires i <= j <= |f.members|
    ensures f.Start(i) <= f.Start(j) <= |f.Contents()|
    ensures MembersWithin(f, i, j).Contents() == f.Contents()[f.Start(i)..f.Start(j)]
    ensures MembersWithin(f, i, j).Input().ending == EndingAt(f, j)
  {
    var w := MembersWithin(f, i, j);
    WithinBefore(f, i, j, j - i);
    StartsAscend(f, i, j);
    StartsAscend(f, j, |f.members|);
    assert w.Contents() == w.Before(j - i);
    assert f.Before(j) <= f.Contents();
    assert f.Contents()[..f.Start(j)] == f.Before(j);
    assert f.Contents()[f.Start(i)..f.Start(j)] == f.Before(j)[f.Start(i)..];
  }

  /** The members `i` to `j` are the ones a frame covers. */
  ghost predicate Covers(f: File, frame: Frame, i: nat, j: nat) {
    i <= j <= |f.members| && frame.offset == f.Offset(i) && frame.offset + frame.length == f.Offset(j)
  }

  lemma {:induction false} LineStartShift(s: bytes, a: nat, b: nat, x: nat, y: nat)
    requires a <= b <= |s| && x <= b - a
    requires LineStart(s[a..b], x, y)
    ensures LineStart(s, a + x, a + y)
    decreases b - a - x
  {
    var w := s[a..b];
    if x != y {
      var n := BlankAt(w, x);
      BlankAtWithin(s, a, b, x);
      LineStartShift(s, a, b, x + n, y);
    }
  }

  lemma BlankAtWithin(s: bytes, a: nat, b: nat, x: nat)
    requires a <= b <= |s| && BlankAt(s[a..b], x) != 0
    ensures BlankAt(s, a + x) == BlankAt(s[a..b], x)
  {
  }

  // ---------------------------------------------------------------------------------------------
  // Gzip frames
  // ---------------------------------------------------------------------------------------------

  /** A record that begins its member follows only whole blank lines there. */
  lemma BeginsAfterBlank(f: File, p: nat, q: nat) returns (i: nat)
    requires f.Valid() && p <= |f.Contents()| && q == Padding(f.Contents(), p).1 < |f.Contents()|
    requires LastBoundary(f, p, None) == Some(f.PositionAt(q).member)
    ensures f.Holds(i, q) && f.PositionAt(q).member == f.Offset(i)
    ensures f.Start(i) <= q && AllBlank(f.Contents()[f.Start(i)..q])
  {
    hide File.Contents, LastBoundary, Padding, LineStart, AllBlank, File.Valid, File.PositionAt;
    i := f.HolderFrom(0, q);
    PositionOf(f, i, q);
    var t := LastBoundaryLine(f, p, None);
    LineStartWithin(f.Contents(), p, t.value);
    var k := BoundaryMember(f, t.value);
    OffsetsDiffer(f, i, k);
    PaddingIsBlank(f.Contents(), t.value, q);
  }

  /** The members a frame covers are found by the boundaries around the record. */
  lemma FrameCovers(f: File, p: nat, q: nat, end: nat, frame: Frame) returns (i: nat, j: nat, t: nat)
    requires f.Valid() && p <= q < end <= |f.Contents()| && q == Padding(f.Contents(), p).1
    requires FrameOf(InGzip(PlacementOf(f, p, q, end))) == Some(frame)
    ensures Covers(f, frame, i, j) && f.Holds(i, q) && f.Start(i) <= q && AllBlank(f.Contents()[f.Start(i)..q])
    ensures BoundaryLine(f, end, t)
    ensures if t < |f.Contents()| then t == f.Start(j) else j == |f.members|
  {
    hide File.Contents, LastBoundary, Padding, LineStart, AllBlank, File.Valid, File.PositionAt, BoundaryLine;
    i := BeginsAfterBlank(f, p, q);
    var last := LastBoundaryLine(f, end, None);
    t := last.value;
    BoundaryLineAt(f, end, t);
    j := BoundaryMember(f, t);
    PositionsAscend(f, q, end);
    PositionsAscend(f, end, t);
    if j < i {
      OffsetsAscend(f, j, i);
      assert false;
    }
  }

  lemma BoundaryLineAt(f: File, p: nat, t: nat)
    requires p <= |f.Contents()| && BoundaryLine(f, p, t)
    ensures p <= t <= |f.Contents()| && f.PositionAt(t).boundary && LineStart(f.Contents(), p, t)
  {
    LineStartWithin(f.Contents(), p, t);
  }

  /** The octets of a window, from the first member that a record begins. */
  lemma WindowHoldsRecord(s: bytes, a: nat, q: nat, end: nat, b: nat, record: Raw.Record)
    requires a <= q < end <= b <= |s|
    requires AllBlank(s[a..q]) && IsRecord(s[q..end], record) && LineStart(s, end, b)
    ensures OnlyRecord(Input(s[a..b], Clean)) == Success(record)
  {
    hide *;
    var w := s[a..b];
    PaddingIsBlank(s, end, b);
    SliceOfSlice(s, a, b, 0, q - a);
    SliceOfSlice(s, a, b, q - a, end - a);
    SliceOfSlice(s, a, b, end - a, b - a);
    assert w[0..q - a] == w[..q - a] && w[end - a..b - a] == w[end - a..];
    FramedAlone(w, q - a, end - a, record, Clean);
  }

  /** A window that reads as a record reaches a line after it. */
  lemma WindowReachesLine(s: bytes, a: nat, q: nat, end: nat, b: nat, record: Raw.Record)
    requires a <= q < end <= |s| && q < b && a <= b <= |s|
    requires AllBlank(s[a..q]) && IsRecord(s[q..end], record)
    requires OnlyRecord(Input(s[a..b], Clean)) == Success(record)
    ensures end <= b && LineStart(s, end, b)
  {
    hide *;
    var w := s[a..b];
    OnlyRecordIsFramed(w, record);
    TextIsRendering(s[q..end], record);
    RecordOpensNoBlank(s, q, end, b, record);
    assert s[a..q] + s[q..b] == w;
    PaddingOfBlank(s[a..q], s[q..b]);
    PaddingStops(w, end - a);
    LineStartShift(s, a, b, end - a, |w|);
  }

  lemma RecordOpensNoBlank(s: bytes, q: nat, end: nat, b: nat, record: Raw.Record)
    requires q < end <= |s| && q < b <= |s| && IsRecord(s[q..end], record)
    ensures Padding(s[q..b], 0).1 == 0
  {
    TextIsLong(s[q..end], record);
    assert s[q..end][0] == s[q] == s[q..b][0];
    assert s[q..end][1] == s[q + 1];
    assert |s[q..b]| > 1 ==> s[q..b][1] == s[q + 1];
  }

  /** The members before `j` reach past a record over whole blank lines, and the source does not fail there. */
  ghost predicate Closes(f: File, end: nat, j: nat)
    requires j <= |f.members|
  {
    end <= f.Start(j) <= |f.Contents()| && LineStart(f.Contents(), end, f.Start(j)) && EndingAt(f, j).Clean?
  }

  /**
   * The frame of a record in a gzip stream covers complete members, and reads back as that record
   * exactly when those members reach past it over whole blank lines and the source does not fail
   * where they end. Where no member breaks off, the failing source is the only exception.
   */
  lemma GzipFrameReads(f: File, p: nat, before: nat, frame: Frame) returns (i: nat, j: nat)
    requires f.Valid() && p <= |f.Contents()| && StepAt(f.Input(), p, before).Got?
    requires var step := StepAt(f.Input(), p, before);
             FrameOf(InGzip(PlacementOf(f, p, step.item.offset, step.next))) == Some(frame)
    ensures Covers(f, frame, i, j)
    ensures var step := StepAt(f.Input(), p, before);
            OnlyRecord(MembersWithin(f, i, j).Input()) == step.item.value <==> Closes(f, step.next, j)
    ensures f.TailOctets() == [] ==> (Closes(f, StepAt(f.Input(), p, before).next, j) <==> EndingAt(f, j).Clean?)
  {
    hide StepAt, File.Contents, LastBoundary, Padding, LineStart, AllBlank, File.Valid, File.PositionAt, IsRecord, OnlyRecord,
         PlacementOf, FrameOf, MembersWithin, File.Before, File.Offset, File.Held, File.HolderFrom, EndingAt;
    var step := StepAt(f.Input(), p, before);
    var q, end := step.item.offset, step.next;
    StepReadsText(f.Input(), p, before);
    var t: nat;
    i, j, t := FrameCovers(f, p, q, end, frame);
    BoundaryLineAt(f, end, t);
    WithinContents(f, i, j);
    var record := step.item.value.value;
    HolderBeforeEnd(f, i, j, q, t);
    assert f.Contents()[f.Start(i)..f.Start(i)] == [];
    OnlyCleanHolds(MembersWithin(f, i, j).Input());
    if EndingAt(f, j).Clean? {
      if end <= f.Start(j) && LineStart(f.Contents(), end, f.Start(j)) {
        WindowHoldsRecord(f.Contents(), f.Start(i), q, end, f.Start(j), record);
      } else if OnlyRecord(MembersWithin(f, i, j).Input()) == step.item.value {
        if f.Start(i) == f.Start(j) {
          EmptyWindowHoldsNone(record);
          assert false;
        }
        WindowReachesLine(f.Contents(), f.Start(i), q, end, f.Start(j), record);
        assert false;
      }
    }
    NoTailNoRest(f);
  }

  /** A window on which the source fails at the end is read as no record. */
  lemma OnlyCleanHolds(input: Input)
    ensures OnlyRecord(input).Success? ==> input.ending.Clean?
  {
    hide BodyAt, Padding, HeaderAt;
    var body := StepAt(input, 0, 0);
    OnlyRecordSteps(input, 0);
    if body.Got? {
      EndAfterBlank(input, body.next);
    }
  }

  lemma EmptyWindowHoldsNone(record: Raw.Record)
    ensures OnlyRecord(Input([], Clean)) != Success(record)
  {
  }

  lemma NoTailNoRest(f: File)
    ensures f.TailOctets() == [] ==> |f.Contents()| == f.Start(|f.members|)
  {
  }

  lemma HolderBeforeEnd(f: File, i: nat, j: nat, q: nat, t: nat)
    requires f.Holds(i, q) && i <= j <= |f.members| && q < t <= |f.Contents()|
    requires if t < |f.Contents()| then t == f.Start(j) else j == |f.members|
    ensures q < f.Start(j) || i == j
  {
    if i < j {
      StartsAscend(f, i + 1, j);
    }
  }
}
