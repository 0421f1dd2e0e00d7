/** Frames and placements: the two ways a record is located (`src/io/read.rs:69-182`). */
module Placements {
  import opened Bytes
  import opened Framing
  import opened Members

  datatype Frame = Frame(offset: nat, length: nat)

  datatype Placement = Placement(offset: nat, length: Option<nat>, members: nat, begins: bool)

  datatype Location = InPlain(frame: Frame) | InGzip(placement: Placement)

  /** The frame that locates a record on its own. */
  function FrameOf(location: Location): Option<Frame> {
    match location
    case InPlain(frame) => Some(frame)
    case InGzip(placement) =>
      if placement.begins && placement.length.Some? then Some(Frame(placement.offset, placement.length.value)) else None
  }

  /** A placement computed from two positions, one at the start of a record and one just past it. */
  function PlacementBetween(start: Position, end: Position): Placement
    requires start.member <= end.member && start.held <= end.held
  {
    Placement(
      start.member,
      if end.boundary then Some(end.member - start.member) else None,
      end.held - start.held + if end.boundary then 0 else 1,
      start.boundary)
  }

  // ---------------------------------------------------------------------------------------------
  // Reading past blank lines
  // ---------------------------------------------------------------------------------------------

  /** The member at the last boundary a line stands at, from `p` through the first that is not blank. */
  ghost function LastBoundary(f: File, p: nat, last: Option<nat>): Option<nat>
    requires p <= |f.Contents()|
    decreases |f.Contents()| - p
  {
    var here := BoundaryAt(f, p, last);
    var n := BlankAt(f.Contents(), p);
    if n == 0 then here else LastBoundary(f, p + n, here)
  }

  ghost function BoundaryAt(f: File, p: nat, last: Option<nat>): Option<nat>
    requires p <= |f.Contents()|
  {
    var position := f.PositionAt(p);
    if position.boundary then Some(position.member) else last
  }

  /** The position of the first line that is not blank, begun where its member or its padding is. */
  ghost function StartAfter(f: File, p: nat): Position
    requires p <= |f.Contents()|
  {
    var position := f.PositionAt(Padding(f.Contents(), p).1);
    position.(boundary := LastBoundary(f, p, None) == Some(position.member))
  }

  /**
   * Where a record lies that occupies the octets from `q` to `end` and follows blank lines from `p`
   * on. The blank lines after it extend its members as far as the last boundary they stand at.
   */
  ghost function PlacementOf(f: File, p: nat, q: nat, end: nat): Placement
    requires p <= q <= end <= |f.Contents()|
  {
    var first := f.PositionAt(q);
    var after := f.PositionAt(end);
    PositionsAscend(f, q, end);
    Placement(
      first.member,
      match LastBoundary(f, end, None)
      case None => None
      case Some(member) => Some(if member < first.member then 0 else member - first.member),
      after.held - first.held + if after.boundary then 0 else 1,
      LastBoundary(f, p, None) == Some(first.member))
  }

  /** The placement of what comes after the last record: nothing, past the last complete member. */
  ghost function EndPlacement(f: File): Placement {
    Placement(f.Offset(|f.members|), Some(0), 0, true)
  }

  lemma {:induction false} LastBoundaryAtEnd(f: File, p: nat, last: Option<nat>)
    requires p <= |f.Contents()| && Padding(f.Contents(), p).1 == |f.Contents()|
    ensures LastBoundary(f, p, last) == Some(f.Offset(|f.members|))
    decreases |f.Contents()| - p
  {
    hide File.Contents;
    var n := BlankAt(f.Contents(), p);
    if n != 0 {
      LastBoundaryAtEnd(f, p + n, BoundaryAt(f, p, last));
    }
  }

  /** What is measured from the end of the padding on, where nothing follows it, is the end. */
  lemma EndIsPlaced(f: File, p: nat)
    requires p <= |f.Contents()| && Padding(f.Contents(), p).1 == |f.Contents()|
    ensures var start, end := StartAfter(f, p), f.PositionAt(|f.Contents()|);
            && start.member <= end.member && start.held <= end.held
            && PlacementBetween(start, end) == EndPlacement(f)
  {
    hide LastBoundary, Padding, File.Contents;
    LastBoundaryAtEnd(f, p, None);
  }
}
