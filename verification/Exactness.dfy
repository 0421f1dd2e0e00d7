/** What the placement of a record says of the members holding it (`src/io/read.rs:82-134, 851-885`). */
module Exactness {
  import opened Bytes
  import opened Framing
  import opened Members
  import opened Placements
  import opened RecordText
  import opened Frames

  /** Member `k`, or the broken tail, holds one of the octets from `q` to `end`. */
  ghost predicate Overlaps(f: File, k: nat, q: nat, end: nat)
    requires k <= |f.members|
  {
    f.Start(k) < f.End(k) && f.Start(k) < end && q < f.End(k)
  }

  /** The number of the first `k` members that hold one of the octets from `q` to `end`. */
  ghost function Overlapping(f: File, q: nat, end: nat, k: nat): nat
    requires k <= |f.members|
  {
    if k == 0 then 0 else Overlapping(f, q, end, k - 1) + if Overlaps(f, k - 1, q, end) then 1 else 0
  }

  lemma {:induction false} OverlappingIsHeld(f: File, q: nat, end: nat, i: nat, j: nat)
    requires q < end <= |f.Contents()| && f.Holds(i, q)
    requires i <= j <= |f.members| && f.Start(j) <= end
    ensures Overlapping(f, q, end, j) == f.Held(j) - f.Held(i)
    decreases j
  {
    hide File.Contents, File.Before, Overlaps, File.Holds;
    if j > i {
      StartsAscend(f, j - 1, j);
      OverlappingIsHeld(f, q, end, i, j - 1);
      OverlapBetween(f, i, j - 1, q, end);
    } else {
      HolderStarts(f, i, q);
      NothingBefore(f, q, end, i, i);
    }
  }

  lemma HolderStarts(f: File, i: nat, q: nat)
    requires f.Holds(i, q)
    ensures i <= |f.members| && f.Start(i) <= q
  {
  }

  lemma {:induction false} OverlappingStops(f: File, q: nat, end: nat, j: nat, k: nat)
    requires j < k <= |f.members| && end <= f.End(j)
    ensures Overlapping(f, q, end, k) == Overlapping(f, q, end, j) + if Overlaps(f, j, q, end) then 1 else 0
    decreases k
  {
    hide File.Contents, File.Before, Overlaps;
    if k > j + 1 {
      OverlappingStops(f, q, end, j, k - 1);
      StartsAscend(f, j + 1, k - 1);
      NoOverlapAfter(f, k - 1, q, end);
    }
  }

  lemma NoOverlapAfter(f: File, k: nat, q: nat, end: nat)
    requires k <= |f.members| && end <= f.Start(k)
    ensures !Overlaps(f, k, q, end)
  {
  }

  /** A member from the first holder on, ending by the end of the record, overlaps it if it holds octets. */
  lemma OverlapBetween(f: File, i: nat, k: nat, q: nat, end: nat)
    requires i <= k < |f.members| && f.Holds(i, q) && q < end && f.Start(k + 1) <= end
    ensures Overlaps(f, k, q, end) <==> f.members[k].octets != []
  {
    if i < k {
      StartsAscend(f, i + 1, k);
    }
  }

  lemma {:induction false} NothingBefore(f: File, q: nat, end: nat, i: nat, k: nat)
    requires k <= i <= |f.members| && f.Start(i) <= q
    ensures Overlapping(f, q, end, k) == 0
    decreases k
  {
    if k > 0 {
      NothingBefore(f, q, end, i, k - 1);
      StartsAscend(f, k, i);
    }
  }

  /** The record ends where a broken tail does that holds its last octet. */
  ghost predicate EndsBroken(f: File, end: nat) {
    f.TailOctets() != [] && end == |f.Contents()|
  }

  /**
   * A placement counts the members that hold octets of the record. Where the record ends with a
   * broken tail, the position there is the end of the last complete member, and the tail is not
   * counted: the count is right exactly when this is not so.
   */
  lemma MembersAreCounted(f: File, p: nat, q: nat, end: nat)
    requires p <= q < end <= |f.Contents()|
    ensures var n := |f.members|;
            var counted := Overlapping(f, q, end, n) + if Overlaps(f, n, q, end) then 1 else 0;
            && PlacementOf(f, p, q, end).members == counted - (if EndsBroken(f, end) then 1 else 0)
            && (PlacementOf(f, p, q, end).members == counted <==> !EndsBroken(f, end))
  {
    hide Overlapping, LastBoundary, File.PositionAt, File.Contents, File.Before, File.Held, File.Offset, File.HolderFrom;
    var n := |f.members|;
    var i := HolderOf(f, q);
    PositionOf(f, i, q);
    PositionsAscend(f, q, end);
    var j := n;
    if end < |f.Contents()| {
      j := HolderOf(f, end);
      PositionOf(f, j, end);
    } else {
      PositionAtEnd(f);
      StartsWithin(f, n);
    }
    HoldersAscend(f, i, q, j, end);
    OverlappingIsHeld(f, q, end, i, j);
    if j < n {
      OverlappingStops(f, q, end, j, n);
      StartsAscend(f, j + 1, n);
      NoOverlapAfter(f, n, q, end);
    } else {
      TailIsHeld(f, i, q, end);
    }
  }

  lemma HolderOf(f: File, q: nat) returns (i: nat)
    requires q < |f.Contents()|
    ensures f.Holds(i, q)
  {
    i := f.HolderFrom(0, q);
  }

  lemma PositionAtEnd(f: File)
    ensures f.PositionAt(|f.Contents()|) == Position(f.Offset(|f.members|), true, f.Held(|f.members|))
    ensures |f.Contents()| == f.Start(|f.members|) + |f.TailOctets()|
  {
  }

  /** A record that reaches into a broken tail, or to its end, overlaps it if it holds octets. */
  lemma TailIsHeld(f: File, i: nat, q: nat, end: nat)
    requires f.Holds(i, q) && q < end <= |f.Contents()| && f.Start(|f.members|) <= end
    ensures Overlaps(f, |f.members|, q, end) <==> f.TailOctets() != [] && f.Start(|f.members|) < end
  {
    StartsWithin(f, i);
  }

  lemma HoldersAscend(f: File, i: nat, q: nat, j: nat, end: nat)
    requires f.Holds(i, q) && q < end <= |f.Contents()|
    requires j <= |f.members| && f.Start(j) <= end && (end < |f.Contents()| ==> f.Holds(j, end))
    requires end == |f.Contents()| ==> j == |f.members|
    ensures i <= j
  {
    if j < i {
      StartsAscend(f, j + 1, i);
    }
  }

  /**
   * The placement of a record: the member its first octet lies in; that it begins its member
   * exactly when whole blank lines alone stand before it there; and the last boundary that whole
   * blank lines alone separate from it.
   */
  lemma PlacementIsExact(f: File, p: nat, end: nat) returns (k: nat)
    requires f.Valid() && p <= |f.Contents()|
    requires var q := Padding(f.Contents(), p).1; q < end <= |f.Contents()|
    ensures var q := Padding(f.Contents(), p).1;
            var placement := PlacementOf(f, p, q, end);
            && f.Holds(k, q) && placement.offset == f.Offset(k)
            && (placement.begins <==> LineStart(f.Contents(), p, f.Start(k)))
            && (placement.length.None? <==> forall t: nat :: !BoundaryLine(f, end, t))
            && (placement.length.Some? ==>
                  exists t: nat ::
                    && BoundaryLine(f, end, t) && (forall r: nat | BoundaryLine(f, end, r) :: r <= t)
                    && placement.offset + placement.length.value == f.PositionAt(t).member)
  {
    hide File.Contents, LastBoundary, Padding, LineStart, File.Valid, File.PositionAt, BoundaryLine, File.Holds;
    var q := Padding(f.Contents(), p).1;
    k := f.HolderFrom(0, q);
    PositionOf(f, k, q);
    BeginsMeaning(f, p, q, k);
    var last := LastBoundaryLine(f, end, None);
    if last.Some? {
      BoundaryLineAt(f, end, last.value);
      PositionsAscend(f, q, last.value);
    }
  }

  lemma BeginsMeaning(f: File, p: nat, q: nat, k: nat)
    requires f.Valid() && p <= |f.Contents()| && q == Padding(f.Contents(), p).1 < |f.Contents()|
    requires f.Holds(k, q)
    ensures LastBoundary(f, p, None) == Some(f.Offset(k)) <==> LineStart(f.Contents(), p, f.Start(k))
  {
    hide File.Contents, LastBoundary, Padding, LineStart, File.Valid, File.PositionAt, BoundaryLine;
    PositionOf(f, k, q);
    var last := LastBoundaryLine(f, p, None);
    if last.Some? {
      BoundaryLineAt(f, p, last.value);
      LineStartWithin(f.Contents(), p, last.value);
      var j := BoundaryMember(f, last.value);
      if LastBoundary(f, p, None) == Some(f.Offset(k)) {
        OffsetsDiffer(f, j, k);
      }
    }
    if LineStart(f.Contents(), p, f.Start(k)) {
      StartIsBoundary(f, p, q, k);
      var j := BoundaryMember(f, last.value);
      if j != k {
        LaterHolder(f, k, j, last.value, q);
      }
    }
  }

  lemma StartIsBoundary(f: File, p: nat, q: nat, k: nat)
    requires p <= |f.Contents()| && f.Holds(k, q) && LineStart(f.Contents(), p, f.Start(k))
    ensures BoundaryLine(f, p, f.Start(k))
  {
    StartsWithin(f, k);
    PositionOf(f, k, f.Start(k));
  }

  lemma LaterHolder(f: File, k: nat, j: nat, t: nat, q: nat)
    requires f.Holds(k, q) && f.Start(k) <= t <= q && f.Holds(j, t)
    ensures j == k
  {
    HolderUnique(f, k, j, t);
  }
}
