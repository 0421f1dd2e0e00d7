/**
 * The layout of a gzip file: members of given contents and compressed sizes, and what follows the
 * last of them (`src/io/gzip.rs`; section 2.2 of RFC 1952).
 */
module Members {
  import opened Bytes
  import opened Framing

  /** A member, which decodes to `octets` and occupies `size` octets of the file. */
  datatype Member = Member(octets: bytes, size: nat)

  /**
   * What follows the last complete member: nothing, a failure of the compressed source to give the
   * next octet, or octets that decode to `octets` and then fail. Octets that are no member at all
   * fail at once.
   */
  datatype Tail = NoTail | SourceFails(kind: Kind) | BrokenTail(octets: bytes, kind: Kind)

  datatype File = File(base: nat, members: seq<Member>, tail: Tail) {

    /** Every member has a header and a trailer, so none is empty in the file. */
    ghost predicate Valid() {
      forall i | 0 <= i < |members| :: members[i].size > 0
    }

    /** The decoded octets of the first `k` members. */
    ghost function Before(k: nat): bytes
      requires k <= |members|
    {
      if k == 0 then [] else Before(k - 1) + members[k - 1].octets
    }

    ghost function TailOctets(): bytes {
      if tail.BrokenTail? then tail.octets else []
    }

    /** What member `k`, or the broken tail, decodes to. */
    ghost function Decoded(k: nat): bytes
      requires k <= |members|
    {
      if k < |members| then members[k].octets else TailOctets()
    }

    ghost function Contents(): bytes {
      Before(|members|) + TailOctets()
    }

    ghost function Input(): Framing.Input {
      Framing.Input(Contents(), if tail.NoTail? then Clean else Failing(tail.kind))
    }

    /** Where the contents of member `k` begin in the decoded stream. */
    ghost function Start(k: nat): nat
      requires k <= |members|
    {
      |Before(k)|
    }

    /** Where the member `k` begins in the file. */
    ghost function Offset(k: nat): nat
      requires k <= |members|
    {
      if k == 0 then base else Offset(k - 1) + members[k - 1].size
    }

    /** The number of members before member `k` that hold octets. */
    ghost function Held(k: nat): nat
      requires k <= |members|
    {
      if k == 0 then 0 else Held(k - 1) + if members[k - 1].octets == [] then 0 else 1
    }

    /** Where the contents of member `k`, or of the broken tail, end in the decoded stream. */
    ghost function End(k: nat): nat
      requires k <= |members|
    {
      if k < |members| then Start(k + 1) else |Contents()|
    }

    /** Member `k`, or the broken tail, holds the decoded octet at `p`. */
    ghost predicate Holds(k: nat, p: nat) {
      k <= |members| && Start(k) <= p < End(k)
    }

    /** The member holding the decoded octet at `p`, searching from member `k` on. */
    ghost function HolderFrom(k: nat, p: nat): (h: nat)
      requires k <= |members| && Start(k) <= p < |Contents()|
      ensures Holds(h, p)
      decreases |members| - k
    {
      if p < End(k) then k else HolderFrom(k + 1, p)
    }

    /** Where the decoded octet at `p` lies, or the end of the members after the last octet. */
    ghost function PositionAt(p: nat): Position
      requires p <= |Contents()|
    {
      if p < |Contents()| then
        var k := HolderFrom(0, p);
        Position(Offset(k), p == Start(k), Held(k))
      else Position(Offset(|members|), true, Held(|members|))
    }
  }

  /** An octet's place among members: the offset of its own, whether it comes first there, and how many before hold any. */
  datatype Position = Position(member: nat, boundary: bool, held: nat)

  lemma {:induction false} StartsAscend(f: File, i: nat, j: nat)
    requires i <= j <= |f.members|
    ensures f.Start(i) <= f.Start(j) && f.Before(i) <= f.Before(j)
    ensures f.Offset(i) <= f.Offset(j) && f.Held(i) <= f.Held(j)
    decreases j
  {
    if i < j {
      StartsAscend(f, i, j - 1);
    }
  }

  lemma StartsWithin(f: File, k: nat)
    requires k <= |f.members|
    ensures f.Start(k) <= f.End(k) <= |f.Contents()|
    ensures f.Contents()[f.Start(k)..f.End(k)] == f.Decoded(k)
  {
    var n := |f.members|;
    StartsAscend(f, k, n);
    if k < n {
      StartsAscend(f, k + 1, n);
      assert f.Before(k + 1) <= f.Contents();
      assert f.Contents()[f.Start(k)..f.End(k)] == f.Before(k + 1)[f.Start(k)..];
    }
  }

  /** A chunk of what a member decodes to is a chunk of the whole contents. */
  lemma ChunkIsOffered(f: File, k: nat, i: nat, j: nat)
    requires k <= |f.members| && i <= j <= |f.Decoded(k)|
    ensures f.Start(k) + j <= |f.Contents()|
    ensures f.Decoded(k)[i..j] <= f.Contents()[f.Start(k) + i..]
  {
    hide File.Contents, File.Decoded;
    StartsWithin(f, k);
    var s := f.Contents();
    var a := f.Start(k);
    SliceOfSlice(s, a, f.End(k), i, j);
  }

  lemma ChunkWithin(f: File, k: nat, i: nat)
    requires k <= |f.members| && i <= |f.Decoded(k)|
    ensures f.Start(k) + i <= |f.Contents()|
  {
    StartsWithin(f, k);
  }

  /** No octet has two holders. */
  lemma HolderUnique(f: File, i: nat, j: nat, p: nat)
    requires f.Holds(i, p) && f.Holds(j, p)
    ensures i == j
  {
    if i < j {
      StartsAscend(f, i + 1, j);
    } else if j < i {
      StartsAscend(f, j + 1, i);
    }
  }

  lemma PositionOf(f: File, k: nat, p: nat)
    requires f.Holds(k, p)
    ensures p < |f.Contents()|
    ensures f.PositionAt(p) == Position(f.Offset(k), p == f.Start(k), f.Held(k))
  {
    StartsWithin(f, k);
    HolderUnique(f, k, f.HolderFrom(0, p), p);
  }

  lemma StartsAtZero(f: File)
    ensures f.Start(0) == 0
  {
  }

  /** Later octets lie in later members, after at least as many that hold octets. */
  lemma PositionsAscend(f: File, p: nat, q: nat)
    requires p <= q <= |f.Contents()|
    ensures f.PositionAt(p).member <= f.PositionAt(q).member
    ensures f.PositionAt(p).held <= f.PositionAt(q).held
  {
    hide File.Contents, File.Before, File.Offset, File.Held, File.HolderFrom;
    StartsAtZero(f);
    if p < |f.Contents()| {
      var i := f.HolderFrom(0, p);
      if q == |f.Contents()| {
        StartsAscend(f, i, |f.members|);
      } else {
        var j := f.HolderFrom(0, q);
        if j < i {
          StartsAscend(f, j + 1, i);
          assert false;
        }
        StartsAscend(f, i, j);
      }
    }
  }

  lemma {:induction false} OffsetsAscend(f: File, i: nat, j: nat)
    requires f.Valid() && i < j <= |f.members|
    ensures f.Offset(i) < f.Offset(j)
    decreases j
  {
    if i < j - 1 {
      OffsetsAscend(f, i, j - 1);
    }
  }

  lemma OffsetsDiffer(f: File, i: nat, j: nat)
    requires f.Valid() && i <= |f.members| && j <= |f.members| && f.Offset(i) == f.Offset(j)
    ensures i == j
  {
    if i < j {
      OffsetsAscend(f, i, j);
    } else if j < i {
      OffsetsAscend(f, j, i);
    }
  }

  // ---------------------------------------------------------------------------------------------
  // Windows of a file
  // ---------------------------------------------------------------------------------------------

  /**
   * Members `i` to `j`, as a reader bounded by the octets they occupy finds them. At its limit the
   * reader still asks the source for octets, and is told when the source fails there.
   */
  ghost function MembersWithin(f: File, i: nat, j: nat): File
    requires i <= j <= |f.members|
  {
    File(f.Offset(i), f.members[i..j], if j == |f.members| && f.tail.SourceFails? then f.tail else NoTail)
  }

  /** What is left of a file from member `i` on. */
  ghost function From(f: File, i: nat): File
    requires i <= |f.members|
  {
    File(f.Offset(i), f.members[i..], f.tail)
  }

  lemma {:induction false} OffsetFrom(f: File, i: nat, j: nat)
    requires i <= j <= |f.members|
    ensures From(f, i).Offset(j - i) == f.Offset(j)
    decreases j
  {
    if i < j {
      OffsetFrom(f, i, j - 1);
      assert f.members[i..][j - 1 - i] == f.members[j - 1];
    }
  }

  lemma WithinFrom(f: File, i: nat, j: nat)
    requires i <= j <= |f.members|
    ensures MembersWithin(From(f, i), 0, j - i) == MembersWithin(f, i, j)
  {
    assert f.members[i..][0..j - i] == f.members[i..j];
  }

  lemma {:induction false} OffsetWithin(f: File, n: nat, k: nat)
    requires k <= n <= |f.members|
    ensures MembersWithin(f, 0, n).Offset(k) == f.Offset(k)
    decreases k
  {
    if k > 0 {
      OffsetWithin(f, n, k - 1);
    }
  }
}
