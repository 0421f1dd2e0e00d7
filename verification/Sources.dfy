/** The streams a reader reads (`src/io/gzip.rs`, `src/io/mod.rs`, `src/io/read.rs:279-344`). */
module Sources {
  import opened Bytes
  import opened Framing
  import opened Members

  /** The octets available to read, or the failure met on the way to them. */
  type Filled = Result<bytes, Kind>

  /** What filling the buffer may give at `p`: any nonempty run of the octets there, or the end. */
  predicate Offers(input: Input, p: nat, r: Filled)
    requires p <= |input.octets|
  {
    if p < |input.octets| then r.Success? && r.value != [] && r.value <= input.octets[p..]
    else r == if input.ending.Clean? then Success([]) else Failure(input.ending.kind)
  }

  /** A buffered reader over octets, handing them out in chunks of any size. */
  class ByteReader {
    const input: Input
    var position: nat
    /** How many octets have been offered and not consumed. */
    var offered: nat

    ghost predicate Valid()
      reads this
    {
      position + offered <= |input.octets|
    }

    constructor (input: Input, position: nat)
      requires position <= |input.octets|
      ensures Valid() && this.input == input && this.position == position
    {
      this.input := input;
      this.position := position;
      this.offered := 0;
    }

    method FillBuf() returns (r: Filled)
      requires Valid()
      modifies this
      ensures Valid() && position == old(position)
      ensures Offers(input, position, r)
      ensures r.Success? ==> offered == |r.value|
    {
      if position < |input.octets| {
        var n :| 0 < n <= |input.octets| - position;
        offered := n;
        r := Success(input.octets[position..position + n]);
      } else {
        offered := 0;
        r := if input.ending.Clean? then Success([]) else Failure(input.ending.kind);
      }
    }

    method Consume(amount: nat)
      requires Valid() && amount <= offered
      modifies this
      ensures Valid() && position == old(position) + amount
    {
      position := position + amount;
      offered := offered - amount;
    }
  }

  /** Whether the reader is between members, inside one, due to report a failure, or spent. */
  datatype State =
    | Between(completed: nat)
    | InMember(index: nat)
    | Failed(kind: Kind)
    | Done

  /**
   * Reads the contents of gzip members as one run of octets. In place of a decoder it has the layout of
   * the compressed source: the member it is opened on yields its contents in chunks of any size. A window
   * shows it the part of the source before its limit.
   */
  class MemberReader {
    /** The part of the source that is read. */
    ghost const file: File
    const members: seq<Member>
    const tail: Tail
    const base: nat
    /** Where the window ends, unless the whole source is read. */
    const limit: Option<nat>

    var state: State
    var buffer: bytes
    var start: nat
    var end: nat
    var member: nat
    var chunk: nat
    var endedAt: nat
    var held: nat
    /** Where the compressed source stands: past the members completed. */
    var source: nat

    /** Where the next decoded octet stands in the contents of all the members. */
    ghost var position: nat

    /** The contents of the member being read. */
    function Reading(k: nat): bytes
      requires k <= |members|
    {
      if k < |members| then members[k].octets else if tail.BrokenTail? then tail.octets else []
    }

    /** Whether the compressed source offers octets where the member `k` would begin. */
    function Available(k: nat): Result<bool, Kind>
      requires k <= |members|
      reads this
    {
      if k == |members| && tail.SourceFails? then Failure(tail.kind)
      else Success(!(k == |members| && tail.NoTail?) && (limit.None? || source < limit.value))
    }

    /** What is read of the source: all of it, or the members that end by the limit. */
    ghost predicate Shows() {
      var whole := File(base, members, tail);
      && whole.Valid()
      && match limit
         case None => file == whole
         case Some(end) =>
           |file.members| <= |members| && end == whole.Offset(|file.members|)
           && file == MembersWithin(whole, 0, |file.members|)
    }

    /** What the parts of the source that are shown have to do with all of it. */
    lemma ShownParts()
      requires Shows()
      ensures file.Valid() && file.base == base
      ensures |file.members| <= |members| && forall k | 0 <= k < |file.members| :: members[k] == file.members[k]
      ensures !file.tail.NoTail? ==> file.tail == tail && file.members == members
      ensures forall k: nat | k < |file.members| && limit.Some? :: file.Offset(k) < limit.value
      ensures limit.Some? ==> limit.value == file.Offset(|file.members|)
      ensures limit.None? ==> file.members == members && file.tail == tail
      ensures limit.Some? && |file.members| == |members| && tail.SourceFails? ==> file.tail == tail
      ensures file.tail.BrokenTail? ==> limit.None?
    {
      var whole, n := File(base, members, tail), |file.members|;
      if limit.Some? {
        forall k: nat | k <= n
          ensures file.Offset(k) == whole.Offset(k)
        {
          OffsetWithin(whole, n, k);
        }
        forall k: nat | k < n
          ensures file.Offset(k) < limit.value
        {
          OffsetsAscend(whole, k, n);
        }
      }
    }

    /** What the source offers between members is what the shown part says follows. */
    lemma OffersNext(k: nat)
      requires Shows() && k <= |file.members| <= |members| && source == file.Offset(k)
      ensures Available(k).Failure? <==> k == |file.members| && file.tail.SourceFails?
      ensures Available(k).Failure? ==> Available(k).error == file.tail.kind
      ensures Available(k).Success? ==> (Available(k).value <==> k < |file.members| || file.tail.BrokenTail?)
    {
      ShownParts();
    }

    ghost predicate Completed(k: nat)
      reads this
    {
      && k <= |file.members| <= |members|
      && source == endedAt == file.Offset(k)
      && held == file.Held(k)
    }

    ghost predicate Valid()
      reads this
    {
      && Shows()
      && start <= end == |buffer|
      && position <= |file.Contents()|
      && match state
         case Between(k) => start == end && Completed(k) && position == file.Start(k)
         case InMember(k) =>
           && Completed(k)
           && (k == |file.members| ==> file.tail.BrokenTail?)
           && member == file.Offset(k)
           && chunk + end <= |Reading(k)|
           && buffer == Reading(k)[chunk..chunk + end]
           && position == file.Start(k) + chunk + start
         case Failed(kind) => start == end && Completed(|file.members|) && AtBreak() && file.tail.kind == kind
         case Done => start == end && Completed(|file.members|) && position == |file.Contents()|
    }

    /** The unread part of the buffer is what the contents hold next. */
    lemma BufferIsNext()
      requires Valid() && state.InMember? && start < end
      ensures position < |file.Contents()| && buffer[start..end] <= file.Contents()[position..]
    {
      hide File.Contents, File.Before, File.Start, File.Offset, File.Held, Shows, File.PositionAt, File.HolderFrom;
      ShownParts();
      var decoded := Reading(state.index);
      assert decoded == file.Decoded(state.index);
      ChunkIsOffered(file, state.index, chunk + start, chunk + end);
      SliceOfSlice(decoded, chunk, chunk + end, start, end);
    }

    ghost predicate AtBreak()
      reads this
    {
      !file.tail.NoTail? && position == |file.Contents()|
    }

    /** No failure has been returned yet. */
    ghost predicate Fresh()
      reads this
    {
      state.Done? ==> file.tail.NoTail?
    }

    /** Read the members of a file. */
    constructor (base: nat, members: seq<Member>, tail: Tail)
      requires File(base, members, tail).Valid()
      ensures Valid() && Fresh() && position == 0
      ensures file == File(base, members, tail)
    {
      file := File(base, members, tail);
      this.members, this.tail, this.base, limit := members, tail, base, None;
      state := Between(0);
      buffer, start, end := [], 0, 0;
      member, chunk, endedAt, held, source := base, 0, base, 0, base;
      position := 0;
    }

    /** Read the first `n` members of a source, which are those in the `length` octets from `offset` on. */
    constructor Window(offset: nat, length: nat, members: seq<Member>, tail: Tail, ghost n: nat)
      requires File(offset, members, tail).Valid() && n <= |members|
      requires offset + length == File(offset, members, tail).Offset(n)
      ensures Valid() && Fresh() && position == 0
      ensures file == MembersWithin(File(offset, members, tail), 0, n)
    {
      file := MembersWithin(File(offset, members, tail), 0, n);
      this.members, this.tail, base, limit := members, tail, offset, Some(offset + length);
      state := Between(0);
      buffer, start, end := [], 0, 0;
      member, chunk, endedAt, held, source := offset, 0, offset, 0, offset;
      position := 0;
    }

    ghost predicate Unread()
      reads this
    {
      Valid() && start == end
    }

    /** Open the member the stream stands at, or end the stream, or fail where the source does. */
    method Open() returns (r: Result<bool, Kind>)
      requires Unread() && state.Between?
      modifies this
      ensures Unread() && position == old(position)
      ensures r.Success? && !r.value ==> state.Done? && Fresh() && position == |file.Contents()|
      ensures r.Success? && r.value ==> state == InMember(old(state).completed) && chunk == end == 0
      ensures r.Failure? ==> state.Done? && AtBreak() && r.error == file.tail.kind
    {
      var k := state.completed;
      StartsWithin(file, k);
      OffersNext(k);
      ShownParts();
      var available := Available(k);
      if available.Failure? || !available.value {
        state := Done;
        return available;
      }
      member := source;
      chunk, start, end := 0, 0, 0;
      buffer := [];
      state := InMember(k);
      return Success(true);
    }

    /** Decompress the next chunk of the member being read: nothing where it ends. */
    method Decode() returns (r: Result<nat, Kind>)
      requires Unread() && state.InMember?
      modifies this
      ensures Valid() && position == old(position)
      ensures r.Success? && r.value > 0 ==> start < end && state.InMember?
      ensures r.Success? && r.value == 0 ==>
              state == Between(old(state).index + 1) && start == end
      ensures r.Failure? ==> state.Done? && AtBreak() && r.error == file.tail.kind
    {
      hide File.Contents, File.PositionAt, File.HolderFrom, Shows;
      var k := state.index;
      var octets := Reading(k);
      var decoded := chunk + end;
      StartsWithin(file, k);
      ShownParts();
      if decoded < |octets| {
        var n :| 0 < n <= |octets| - decoded;
        buffer := octets[decoded..decoded + n];
        chunk := decoded;
        start, end := 0, n;
        return Success(n);
      }
      if k == |members| {
        state := Done;
        return Failure(tail.kind);
      }
      source := source + members[k].size;
      endedAt := source;
      held := held + if chunk + end > 0 then 1 else 0;
      state := Between(k + 1);
      return Success(0);
    }

    /**
     * Afterwards either a chunk is buffered, or the buffer is empty and everything has been read, or the
     * reader is spent and the failure of the members or of their source is returned.
     */
    method Refill() returns (r: Result<(), Kind>)
      requires Unread()
      modifies this
      ensures Valid() && position == old(position)
      ensures r.Success? && start == end ==> state.Done? && position == |file.Contents()|
      ensures r.Success? && old(Fresh()) ==> Fresh()
      ensures r.Success? && start < end ==> state.InMember?
      ensures r.Failure? ==> state.Done? && AtBreak() && r.error == file.tail.kind
      ensures old(Fresh()) && r.Success? && start == end ==> file.tail.NoTail?
    {
      ghost var wasFresh := Fresh();
      while true
        invariant Unread() && position == old(position)
        invariant wasFresh ==> Fresh()
        invariant !wasFresh ==> state.Done?
        decreases match state
                  case Failed(_) => 0
                  case Done => 0
                  case Between(k) => 2 * (|members| - k) + 2
                  case InMember(k) => 2 * (|members| - k) + 1
      {
        match state {
          case Between(_) =>
            var more := Open();
            if more.Failure? {
              return Failure(more.error);
            }
            if !more.value {
              return Success(());
            }
          case InMember(_) =>
            var read := Decode();
            if read.Failure? {
              return Failure(read.error);
            }
            if read.value > 0 {
              return Success(());
            }
          case Failed(kind) =>
            state := Done;
            return Failure(kind);
          case Done =>
            return Success(());
        }
      }
    }

    method FillBuf() returns (r: Filled)
      requires Valid()
      modifies this
      ensures Valid() && position == old(position)
      ensures old(Fresh()) ==> Offers(file.Input(), position, r)
      ensures old(Fresh()) && r.Success? ==> Fresh()
      ensures r.Success? ==> end - start == |r.value|
      ensures r.Success? && r.value == [] ==> position == |file.Contents()| && state.Done?
      ensures r.Success? && r.value != [] ==> state.InMember?
      ensures r.Failure? ==> state.Done? && AtBreak() && r.error == file.tail.kind
    {
      hide File.Contents, File.Before, File.Start, File.Offset, File.Held, File.Decoded;
      if start == end {
        var refilled := Refill();
        if refilled.Failure? {
          return Failure(refilled.error);
        }
      }
      r := Success(buffer[start..end]);
      if start < end {
        BufferIsNext();
      }
    }

    method Consume(amount: nat)
      requires Valid() && amount <= end - start
      modifies this
      ensures Valid() && position == old(position) + amount
      ensures old(Fresh()) ==> Fresh()
    {
      start := start + if amount < end - start then amount else end - start;
      position := position + amount;
      if state.InMember? {
        ChunkWithin(file, state.index, chunk + start);
      }
    }

    /**
     * The position of the octet at `position`, or past the complete members when none is left. A failure
     * met in looking for it is not lost: `FillBuf` returns it next.
     */
    method Position() returns (r: Position)
      requires Valid()
      modifies this
      ensures Valid() && position == old(position)
      ensures r == file.PositionAt(position)
      ensures old(Fresh()) ==> Fresh()
    {
      var available := FillBuf();
      if available.Failure? {
        state := Failed(available.error);
        return Members.Position(endedAt, true, held);
      }
      if available.value == [] {
        return Members.Position(endedAt, true, held);
      }
      r := Members.Position(member, chunk == 0 && start == 0, held);
      StartsWithin(file, state.index);
      PositionOf(file, state.index, position);
    }
  }

  /** What a reader of records takes its octets from. */
  datatype Source = Plain(bytes: ByteReader) | Gzip(members: MemberReader) {

    ghost function Object(): object {
      match this
      case Plain(bytes) => bytes
      case Gzip(members) => members
    }

    ghost predicate Valid()
      reads Object()
    {
      match this
      case Plain(bytes) => bytes.Valid()
      case Gzip(members) => members.Valid()
    }

    ghost predicate Fresh()
      reads Object()
    {
      match this
      case Plain(bytes) => true
      case Gzip(members) => members.Fresh()
    }

    ghost function Input(): Framing.Input {
      match this
      case Plain(bytes) => bytes.input
      case Gzip(members) => members.file.Input()
    }

    ghost function At(): nat
      reads Object()
    {
      match this
      case Plain(bytes) => bytes.position
      case Gzip(members) => members.position
    }

    ghost function Offered(): nat
      requires Valid()
      reads Object()
    {
      match this
      case Plain(bytes) => bytes.offered
      case Gzip(members) => members.end - members.start
    }

    predicate IsGzip() {
      Gzip?
    }

    method FillBuf() returns (r: Filled)
      requires Valid() && At() <= |Input().octets|
      modifies Object()
      ensures Valid() && At() == old(At())
      ensures old(Fresh()) ==> Offers(Input(), At(), r)
      ensures old(Fresh()) && r.Success? ==> Fresh()
      ensures r.Success? ==> Offered() == |r.value|
    {
      match this {
        case Plain(bytes) => r := bytes.FillBuf();
        case Gzip(members) => r := members.FillBuf();
      }
    }

    method Consume(amount: nat)
      requires Valid() && amount <= Offered()
      modifies Object()
      ensures Valid() && At() == old(At()) + amount
      ensures old(Fresh()) ==> Fresh()
    {
      match this {
        case Plain(bytes) => bytes.Consume(amount);
        case Gzip(members) => members.Consume(amount);
      }
    }

    /** As `MemberReader.Position`, for a gzip stream alone. */
    method Position() returns (r: Option<Position>)
      requires Valid()
      modifies Object()
      ensures Valid() && At() == old(At())
      ensures Plain? ==> r.None?
      ensures Gzip? ==> At() <= |members.file.Contents()| && r == Some(members.file.PositionAt(At()))
      ensures old(Fresh()) ==> Fresh()
    {
      match this {
        case Plain(_) => r := None;
        case Gzip(members) =>
          var position := members.Position();
          r := Some(position);
      }
    }
  }

  /** The part of an input from `from` up to `limit`, as a reader that stops there finds it. */
  function WindowOf(input: Input, from: nat, limit: nat): Input {
    var n := |input.octets|;
    var lo := if from < n then from else n;
    var hi := if limit < lo then lo else if limit < n then limit else n;
    Input(input.octets[lo..hi], if limit < n then Clean else input.ending)
  }

  /** An offer of an input, cut off at a limit, is an offer of the window up to there. */
  lemma OffersWithin(input: Input, from: nat, size: nat, at: nat, r: Filled)
    requires from + at <= |input.octets| && at <= size
    requires Offers(input, from + at, r)
    ensures at <= |WindowOf(input, from, from + size).octets|
    ensures var remaining := size - at;
            var bounded := if r.Success? && |r.value| > remaining then Success(r.value[..remaining]) else r;
            Offers(WindowOf(input, from, from + size), at, bounded)
  {
    var window := WindowOf(input, from, from + size);
    var n := |window.octets|;
    assert window.octets[at..] == input.octets[from + at..from + n];
    if r.Success? && at < n {
      assert r.value == input.octets[from + at..from + at + |r.value|];
    }
  }

  lemma WindowBound(input: Input, from: nat, size: nat, at: nat)
    requires from <= |input.octets| && at <= |WindowOf(input, from, from + size).octets|
    ensures from + at <= |input.octets| && at <= size
  {
  }

  /** A source with a count of what has been taken, which hides everything past its limit. */
  class Counted {
    const source: Source
    /** How far the count has come. */
    var position: nat
    /** The offset from which on nothing is shown. */
    const limit: nat

    /** What the count began at, and the position of the source at that moment. */
    ghost const origin: nat
    ghost const from: nat

    ghost function Input(): Framing.Input {
      WindowOf(source.Input(), from, from + (if limit < origin then 0 else limit - origin))
    }

    ghost function At(): nat
      reads this
    {
      if position < origin then 0 else position - origin
    }

    ghost predicate Valid()
      reads this, source.Object()
      ensures Valid() ==> At() <= |Input().octets| && position == origin + At()
    {
      && source.Valid() && source.Object() != this
      && origin <= position <= limit
      && from <= |source.Input().octets|
      && from <= source.At() == from + At()
      && At() <= |Input().octets|
    }

    /** How many octets have been offered and may be consumed. */
    ghost function Offered(): nat
      requires Valid()
      reads this, source.Object()
    {
      var n := source.Offered();
      if n < limit - position then n else limit - position
    }

    ghost predicate Fresh()
      reads this, source.Object()
    {
      source.Fresh()
    }

    /** Count a whole stream. */
    constructor (source: Source)
      requires source.Valid() && source.At() <= |source.Input().octets|
      ensures Valid() && this.source == source && (source.Fresh() ==> Fresh())
      ensures position == origin == 0 && limit == U64_MAX && from == source.At()
    {
      this.source := source;
      position, limit := 0, U64_MAX;
      origin, from := 0, source.At();
    }

    /** Count the octets within a frame of the stream, which the source stands at the start of. */
    constructor Window(source: Source, offset: nat, length: nat)
      requires source.Valid() && source.At() <= |source.Input().octets|
      requires offset <= U64_MAX
      ensures Valid() && this.source == source && (source.Fresh() ==> Fresh())
      ensures position == origin == offset && from == source.At()
      ensures limit == if offset + length > U64_MAX then U64_MAX else offset + length
    {
      this.source := source;
      position := offset;
      limit := if offset + length > U64_MAX then U64_MAX else offset + length;
      origin, from := offset, source.At();
    }

    method FillBuf() returns (r: Filled)
      requires Valid()
      modifies source.Object()
      ensures Valid() && position == old(position) && At() == old(At())
      ensures old(Fresh()) ==> Offers(Input(), At(), r)
      ensures old(Fresh()) && r.Success? ==> Fresh()
      ensures r.Success? ==> |r.value| <= Offered()
    {
      hide Offers, WindowOf, Source.Valid, Source.Fresh, Source.Input, Source.At, Source.Offered;
      ghost var wasFresh := Fresh();
      var remaining := limit - position;
      WindowBound(source.Input(), from, limit - origin, At());
      var available := source.FillBuf();
      if wasFresh {
        OffersWithin(source.Input(), from, limit - origin, At(), available);
      }
      if available.Failure? {
        return available;
      }
      var n := if |available.value| < remaining then |available.value| else remaining;
      r := Success(available.value[..n]);
      assert n == |available.value| ==> r.value == available.value;
    }

    method Consume(amount: nat)
      requires Valid() && amount <= Offered() && At() + amount <= |Input().octets|
      modifies this, source.Object()
      ensures Valid() && At() == old(At()) + amount && position == old(position) + amount
      ensures old(Fresh()) ==> Fresh()
    {
      source.Consume(amount);
      position := position + amount;
    }

    /** As `MemberReader.Position`, for a gzip stream alone. */
    method Position() returns (r: Option<Position>)
      requires Valid()
      modifies source.Object()
      ensures Valid() && position == old(position) && At() == old(At())
      ensures source.Plain? ==> r.None?
      ensures source.Gzip? ==>
                && source.At() <= |source.members.file.Contents()|
                && r == Some(source.members.file.PositionAt(source.At()))
      ensures old(Fresh()) ==> Fresh()
    {
      r := source.Position();
    }
  }
}
