/**
 * What reading a stream of records yields, as functions of the stream's octets alone.
 *
 * The reader of `src/io/read.rs` takes its octets in chunks of any size, reads ahead in gzip
 * streams, and remembers what it met there. None of that appears here: the methods of the reader
 * are proved against these functions.
 */
module Framing {
  import opened Bytes
  import Raw

  /** How a read failed. A truncated gzip member fails as `UnexpectedEof`. */
  datatype Kind = UnexpectedEof | Other

  /** What a source does once its octets have been read: end, or fail. */
  datatype Ending = Clean | Failing(kind: Kind)

  /** All that a source will deliver. */
  datatype Input = Input(octets: bytes, ending: Ending)

  datatype Error =
    | Source(kind: Kind)
    | HeaderBlockTooLarge
    | BodyTooLarge
    | UnexpectedEndOfBody
    | MalformedRecordTerminator
    | EmptyFrame
    | OverfullFrame
    | RawFault(fault: Raw.Error)
    | Refused(reason: nat)

  /** The outcome of one bounded line read. */
  datatype LineRead = Line(length: nat) | Eof | LimitExceeded

  const MAX_HEADER_BLOCK: nat := 1_048_576
  const MAX_USIZE: nat := 0xFFFF_FFFF_FFFF_FFFF

  /** What reading at the end of the octets gives. */
  function AtEnd<T>(ending: Ending, end: T): Result<T, Error> {
    match ending
    case Clean => Success(end)
    case Failing(kind) => Failure(Source(kind))
  }

  // ---------------------------------------------------------------------------------------------
  // Lines
  // ---------------------------------------------------------------------------------------------

  /** Reading a line at `p` into a buffer that may take `allowance` more octets. */
  function LineOutcome(input: Input, p: nat, allowance: nat): Result<LineRead, Error>
    requires p <= |input.octets|
  {
    var lineFeed := Find(input.octets, LF, p);
    if lineFeed < |input.octets| && lineFeed - p < allowance then Success(Line(lineFeed + 1 - p))
    else if p < |input.octets| && |input.octets| - p >= allowance then Success(LimitExceeded)
    else AtEnd(input.ending, Eof)
  }

  /** Where a line read at `p` leaves the stream, unless the limit stopped it. */
  function LineStop(input: Input, p: nat, read: Result<LineRead, Error>): nat
    requires p <= |input.octets|
  {
    if read.Success? && read.value.Line? then p + read.value.length else |input.octets|
  }

  // ---------------------------------------------------------------------------------------------
  // Blank lines
  // ---------------------------------------------------------------------------------------------

  /** The length of the blank line at `p`, or zero. */
  function BlankAt(s: bytes, p: nat): (n: nat)
    ensures p + n <= |s| || n == 0
  {
    if p < |s| && s[p] == LF then 1
    else if p + 1 < |s| && s[p] == CR && s[p + 1] == LF then 2
    else 0
  }

  /** The number of blank lines from `p` on, and where the first line that is not blank begins. */
  function Padding(s: bytes, p: nat): (r: (nat, nat))
    requires p <= |s|
    ensures p <= r.1 <= |s|
    ensures BlankAt(s, r.1) == 0
    decreases |s| - p
  {
    var n := BlankAt(s, p);
    if n == 0 then (0, p)
    else
      var rest := Padding(s, p + n);
      (rest.0 + 1, rest.1)
  }

  // ---------------------------------------------------------------------------------------------
  // Header blocks
  // ---------------------------------------------------------------------------------------------

  datatype BlockRead = EndOfInput | Block(end: nat) | Broken(error: Error)

  /** Reading the block begun at `q`, whose lines up to `e` have been read. */
  function BlockFrom(input: Input, q: nat, e: nat): (r: BlockRead)
    requires q <= e <= |input.octets|
    requires e - q <= MAX_HEADER_BLOCK
    ensures r.Block? ==> e < r.end <= |input.octets| && r.end - q <= MAX_HEADER_BLOCK
    ensures r.EndOfInput? ==> q == |input.octets|
    decreases |input.octets| - e
  {
    match LineOutcome(input, e, MAX_HEADER_BLOCK - (e - q))
    case Failure(error) => Broken(error)
    case Success(LimitExceeded) => Broken(HeaderBlockTooLarge)
    case Success(Eof) =>
      if q == |input.octets| then EndOfInput else Broken(RawFault(Raw.UnexpectedEndOfHeaderBlock))
    case Success(Line(n)) =>
      if n == 2 && input.octets[e] == CR then Block(e + 2) else BlockFrom(input, q, e + n)
  }

  /** What the header block begun at `q` declares, and where its body begins. */
  datatype HeaderRead =
    | NoHeader
    | HeaderFault(error: Error)
    | GotHeader(header: Raw.Header, length: nat, body: nat)

  function HeaderAt(input: Input, q: nat): (r: HeaderRead)
    requires q <= |input.octets|
    ensures r.GotHeader? ==> q < r.body <= |input.octets|
    ensures r.NoHeader? ==> q == |input.octets|
  {
    match BlockFrom(input, q, q)
    case EndOfInput => NoHeader
    case Broken(error) => HeaderFault(error)
    case Block(e) => ParsedBlock(input.octets[q..e], e)
  }

  function ParsedBlock(block: bytes, body: nat): (r: HeaderRead)
    ensures r.GotHeader? ==> r.body == body
  {
    match Raw.ParseHeader(block)
    case Failure(fault) => HeaderFault(RawFault(fault))
    case Success((header, length)) => GotHeader(header, length, body)
  }

  // ---------------------------------------------------------------------------------------------
  // Bodies
  // ---------------------------------------------------------------------------------------------

  /** Reading a body of `n` octets at `e`, and the terminator after it. */
  function BodyAt(input: Input, e: nat, n: nat): Result<bytes, Error>
    requires e <= |input.octets|
  {
    if n + 4 > MAX_USIZE then Failure(BodyTooLarge)
    else if e + n + 4 > |input.octets| then
      match AtEnd(input.ending, ())
      case Success(_) => Failure(UnexpectedEndOfBody)
      case Failure(error) => Failure(error)
    else if input.octets[e + n..e + n + 4] != Raw.TERMINATOR then Failure(MalformedRecordTerminator)
    else Success(input.octets[e..e + n])
  }

  /**
   * Skipping the same body. Nothing is buffered, so no length is too large; and the terminator is
   * read by `read_exact`, whose own failure at the end of the stream cannot be told from a source
   * that fails as `UnexpectedEof`.
   */
  function SkipAt(input: Input, e: nat, n: nat): Result<(), Error>
    requires e <= |input.octets|
  {
    if e + n + 4 > |input.octets| then
      match AtEnd(input.ending, ())
      case Success(_) => Failure(UnexpectedEndOfBody)
      case Failure(error) =>
        if error == Source(UnexpectedEof) && e + n <= |input.octets| then Failure(UnexpectedEndOfBody) else Failure(error)
    else if input.octets[e + n..e + n + 4] != Raw.TERMINATOR then Failure(MalformedRecordTerminator)
    else Success(())
  }

  // ---------------------------------------------------------------------------------------------
  // Records
  // ---------------------------------------------------------------------------------------------

  /** One item read: the blank lines counted before it, where it begins, and its value. */
  datatype Item = Item(blankLines: nat, offset: nat, value: Result<Raw.Record, Error>)

  /** The outcome of reading one record from a record boundary. */
  datatype Step =
    | Stop(blankLines: nat)
    | Fault(item: Item)
    | Got(item: Item, body: nat, next: nat)

  /**
   * The blank lines reported once a header block is reached: those counted, unless the read of its
   * first line fails, which leaves the count of the record before in place.
   */
  function BlankLinesAt(input: Input, p: nat, before: nat): nat
    requires p <= |input.octets|
  {
    var (count, q) := Padding(input.octets, p);
    if LineOutcome(input, q, MAX_HEADER_BLOCK).Failure? then before else count
  }

  function StepAt(input: Input, p: nat, before: nat): (r: Step)
    requires p <= |input.octets|
    ensures r.Got? ==> p < r.next <= |input.octets| && r.item.value.Success?
    ensures r.Got? ==> p <= r.item.offset < r.body < r.next
    ensures r.Fault? ==> r.item.value.Failure?
  {
    var q := Padding(input.octets, p).1;
    var blank := BlankLinesAt(input, p, before);
    match HeaderAt(input, q)
    case NoHeader => Stop(blank)
    case HeaderFault(error) => Fault(Item(blank, q, Failure(error)))
    case GotHeader(header, length, body) =>
      match BodyAt(input, body, length)
      case Failure(error) => Fault(Item(blank, q, Failure(error)))
      case Success(octets) => Got(Item(blank, q, Success(Raw.Record(header, octets))), body, body + length + 4)
  }

  /** Every item read from the record boundary at `p` on. */
  function Items(input: Input, p: nat, before: nat): seq<Item>
    requires p <= |input.octets|
    decreases |input.octets| - p
  {
    match StepAt(input, p, before)
    case Stop(_) => []
    case Fault(item) => [item]
    case Got(item, _, next) => [item] + Items(input, next, item.blankLines)
  }

  // ---------------------------------------------------------------------------------------------
  // Filtering
  // ---------------------------------------------------------------------------------------------

  /** How a record level reads: its headers from raw ones, and its records from headers and bodies. */
  datatype Level<!H, !T> = Level(convert: Raw.Header -> Result<H, Error>, attach: (H, bytes) -> Result<T, Error>)

  /** The level of records as they are read. */
  const RAW_LEVEL: Level<Raw.Header, Raw.Record> :=
    Level((header: Raw.Header) => Success(header), (header: Raw.Header, body: bytes) => Success(Raw.Record(header, body)))

  /** A filter that may remember: whether it keeps a header, and its state once asked about one. */
  datatype Filter<!S, !H> = Filter(keep: (S, H) -> bool, next: (S, H) -> S)

  /**
   * One call of a filtering iterator: the end, or an item with the boundary its record follows, and
   * the boundary after it unless the item ends the iteration.
   */
  datatype Pick<T> =
    | NoPick(blankLines: nat)
    | Pick(boundary: nat, blankLines: nat, offset: nat, value: Result<T, Error>, next: Option<nat>)

  /** The next record a filter keeps, skipping the bodies of those it refuses. */
  function Filtered<H, T, S>(input: Input, p: nat, before: nat, level: Level<H, T>, filter: Filter<S, H>, state: S): (r: Pick<T>)
    requires p <= |input.octets|
    ensures r.Pick? ==> p <= r.boundary <= r.offset
    ensures r.Pick? && r.next.Some? ==> r.offset < r.next.value <= |input.octets|
    decreases |input.octets| - p
  {
    var q := Padding(input.octets, p).1;
    var blank := BlankLinesAt(input, p, before);
    match HeaderAt(input, q)
    case NoHeader => NoPick(blank)
    case HeaderFault(error) => Pick(p, blank, q, Failure(error), None)
    case GotHeader(raw, n, body) =>
      match level.convert(raw)
      case Failure(refused) =>
        (match SkipAt(input, body, n)
         case Success(_) => Pick(p, blank, q, Failure(refused), Some(body + n + 4))
         case Failure(interrupted) => Pick(p, blank, q, Failure(interrupted), None))
      case Success(header) =>
        if filter.keep(state, header) then
          match BodyAt(input, body, n)
          case Success(octets) => Pick(p, blank, q, level.attach(header, octets), Some(body + n + 4))
          case Failure(error) => Pick(p, blank, q, Failure(error), None)
        else
          match SkipAt(input, body, n)
          case Success(_) => Filtered(input, body + n + 4, blank, level, filter, filter.next(state, header))
          case Failure(error) => Pick(p, blank, q, Failure(error), None)
  }

  /** The state in which such a call leaves the filter, which is asked once about each header read, in order. */
  function Asked<H, T, S>(input: Input, p: nat, level: Level<H, T>, filter: Filter<S, H>, state: S): S
    requires p <= |input.octets|
    decreases |input.octets| - p
  {
    match HeaderAt(input, Padding(input.octets, p).1)
    case NoHeader => state
    case HeaderFault(_) => state
    case GotHeader(raw, n, body) =>
      match level.convert(raw)
      case Failure(_) => state
      case Success(header) =>
        var after := filter.next(state, header);
        if filter.keep(state, header) || SkipAt(input, body, n).Failure? then after
        else Asked(input, body + n + 4, level, filter, after)
  }

  /** What plain iteration at a level makes of a raw record. */
  function Lifted<H, T>(level: Level<H, T>, record: Raw.Record): Result<T, Error> {
    match level.convert(record.header)
    case Failure(refused) => Failure(refused)
    case Success(header) => level.attach(header, record.body)
  }

  /** The first item of plain iteration that is an error of reading or of its header, or is kept. */
  function Selected<H, T, S>(input: Input, p: nat, before: nat, level: Level<H, T>, filter: Filter<S, H>, state: S): Pick<T>
    requires p <= |input.octets|
    decreases |input.octets| - p
  {
    match StepAt(input, p, before)
    case Stop(blank) => NoPick(blank)
    case Fault(item) => Pick(p, item.blankLines, item.offset, Failure(item.value.error), None)
    case Got(item, _, next) =>
      var record := item.value.value;
      var header := level.convert(record.header);
      if header.Success? && !filter.keep(state, header.value) then
        Selected(input, next, item.blankLines, level, filter, filter.next(state, header.value))
      else Pick(p, item.blankLines, item.offset, Lifted(level, record), Some(next))
  }

  /** Skipping a body and reading it come to the same end. */
  predicate Agree(input: Input, e: nat, n: nat)
    requires e <= |input.octets|
  {
    match (SkipAt(input, e, n), BodyAt(input, e, n))
    case (Success(_), Success(_)) => true
    case (Failure(skipped), Failure(read)) => skipped == read
    case _ => false
  }

  /** The body is not too long to buffer, and no source that fails as `UnexpectedEof` fails within its terminator. */
  predicate SkipsSafely(input: Input, e: nat, n: nat) {
    n + 4 <= MAX_USIZE && !(input.ending == Failing(UnexpectedEof) && e + n <= |input.octets| < e + n + 4)
  }

  /** Every body a filter skips on the way to its next item is one that it skips safely. */
  predicate SkipsAreSafe<H, T, S>(input: Input, p: nat, level: Level<H, T>, filter: Filter<S, H>, state: S)
    requires p <= |input.octets|
    decreases |input.octets| - p
  {
    match HeaderAt(input, Padding(input.octets, p).1)
    case NoHeader => true
    case HeaderFault(_) => true
    case GotHeader(raw, n, body) =>
      var header := level.convert(raw);
      if header.Success? && filter.keep(state, header.value) then true
      else
        && SkipsSafely(input, body, n)
        && (header.Success? && SkipAt(input, body, n).Success? ==>
              SkipsAreSafe(input, body + n + 4, level, filter, filter.next(state, header.value)))
  }

  /** Skipping matches reading exactly when it is safe. */
  lemma SkipMatchesRead(input: Input, e: nat, n: nat)
    requires e <= |input.octets|
    ensures Agree(input, e, n) <==> SkipsSafely(input, e, n)
  {
  }

  /** Filtering is plain iteration then selection, exactly when the bodies it skips are skipped safely. */
  lemma {:induction false} FilteringIsSelection<H, T, S>(input: Input, p: nat, before: nat, level: Level<H, T>, filter: Filter<S, H>, state: S)
    requires p <= |input.octets|
    ensures Filtered(input, p, before, level, filter, state) == Selected(input, p, before, level, filter, state) <==>
            SkipsAreSafe(input, p, level, filter, state)
    decreases |input.octets| - p
  {
    hide Filtered, Selected, SkipsAreSafe, BodyAt, SkipAt, Padding, BlankLinesAt, HeaderAt;
    var header := HeaderAt(input, Padding(input.octets, p).1);
    if !header.GotHeader? {
      NoHeaderStep(input, p, before, level, filter, state);
    } else {
      SkipNeverTooLarge(input, header.body, header.length);
      var converted := level.convert(header.header);
      if converted.Success? && !filter.keep(state, converted.value) {
        if SkipAt(input, header.body, header.length).Success? {
          FilteringIsSelection(
            input, header.body + header.length + 4, BlankLinesAt(input, p, before), level, filter, filter.next(state, converted.value));
        }
        RefusedStep(input, p, before, level, filter, state);
      } else {
        KeptStep(input, p, before, level, filter, state);
      }
    }
  }

  lemma NoHeaderStep<H, T, S>(input: Input, p: nat, before: nat, level: Level<H, T>, filter: Filter<S, H>, state: S)
    requires p <= |input.octets|
    requires !HeaderAt(input, Padding(input.octets, p).1).GotHeader?
    ensures Filtered(input, p, before, level, filter, state) == Selected(input, p, before, level, filter, state)
    ensures SkipsAreSafe(input, p, level, filter, state)
  {
    hide BodyAt, SkipAt, Padding, BlankLinesAt, HeaderAt;
  }

  lemma KeptStep<H, T, S>(input: Input, p: nat, before: nat, level: Level<H, T>, filter: Filter<S, H>, state: S)
    requires p <= |input.octets|
    requires var header := HeaderAt(input, Padding(input.octets, p).1);
             && header.GotHeader?
             && var converted := level.convert(header.header);
             converted.Success? ==> filter.keep(state, converted.value)
    ensures Filtered(input, p, before, level, filter, state) == Selected(input, p, before, level, filter, state) <==>
            SkipsAreSafe(input, p, level, filter, state)
  {
    hide BodyAt, SkipAt, Padding, BlankLinesAt, HeaderAt;
    var header := HeaderAt(input, Padding(input.octets, p).1);
    SkipNeverTooLarge(input, header.body, header.length);
    SkipMatchesRead(input, header.body, header.length);
  }

  lemma RefusedStep<H, T, S>(input: Input, p: nat, before: nat, level: Level<H, T>, filter: Filter<S, H>, state: S)
    requires p <= |input.octets|
    requires var header := HeaderAt(input, Padding(input.octets, p).1);
             && header.GotHeader?
             && var converted := level.convert(header.header);
             && converted.Success? && !filter.keep(state, converted.value)
             && (SkipAt(input, header.body, header.length).Success? ==>
                   var next, blank := header.body + header.length + 4, BlankLinesAt(input, p, before);
                   var after := filter.next(state, level.convert(header.header).value);
                   && next <= |input.octets|
                   && (Filtered(input, next, blank, level, filter, after) == Selected(input, next, blank, level, filter, after) <==>
                       SkipsAreSafe(input, next, level, filter, after)))
    ensures Filtered(input, p, before, level, filter, state) == Selected(input, p, before, level, filter, state) <==>
            SkipsAreSafe(input, p, level, filter, state)
  {
    hide BodyAt, SkipAt, Padding, BlankLinesAt, HeaderAt;
    var header := HeaderAt(input, Padding(input.octets, p).1);
    SkipNeverTooLarge(input, header.body, header.length);
    SkipMatchesRead(input, header.body, header.length);
  }

  lemma SkipNeverTooLarge(input: Input, e: nat, n: nat)
    requires e <= |input.octets|
    ensures SkipAt(input, e, n).Success? ==> e + n + 4 <= |input.octets|
    ensures BodyAt(input, e, n).Success? ==> e + n + 4 <= |input.octets| && SkipAt(input, e, n).Success?
  {
  }
}
