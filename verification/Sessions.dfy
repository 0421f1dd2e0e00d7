/** Whole sessions of the writer: every frame it reports holds its record, and reading finds the same. */
module Sessions {
  import opened Bytes
  import opened Framing
  import opened Members
  import opened Placements
  import opened RecordText
  import opened Iterators
  import Sources
  import opened Frames
  import opened Writer
  import Archive
  import Reader
  import GzipArchive
  import Raw

  datatype Call = Call(record: Raw.Record, result: Result<Written, Writer.Error>)

  /** Calls of `Write` one after the other, with what the sink held before, between and after them. */
  ghost predicate Session(compression: Compression, digests: bool, states: seq<Output>, calls: seq<Call>) {
    && |states| == |calls| + 1
    && forall i | 0 <= i < |calls| ::
         Wrote(compression, digests, states[i], calls[i].record, calls[i].result, states[i + 1])
  }

  /** The writer stands where its sink ends, as it does over an empty stream or an appended file. */
  predicate AtEnd(state: Output) {
    state.position == |state.octets|
  }

  /** What the sink holds only grows, and the position keeps up with it, failures included. */
  lemma {:induction false} PositionFollows(
    compression: Compression, digests: bool, states: seq<Output>, calls: seq<Call>, i: nat, j: nat)
    requires Session(compression, digests, states, calls) && AtEnd(states[0])
    requires i <= j <= |calls|
    ensures AtEnd(states[i]) && AtEnd(states[j]) && states[i].octets <= states[j].octets
    decreases j
  {
    hide Raw.ValidateRecord, Stored, Cut;
    if j > 0 {
      assert Wrote(compression, digests, states[j - 1], calls[j - 1].record, calls[j - 1].result, states[j]);
      PositionFollows(compression, digests, states, calls, if i < j then i else j - 1, j - 1);
    }
  }

  /**
   * Every frame a session reports holds the stored form of its record, and its digest covers just
   * that, at the end of the session and after any failures; and later frames lie after it.
   */
  lemma FrameHolds(
    compression: Compression, digests: bool, states: seq<Output>, calls: seq<Call>, i: nat, j: nat)
    requires Session(compression, digests, states, calls) && AtEnd(states[0])
    requires i < j < |calls| || (i < |calls| && j == |calls|)
    requires calls[i].result.Success?
    ensures var written := calls[i].result.value;
            && written.offset + written.length <= |states[j].octets|
            && states[j].octets[written.offset..written.offset + written.length] == Stored(compression, calls[i].record)
            && written.digested == (if digests then Some(Stored(compression, calls[i].record)) else None)
            && (j < |calls| && calls[j].result.Success? ==> written.offset + written.length <= calls[j].result.value.offset)
  {
    hide Raw.ValidateRecord, Stored, Cut;
    PositionFollows(compression, digests, states, calls, i, i + 1);
    PositionFollows(compression, digests, states, calls, i + 1, j);
    assert Wrote(compression, digests, states[i], calls[i].record, calls[i].result, states[i + 1]);
    if j < |calls| {
      assert Wrote(compression, digests, states[j], calls[j].record, calls[j].result, states[j + 1]);
    }
    var written, stored := calls[i].result.value, Stored(compression, calls[i].record);
    assert states[i + 1].octets[written.offset..] == stored;
    assert states[j].octets[..|states[i + 1].octets|] == states[i + 1].octets;
  }

  // ---------------------------------------------------------------------------------------------
  // Sessions over a sink that does not fail
  // ---------------------------------------------------------------------------------------------

  ghost predicate NoneFailed(calls: seq<Call>) {
    forall i | 0 <= i < |calls| :: calls[i].result.Failure? ==> calls[i].result.error.Invalid?
  }

  function Accepted(calls: seq<Call>): seq<Raw.Record> {
    if calls == [] then []
    else
      var last := calls[|calls| - 1];
      Accepted(calls[..|calls| - 1]) + if last.result.Success? then [last.record] else []
  }

  function Reported(calls: seq<Call>): (frames: seq<Frame>)
    ensures |frames| == |Accepted(calls)|
  {
    if calls == [] then []
    else
      var last := calls[|calls| - 1];
      Reported(calls[..|calls| - 1])
      + if last.result.Success? then [Frame(last.result.value.offset, last.result.value.length)] else []
  }

  function StoredAll(compression: Compression, records: seq<Raw.Record>): bytes {
    if records == [] then []
    else StoredAll(compression, records[..|records| - 1]) + Stored(compression, records[|records| - 1])
  }

  /** Frame `k` begins where the records before it end, and is as long as what record `k` is stored in. */
  ghost predicate FrameTiles(compression: Compression, start: nat, records: seq<Raw.Record>, frame: Frame, k: nat)
    requires k < |records|
  {
    frame == Frame(start + |StoredAll(compression, records[..k])|, |Stored(compression, records[k])|)
  }

  lemma AcceptedStep(compression: Compression, calls: seq<Call>)
    requires calls != []
    ensures var before, last := calls[..|calls| - 1], calls[|calls| - 1];
            var records := Accepted(before);
            && calls == before + [last]
            && Accepted(calls) == (if last.result.Success? then records + [last.record] else records)
            && (last.result.Success? ==>
                  && Reported(calls)[|records|] == Frame(last.result.value.offset, last.result.value.length)
                  && Accepted(calls)[..|records|] == records
                  && StoredAll(compression, Accepted(calls)) == StoredAll(compression, records) + Stored(compression, last.record))
  {
    hide Stored;
    var before, last := calls[..|calls| - 1], calls[|calls| - 1];
    assert last.result.Success? ==> Accepted(calls)[..|Accepted(before)|] == Accepted(before);
  }

  /** The valid records, and they alone, are stored, in order. */
  lemma {:induction false} AcceptedAreStored(compression: Compression, digests: bool, states: seq<Output>, calls: seq<Call>)
    requires Session(compression, digests, states, calls) && NoneFailed(calls)
    ensures var stored := StoredAll(compression, Accepted(calls));
            && states[|calls|].octets == states[0].octets + stored
            && states[|calls|].position == states[0].position + |stored|
    ensures forall k | 0 <= k < |Accepted(calls)| :: Raw.ValidateRecord(Accepted(calls)[k]).Success?
    decreases |calls|
  {
    hide Raw.ValidateRecord, Stored, Cut, StoredAll, Accepted;
    if calls == [] {
      NoneAccepted(compression, calls);
      assert states[0].octets + [] == states[0].octets;
    } else {
      var n := |calls| - 1;
      AcceptedStep(compression, calls);
      AcceptedAreStored(compression, digests, states[..n + 1], calls[..n]);
      assert Wrote(compression, digests, states[n], calls[n].record, calls[n].result, states[n + 1]);
      ConcatAssociates(states[0].octets, StoredAll(compression, Accepted(calls[..n])), Stored(compression, calls[n].record));
    }
  }

  lemma NoneAccepted(compression: Compression, calls: seq<Call>)
    requires calls == []
    ensures Accepted(calls) == [] && StoredAll(compression, Accepted(calls)) == []
  {
  }

  /** The frames reported tile what is stored. */
  lemma {:induction false} FramesTile(compression: Compression, digests: bool, states: seq<Output>, calls: seq<Call>)
    requires Session(compression, digests, states, calls) && NoneFailed(calls)
    ensures forall k | 0 <= k < |Accepted(calls)| ::
              FrameTiles(compression, states[0].position, Accepted(calls), Reported(calls)[k], k)
    decreases |calls|
  {
    hide Raw.ValidateRecord, Stored, Cut, StoredAll, Accepted, FrameTiles;
    if calls == [] {
      NoneAccepted(compression, calls);
    } else {
      var n := |calls| - 1;
      AcceptedStep(compression, calls);
      FramesTile(compression, digests, states[..n + 1], calls[..n]);
      FramesKept(compression, states[0].position, calls[..n], calls[n]);
      AcceptedAreStored(compression, digests, states[..n + 1], calls[..n]);
      assert Wrote(compression, digests, states[n], calls[n].record, calls[n].result, states[n + 1]);
      if calls[n].result.Success? {
        LastTiles(compression, states[0].position, Accepted(calls), |Accepted(calls[..n])|);
      }
    }
  }

  lemma LastTiles(compression: Compression, start: nat, records: seq<Raw.Record>, k: nat)
    requires k < |records|
    ensures FrameTiles(compression, start, records, Frame(start + |StoredAll(compression, records[..k])|, |Stored(compression, records[k])|), k)
  {
  }

  lemma FramesKept(compression: Compression, start: nat, before: seq<Call>, last: Call)
    requires forall k | 0 <= k < |Accepted(before)| :: FrameTiles(compression, start, Accepted(before), Reported(before)[k], k)
    ensures var calls := before + [last];
            && Accepted(before) <= Accepted(calls)
            && forall k | 0 <= k < |Accepted(before)| :: FrameTiles(compression, start, Accepted(calls), Reported(calls)[k], k)
  {
    hide Stored, StoredAll;
    var calls := before + [last];
    assert calls[..|calls| - 1] == before;
    forall k | 0 <= k < |Accepted(before)|
      ensures FrameTiles(compression, start, Accepted(calls), Reported(calls)[k], k)
    {
      assert FrameTiles(compression, start, Accepted(before), Reported(before)[k], k);
      assert Accepted(calls)[..k] == Accepted(before)[..k];
    }
  }

  /** The reader takes a header block and a body of this size. */
  predicate Readable(record: Raw.Record) {
    |Raw.RenderHeader(record.header)| <= MAX_HEADER_BLOCK && |record.body| + 4 <= MAX_USIZE
  }

  lemma {:induction false} StoredIsWritten(records: seq<Raw.Record>)
    ensures StoredAll(Uncompressed, records) == Archive.Written(records)
  {
    hide Raw.RenderRecord;
    if records != [] {
      StoredIsWritten(records[..|records| - 1]);
    }
  }

  /** A run yields some records, in order, and nothing else. */
  ghost predicate ReadsBack(run: seq<Yield>, records: seq<Raw.Record>) {
    |run| == |records| && forall k | 0 <= k < |run| :: run[k].value == Success(records[k])
  }

  /**
   * Valid records stored one after the other read back exactly when each is of a size the reader
   * takes, from a plain stream of them and from the members of a gzip stream, wherever these split.
   */
  lemma StoredReadsBack(stream: Stream, records: seq<Raw.Record>, run: seq<Yield>)
    requires forall k | 0 <= k < |records| :: Raw.ValidateRecord(records[k]).Success?
    requires stream.Input() == Input(StoredAll(Uncompressed, records), Clean) && Run(stream, 0, 0, run)
    ensures ReadsBack(run, records) <==> forall k | 0 <= k < |records| :: Readable(records[k])
  {
    hide Raw.ValidateRecord, Run, StoredAll, Readable, Items;
    var plain := PlainRun(stream.Input(), 0, 0);
    RunYieldsItems(stream, 0, 0, run);
    RunYieldsItems(OfOctets(stream.Input()), 0, 0, plain);
    PlainReadsBack(records, plain);
  }

  lemma {:induction false} PlainRun(input: Input, p: nat, before: nat) returns (run: seq<Yield>)
    requires p <= |input.octets|
    ensures Run(OfOctets(input), p, before, run)
    decreases |input.octets| - p
  {
    hide StepAt;
    match StepAt(input, p, before) {
      case Stop(_) => run := [];
      case Fault(item) => run := [Reader.Located(InPlain(Frame(item.offset, 0)), item.blankLines, item.value)];
      case Got(item, _, next) =>
        var rest := PlainRun(input, next, item.blankLines);
        run := [Reader.Located(InPlain(Frame(item.offset, next - item.offset)), item.blankLines, item.value)] + rest;
    }
  }

  lemma PlainReadsBack(records: seq<Raw.Record>, run: seq<Yield>)
    requires forall k | 0 <= k < |records| :: Raw.ValidateRecord(records[k]).Success?
    requires Run(OfOctets(Input(StoredAll(Uncompressed, records), Clean)), 0, 0, run)
    ensures ReadsBack(run, records) <==> forall k | 0 <= k < |records| :: Readable(records[k])
  {
    hide Raw.ValidateRecord, Raw.RenderRecord, Raw.RenderHeader, Run, Archive.Written, StoredAll, Readable, Storable;
    StoredIsWritten(records);
    if forall k | 0 <= k < |records| :: Readable(records[k]) {
      AllStorable(records);
      Archive.WrittenReadsBack(records, run);
    }
    if ReadsBack(run, records) {
      Archive.RunTiles(Input(StoredAll(Uncompressed, records), Clean), 0, 0, run);
      forall k | 0 <= k < |records|
        ensures Readable(records[k])
      {
        assert Storable(run[k].value.value);
        StorableIsReadable(records[k]);
      }
    }
  }

  lemma StorableIsReadable(record: Raw.Record)
    ensures Storable(record) <==> Raw.ValidateRecord(record).Success? && Readable(record)
  {
  }

  /**
   * The frame reported for a record written uncompressed is read as that record at any later point
   * of the session, failed writes in between included, exactly when the reader takes its size.
   */
  lemma ReportedFrameReads(digests: bool, states: seq<Output>, calls: seq<Call>, i: nat, j: nat)
    requires Session(Uncompressed, digests, states, calls) && AtEnd(states[0])
    requires i < j <= |calls| && calls[i].result.Success?
    ensures var written := calls[i].result.value;
            var window := Sources.WindowOf(Input(states[j].octets, Clean), written.offset, written.offset + written.length);
            OnlyRecord(window) == Success(calls[i].record) <==> Readable(calls[i].record)
  {
    hide Raw.ValidateRecord, Raw.RenderRecord, Raw.RenderHeader, OnlyRecord, Readable, Storable, IsRecord, AllBlank, Cut;
    var written, record := calls[i].result.value, calls[i].record;
    FrameHolds(Uncompressed, digests, states, calls, i, j);
    assert Wrote(Uncompressed, digests, states[i], record, calls[i].result, states[i + 1]);
    var w := states[j].octets[written.offset..written.offset + written.length];
    assert Sources.WindowOf(Input(states[j].octets, Clean), written.offset, written.offset + written.length) == Input(w, Clean);
    assert w == Raw.RenderRecord(record);
    StorableIsReadable(record);
    WrittenAlone(record);
  }

  /** What is written of a record is read as the one record there exactly when it is storable. */
  lemma WrittenAlone(record: Raw.Record)
    ensures OnlyRecord(Input(Raw.RenderRecord(record), Clean)) == Success(record) <==> Storable(record)
  {
    hide Raw.RenderRecord, OnlyRecord, Storable, IsRecord, AllBlank, StepAt;
    var w := Raw.RenderRecord(record);
    if Storable(record) {
      RenderingIsText(record);
      assert w[..0] == [] && w[0..|w|] == w && w[|w|..] == [];
      NothingIsBlank();
      FramedAlone(w, 0, |w|, record, Clean);
    }
    if OnlyRecord(Input(w, Clean)) == Success(record) {
      OnlyRecordSteps(Input(w, Clean), 0);
      var step := StepAt(Input(w, Clean), 0, 0);
      StepReadsText(Input(w, Clean), 0, 0);
      TextIsRendering(w[step.item.offset..step.next], record);
    }
  }

  /**
   * What a session writes uncompressed reads back as the records it accepted, in order, each located
   * by the frame the session reported.
   */
  lemma PlainSessionReadsBack(digests: bool, states: seq<Output>, calls: seq<Call>, run: seq<Yield>)
    requires Session(Uncompressed, digests, states, calls) && NoneFailed(calls) && states[0] == Output([], 0)
    requires forall k | 0 <= k < |Accepted(calls)| :: Readable(Accepted(calls)[k])
    requires Run(OfOctets(Input(states[|calls|].octets, Clean)), 0, 0, run)
    ensures |run| == |Accepted(calls)|
    ensures forall k | 0 <= k < |run| ::
              run[k].value == Success(Accepted(calls)[k]) && FrameOf(run[k].location) == Some(Reported(calls)[k])
  {
    hide Wrote, Raw.ValidateRecord, Raw.RenderRecord, Raw.RenderHeader, Run, Archive.Written, StoredAll, Accepted, Readable, Storable;
    var records := Accepted(calls);
    FramesTile(Uncompressed, digests, states, calls);
    AcceptedAreStored(Uncompressed, digests, states, calls);
    StoredIsWritten(records);
    assert states[|calls|].octets == Archive.Written(records);
    AllStorable(records);
    Archive.WrittenReadsBack(records, run);
    forall k | 0 <= k < |run|
      ensures FrameOf(run[k].location) == Some(Reported(calls)[k])
    {
      assert FrameTiles(Uncompressed, 0, records, Reported(calls)[k], k);
      StoredIsWritten(records[..k]);
    }
  }

  /** The gzip file a session adds to: one member for each record accepted. */
  function MembersOf(member: bytes -> bytes, records: seq<Raw.Record>): seq<Member> {
    seq(|records|, i requires 0 <= i < |records| =>
      Member(Raw.RenderRecord(records[i]), |member(Raw.RenderRecord(records[i]))|))
  }

  lemma {:induction false} OffsetOfMember(member: bytes -> bytes, records: seq<Raw.Record>, base: nat, k: nat)
    requires k <= |records|
    ensures File(base, MembersOf(member, records), NoTail).Offset(k) == base + |StoredAll(Gzip(member), records[..k])|
    decreases k
  {
    hide Raw.RenderRecord;
    if k > 0 {
      OffsetOfMember(member, records, base, k - 1);
      assert records[..k][..k - 1] == records[..k - 1];
    } else {
      assert records[..0] == [];
    }
  }

  /**
   * What a session writes compressed reads back as the records it accepted, in order, each located
   * by the frame the session reported, which is the one member that holds it. An encoder emits at
   * least a header, so no member is empty.
   */
  lemma GzipSessionReadsBack(
    member: bytes -> bytes, digests: bool, states: seq<Output>, calls: seq<Call>, run: seq<Yield>)
    requires Session(Gzip(member), digests, states, calls) && NoneFailed(calls)
    requires forall s :: |member(s)| > 0
    requires forall k | 0 <= k < |Accepted(calls)| :: Readable(Accepted(calls)[k])
    requires Run(OfMembers(File(states[0].position, MembersOf(member, Accepted(calls)), NoTail)), 0, 0, run)
    ensures |run| == |Accepted(calls)|
    ensures forall k | 0 <= k < |run| ::
              run[k].value == Success(Accepted(calls)[k]) && FrameOf(run[k].location) == Some(Reported(calls)[k])
  {
    hide Wrote, Raw.ValidateRecord, Raw.RenderRecord, Raw.RenderHeader, Run, StoredAll, Accepted, Reported, Readable,
      FrameTiles, MembersOf, GzipArchive.RecordPerMember, GzipArchive.FillsMember, FrameOf, File.Contents;
    var records := Accepted(calls);
    var f := File(states[0].position, MembersOf(member, records), NoTail);
    FramesTile(Gzip(member), digests, states, calls);
    AcceptedAreStored(Gzip(member), digests, states, calls);
    MembersHold(member, records, states[0].position);
    GzipArchive.RecordsFillMembers(f, records, 0, 0, run);
    forall k | 0 <= k < |run|
      ensures run[k].value == Success(records[k]) && FrameOf(run[k].location) == Some(Reported(calls)[k])
    {
      assert GzipArchive.FillsMember(f, records[0 + k], 0 + k, run[k]);
      assert FrameTiles(Gzip(member), states[0].position, records, Reported(calls)[k], k);
      MemberIsFrame(member, records, states[0].position, Reported(calls)[k], run[k], k);
    }
  }

  lemma MemberIsFrame(member: bytes -> bytes, records: seq<Raw.Record>, base: nat, frame: Frame, item: Yield, k: nat)
    requires k < |records| && FrameTiles(Gzip(member), base, records, frame, k)
    requires |MembersOf(member, records)| == |records|
    requires GzipArchive.FillsMember(File(base, MembersOf(member, records), NoTail), records[k], k, item)
    ensures item.value == Success(records[k]) && FrameOf(item.location) == Some(frame)
  {
    hide StoredAll, Raw.RenderRecord, FrameOf;
    OffsetOfMember(member, records, base, k);
  }

  lemma AllStorable(records: seq<Raw.Record>)
    requires forall k | 0 <= k < |records| :: Raw.ValidateRecord(records[k]).Success? && Readable(records[k])
    ensures forall k | 0 <= k < |records| :: Storable(records[k])
  {
    hide Raw.ValidateRecord, Raw.RenderHeader;
  }

  /** The members a session adds decode to what it would have stored uncompressed. */
  lemma MembersInput(member: bytes -> bytes, records: seq<Raw.Record>, base: nat)
    ensures Stream.OfMembers(File(base, MembersOf(member, records), NoTail)).Input() ==
            Input(StoredAll(Uncompressed, records), Clean)
  {
    hide Raw.RenderRecord, StoredAll;
    MembersBefore(member, records, base, |records|);
    assert records[..|records|] == records;
  }

  lemma {:induction false} MembersBefore(member: bytes -> bytes, records: seq<Raw.Record>, base: nat, k: nat)
    requires k <= |records|
    ensures File(base, MembersOf(member, records), NoTail).Before(k) == StoredAll(Uncompressed, records[..k])
    decreases k
  {
    hide Raw.RenderRecord;
    if k > 0 {
      MembersBefore(member, records, base, k - 1);
      assert records[..k][..k - 1] == records[..k - 1];
    } else {
      assert records[..0] == [];
    }
  }

  lemma MembersHold(member: bytes -> bytes, records: seq<Raw.Record>, base: nat)
    requires forall s :: |member(s)| > 0
    requires forall k | 0 <= k < |records| :: Raw.ValidateRecord(records[k]).Success? && Readable(records[k])
    ensures |MembersOf(member, records)| == |records|
    ensures var f := File(base, MembersOf(member, records), NoTail);
            GzipArchive.RecordPerMember(f, records) && f.Start(0) == 0
  {
    hide Raw.RenderRecord, Storable, Readable, Raw.ValidateRecord;
    AllStorable(records);
  }
}
