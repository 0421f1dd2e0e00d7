/** The second pass of a merge: both inputs streamed into the output (`crates/archivindex-warc-ops/src/merge.rs:244-317`). */
module MergePass {
  import opened Bytes
  import opened Headers
  import opened MergePlan
  import Raw
  import Sessions
  import Writer

  /** The warcinfo record in force in an input: where it, or the one kept for it, is emitted, and its identifier. */
  datatype Scope = Scope(leader: nat, id: Option<bytes>)

  /** How far the pass is: the next action, the scopes in force, and how many records were dropped. */
  datatype State = State(next: nat, input: Option<Scope>, output: Option<nat>, merged: nat)

  const START := State(0, None, None, 0)

  /** A warcinfo record as it is written: named after the output, its references redirected. */
  function Published(plan: Plan, filename: Option<bytes>, record: Raw.Record): Raw.Record {
    var fields := RedirectedAll(Renamed(record.header.fields, filename), plan.redirects);
    Raw.Record(Raw.Header(record.header.version, fields), record.body)
  }

  /** Another record as it is written: associated with a warcinfo record where it must be. */
  function Associated(plan: Plan, s: State, record: Raw.Record): (r: Result<Raw.Record, Error>)
    ensures r.Failure? ==> r.error.UnscopedMergedRecord? || r.error.MissingWarcinfoRecordId?
  {
    var fields := record.header.fields;
    if Get(fields, WARC_WARCINFO_ID).None? && LeaderOf(s.input) != s.output then
      if s.input.None? then Failure(UnscopedMergedRecord)
      else if s.input.value.id.None? then Failure(MissingWarcinfoRecordId)
      else
        var inserted := Inserted(fields, WARCINFO_ID_RANK, [SP] + s.input.value.id.value);
        Success(Raw.Record(Raw.Header(record.header.version, RedirectedAll(inserted, plan.redirects)), record.body))
    else Success(Raw.Record(Raw.Header(record.header.version, RedirectedAll(fields, plan.redirects)), record.body))
  }

  function LeaderOf(scope: Option<Scope>): Option<nat> {
    match scope
    case Some(scope) => Some(scope.leader)
    case None => None
  }

  /** The state in which the record at `index` is met: the first input's scope ends with it. */
  function Entering(plan: Plan, index: nat, s: State): State {
    if index == plan.firstRecords then s.(input := None) else s
  }

  /** One record: the state after it, and what is written for it. */
  function Step(plan: Plan, filename: Option<bytes>, index: nat, s: State, record: Raw.Record)
    : (r: Result<(State, Option<Raw.Record>), Error>)
    ensures r.Failure? ==> !r.error.NotWritten?
  {
    var s := Entering(plan, index, s);
    if IsWarcinfo(record.header) then
      if s.next >= |plan.actions| then Failure(WarcinfoRecordsChanged)
      else
        match plan.actions[s.next]
        case Emit(kept) =>
          Success((State(s.next + 1, Some(Scope(s.next, RecordId(kept))), Some(s.next), s.merged),
                   Some(Published(plan, filename, kept))))
        case Skip(scope, id) => Success((State(s.next + 1, Some(Scope(scope, id)), s.output, s.merged + 1), None))
    else
      var written :- Associated(plan, s, record);
      Success((s, Some(written)))
  }

  /** The records written for the first `n`. */
  function Merged(plan: Plan, filename: Option<bytes>, records: seq<Raw.Record>, n: nat)
    : (r: Result<(State, seq<Raw.Record>), Error>)
    requires n <= |records|
    ensures r.Failure? ==> !r.error.NotWritten?
  {
    if n == 0 then Success((START, []))
    else
      var before :- Merged(plan, filename, records, n - 1);
      var step :- Step(plan, filename, n - 1, before.0, records[n - 1]);
      Success((step.0, before.1 + if step.1.Some? then [step.1.value] else []))
  }

  /** The closure the second pass applies to each record, with the variables it captures. */
  class Pass {
    const plan: Plan
    const filename: Option<bytes>
    var next: nat
    var input: Option<Scope>
    var output: Option<nat>
    var merged: nat

    function Now(): State
      reads this
    {
      State(next, input, output, merged)
    }

    constructor (plan: Plan, filename: Option<bytes>)
      ensures this.plan == plan && this.filename == filename && Now() == START
    {
      this.plan, this.filename := plan, filename;
      next, input, output, merged := 0, None, None, 0;
    }

    method Apply(index: nat, record: Raw.Record) returns (r: Result<Option<Raw.Record>, Error>)
      modifies this
      ensures var step := Step(plan, filename, index, old(Now()), record);
              && (step.Success? ==> r == Success(step.value.1) && Now() == step.value.0)
              && (step.Failure? ==> r == Failure(step.error))
    {
      hide IsWarcinfo, RecordId, Get, Renamed, RedirectedAll, Inserted;
      if index == plan.firstRecords {
        input := None;
      }
      var fields := record.header.fields;
      var version, body := record.header.version, record.body;
      if IsWarcinfo(record.header) {
        if next >= |plan.actions| {
          return Failure(WarcinfoRecordsChanged);
        }
        var position := next;
        next := next + 1;
        match plan.actions[position] {
          case Emit(kept) =>
            input := Some(Scope(position, RecordId(kept)));
            output := Some(position);
            fields := kept.header.fields;
            version, body := kept.header.version, kept.body;
          case Skip(scope, id) =>
            input := Some(Scope(scope, id));
            merged := merged + 1;
            return Success(None);
        }
        fields := SetFilename(fields, filename);
      } else if Get(fields, WARC_WARCINFO_ID).None? && LeaderOf(input) != output {
        if input.None? {
          return Failure(UnscopedMergedRecord);
        }
        if input.value.id.None? {
          return Failure(MissingWarcinfoRecordId);
        }
        fields := Inserted(fields, WARCINFO_ID_RANK, [SP] + input.value.id.value);
      }
      fields := RedirectReferences(fields, plan.redirects);
      r := Success(Some(Raw.Record(Raw.Header(version, fields), body)));
    }
  }

  ghost predicate AllValid(records: seq<Raw.Record>) {
    forall i | 0 <= i < |records| :: Raw.ValidateRecord(records[i]).Success?
  }

  /** Some record made for the first `k` cannot be written. */
  ghost predicate MakesInvalid(plan: Plan, filename: Option<bytes>, records: seq<Raw.Record>, k: nat)
    requires k <= |records|
  {
    Merged(plan, filename, records, k).Success? && !AllValid(Merged(plan, filename, records, k).value.1)
  }

  /** Stream the records of both inputs through the pass into the output. */
  method Transform(plan: Plan, filename: Option<bytes>, records: seq<Raw.Record>, writer: Writer.WarcWriter)
    returns (r: Result<(nat, nat), Error>)
    modifies writer, writer.writer
    ensures var merged := Merged(plan, filename, records, |records|);
            && (r.Success? ==>
                  && merged.Success? && r.value == (|merged.value.1|, merged.value.0.merged)
                  && writer.writer.octets == old(writer.writer.octets) + Sessions.StoredAll(writer.compression, merged.value.1)
                  && AllValid(merged.value.1))
            && (r.Failure? && !r.error.NotWritten? ==> merged == Failure(r.error))
            && (r.Failure? && r.error.NotWritten? && writer.writer.reliable ==>
                  exists k: nat | k <= |records| :: MakesInvalid(plan, filename, records, k))
  {
    hide Step, Merged, IsWarcinfo, Writer.Stored, Raw.ValidateRecord, Writer.Cut, Sessions.StoredAll;
    var pass := new Pass(plan, filename);
    ghost var start := writer.writer.octets;
    var count := 0;
    NothingMerged(plan, filename, records, writer.compression);
    assert start + [] == start;
    for i := 0 to |records|
      invariant Merged(plan, filename, records, i).Success?
      invariant Merged(plan, filename, records, i).value.0 == pass.Now()
      invariant count == |Merged(plan, filename, records, i).value.1|
      invariant writer.writer.octets == start + Sessions.StoredAll(writer.compression, Merged(plan, filename, records, i).value.1)
      invariant AllValid(Merged(plan, filename, records, i).value.1)
    {
      ghost var outs := Merged(plan, filename, records, i).value.1;
      MergedStep(plan, filename, records, i);
      MergedExtends(plan, filename, records, i + 1, |records|);
      var result := pass.Apply(i, records[i]);
      if result.Failure? {
        return Failure(result.error);
      }
      if result.value.Some? {
        var record := result.value.value;
        assert Merged(plan, filename, records, i + 1).value.1 == outs + [record];
        var written := writer.Write(record);
        if written.Failure? {
          assert writer.writer.reliable ==> !Raw.ValidateRecord((outs + [record])[|outs|]).Success?;
          assert writer.writer.reliable ==> MakesInvalid(plan, filename, records, i + 1);
          return Failure(NotWritten(written.error));
        }
        StoredOneMore(writer.compression, start, outs, record);
        count := count + 1;
      }
    }
    r := Success((count, pass.merged));
  }

  lemma NothingMerged(plan: Plan, filename: Option<bytes>, records: seq<Raw.Record>, compression: Writer.Compression)
    ensures Merged(plan, filename, records, 0) == Success((START, []))
    ensures Sessions.StoredAll(compression, []) == []
  {
  }

  lemma StoredOneMore(compression: Writer.Compression, start: bytes, records: seq<Raw.Record>, record: Raw.Record)
    ensures start + Sessions.StoredAll(compression, records) + Writer.Stored(compression, record)
            == start + Sessions.StoredAll(compression, records + [record])
  {
    hide Writer.Stored;
    assert (records + [record])[..|records|] == records;
    ConcatAssociates(start, Sessions.StoredAll(compression, records), Writer.Stored(compression, record));
  }

  lemma MergedStep(plan: Plan, filename: Option<bytes>, records: seq<Raw.Record>, i: nat)
    requires i < |records| && Merged(plan, filename, records, i).Success?
    ensures var before := Merged(plan, filename, records, i).value;
            var step := Step(plan, filename, i, before.0, records[i]);
            var after := Merged(plan, filename, records, i + 1);
            && (step.Failure? ==> after == Failure(step.error))
            && (step.Success? ==>
                  && after.Success? && after.value.0 == step.value.0
                  && after.value.1 == if step.value.1.Some? then before.1 + [step.value.1.value] else before.1)
  {
    hide Step;
  }

  /** What is written for the first records stays written, and a fault stays the fault. */
  lemma {:induction false} MergedExtends(plan: Plan, filename: Option<bytes>, records: seq<Raw.Record>, i: nat, n: nat)
    requires i <= n <= |records|
    ensures var some, all := Merged(plan, filename, records, i), Merged(plan, filename, records, n);
            && (some.Failure? ==> all == Failure(some.error))
            && (all.Success? ==> some.Success? && some.value.1 <= all.value.1)
    decreases n
  {
    hide Step;
    if i < n {
      MergedExtends(plan, filename, records, i, n - 1);
    }
  }
}
