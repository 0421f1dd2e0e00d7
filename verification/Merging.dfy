/** Merging the records of two inputs into one output (`crates/archivindex-warc-ops/src/merge.rs`). */
module Merging {
  import opened Bytes
  import opened Headers
  import opened MergePlan
  import opened MergePass
  import opened MergeMeaning
  import MergeFacts
  import Parsing
  import Framing
  import Iterators
  import Members
  import Raw
  import Sessions
  import Writer

  datatype Summary = Summary(records: nat, merged: nat, distinct: nat, differences: seq<Difference>)

  /**
   * Merge the records two inputs read to. What is written is what `MergeMeaning` speaks of; valid
   * records and a sink that does not fail leave only the faults of the merge itself.
   */
  method MergeRecords(
    w: Matching, first: seq<Raw.Record>, second: seq<Raw.Record>, filename: Option<bytes>, writer: Writer.WarcWriter)
    returns (r: Result<Summary, Error>, ghost plan: Plan)
    modifies writer, writer.writer
    ensures var m := Merge(w, first, second, plan, filename);
            && (r.Success? ==>
                  && m.Valid() && m.After(|m.Records()|).Success?
                  && var (s, outs) := m.After(|m.Records()|).value;
                  && r.value == Summary(|outs|, s.merged, plan.distinct, plan.differences)
                  && writer.writer.octets == old(writer.writer.octets) + Sessions.StoredAll(writer.compression, outs))
            && (r.Failure? ==>
                  || (r.error.NotWritten? && !(
                        writer.writer.reliable && AllValid(first + second) && (filename.Some? ==> Parsing.IsFolded(filename.value))))
                  || (m.Valid() && m.After(|m.Records()|) == Failure(r.error))
                  || (r.error.MissingWarcinfoRecordId? && exists i: nat | i < |m.Infos()| :: Orphaned(m.Catalogue(), i)))
  {
    hide IsPlan, Orphaned, AllValid, Sessions.StoredAll, Merged, Warcinfos, Parsing.IsFolded, Kept, KeyOf, DateOf;
    plan := Plan([], 0, map[], 0, []);
    WarcinfosConcat(first, second);
    var built, order := Build(w, first, second);
    if built.Failure? {
      r := Failure(built.error);
      return;
    }
    plan := built.value;
    ghost var m := Merge(w, first, second, plan, filename);
    var written := Transform(built.value, filename, first + second, writer);
    if written.Failure? {
      if written.error.NotWritten? && writer.writer.reliable
         && AllValid(first + second) && (filename.Some? ==> Parsing.IsFolded(filename.value)) {
        var k: nat :| k <= |first + second| && MakesInvalid(plan, filename, first + second, k);
        MergeFacts.MergedIsValid(m, k);
      }
      r := Failure(written.error);
      return;
    }
    r := Success(Summary(written.value.0, written.value.1, built.value.distinct, built.value.differences));
  }

  // ---------------------------------------------------------------------------------------------
  // Reading the output
  // ---------------------------------------------------------------------------------------------

  /** The bodies are of sizes the reader takes. */
  ghost predicate AllFit(records: seq<Raw.Record>) {
    forall k | 0 <= k < |records| :: |records[k].body| + 4 <= Framing.MAX_USIZE
  }

  lemma {:induction false} WarcinfosFit(records: seq<Raw.Record>)
    requires AllFit(records)
    ensures AllFit(Warcinfos(records))
    decreases |records|
  {
    hide IsWarcinfo;
    if records != [] {
      WarcinfosFit(records[..|records| - 1]);
    }
  }

  lemma PublishedBody(plan: Plan, filename: Option<bytes>, record: Raw.Record)
    ensures Published(plan, filename, record).body == record.body
  {
  }

  /** No body grows in a merge. */
  lemma {:induction false} MergedFit(m: Merge, k: nat)
    requires m.Valid() && AllFit(m.Records())
    requires k <= |m.Records()| && m.After(k).Success?
    ensures AllFit(m.After(k).value.1)
    decreases k
  {
    hide Merge.Valid, Merge.Tracks, Step, Merge.Records;
    if k > 0 {
      MergedExtends(m.plan, m.filename, m.Records(), k - 1, k);
      MergedFit(m, k - 1);
      PassTracks(m, k - 1);
      MergedStep(m.plan, m.filename, m.Records(), k - 1);
      var before := m.After(k - 1).value;
      var step := Step(m.plan, m.filename, k - 1, before.0, m.Records()[k - 1]).value;
      if step.1.Some? {
        StepFits(m, k - 1, before.0, before.1, step);
      }
    }
  }

  lemma StepFits(m: Merge, k: nat, s: State, outs: seq<Raw.Record>, step: (State, Option<Raw.Record>))
    requires m.Valid() && AllFit(m.Records()) && k < |m.Records()| && m.Tracks(k, s, outs)
    requires Step(m.plan, m.filename, k, s, m.Records()[k]) == Success(step) && step.1.Some?
    ensures |step.1.value.body| + 4 <= Framing.MAX_USIZE
  {
    hide Merge.Valid, Merge.Infos, Merge.Catalogue, IsWarcinfo, Kept, Leader, Published, Associated, Latest, RecordId,
      Merge.Emissions, Merge.LastLeader, Warcinfos;
    if IsWarcinfo(m.Records()[k].header) {
      WarcinfoAt(m.Records(), k);
      MergeFacts.InfosAreWarcinfos(m);
      WarcinfosFit(m.Records());
      PlannedFor(m, s.next);
      PublishedBody(m.plan, m.filename, m.Infos()[Kept(m.Catalogue(), s.next)]);
    } else {
      AssociatedIsSame(m.plan, Entering(m.plan, k, s), m.Records()[k]);
    }
  }

  /**
   * The output of a merge of valid records reads back as what was merged, exactly when no rewriting
   * has made a header block too large for the reader: as a plain stream, or as gzip members that hold
   * it, such as the one for each record that `MembersReadBack` speaks of.
   */
  lemma MergedReadsBack(m: Merge, stream: Iterators.Stream, run: seq<Iterators.Yield>)
    requires m.Valid() && AllValid(m.Records()) && (m.filename.Some? ==> Parsing.IsFolded(m.filename.value))
    requires AllFit(m.Records()) && m.After(|m.Records()|).Success?
    requires var stored := Sessions.StoredAll(Writer.Uncompressed, m.After(|m.Records()|).value.1);
             stream.Input() == Framing.Input(stored, Framing.Clean) && Iterators.Run(stream, 0, 0, run)
    ensures var outs := m.After(|m.Records()|).value.1;
            Sessions.ReadsBack(run, outs) <==>
            forall k | 0 <= k < |outs| :: |Raw.RenderHeader(outs[k].header)| <= Framing.MAX_HEADER_BLOCK
  {
    hide Merge.Valid, Merge.Records, AllValid, Sessions.StoredAll, Sessions.ReadsBack, Parsing.IsFolded, Iterators.Run,
      Raw.RenderHeader, Raw.ValidateRecord;
    var outs := m.After(|m.Records()|).value.1;
    MergeFacts.MergedIsValid(m, |m.Records()|);
    MergedFit(m, |m.Records()|);
    EachIsValid(outs);
    Sessions.StoredReadsBack(stream, outs, run);
    assert forall k | 0 <= k < |outs| ::
        Sessions.Readable(outs[k]) <==> |Raw.RenderHeader(outs[k].header)| <= Framing.MAX_HEADER_BLOCK;
  }

  /** The same of an output compressed one record to a member. */
  lemma MembersReadBack(m: Merge, member: bytes -> bytes, base: nat, run: seq<Iterators.Yield>)
    requires m.Valid() && AllValid(m.Records()) && (m.filename.Some? ==> Parsing.IsFolded(m.filename.value))
    requires AllFit(m.Records()) && m.After(|m.Records()|).Success?
    requires var members := Sessions.MembersOf(member, m.After(|m.Records()|).value.1);
             Iterators.Run(Iterators.OfMembers(Members.File(base, members, Members.NoTail)), 0, 0, run)
    ensures var outs := m.After(|m.Records()|).value.1;
            Sessions.ReadsBack(run, outs) <==>
            forall k | 0 <= k < |outs| :: |Raw.RenderHeader(outs[k].header)| <= Framing.MAX_HEADER_BLOCK
  {
    hide *;
    var members := Sessions.MembersOf(member, m.After(|m.Records()|).value.1);
    Sessions.MembersInput(member, m.After(|m.Records()|).value.1, base);
    MergedReadsBack(m, Iterators.OfMembers(Members.File(base, members, Members.NoTail)), run);
  }

  lemma EachIsValid(records: seq<Raw.Record>)
    requires AllValid(records)
    ensures forall k | 0 <= k < |records| :: Raw.ValidateRecord(records[k]).Success?
  {
    hide Raw.ValidateRecord;
  }
}
