/** An index built from the frames of a run finds every record the run yielded. */
module Index {
  import opened Bytes
  import opened Framing
  import opened Members
  import opened Placements
  import opened RecordText
  import opened Frames
  import opened Iterators
  import opened Sources
  import GzipArchive
  import Raw

  /**
   * Each record of a run is read again by its frame, unless the stream fails where that frame ends.
   * Only the last record of a stream can be such a one.
   */
  lemma {:induction false} PlainRunIsIndexed(input: Input, p: nat, before: nat, run: seq<Yield>, k: nat)
    requires p <= |input.octets| && Run(OfOctets(input), p, before, run)
    requires k < |run| && run[k].value.Success?
    ensures FrameOf(run[k].location).Some?
    ensures var frame := FrameOf(run[k].location).value;
            var end := frame.offset + frame.length;
            && end <= |input.octets|
            && (OnlyRecord(WindowOf(input, frame.offset, end)) == run[k].value <==> end < |input.octets| || input.ending.Clean?)
            && (k + 1 < |run| && run[k + 1].value.Success? ==> end < |input.octets|)
    decreases |run|
  {
    hide StepAt, WindowOf, OnlyRecord, Run;
    GzipArchive.RunStep(OfOctets(input), p, before, run);
    RunFault(OfOctets(input), p, before, run);
    var step := StepAt(input, p, before);
    if k == 0 {
      PlainFrameIsSound(input, p, before);
      GzipArchive.RunStep(OfOctets(input), step.next, step.item.blankLines, run[1..]);
      RunFault(OfOctets(input), step.next, step.item.blankLines, run[1..]);
    } else {
      assert run[k] == run[1..][k - 1];
      assert k + 1 < |run| ==> run[k + 1] == run[1..][k];
      PlainRunIsIndexed(input, step.next, step.item.blankLines, run[1..], k - 1);
    }
  }

  /** A fault ends a run, and only records precede it. */
  lemma RunFault(stream: Stream, p: nat, before: nat, run: seq<Yield>)
    requires p <= |stream.Input().octets| && Run(stream, p, before, run)
    ensures StepAt(stream.Input(), p, before).Fault? ==> |run| == 1 && run[0].value.Failure?
  {
    hide StepAt, Stream.LocationOf;
  }

  /** A frame covers some members, which read as the record that ends at `end` exactly when they close it. */
  ghost predicate Locates(f: File, frame: Frame, record: Result<Raw.Record, Error>, end: nat) {
    exists i: nat, j: nat :: LocatesAt(f, frame, record, end, i, j)
  }

  ghost predicate LocatesAt(f: File, frame: Frame, record: Result<Raw.Record, Error>, end: nat, i: nat, j: nat) {
    && Covers(f, frame, i, j)
    && (OnlyRecord(MembersWithin(f, i, j).Input()) == record <==> Closes(f, end, j))
  }

  /** Where the item `k` of a stream ends, if it is a record. */
  ghost function EndOf(input: Input, p: nat, before: nat, k: nat): nat
    requires p <= |input.octets| && k < |Items(input, p, before)| && Items(input, p, before)[k].value.Success?
  {
    var item := Items(input, p, before)[k];
    item.offset + |Raw.RenderRecord(item.value.value)|
  }

  /**
   * Each record of a run over a gzip file that has a frame is read again by it, wherever members
   * split and blank lines fall, exactly when the members the frame covers reach past it over whole
   * blank lines and the source does not fail where they end.
   */
  lemma {:induction false} GzipRunIsIndexed(f: File, p: nat, before: nat, run: seq<Yield>, k: nat)
    requires f.Valid() && p <= |f.Contents()| && Run(OfMembers(f), p, before, run)
    requires k < |run| && run[k].value.Success? && FrameOf(run[k].location).Some?
    ensures k < |Items(f.Input(), p, before)| && Items(f.Input(), p, before)[k].value == run[k].value
    ensures Locates(f, FrameOf(run[k].location).value, run[k].value, EndOf(f.Input(), p, before, k))
    decreases |run|
  {
    hide StepAt, OnlyRecord, Run, MembersWithin, Covers, PlacementOf, FrameOf, File.Contents, File.Valid, Closes, Raw.RenderRecord;
    GzipArchive.RunStep(OfMembers(f), p, before, run);
    RunFault(OfMembers(f), p, before, run);
    var step := StepAt(f.Input(), p, before);
    if k == 0 {
      var i, j := GzipFrameReads(f, p, before, FrameOf(run[0].location).value);
      StepEnds(f.Input(), p, before);
      assert LocatesAt(f, FrameOf(run[0].location).value, run[0].value, step.next, i, j);
    } else {
      assert run[k] == run[1..][k - 1];
      GzipRunIsIndexed(f, step.next, step.item.blankLines, run[1..], k - 1);
    }
  }

  lemma StepEnds(input: Input, p: nat, before: nat)
    requires p <= |input.octets| && StepAt(input, p, before).Got?
    ensures var step := StepAt(input, p, before);
            step.next == step.item.offset + |Raw.RenderRecord(step.item.value.value)|
  {
    hide *;
    StepReadsText(input, p, before);
    var step := StepAt(input, p, before);
    TextIsRendering(input.octets[step.item.offset..step.next], step.item.value.value);
  }

  /** A frame of a gzip file that covers members which read as the one record. */
  ghost predicate Finds(f: File, frame: Frame, record: Result<Raw.Record, Error>) {
    exists i: nat, j: nat :: FindsAt(f, frame, record, i, j)
  }

  ghost predicate FindsAt(f: File, frame: Frame, record: Result<Raw.Record, Error>, i: nat, j: nat) {
    Covers(f, frame, i, j) && OnlyRecord(MembersWithin(f, i, j).Input()) == record
  }

  /**
   * Where every member decodes to its end, each frame finds its record, unless the source fails
   * where the last member ends and the frame ends there.
   */
  lemma {:induction false} WholeMembersAreIndexed(f: File, p: nat, before: nat, run: seq<Yield>, k: nat)
    requires f.Valid() && f.TailOctets() == []
    requires p <= |f.Contents()| && Run(OfMembers(f), p, before, run)
    requires k < |run| && run[k].value.Success? && FrameOf(run[k].location).Some?
    ensures var frame := FrameOf(run[k].location).value;
            Finds(f, frame, run[k].value) <==>
            !(f.tail.SourceFails? && frame.offset + frame.length == f.Offset(|f.members|))
    decreases |run|
  {
    hide StepAt, OnlyRecord, Run, MembersWithin, PlacementOf, FrameOf, File.Contents, File.Valid, Closes, File.Offset;
    GzipArchive.RunStep(OfMembers(f), p, before, run);
    RunFault(OfMembers(f), p, before, run);
    var step := StepAt(f.Input(), p, before);
    if k == 0 {
      var frame := FrameOf(run[0].location).value;
      var i, j := GzipFrameReads(f, p, before, frame);
      CoversOnce(f, frame, run[0].value, i, j);
      EndsAtLast(f, j);
    } else {
      assert run[k] == run[1..][k - 1];
      WholeMembersAreIndexed(f, step.next, step.item.blankLines, run[1..], k - 1);
    }
  }

  lemma EndsAtLast(f: File, j: nat)
    requires f.Valid() && j <= |f.members|
    ensures f.Offset(j) == f.Offset(|f.members|) <==> j == |f.members|
  {
    if f.Offset(j) == f.Offset(|f.members|) {
      OffsetsDiffer(f, j, |f.members|);
    }
  }

  /** A frame covers members in one way only. */
  lemma CoversOnce(f: File, frame: Frame, record: Result<Raw.Record, Error>, i: nat, j: nat)
    requires f.Valid() && Covers(f, frame, i, j)
    ensures Finds(f, frame, record) <==> FindsAt(f, frame, record, i, j)
  {
    hide OnlyRecord, MembersWithin, File.Offset, File.Valid;
    if Finds(f, frame, record) {
      var a: nat, b: nat :| FindsAt(f, frame, record, a, b);
      OffsetsDiffer(f, a, i);
      OffsetsDiffer(f, b, j);
    }
  }
}
