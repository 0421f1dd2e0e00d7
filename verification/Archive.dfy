/** Whole archives: what is written is what is read, and where. */
module Archive {
  import opened Bytes
  import opened Framing
  import opened Placements
  import opened RecordText
  import opened Frames
  import opened Iterators
  import Raw

  /** Records written one after the other, with octets before each and after the last. */
  function ArchiveOf(pads: seq<bytes>, records: seq<Raw.Record>): bytes
    requires |pads| == |records| + 1
    decreases |records|
  {
    if records == [] then pads[0]
    else pads[0] + (Raw.RenderRecord(records[0]) + ArchiveOf(pads[1..], records[1..]))
  }

  /** The items such an archive holds, from `p` on. */
  function ItemsOf(pads: seq<bytes>, records: seq<Raw.Record>, p: nat): seq<Item>
    requires |pads| == |records| + 1
    decreases |records|
  {
    if records == [] then []
    else
      var q := p + |pads[0]|;
      [Item(Padding(pads[0], 0).0, q, Success(records[0]))]
      + ItemsOf(pads[1..], records[1..], q + |Raw.RenderRecord(records[0])|)
  }

  /**
   * An archive of records that can be written, with whole blank lines anywhere between them, reads
   * back as those records in order, and ends there.
   */
  lemma {:induction false} ArchiveReadsBack(s: bytes, p: nat, before: nat, pads: seq<bytes>, records: seq<Raw.Record>, tail: bytes)
    requires |pads| == |records| + 1
    requires forall i | 0 <= i < |pads| :: AllBlank(pads[i])
    requires forall i | 0 <= i < |records| :: Storable(records[i])
    requires p <= |s| && s[p..] == tail && tail == ArchiveOf(pads, records)
    ensures Items(Input(s, Clean), p, before) == ItemsOf(pads, records, p)
    decreases |records|
  {
    hide *;
    var input := Input(s, Clean);
    if records == [] {
      EmptyArchive(pads, records, p);
      BlankEnd(s, p, before);
      ItemsStep(input, p, before);
    } else {
      var text := Raw.RenderRecord(records[0]);
      var rest := ArchiveOf(pads[1..], records[1..]);
      ArchiveStep(pads, records, p);
      RenderingIsText(records[0]);
      StepOverText(input, p, before, pads[0], text, rest, records[0]);
      RestOf(s, p, pads[0], text, rest);
      ArchiveReadsBack(s, p + |pads[0]| + |text|, Padding(pads[0], 0).0, pads[1..], records[1..], rest);
      ItemsStep(input, p, before);
    }
  }

  lemma EmptyArchive(pads: seq<bytes>, records: seq<Raw.Record>, p: nat)
    requires |pads| == |records| + 1 && records == []
    ensures ArchiveOf(pads, records) == pads[0] && ItemsOf(pads, records, p) == []
  {
  }

  lemma ArchiveStep(pads: seq<bytes>, records: seq<Raw.Record>, p: nat)
    requires |pads| == |records| + 1 && records != []
    ensures ArchiveOf(pads, records) == pads[0] + (Raw.RenderRecord(records[0]) + ArchiveOf(pads[1..], records[1..]))
    ensures ItemsOf(pads, records, p) ==
            [Item(Padding(pads[0], 0).0, p + |pads[0]|, Success(records[0]))]
            + ItemsOf(pads[1..], records[1..], p + |pads[0]| + |Raw.RenderRecord(records[0])|)
  {
    hide Raw.RenderRecord, Padding;
  }

  lemma ItemsStep(input: Input, p: nat, before: nat)
    requires p <= |input.octets|
    ensures var step := StepAt(input, p, before);
            && (step.Stop? ==> Items(input, p, before) == [])
            && (step.Got? ==> Items(input, p, before) == [step.item] + Items(input, step.next, step.item.blankLines))
  {
    hide StepAt;
  }

  lemma RestOf(s: bytes, p: nat, blank: bytes, text: bytes, rest: bytes)
    requires p <= |s| && s[p..] == blank + (text + rest)
    ensures s[p + |blank| + |text|..] == rest
  {
    var n := |blank| + |text|;
    assert s[p..][n..] == s[p + n..];
    assert (blank + (text + rest))[n..] == rest;
  }

  lemma BlankEnd(s: bytes, p: nat, before: nat)
    requires p <= |s| && AllBlank(s[p..])
    ensures StepAt(Input(s, Clean), p, before).Stop?
  {
    hide HeaderAt, Padding;
    TailIsBlank(s, p);
    EndAfterBlank(Input(s, Clean), p);
  }

  // ---------------------------------------------------------------------------------------------
  // Without padding
  // ---------------------------------------------------------------------------------------------

  /** The octets of some records, written one right after the other. */
  function Written(records: seq<Raw.Record>): bytes {
    if records == [] then [] else Written(records[..|records| - 1]) + Raw.RenderRecord(records[|records| - 1])
  }

  function NoPads(n: nat): seq<bytes> {
    seq(n, _ => [])
  }

  lemma {:induction false} WrittenConcat(a: seq<Raw.Record>, b: seq<Raw.Record>)
    ensures Written(a + b) == Written(a) + Written(b)
    decreases |b|
  {
    hide Raw.RenderRecord;
    if b == [] {
      assert a + b == a;
    } else {
      var b', last := b[..|b| - 1], b[|b| - 1];
      assert (a + b)[..|a + b| - 1] == a + b' && (a + b)[|a + b| - 1] == last;
      WrittenConcat(a, b');
      ConcatAssociates(Written(a), Written(b'), Raw.RenderRecord(last));
    }
  }

  lemma {:induction false} WrittenIsArchive(records: seq<Raw.Record>)
    ensures Written(records) == ArchiveOf(NoPads(|records| + 1), records)
    decreases |records|
  {
    hide Raw.RenderRecord;
    if records != [] {
      var rest := records[1..];
      assert records == [records[0]] + rest;
      assert [records[0]][..0] == [];
      WrittenConcat([records[0]], rest);
      WrittenIsArchive(rest);
      assert NoPads(|records| + 1)[1..] == NoPads(|rest| + 1);
    }
  }

  /** Item `i` of an unpadded archive begins where the records before it end. */
  lemma {:induction false} ItemOffsets(records: seq<Raw.Record>, p: nat)
    ensures var items := ItemsOf(NoPads(|records| + 1), records, p);
            && |items| == |records|
            && forall i | 0 <= i < |records| ::
                 items[i] == Item(0, p + |Written(records[..i])|, Success(records[i]))
    decreases |records|
  {
    hide Raw.RenderRecord;
    if records != [] {
      var rest := records[1..];
      var text := Raw.RenderRecord(records[0]);
      assert NoPads(|records| + 1)[1..] == NoPads(|rest| + 1);
      ItemOffsets(rest, p + |text|);
      forall i | 0 < i < |records|
        ensures |Written(records[..i])| == |text| + |Written(rest[..i - 1])|
      {
        assert records[..i] == [records[0]] + rest[..i - 1];
        assert [records[0]][..0] == [];
        WrittenConcat([records[0]], rest[..i - 1]);
      }
      assert records[..0] == [];
    }
  }

  /**
   * Records written one after the other read back in order, and the frame of each is the octets it
   * was written in, so that the frames tile what was written.
   */
  lemma WrittenReadsBack(records: seq<Raw.Record>, run: seq<Yield>)
    requires forall i | 0 <= i < |records| :: Storable(records[i])
    requires Run(OfOctets(Input(Written(records), Clean)), 0, 0, run)
    ensures |run| == |records|
    ensures forall i | 0 <= i < |records| ::
              && run[i].value == Success(records[i]) && run[i].blankLines == 0
              && run[i].location == InPlain(Frame(|Written(records[..i])|, |Raw.RenderRecord(records[i])|))
  {
    hide AllBlank, Storable, Raw.RenderRecord, Run, Items, ItemsOf, ArchiveOf, Written;
    var s := Written(records);
    var pads := NoPads(|records| + 1);
    NothingIsBlank();
    WrittenIsArchive(records);
    assert s[0..] == s;
    ArchiveReadsBack(s, 0, 0, pads, records, s);
    ItemOffsets(records, 0);
    RunYieldsItems(OfOctets(Input(s, Clean)), 0, 0, run);
    RunTiles(Input(s, Clean), 0, 0, run);
    forall i | 0 <= i < |records|
      ensures run[i].location == InPlain(Frame(|Written(records[..i])|, |Raw.RenderRecord(records[i])|))
    {
      assert run[i].location.frame.length == |Raw.RenderRecord(records[i])|;
    }
  }

  /** In a run over a plain stream, a record is framed by the octets writing it would emit. */
  lemma {:induction false} RunTiles(input: Input, p: nat, before: nat, run: seq<Yield>)
    requires p <= |input.octets| && Run(OfOctets(input), p, before, run)
    ensures |run| == |Items(input, p, before)|
    ensures forall i | 0 <= i < |run| && run[i].value.Success? ::
              && Storable(run[i].value.value)
              && run[i].location == InPlain(Frame(Items(input, p, before)[i].offset, |Raw.RenderRecord(run[i].value.value)|))
    decreases |input.octets| - p
  {
    hide StepAt, Storable, Raw.RenderRecord, IsRecord;
    var step := StepAt(input, p, before);
    if step.Got? {
      StepReadsText(input, p, before);
      TextIsRendering(input.octets[step.item.offset..step.next], step.item.value.value);
      RunTiles(input, step.next, step.item.blankLines, run[1..]);
      assert forall i | 0 < i < |run| :: run[i] == run[1..][i - 1];
    }
  }
}
