/** The law of the semantic layer: lifting a record from what is rendered for it gives the record back. */
module LensLaw {
  import opened Bytes
  import opened Lens
  import opened LensRoundTrip
  import opened Rendering
  import Raw

  /** No field has a lower rank than one before it. */
  predicate RanksAscend(fields: seq<(bytes, bytes)>) {
    forall i, j | 0 <= i < j < |fields| :: KeyOf(fields[i].0) <= KeyOf(fields[j].0)
  }

  /** Fields stay as they are when ordered exactly when their ranks never descend. */
  lemma InOrderIff(fields: seq<(bytes, bytes)>)
    ensures InOrder(fields) == fields <==> RanksAscend(fields)
  {
    hide KeyOf, OrderedFrom;
    var lines := LinesFor(fields);
    var ordered := Ordered(lines);
    if RanksAscend(fields) {
      SortedIsOrdered(lines, 0);
      assert PairsOf(lines) == fields;
    }
    if InOrder(fields) == fields {
      OrderedFromIsSorted(lines, 0);
      OrderedKeys(lines);
      forall i, j | 0 <= i < j < |fields|
        ensures KeyOf(fields[i].0) <= KeyOf(fields[j].0)
      {
        assert PairsOf(ordered)[i] == fields[i] && PairsOf(ordered)[j] == fields[j];
        assert ordered[i].key <= ordered[j].key;
      }
    }
  }

  /** Ordering keeps every line's name with its rank. */
  lemma OrderedKeys(lines: seq<HeaderLine>)
    requires forall i | 0 <= i < |lines| :: lines[i].key == KeyOf(lines[i].name)
    ensures forall i | 0 <= i < |Ordered(lines)| :: Ordered(lines)[i].key == KeyOf(Ordered(lines)[i].name)
  {
    hide KeyOf;
    KeysFrom(lines, 0);
  }

  lemma {:induction false} KeysFrom(lines: seq<HeaderLine>, from: nat)
    requires forall i | 0 <= i < |lines| :: lines[i].key == KeyOf(lines[i].name)
    ensures forall i | 0 <= i < |OrderedFrom(lines, from)| :: OrderedFrom(lines, from)[i].key == KeyOf(OrderedFrom(lines, from)[i].name)
    decreases EXTENSION + 1 - from
  {
    hide KeyOf, Of;
    if from <= EXTENSION {
      KeysOf(lines, from);
      KeysFrom(lines, from + 1);
    }
  }

  lemma {:induction false} KeysOf(lines: seq<HeaderLine>, key: nat)
    requires forall i | 0 <= i < |lines| :: lines[i].key == KeyOf(lines[i].name)
    ensures forall i | 0 <= i < |Of(lines, key)| :: Of(lines, key)[i].key == KeyOf(Of(lines, key)[i].name)
    decreases |lines|
  {
    hide KeyOf;
    if lines != [] {
      KeysOf(lines[..|lines| - 1], key);
    }
  }

  /**
   * Lifting and rendering undo each other. A record lifted from a header and paired with a body, if
   * it can be rendered, is lifted again from what is rendered for it, with repeated fields in the
   * same order. Fields kept as read come back in conventional order: the record is unchanged exactly
   * when their ranks never descend, as for every type of the standard they do not.
   */
  lemma LiftAndRenderUndo(c: Codec, checks: Checks, header: Raw.Header, body: bytes)
    requires c.Lawful() && Lift(c, header).Success? && WithBody(c, Lift(c, header).value, body).Some?
    requires IntoRaw(c, checks, WithBody(c, Lift(c, header).value, body).value).Success?
    ensures var r := WithBody(c, Lift(c, header).value, body).value;
            var out := IntoRaw(c, checks, r).value;
            var again := Lift(c, out.header);
            && again.Success?
            && WithBody(c, again.value, out.body) == Some(r.(header := r.header.(unrecognized := InOrder(r.header.unrecognized))))
            && (!r.header.recordType.Other? ==> WithBody(c, again.value, out.body) == Some(r))
            && (WithBody(c, again.value, out.body) == Some(r) <==> RanksAscend(r.header.unrecognized))
  {
    hide Codec.Lawful, Lift, IntoRaw, IsSettled, InOrder, RanksAscend;
    var h := Lift(c, header).value;
    var r := WithBody(c, h, body).value;
    LiftedIsSettled(c, header);
    PairedIsSettled(c, h, body);
    PairedTwice(c, h, body);
    RenderedLifts(c, checks, r);
    PairedTwice(c, h.(unrecognized := InOrder(h.unrecognized)), body);
    SettledOrder(c, r.header);
    InOrderIff(r.header.unrecognized);
    var renamed := r.header.(unrecognized := InOrder(r.header.unrecognized));
    assert WithBody(c, renamed, body) == Some(r.(header := renamed)) by {
      assert renamed == WithBody(c, h.(unrecognized := InOrder(h.unrecognized)), body).value.header;
    }
  }
}
