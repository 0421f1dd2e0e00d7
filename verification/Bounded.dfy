/** The bounded line reader and the two body consumers (`src/io/read.rs:642-753`). */
module Bounded {
  import opened Bytes
  import opened Framing
  import opened Sources
  import Raw

  /**
   * Read one line into `buffer` without letting it grow past `limit`. However the source splits its
   * octets, the outcome is `LineOutcome`, and the octets consumed are the ones appended.
   */
  method ReadLineBounded(reader: Counted, buffer: bytes, limit: nat)
    returns (appended: bytes, r: Result<LineRead, Error>)
    requires reader.Valid() && reader.Fresh()
    requires |buffer| <= limit
    modifies reader, reader.source.Object()
    ensures reader.Valid()
    ensures r == LineOutcome(reader.Input(), old(reader.At()), limit - |buffer|)
    ensures r.Success? ==> reader.Fresh()
    ensures old(reader.At()) <= reader.At() && |appended| <= limit
    ensures appended == buffer + reader.Input().octets[old(reader.At())..reader.At()]
    ensures !(r.Success? && r.value.LimitExceeded?) ==> reader.At() == LineStop(reader.Input(), old(reader.At()), r)
  {
    hide Counted.Valid, Counted.At, Counted.Input, Counted.Fresh, Counted.Offered, Offers, LineOutcome, Gathered, Find;
    ghost var input := reader.Input();
    ghost var p := reader.At();
    var count := 0;
    appended := buffer;
    GatherNothing(input, p, buffer, limit);
    while true
      invariant reader.Valid() && reader.Fresh()
      invariant count == reader.At() - p
      invariant Gathered(input, p, reader.At(), buffer, appended, limit)
      decreases |input.octets| - reader.At()
    {
      ghost var at := reader.At();
      var filled := reader.FillBuf();
      OfferIs(input, at, filled);
      GatheredLength(input, p, at, buffer, appended, limit);
      if filled.Failure? {
        NoLineLeft(input, p, at, buffer, appended, limit);
        return appended, Failure(Framing.Source(filled.error));
      }
      var available := filled.value;
      if available == [] {
        NoLineLeft(input, p, at, buffer, appended, limit);
        return appended, Success(Eof);
      }

      var allowance := limit - |appended|;
      var bounded := available[..if |available| < allowance then |available| else allowance];
      var index := Find(bounded, LF, 0);
      if index < |bounded| {
        FoundWithin(available, |bounded|, index);
        LineFound(input, p, at, buffer, appended, limit, available, index);
        appended := appended + available[..index + 1];
        reader.Consume(index + 1);
        return appended, Success(Line(count + index + 1));
      }

      if |available| >= allowance {
        LineTooLong(input, p, at, buffer, appended, limit, available);
        return appended, Success(LimitExceeded);
      }

      GatherMore(input, p, at, buffer, appended, limit, available);
      appended := appended + available;
      reader.Consume(|available|);
      count := count + |available|;
    }
  }

  /** The octets from `p` to `at` hold no line feed and stand after `buffer`, within the limit. */
  ghost predicate Gathered(input: Input, p: nat, at: nat, buffer: bytes, appended: bytes, limit: nat) {
    && p <= at <= |input.octets|
    && appended == buffer + input.octets[p..at]
    && |appended| <= limit && (at == p || |appended| < limit)
    && forall k | p <= k < at :: input.octets[k] != LF
  }

  lemma GatherNothing(input: Input, p: nat, buffer: bytes, limit: nat)
    requires p <= |input.octets| && |buffer| <= limit
    ensures Gathered(input, p, p, buffer, buffer, limit)
  {
    assert input.octets[p..p] == [];
  }

  lemma GatheredLength(input: Input, p: nat, at: nat, buffer: bytes, appended: bytes, limit: nat)
    requires Gathered(input, p, at, buffer, appended, limit)
    ensures p <= at <= |input.octets| && |appended| == |buffer| + (at - p) <= limit
    ensures appended == buffer + input.octets[p..at]
  {
  }

  lemma GatherMore(input: Input, p: nat, at: nat, buffer: bytes, appended: bytes, limit: nat, available: bytes)
    requires Gathered(input, p, at, buffer, appended, limit)
    requires at + |available| <= |input.octets| && available == input.octets[at..at + |available|]
    requires |appended| + |available| < limit && LF !in available
    ensures Gathered(input, p, at + |available|, buffer, appended + available, limit)
  {
    TakeMore(input.octets, p, at, available, |available|);
    ConcatAssociates(buffer, input.octets[p..at], available);
    assert available[..|available|] == available;
    assert forall k | at <= k < at + |available| :: input.octets[k] == available[k - at];
  }

  /** What an offer means: octets of the input, its end, or its failure. */
  lemma OfferIs(input: Input, at: nat, filled: Filled)
    requires at <= |input.octets| && Offers(input, at, filled)
    ensures filled.Failure? ==> at == |input.octets| && input.ending == Failing(filled.error)
    ensures filled.Success? && filled.value == [] ==> at == |input.octets| && input.ending == Clean
    ensures filled.Success? && filled.value != [] ==>
            at + |filled.value| <= |input.octets| && filled.value == input.octets[at..at + |filled.value|]
  {
  }

  lemma TakeMore(s: bytes, p: nat, at: nat, available: bytes, taken: nat)
    requires p <= at && taken <= |available| && at + |available| <= |s|
    requires available == s[at..at + |available|]
    ensures s[p..at] + available[..taken] == s[p..at + taken]
  {
    assert available[..taken] == s[at..at + taken];
    SlicesMeet(s, p, at, at + taken);
  }

  lemma NoLineLeft(input: Input, p: nat, at: nat, buffer: bytes, appended: bytes, limit: nat)
    requires Gathered(input, p, at, buffer, appended, limit) && at == |input.octets|
    requires |buffer| <= limit
    ensures LineOutcome(input, p, limit - |buffer|) == AtEnd(input.ending, Eof)
  {
  }

  /** A line feed found in the octets looked at is the first of those available. */
  lemma FoundWithin(available: bytes, n: nat, index: nat)
    requires n <= |available| && index == Find(available[..n], LF, 0) && index < n
    ensures available[index] == LF && forall k | 0 <= k < index :: available[k] != LF
  {
    assert forall k | 0 <= k < n :: available[..n][k] == available[k];
  }

  lemma LineFound(input: Input, p: nat, at: nat, buffer: bytes, appended: bytes, limit: nat, available: bytes, index: nat)
    requires Gathered(input, p, at, buffer, appended, limit)
    requires at + |available| <= |input.octets| && available == input.octets[at..at + |available|]
    requires index < |available| && |appended| + index < limit
    requires available[index] == LF && forall k | 0 <= k < index :: available[k] != LF
    ensures LineOutcome(input, p, limit - |buffer|) == Success(Line(at + index + 1 - p))
    ensures appended + available[..index + 1] == buffer + input.octets[p..at + index + 1]
  {
    assert forall k | at <= k < at + |available| :: input.octets[k] == available[k - at];
    FindUnique(input.octets, LF, p, at + index);
    TakeMore(input.octets, p, at, available, index + 1);
    ConcatAssociates(buffer, input.octets[p..at], available[..index + 1]);
  }

  lemma LineTooLong(input: Input, p: nat, at: nat, buffer: bytes, appended: bytes, limit: nat, available: bytes)
    requires Gathered(input, p, at, buffer, appended, limit)
    requires at + |available| <= |input.octets| && available == input.octets[at..at + |available|]
    requires available != [] && |appended| + |available| >= limit && |appended| <= limit
    requires forall k | 0 <= k < limit - |appended| :: available[k] != LF
    ensures LineOutcome(input, p, limit - |buffer|) == Success(LimitExceeded)
  {
    assert forall k | at <= k < at + |available| :: input.octets[k] == available[k - at];
    var lineFeed := Find(input.octets, LF, p);
    assert lineFeed - p >= limit - |buffer|;
  }

  lemma BodyCut(input: Input, p: nat, length: nat)
    requires p <= |input.octets|
    ensures length + 4 > MAX_USIZE ==> BodyAt(input, p, length) == Failure(BodyTooLarge)
    ensures length + 4 <= MAX_USIZE && p + length + 4 > |input.octets| ==>
            BodyAt(input, p, length) == match input.ending
                                        case Clean => Failure(UnexpectedEndOfBody)
                                        case Failing(kind) => Failure(Framing.Source(kind))
  {
  }

  lemma BodyRead(input: Input, p: nat, length: nat)
    requires p + length + 4 <= |input.octets| && length + 4 <= MAX_USIZE
    ensures BodyAt(input, p, length) ==
            if input.octets[p + length..p + length + 4] != Raw.TERMINATOR then Failure(MalformedRecordTerminator)
            else Success(input.octets[p..p + length])
  {
  }

  lemma SkipCut(input: Input, p: nat, length: nat)
    requires p <= |input.octets| && p + length + 4 > |input.octets|
    ensures SkipAt(input, p, length) == match input.ending
                                        case Clean => Failure(UnexpectedEndOfBody)
                                        case Failing(kind) =>
                                          if kind == UnexpectedEof && p + length <= |input.octets| then Failure(UnexpectedEndOfBody)
                                          else Failure(Framing.Source(kind))
  {
  }

  lemma SkipRead(input: Input, p: nat, length: nat)
    requires p + length + 4 <= |input.octets|
    ensures SkipAt(input, p, length) ==
            if input.octets[p + length..p + length + 4] != Raw.TERMINATOR then Failure(MalformedRecordTerminator)
            else Success(())
  {
  }

  /** The outcome and the final position are those of `BodyAt`, however the source splits its octets. */
  method ReadBody(reader: Counted, length: nat) returns (r: Result<bytes, Error>)
    requires reader.Valid() && reader.Fresh()
    modifies reader, reader.source.Object()
    ensures reader.Valid()
    ensures r == BodyAt(reader.Input(), old(reader.At()), length)
    ensures r.Success? ==> reader.Fresh() && reader.At() == old(reader.At()) + length + 4
    ensures reader.At() >= old(reader.At())
  {
    hide Counted.Valid, Counted.At, Counted.Input, Counted.Fresh, Counted.Offered, Offers, LineOutcome, BodyAt, SkipAt;
    if length > MAX_USIZE || length + 4 > MAX_USIZE {
      BodyCut(reader.Input(), reader.At(), length);
      return Failure(BodyTooLarge);
    }
    var needed := length + 4;
    ghost var p := reader.At();
    ghost var s := reader.Input().octets;
    var body: bytes := [];
    while |body| < needed
      invariant reader.Valid() && reader.Fresh()
      invariant |body| <= needed && p + |body| == reader.At() <= |s|
      invariant body == s[p..reader.At()]
      decreases needed - |body|
    {
      ghost var at := reader.At();
      var filled := reader.FillBuf();
      OfferIs(reader.Input(), reader.At(), filled);
      BodyCut(reader.Input(), p, length);
      if filled.Failure? {
        return Failure(Framing.Source(filled.error));
      }
      var available := filled.value;
      if available == [] {
        return Failure(UnexpectedEndOfBody);
      }
      var taken := if |available| < needed - |body| then |available| else needed - |body|;
      TakeMore(s, p, at, available, taken);
      body := body + available[..taken];
      reader.Consume(taken);
    }
    BodyRead(reader.Input(), p, length);
    assert body[length..] == s[p + length..p + length + 4];
    if body[length..] != Raw.TERMINATOR {
      return Failure(MalformedRecordTerminator);
    }
    r := Success(body[..length]);
    assert r.value == s[p..p + length];
  }

  /** Read exactly `count` octets, as `Read::read_exact` does for any reader. */
  method ReadExact(reader: Counted, count: nat) returns (octets: bytes, r: Result<(), Kind>)
    requires reader.Valid() && reader.Fresh()
    modifies reader, reader.source.Object()
    ensures reader.Valid() && reader.At() >= old(reader.At())
    ensures var input, p := reader.Input(), old(reader.At());
            if p + count <= |input.octets| then
              && r.Success? && octets == input.octets[p..p + count]
              && reader.At() == p + count && reader.Fresh()
            else r == Failure(if input.ending.Clean? then UnexpectedEof else input.ending.kind)
  {
    hide Counted.Valid, Counted.At, Counted.Input, Counted.Fresh, Counted.Offered, Offers, LineOutcome, BodyAt, SkipAt;
    ghost var p := reader.At();
    ghost var s := reader.Input().octets;
    octets := [];
    while |octets| < count
      invariant reader.Valid() && reader.Fresh()
      invariant |octets| <= count && p + |octets| == reader.At() <= |s|
      invariant octets == s[p..reader.At()]
      decreases count - |octets|
    {
      ghost var at := reader.At();
      var filled := reader.FillBuf();
      OfferIs(reader.Input(), reader.At(), filled);
      if filled.Failure? {
        return octets, Failure(filled.error);
      }
      var available := filled.value;
      if available == [] {
        return octets, Failure(UnexpectedEof);
      }
      var taken := if |available| < count - |octets| then |available| else count - |octets|;
      TakeMore(s, p, at, available, taken);
      octets := octets + available[..taken];
      reader.Consume(taken);
    }
    return octets, Success(());
  }

  /** The outcome and the final position are those of `SkipAt`, however the source splits its octets. */
  method SkipBody(reader: Counted, length: nat) returns (r: Result<(), Error>)
    requires reader.Valid() && reader.Fresh()
    modifies reader, reader.source.Object()
    ensures reader.Valid() && reader.At() >= old(reader.At())
    ensures r == SkipAt(reader.Input(), old(reader.At()), length)
    ensures r.Success? ==> reader.Fresh() && reader.At() == old(reader.At()) + length + 4
  {
    hide Counted.Valid, Counted.At, Counted.Input, Counted.Fresh, Counted.Offered, Offers, LineOutcome, BodyAt, SkipAt;
    ghost var p := reader.At();
    ghost var s := reader.Input().octets;
    var remaining := length;
    while remaining > 0
      invariant reader.Valid() && reader.Fresh()
      invariant 0 <= remaining <= length && reader.At() == p + (length - remaining) <= |s|
      decreases remaining
    {
      var filled := reader.FillBuf();
      OfferIs(reader.Input(), reader.At(), filled);
      if filled.Failure? || filled.value == [] {
        SkipCut(reader.Input(), p, length);
      }
      if filled.Failure? {
        return Failure(Framing.Source(filled.error));
      }
      var available := filled.value;
      if available == [] {
        return Failure(UnexpectedEndOfBody);
      }
      var taken := if |available| < remaining then |available| else remaining;
      reader.Consume(taken);
      remaining := remaining - taken;
    }
    var terminator, read := ReadExact(reader, 4);
    if read.Failure? {
      SkipCut(reader.Input(), p, length);
      return Failure(if read.error == UnexpectedEof then UnexpectedEndOfBody else Framing.Source(read.error));
    }
    SkipRead(reader.Input(), p, length);
    r := if terminator != Raw.TERMINATOR then Failure(MalformedRecordTerminator) else Success(());
  }
}
