/** The body fields that may vary between warcinfo records that match (`crates/archivindex-warc-ops/src/merge.rs:353-418`). */
module MergeBodies {
  import opened Bytes
  import opened MergePlan
  import Raw

  /** Whole fields lead from the line at `i` to the line at `p`. */
  ghost predicate FieldsLead(body: bytes, i: nat, p: nat)
    requires i <= |body|
    decreases |body| - i
  {
    || i == p
    || (i < p && i < |body| && BodyLine(body, i).0 != i && FieldsLead(body, Continued(body, BodyLine(body, i).1), p))
  }

  /** An ignored field occupies the lines from `p` to `q`. */
  ghost predicate IgnoredAt(body: bytes, p: nat, q: nat, ignored: seq<bytes>) {
    && p < |body|
    && var line := BodyLine(body, p);
       line.0 != p && IsIgnored(body[p..line.0], ignored) && q == Continued(body, line.1)
  }

  function Without(body: bytes, p: nat, q: nat): bytes
    requires p <= q <= |body|
  {
    body[..p] + body[q..]
  }

  // What is read from a line on depends on nothing before it.

  lemma LineShifts(s: bytes, i: nat, t: bytes, j: nat)
    requires i < |s| && j < |t| && s[i..] == t[j..]
    ensures BodyLine(s, i).0 - i == BodyLine(t, j).0 - j && BodyLine(s, i).1 - i == BodyLine(t, j).1 - j
  {
    assert |s| - i == |t| - j;
    assert forall k | i <= k < |s| :: s[k] == s[i..][k - i] == t[j + k - i];
    var feed := Find(s, LF, i);
    if feed < |s| {
      FindUnique(t, LF, j, j + feed - i);
    }
  }

  lemma SuffixShifts(s: bytes, i: nat, t: bytes, j: nat, n: nat)
    requires i <= |s| && j <= |t| && s[i..] == t[j..] && i + n <= |s| && j + n <= |t|
    ensures s[i + n..] == t[j + n..]
  {
    assert s[i + n..] == s[i..][n..] && t[j + n..] == t[j..][n..];
  }

  lemma {:induction false} ContinuedShifts(s: bytes, i: nat, t: bytes, j: nat)
    requires i <= |s| && j <= |t| && s[i..] == t[j..]
    ensures Continued(s, i) - i == Continued(t, j) - j
    decreases |s| - i
  {
    hide BodyLine;
    assert |s| - i == |t| - j;
    if i < |s| {
      assert s[i] == s[i..][0] == t[j];
      LineShifts(s, i, t, j);
      var n := BodyLine(s, i).1 - i;
      SuffixShifts(s, i, t, j, n);
      ContinuedShifts(s, i + n, t, j + n);
    }
  }

  lemma StrippedStep(s: bytes, i: nat, ignored: seq<bytes>)
    requires i < |s|
    ensures var line := BodyLine(s, i);
            var next := Continued(s, line.1);
            Stripped(s, i, ignored) ==
            if line.0 == i then s[i..]
            else (if IsIgnored(s[i..line.0], ignored) then [] else s[i..next]) + Stripped(s, next, ignored)
  {
    hide BodyLine, IsIgnored, Continued;
  }

  lemma StrippedAs(s: bytes, i: nat, ignored: seq<bytes>, line: bytes, field: bytes, rest: bytes)
    requires i < |s|
    requires line == s[i..BodyLine(s, i).0]
    requires var next := Continued(s, BodyLine(s, i).1); field == s[i..next] && rest == Stripped(s, next, ignored)
    ensures Stripped(s, i, ignored) == if line == [] then s[i..] else (if IsIgnored(line, ignored) then [] else field) + rest
  {
    hide BodyLine, IsIgnored, Continued, Stripped;
    StrippedStep(s, i, ignored);
  }

  lemma SliceShifts(s: bytes, i: nat, t: bytes, j: nat, n: nat)
    requires i + n <= |s| && j + n <= |t| && s[i..] == t[j..]
    ensures s[i..i + n] == t[j..j + n]
  {
    assert s[i..i + n] == s[i..][..n] && t[j..j + n] == t[j..][..n];
  }

  /** A field and its first line are alike wherever they stand, and so is what follows them. */
  lemma FieldShifts(s: bytes, i: nat, t: bytes, j: nat) returns (end: nat, next: nat, n: nat)
    requires i < |s| && j < |t| && s[i..] == t[j..]
    ensures end == BodyLine(s, i).0 - i && end == BodyLine(t, j).0 - j
    ensures next == BodyLine(s, i).1 - i && next == BodyLine(t, j).1 - j
    ensures n == Continued(s, BodyLine(s, i).1) - i && n == Continued(t, BodyLine(t, j).1) - j
    ensures 0 < n && i + n <= |s| && j + n <= |t| && s[i + n..] == t[j + n..]
    ensures s[i..i + end] == t[j..j + end] && s[i..i + n] == t[j..j + n]
  {
    hide BodyLine, Continued;
    assert |s[i..]| == |s| - i && |t[j..]| == |t| - j;
    LineShifts(s, i, t, j);
    end, next := BodyLine(s, i).0 - i, BodyLine(s, i).1 - i;
    SuffixShifts(s, i, t, j, next);
    ContinuedShifts(s, i + next, t, j + next);
    n := Continued(s, i + next) - i;
    SuffixShifts(s, i, t, j, n);
    SliceShifts(s, i, t, j, end);
    SliceShifts(s, i, t, j, n);
  }

  lemma {:induction false} StrippedShifts(s: bytes, i: nat, t: bytes, j: nat, ignored: seq<bytes>)
    requires i <= |s| && j <= |t| && s[i..] == t[j..]
    ensures Stripped(s, i, ignored) == Stripped(t, j, ignored)
    decreases |s| - i
  {
    hide BodyLine, IsIgnored, Continued, Stripped;
    assert |s[i..]| == |s| - i && |t[j..]| == |t| - j;
    if i == |s| {
      NothingStripped(s, ignored);
      NothingStripped(t, ignored);
    } else {
      var end, next, n := FieldShifts(s, i, t, j);
      StrippedShifts(s, i + n, t, j + n, ignored);
      var line, field, rest := s[i..i + end], s[i..i + n], Stripped(s, i + n, ignored);
      StrippedAs(s, i, ignored, line, field, rest);
      StrippedAs(t, j, ignored, line, field, rest);
    }
  }

  lemma NothingStripped(s: bytes, ignored: seq<bytes>)
    ensures Stripped(s, |s|, ignored) == []
  {
  }

  // What is read up to a line depends on nothing after it.

  lemma LineBefore(s: bytes, t: bytes, i: nat, p: nat)
    requires i < p <= |s| && p <= |t| && s[..p] == t[..p]
    requires BodyLine(s, i).1 <= p && p < |s|
    ensures BodyLine(t, i) == BodyLine(s, i)
  {
    assert forall k | 0 <= k < p :: s[k] == s[..p][k] == t[k];
    FindUnique(t, LF, i, Find(s, LF, i));
  }

  lemma {:induction false} ContinuedBefore(s: bytes, t: bytes, i: nat, p: nat)
    requires i <= p < |s| && p <= |t| && s[..p] == t[..p]
    requires Continued(s, i) <= p && (p < |t| ==> !IsLws(t[p]))
    ensures Continued(t, i) == Continued(s, i)
    decreases |s| - i
  {
    hide BodyLine;
    assert forall k | 0 <= k < p :: s[k] == s[..p][k] == t[k];
    if i < p && IsLws(s[i]) {
      LineBefore(s, t, i, p);
      ContinuedBefore(s, t, BodyLine(s, i).1, p);
    }
  }

  lemma {:induction false} FieldsLeadForward(body: bytes, i: nat, p: nat)
    requires i <= |body| && FieldsLead(body, i, p)
    ensures i <= p
  {
  }

  lemma {:induction false} StrippedWithout(s: bytes, i: nat, p: nat, q: nat, ignored: seq<bytes>)
    requires IgnoredAt(s, p, q, ignored) && i <= |s| && FieldsLead(s, i, p)
    ensures p <= q <= |s| && i <= p
    ensures Stripped(s, i, ignored) == Stripped(Without(s, p, q), i, ignored)
    decreases |s| - i
  {
    hide BodyLine, IsIgnored, Continued, Stripped, Without;
    FieldsLeadForward(s, i, p);
    var t := Without(s, p, q);
    Halves(s, p, q);
    if i == p {
      StrippedStep(s, p, ignored);
      StrippedShifts(s, q, t, p, ignored);
      assert [] + Stripped(s, q, ignored) == Stripped(s, q, ignored);
    } else {
      var line := BodyLine(s, i);
      var next := Continued(s, line.1);
      FieldsLeadForward(s, next, p);
      StrippedWithout(s, next, p, q, ignored);
      LineBefore(s, t, i, p);
      ContinuedBefore(s, t, line.1, p);
      SliceBefore(s, t, i, line.0, p);
      SliceBefore(s, t, i, next, p);
      StrippedStep(s, i, ignored);
      StrippedStep(t, i, ignored);
    }
  }

  lemma Halves(s: bytes, p: nat, q: nat)
    requires p <= q <= |s|
    ensures var t := Without(s, p, q);
            && p <= |t| && t[..p] == s[..p] && t[p..] == s[q..]
            && (p < |t| ==> q < |s| && t[p] == s[q])
  {
  }

  lemma SliceBefore(s: bytes, t: bytes, i: nat, j: nat, p: nat)
    requires i <= j <= p <= |s| && p <= |t| && s[..p] == t[..p]
    ensures s[i..j] == t[i..j]
  {
    assert s[i..j] == s[..p][i..j] && t[i..j] == t[..p][i..j];
  }

  /**
   * Warcinfo records whose bodies differ by a whole ignored field, wherever it stands among the
   * fields and however it is folded, match as they would without it.
   */
  lemma IgnoredFieldsMayVary(w: Matching, record: Raw.Record, p: nat, q: nat)
    requires IgnoredAt(record.body, p, q, w.ignored) && FieldsLead(record.body, 0, p)
    requires p <= q <= |record.body|
    requires w.isFields(record.body) && w.isFields(Without(record.body, p, q))
    ensures KeyOf(w, record) == KeyOf(w, Raw.Record(record.header, Without(record.body, p, q)))
  {
    hide MatchingFields, Stripped, IgnoredAt, FieldsLead;
    StrippedWithout(record.body, 0, p, q, w.ignored);
  }
}
