/** Unfolding is a normal form on the values the raw layer accepts. */
module Unfolding {
  import opened Bytes
  import opened Parsing

  lemma TrimIsWindow(v: bytes) returns (a: nat)
    ensures a + |Trim(v)| <= |v| && forall k | 0 <= k < |Trim(v)| :: Trim(v)[k] == v[a + k]
  {
    hide TrimStart, TrimEnd;
    var s := TrimStart(v);
    a := |v| - |s|;
    assert forall k | 0 <= k < |s| :: s[k] == v[a + k];
    assert Trim(v) == s[..|Trim(v)|];
  }

  /** Trimming cuts no fold apart, so the trimmed value is folded too. */
  lemma TrimKeepsFolds(v: bytes)
    requires IsFolded(v)
    ensures IsFolded(Trim(v))
  {
    hide Trim;
    var t := Trim(v);
    var a := TrimIsWindow(v);
    forall i | 0 <= i < |t|
      ensures !Stray(t, i)
    {
      assert !Stray(v, a + i);
      if t[i] == CR {
        WithinTrimmed(v, t, a, i);
      } else if t[i] == LF {
        WithinTrimmed(v, t, a, i - 1);
      }
    }
  }

  /** A fold of `v` that begins within its trimmed part `t` ends there too. */
  lemma WithinTrimmed(v: bytes, t: bytes, a: nat, i: nat)
    requires i < |t| && a + |t| <= |v| && forall k | 0 <= k < |t| :: t[k] == v[a + k]
    requires !IsWhiteSpace(t[|t| - 1])
    requires FoldAt(v, a + i)
    ensures FoldAt(t, i)
  {
    assert IsWhiteSpace(v[a + i]) && IsWhiteSpace(v[a + i + 1]) && IsWhiteSpace(v[a + i + 2]);
    assert i != |t| - 1;
    assert t[i + 1] == v[a + (i + 1)] && i + 1 != |t| - 1;
    assert t[i + 2] == v[a + (i + 2)];
  }

  predicate HasNoBreaks(v: bytes) {
    CR !in v && LF !in v
  }

  lemma {:induction false} UnfoldHasNoBreaks(t: bytes, i: nat)
    requires IsFolded(t)
    requires i < |t| ==> t[i] != LF
    ensures HasNoBreaks(UnfoldFrom(t, i))
    decreases |t| - i
  {
    if i < |t| {
      assert !Stray(t, i);
      if t[i] == CR {
        var j := SkipLws(t, i + 2);
        assert IsLws(t[i + 2]) && j > i + 2 && IsLws(t[j - 1]);
        assert j < |t| ==> !Stray(t, j);
        UnfoldHasNoBreaks(t, j);
      } else {
        assert i + 1 < |t| ==> !Stray(t, i + 1);
        UnfoldHasNoBreaks(t, i + 1);
      }
    }
  }

  lemma {:induction false} UnfoldKeepsLast(t: bytes, i: nat)
    requires i < |t| && !IsWhiteSpace(t[|t| - 1])
    requires IsFolded(t)
    ensures var r := UnfoldFrom(t, i); r != [] && r[|r| - 1] == t[|t| - 1]
    decreases |t| - i
  {
    assert !Stray(t, i);
    if t[i] == CR {
      var j := SkipLws(t, i + 2);
      assert j < |t|;
      UnfoldKeepsLast(t, j);
    } else if i + 1 < |t| {
      UnfoldKeepsLast(t, i + 1);
    }
  }

  lemma TrimOfTrimmed(t: bytes)
    requires t == [] || (!IsWhiteSpace(t[0]) && !IsWhiteSpace(t[|t| - 1]))
    ensures Trim(t) == t
  {
  }

  /**
   * Unfolding a folded value leaves no line break and no outer white space, and unfolding again
   * changes nothing.
   */
  lemma UnfoldIsNormalForm(v: bytes)
    requires IsFolded(v)
    ensures HasNoBreaks(Unfolded(v))
    ensures Trim(Unfolded(v)) == Unfolded(v)
    ensures Unfolded(Unfolded(v)) == Unfolded(v)
  {
    var t := Trim(v);
    var r := Unfolded(v);
    TrimKeepsFolds(v);
    UnfoldHasNoBreaks(t, 0);
    if t != [] {
      UnfoldKeepsLast(t, 0);
    }
    TrimOfTrimmed(r);
    UnfoldPlain(r, 0);
  }

  lemma {:induction false} SkipLwsShift(x: bytes, b: bytes, i: nat)
    ensures SkipLws(x + b, |x| + i) == |x| + SkipLws(b, i)
    decreases |b| - i
  {
    if i < |b| && IsLws(b[i]) {
      assert (x + b)[|x| + i] == b[i];
      SkipLwsShift(x, b, i + 1);
    }
  }

  lemma UnfoldAt(t: bytes, i: nat)
    ensures i >= |t| ==> UnfoldFrom(t, i) == []
    ensures i < |t| && t[i] == CR ==> UnfoldFrom(t, i) == [SP] + UnfoldFrom(t, SkipLws(t, i + 2))
    ensures i < |t| && t[i] != CR ==> UnfoldFrom(t, i) == [t[i]] + UnfoldFrom(t, i + 1)
  {
  }

  lemma {:induction false} UnfoldShift(x: bytes, b: bytes, i: nat)
    ensures UnfoldFrom(x + b, |x| + i) == UnfoldFrom(b, i)
    decreases |b| - i
  {
    hide UnfoldFrom, SkipLws, IsLws;
    UnfoldAt(x + b, |x| + i);
    UnfoldAt(b, i);
    if i < |b| {
      assert (x + b)[|x| + i] == b[i];
      if b[i] == CR {
        SkipLwsShift(x, b, i + 2);
        UnfoldShift(x, b, SkipLws(b, i + 2));
      } else {
        UnfoldShift(x, b, i + 1);
      }
    }
  }

  lemma {:induction false} SkipLwsRun(x: bytes, w: bytes, b: bytes, i: nat)
    requires i <= |w|
    requires forall k | 0 <= k < |w| :: IsLws(w[k])
    requires b == [] || !IsLws(b[0])
    ensures SkipLws(x + w + b, |x| + i) == |x| + |w|
    decreases |w| - i
  {
    var s := x + w + b;
    if i < |w| {
      assert s[|x| + i] == w[i];
      SkipLwsRun(x, w, b, i + 1);
    } else if b != [] {
      assert s[|x| + |w|] == b[0];
    }
  }

  /** An interior fold, however much white space follows its line break, becomes one space. */
  lemma {:induction false} FoldBecomesOneSpace(a: bytes, w: bytes, b: bytes)
    requires CR !in a
    requires forall k | 0 <= k < |w| :: IsLws(w[k])
    requires b == [] || !IsLws(b[0])
    ensures UnfoldFrom(a + CRLF + w + b, 0) == a + [SP] + UnfoldFrom(b, 0)
    decreases |a|
  {
    hide UnfoldFrom, SkipLws, IsLws;
    if a == [] {
      var t := CRLF + w + b;
      assert a + CRLF + w + b == t && a + [SP] == [SP];
      SkipLwsRun(CRLF, w, b, 0);
      UnfoldShift(CRLF + w, b, 0);
      UnfoldAt(t, 0);
    } else {
      var t' := a[1..] + CRLF + w + b;
      var t := [a[0]] + t';
      assert a[0] in a && t[0] == a[0];
      assert a + CRLF + w + b == t;
      UnfoldAt(t, 0);
      UnfoldShift([a[0]], t', 0);
      FoldBecomesOneSpace(a[1..], w, b);
      ConcatAssociates([a[0]], a[1..], [SP]);
      ConcatAssociates([a[0]], a[1..] + [SP], UnfoldFrom(b, 0));
    }
  }
}
