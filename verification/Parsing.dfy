/** Lines, names, folds and counts, as the parsers of every level find them (`src/parsing.rs`). */
module Parsing {
  import opened Bytes
  import opened Radix

  /** Where a line's content ends, where the next line begins, and whether it ended in `CRLF`. */
  datatype Line = Line(end: nat, next: nat, crlf: bool)

  function NextLine(block: bytes, start: nat): (r: Option<Line>)
    ensures r.Some? ==> start <= r.value.end < r.value.next <= |block|
  {
    if start > |block| then None
    else
      var lineFeed := Find(block, LF, start);
      if lineFeed == |block| then None
      else
        var crlf := lineFeed > start && block[lineFeed - 1] == CR;
        Some(Line(if crlf then lineFeed - 1 else lineFeed, lineFeed + 1, crlf))
  }

  // ---------------------------------------------------------------------------------------------
  // Field lines
  // ---------------------------------------------------------------------------------------------

  /** A field line opens with a token, optional white space, and a colon at `colon`. */
  ghost predicate FieldLine(line: bytes, name: nat, colon: nat) {
    && 0 < name <= colon < |line|
    && IsToken(line[..name])
    && !IsTokenChar(line[name])
    && (forall i | name <= i < colon :: IsLws(line[i]))
    && line[colon] == COLON
  }

  /** The reference form of `SplitFieldLine`. */
  function TokenEnd(line: bytes, i: nat): (e: nat)
    requires i <= |line|
    ensures i <= e <= |line|
    ensures forall k | i <= k < e :: IsTokenChar(line[k])
    ensures e < |line| ==> !IsTokenChar(line[e])
    decreases |line| - i
  {
    if i == |line| || !IsTokenChar(line[i]) then i else TokenEnd(line, i + 1)
  }

  function SkipLws(line: bytes, i: nat): (e: nat)
    ensures i <= e
    ensures i <= |line| ==> e <= |line|
    ensures forall k | i <= k < e :: k < |line| && IsLws(line[k])
    ensures e < |line| ==> !IsLws(line[e])
    decreases |line| - i
  {
    if i < |line| && IsLws(line[i]) then SkipLws(line, i + 1) else i
  }

  function FieldLineOf(line: bytes): (r: Option<(nat, nat)>)
    ensures r.Some? ==> FieldLine(line, r.value.0, r.value.1)
    ensures r.None? ==> forall n: nat, c: nat :: !FieldLine(line, n, c)
  {
    var name := TokenEnd(line, 0);
    var colon := SkipLws(line, name);
    var r := if 0 < name && colon < |line| && line[colon] == COLON then Some((name, colon)) else None;
    assert r.None? ==> forall n: nat, c: nat :: !FieldLine(line, n, c) by {
      forall n: nat, c: nat | FieldLine(line, n, c)
        ensures r.Some?
      {
        FieldLineUnique(line, n, c);
      }
    }
    r
  }

  lemma FieldLineUnique(line: bytes, n: nat, c: nat)
    requires FieldLine(line, n, c)
    ensures TokenEnd(line, 0) == n && SkipLws(line, n) == c
  {
    assert forall k | 0 <= k < n :: IsTokenChar(line[..n][k]) && line[..n][k] == line[k];
  }

  method SplitFieldLine(line: bytes) returns (r: Option<(nat, nat)>)
    ensures r == FieldLineOf(line)
  {
    var name := 0;
    while name < |line| && IsTokenChar(line[name])
      invariant name <= |line|
      invariant TokenEnd(line, 0) == TokenEnd(line, name)
    {
      name := name + 1;
    }
    if name == 0 {
      return None;
    }
    var colon := name;
    while colon < |line| && IsLws(line[colon])
      invariant name <= colon <= |line|
      invariant SkipLws(line, name) == SkipLws(line, colon)
    {
      colon := colon + 1;
    }
    r := if colon < |line| && line[colon] == COLON then Some((name, colon)) else None;
  }

  // ---------------------------------------------------------------------------------------------
  // Folded values
  // ---------------------------------------------------------------------------------------------

  /** `CRLF` followed by linear white space begins at `i`. */
  predicate FoldAt(v: bytes, i: nat) {
    i + 2 < |v| && v[i] == CR && v[i + 1] == LF && IsLws(v[i + 2])
  }

  /** The octet at `i` is a line break that is no part of a fold. */
  predicate Stray(v: bytes, i: nat)
    requires i < |v|
  {
    || (v[i] == CR && !FoldAt(v, i))
    || (v[i] == LF && !(i > 0 && FoldAt(v, i - 1)))
  }

  /** The only line breaks are the `CRLF`s of folds. */
  predicate IsFolded(v: bytes) {
    forall i | 0 <= i < |v| :: !Stray(v, i)
  }

  method StrayLineBreak(v: bytes) returns (r: Option<nat>)
    ensures r.None? <==> IsFolded(v)
    ensures r.Some? ==> r.value < |v| && Stray(v, r.value) && forall j | 0 <= j < r.value :: !Stray(v, j)
  {
    var index := 0;
    while index < |v|
      invariant forall j | 0 <= j < index && j < |v| :: !Stray(v, j)
      invariant 0 < index <= |v| ==> v[index - 1] != CR
    {
      if v[index] == CR {
        if !(index + 1 < |v| && v[index + 1] == LF) || !(index + 2 < |v| && IsLws(v[index + 2])) {
          assert Stray(v, index);
          return Some(index);
        }
        assert FoldAt(v, index) && !Stray(v, index) && !Stray(v, index + 1) && !Stray(v, index + 2);
        index := index + 3;
      } else if v[index] == LF {
        assert Stray(v, index);
        return Some(index);
      } else {
        index := index + 1;
      }
    }
    return None;
  }

  // ---------------------------------------------------------------------------------------------
  // Unfolding
  // ---------------------------------------------------------------------------------------------

  predicate IsWhiteSpace(b: byte) {
    b == 32 || b == 9 || b == 13 || b == 10
  }

  function TrimStart(v: bytes): (t: bytes)
    ensures |t| <= |v| && t == v[|v| - |t|..]
    ensures t == [] || !IsWhiteSpace(t[0])
    ensures forall i | 0 <= i < |v| - |t| :: IsWhiteSpace(v[i])
  {
    if v == [] || !IsWhiteSpace(v[0]) then v else TrimStart(v[1..])
  }

  function TrimEnd(v: bytes): (t: bytes)
    ensures |t| <= |v| && t == v[..|t|]
    ensures t == [] || !IsWhiteSpace(t[|t| - 1])
    ensures forall i | |t| <= i < |v| :: IsWhiteSpace(v[i])
  {
    if v == [] || !IsWhiteSpace(v[|v| - 1]) then v else TrimEnd(v[..|v| - 1])
  }

  /** Both ends lose their white space; a fold there goes with its line break. */
  function Trim(v: bytes): (t: bytes)
    ensures t == [] || (!IsWhiteSpace(t[0]) && !IsWhiteSpace(t[|t| - 1]))
  {
    TrimEnd(TrimStart(v))
  }

  /** What unfolding writes from `i` on: a fold and the white space after it become one space. */
  function UnfoldFrom(t: bytes, i: nat): bytes
    decreases |t| - i
  {
    if i >= |t| then []
    else if t[i] == CR then [SP] + UnfoldFrom(t, SkipLws(t, i + 2))
    else [t[i]] + UnfoldFrom(t, i + 1)
  }

  function Unfolded(v: bytes): bytes {
    UnfoldFrom(Trim(v), 0)
  }

  /** The loop of `unfold`, whose skip of the octet after a `CR` is unchecked. */
  method Unfold(v: bytes) returns (r: bytes)
    ensures r == Unfolded(v)
  {
    hide UnfoldFrom, Trim, TrimStart, TrimEnd;
    var trimmed := Trim(v);
    if CR !in trimmed {
      UnfoldPlain(trimmed, 0);
      return trimmed;
    }
    r := [];
    var index := 0;
    UnfoldStart(trimmed);
    while index < |trimmed|
      invariant Unfolding(trimmed, r, index)
      decreases |trimmed| - index
    {
      ghost var before, done := index, r;
      if trimmed[index] == CR {
        index := index + 2;
        while index < |trimmed| && IsLws(trimmed[index])
          invariant before + 2 <= index
          invariant SkipLws(trimmed, before + 2) == SkipLws(trimmed, index)
          decreases |trimmed| - index
        {
          index := index + 1;
        }
        assert index == SkipLws(trimmed, before + 2);
        r := r + [SP];
      } else {
        r := r + [trimmed[index]];
        index := index + 1;
      }
      UnfoldStep(trimmed, before, done, r, index);
    }
    UnfoldEnd(trimmed, r, index);
  }

  /** `r` is what unfolding `t` has written once it has come to `i`. */
  ghost predicate Unfolding(t: bytes, r: bytes, i: nat) {
    r + UnfoldFrom(t, i) == UnfoldFrom(t, 0)
  }

  lemma UnfoldStart(t: bytes)
    ensures Unfolding(t, [], 0)
  {
    assert [] + UnfoldFrom(t, 0) == UnfoldFrom(t, 0);
  }

  lemma UnfoldEnd(t: bytes, r: bytes, i: nat)
    requires Unfolding(t, r, i) && i >= |t|
    ensures r == UnfoldFrom(t, 0)
  {
  }

  lemma UnfoldStep(t: bytes, i: nat, done: bytes, next: bytes, j: nat)
    requires i < |t|
    requires if t[i] == CR then next == done + [SP] && j == SkipLws(t, i + 2) else next == done + [t[i]] && j == i + 1
    requires Unfolding(t, done, i)
    ensures Unfolding(t, next, j)
  {
  }

  lemma {:induction false} UnfoldPlain(t: bytes, i: nat)
    requires i <= |t|
    requires CR !in t
    ensures UnfoldFrom(t, i) == t[i..]
    decreases |t| - i
  {
    if i < |t| {
      UnfoldPlain(t, i + 1);
    }
  }

  // ---------------------------------------------------------------------------------------------
  // Content-Length
  // ---------------------------------------------------------------------------------------------

  function TrimLws(s: bytes): bytes {
    if s != [] && IsLws(s[0]) then TrimLws(s[1..])
    else if s != [] && IsLws(s[|s| - 1]) then TrimLws(s[..|s| - 1])
    else s
  }

  function ParseContentLength(s: bytes): Option<nat> {
    var digits := TrimLws(s);
    if AreDigits(digits) && Decimal(digits) <= U64_MAX
    then Some(Decimal(digits))
    else None
  }
}
