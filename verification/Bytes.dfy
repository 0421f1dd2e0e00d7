/** Octets, octet strings, and the two wrapper types every other module uses. */
module Bytes {

  newtype byte = x: int | 0 <= x < 256

  type bytes = seq<byte>

  const LF: byte := 10
  const CR: byte := 13
  const SP: byte := 32
  const QUOTE: byte := 34
  const COLON: byte := 58
  const SEMICOLON: byte := 59
  const EQUALS: byte := 61
  const SLASH: byte := 47
  const BACKSLASH: byte := 92
  const LESS: byte := 60
  const GREATER: byte := 62
  const CRLF: bytes := [13, 10]

  const U64_MAX: nat := 0xFFFF_FFFF_FFFF_FFFF

  datatype Option<+T> = None | Some(value: T)

  datatype Result<+T, +E> = Success(value: T) | Failure(error: E) {
    predicate IsFailure() {
      Failure?
    }

    function PropagateFailure<U>(): Result<U, E>
      requires Failure?
    {
      Failure(error)
    }

    function Extract(): T
      requires Success?
    {
      value
    }
  }

  /** Linear white space: a space or a tab. */
  predicate IsLws(b: byte) {
    b == 32 || b == 9
  }

  /** `TEXT` admits every octet but the control characters, tabs excepted. */
  predicate IsTextChar(b: byte) {
    (32 <= b && b != 127) || b == 9
  }

  predicate IsText(s: bytes) {
    forall i | 0 <= i < |s| :: IsTextChar(s[i])
  }

  /** The `token` grammar of WARC 1.1: printable ASCII without the separators. */
  predicate IsTokenChar(b: byte) {
    && 32 < b < 127
    && b != 40 && b != 41 && b != 60 && b != 62 && b != 64
    && b != 44 && b != 59 && b != 58 && b != 34 && b != 47
    && b != 91 && b != 93 && b != 63 && b != 61 && b != 123
    && b != 125 && b != 92
  }

  predicate IsToken(s: bytes) {
    s != [] && forall i | 0 <= i < |s| :: IsTokenChar(s[i])
  }

  function ToLower(b: byte): byte {
    if 65 <= b <= 90 then b + 32 else b
  }

  function Lowered(s: bytes): bytes {
    seq(|s|, i requires 0 <= i < |s| => ToLower(s[i]))
  }

  /** ASCII case-insensitive equality. */
  predicate EqIgnoreCase(a: bytes, b: bytes) {
    |a| == |b| && forall i | 0 <= i < |a| :: ToLower(a[i]) == ToLower(b[i])
  }

  /** The first offset at or after `from` that holds `b`, or `|s|` when there is none. */
  function Find(s: bytes, b: byte, from: nat): (i: nat)
    requires from <= |s|
    ensures from <= i <= |s|
    ensures forall k | from <= k < i :: s[k] != b
    ensures i < |s| ==> s[i] == b
    decreases |s| - from
  {
    if from == |s| || s[from] == b then from else Find(s, b, from + 1)
  }

  /** `Find` is the only offset meeting its contract. */
  lemma FindUnique(s: bytes, b: byte, from: nat, i: nat)
    requires from <= i < |s|
    requires s[i] == b
    requires forall k | from <= k < i :: s[k] != b
    ensures Find(s, b, from) == i
  {
  }

  lemma ConcatAssociates<T>(a: seq<T>, b: seq<T>, c: seq<T>)
    ensures (a + b) + c == a + (b + c)
  {
  }

  /** Slices that meet make one slice. */
  lemma SlicesMeet<T>(s: seq<T>, i: nat, j: nat, k: nat)
    requires i <= j <= k <= |s|
    ensures s[i..j] + s[j..k] == s[i..k]
  {
  }

  lemma SliceOfSlice<T>(s: seq<T>, a: nat, b: nat, i: nat, j: nat)
    requires a <= b <= |s| && i <= j <= b - a
    ensures s[a..b][i..j] == s[a + i..a + j]
  {
    var left, right := s[a..b][i..j], s[a + i..a + j];
    assert |left| == |right|;
    assert forall k | 0 <= k < |left| :: left[k] == s[a + i + k] == right[k];
  }
}
