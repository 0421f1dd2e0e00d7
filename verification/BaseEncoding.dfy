/** The base encodings of a digest value (`crates/archivindex-warc-digest/src/parsing.rs`; sections 4 to 6 and 8 of RFC 4648). */
module BaseEncoding {
  import opened Bytes
  import opened Radix

  datatype Encoding = Base16 | Base32 | Base64

  /** The bits a digit stands for. */
  function Bits(e: Encoding): nat {
    match e
    case Base16 => 4
    case Base32 => 5
    case Base64 => 6
  }

  /** The number of digits there are. */
  function Base(e: Encoding): nat {
    match e
    case Base16 => 16
    case Base32 => 32
    case Base64 => 64
  }

  /** The digits of a group that padding fills up. */
  function Group(e: Encoding): nat {
    match e
    case Base16 => 1
    case Base32 => 8
    case Base64 => 4
  }

  // ---------------------------------------------------------------------------------------------
  // Digits
  // ---------------------------------------------------------------------------------------------

  /** How a digit is written: Base16 in lower case, Base32 in upper case. */
  function Symbol(e: Encoding, d: nat): (b: byte)
    requires d < Base(e)
  {
    match e
    case Base16 => if d < 10 then 48 + d as byte else 87 + d as byte
    case Base32 => if d < 26 then 65 + d as byte else 24 + d as byte
    case Base64 =>
      if d < 26 then 65 + d as byte
      else if d < 52 then 71 + d as byte
      else if d < 62 then (d - 4) as byte
      else if d == 62 then 43
      else 47
  }

  /** How a digit is read: Base16 and Base32 in either case, Base64 in either alphabet. */
  function DigitOf(e: Encoding, b: byte): (d: Option<nat>)
    ensures d.Some? ==> d.value < Base(e) && b != EQUALS
  {
    match e
    case Base16 =>
      if 48 <= b <= 57 then Some((b - 48) as nat)
      else if 97 <= b <= 102 then Some((b - 87) as nat)
      else if 65 <= b <= 70 then Some((b - 55) as nat)
      else None
    case Base32 =>
      if 65 <= b <= 90 then Some((b - 65) as nat)
      else if 97 <= b <= 122 then Some((b - 97) as nat)
      else if 50 <= b <= 55 then Some((b - 24) as nat)
      else None
    case Base64 =>
      if 65 <= b <= 90 then Some((b - 65) as nat)
      else if 97 <= b <= 122 then Some((b - 71) as nat)
      else if 48 <= b <= 57 then Some(b as nat + 4)
      else if b == 43 || b == 45 then Some(62)
      else if b == 47 || b == 95 then Some(63)
      else None
  }

  lemma SymbolIsRead(e: Encoding, d: nat)
    requires d < Base(e)
    ensures DigitOf(e, Symbol(e, d)) == Some(d) && Symbol(e, d) != EQUALS
  {
  }

  function Symbols(e: Encoding, ds: seq<nat>): (s: bytes)
    requires forall i | 0 <= i < |ds| :: ds[i] < Base(e)
    ensures |s| == |ds| && forall i | 0 <= i < |ds| :: s[i] == Symbol(e, ds[i])
  {
    seq(|ds|, i requires 0 <= i < |ds| => Symbol(e, ds[i]))
  }

  predicate AreDigits(e: Encoding, s: bytes) {
    forall i | 0 <= i < |s| :: DigitOf(e, s[i]).Some?
  }

  function DigitValues(e: Encoding, s: bytes): (ds: seq<nat>)
    requires AreDigits(e, s)
    ensures |ds| == |s| && forall i | 0 <= i < |s| :: ds[i] == DigitOf(e, s[i]).value < Base(e)
  {
    seq(|s|, i requires 0 <= i < |s| => DigitOf(e, s[i]).value)
  }

  // ---------------------------------------------------------------------------------------------
  // Encoding
  // ---------------------------------------------------------------------------------------------

  /** The digits that `n` octets take: every bit has one, the last filled up with zeros. */
  function DigitCount(e: Encoding, n: nat): nat {
    (8 * n + Bits(e) - 1) / Bits(e)
  }

  /** The zero bits that fill up the last of `count` digits. */
  function SpareBits(e: Encoding, count: nat): nat {
    count * Bits(e) % 8
  }

  function PaddingFor(e: Encoding, count: nat): nat {
    if e.Base16? then 0 else (Group(e) - count % Group(e)) % Group(e)
  }

  function Repeated(b: byte, n: nat): bytes {
    seq(n, _ => b)
  }

  /** The digits of a digest, its bits followed by the spare ones. */
  function EncodedDigits(e: Encoding, digest: bytes): seq<nat> {
    var count := DigitCount(e, |digest|);
    Digits(OctetNumber(digest) * Pow(2, SpareBits(e, count)), Base(e), count)
  }

  function Encode(e: Encoding, digest: bytes): bytes {
    Symbols(e, EncodedDigits(e, digest)) + Repeated(EQUALS, PaddingFor(e, DigitCount(e, |digest|)))
  }

  // ---------------------------------------------------------------------------------------------
  // Decoding
  // ---------------------------------------------------------------------------------------------

  /** What is left of a value once padding is removed, which must be just what its digits call for. */
  function Unpadded(value: bytes, group: nat): Option<bytes>
    requires group > 0
  {
    var end := Find(value, EQUALS, 0);
    var digits, padding := value[..end], value[end..];
    if (forall i | 0 <= i < |padding| :: padding[i] == EQUALS)
       && (padding == [] || |padding| == (group - |digits| % group) % group)
    then Some(digits) else None
  }

  function DigitsIn(e: Encoding, value: bytes): Option<bytes> {
    if e.Base16? then Some(value) else Unpadded(value, Group(e))
  }

  /** A count of digits is one this encoding writes when fewer bits are spare than a digit has. */
  function LengthOf(e: Encoding, count: nat): Option<nat> {
    if SpareBits(e, count) < Bits(e) then Some(count * Bits(e) / 8) else None
  }

  function DecodedLength(e: Encoding, value: bytes): Option<nat> {
    match DigitsIn(e, value)
    case Some(digits) => LengthOf(e, |digits|)
    case None => None
  }

  /** The octets some digits stand for, when the spare bits are zero. */
  function DecodeDigits(e: Encoding, digits: bytes): Option<bytes> {
    if !AreDigits(e, digits) || LengthOf(e, |digits|).None? then None
    else
      var n := Number(DigitValues(e, digits), Base(e));
      var spare := Pow(2, SpareBits(e, |digits|));
      if n % spare != 0 then None else Some(Octets(n / spare, LengthOf(e, |digits|).value))
  }

  function Decode(e: Encoding, value: bytes): Option<bytes> {
    match DigitsIn(e, value)
    case Some(digits) => DecodeDigits(e, digits)
    case None => None
  }

  // ---------------------------------------------------------------------------------------------
  // What is encoded is decoded
  // ---------------------------------------------------------------------------------------------

  lemma CountOf(e: Encoding, n: nat)
    ensures var count := DigitCount(e, n);
            && count * Bits(e) == 8 * n + SpareBits(e, count) && SpareBits(e, count) < Bits(e)
            && LengthOf(e, count) == Some(n)
  {
    var count := DigitCount(e, n);
    match e {
      case Base16 => Spare(n, 2 * n * 4);
      case Base32 => Ceiling5(n, count);
      case Base64 => Ceiling6(n, count);
    }
  }

  lemma Spare(n: nat, bits: nat)
    requires 8 * n <= bits < 8 * n + 8
    ensures bits % 8 == bits - 8 * n && bits / 8 == n
  {
  }

  lemma Ceiling5(n: nat, count: nat)
    requires count == (8 * n + 4) / 5
    ensures 8 * n <= count * 5 < 8 * n + 5 && count * 5 % 8 == count * 5 - 8 * n && count * 5 / 8 == n
  {
    Spare(n, count * 5);
  }

  lemma Ceiling6(n: nat, count: nat)
    requires count == (8 * n + 5) / 6
    ensures 8 * n <= count * 6 < 8 * n + 6 && count * 6 % 8 == count * 6 - 8 * n && count * 6 / 8 == n
  {
    Spare(n, count * 6);
  }

  /** The digits have just the bits of the octets and the spare ones. */
  lemma SameBits(e: Encoding, n: nat)
    ensures var count := DigitCount(e, n);
            Pow(Base(e), count) == Pow(256, n) * Pow(2, SpareBits(e, count))
  {
    hide Pow, DigitCount, SpareBits, Bits, Base;
    var count := DigitCount(e, n);
    CountOf(e, n);
    BaseIsPower(e);
    Commutes(Bits(e), count);
    PowersSplit(Bits(e), count, n, SpareBits(e, count));
  }

  lemma Commutes(a: nat, b: nat)
    ensures a * b == b * a
  {
  }

  lemma PowersSplit(bits: nat, count: nat, n: nat, spare: nat)
    requires bits * count == 8 * n + spare
    ensures Pow(Pow(2, bits), count) == Pow(Pow(2, 8), n) * Pow(2, spare)
  {
    hide Pow;
    PowMul(2, bits, count);
    PowMul(2, 8, n);
    PowAdd(2, 8 * n, spare);
  }

  lemma BaseIsPower(e: Encoding)
    ensures Pow(2, Bits(e)) == Base(e) && Pow(2, 8) == 256
  {
    assert Pow(2, 4) == 16;
    assert Pow(2, 5) == 2 * Pow(2, 4) && Pow(2, 6) == 2 * Pow(2, 5) && Pow(2, 8) == 4 * Pow(2, 6);
  }

  lemma Scaled(a: nat, bound: nat, scale: nat)
    requires a < bound && scale > 0
    ensures a * scale < bound * scale && a * scale % scale == 0 && a * scale / scale == a
  {
    Grows(scale, a + 1, bound);
    assert scale * (a + 1) == a * scale + scale;
    Split(a, if scale > 1 then scale else 1, 0);
  }

  lemma DigitsDecode(e: Encoding, digest: bytes)
    ensures DecodeDigits(e, Symbols(e, EncodedDigits(e, digest))) == Some(digest)
    ensures |EncodedDigits(e, digest)| == DigitCount(e, |digest|)
  {
    hide Digits, Number, Pow, Octets, OctetNumber, DigitCount, SpareBits, Symbol, DigitOf;
    var ds, count := EncodedDigits(e, digest), DigitCount(e, |digest|);
    var digits, spare := Symbols(e, ds), Pow(2, SpareBits(e, count));
    CountOf(e, |digest|);
    SameBits(e, |digest|);
    OctetsOfNumber(digest);
    Scaled(OctetNumber(digest), Pow(256, |digest|), spare);
    NumberOfDigits(OctetNumber(digest) * spare, Base(e), count);
    forall i | 0 <= i < |ds|
      ensures DigitOf(e, digits[i]) == Some(ds[i])
    {
      SymbolIsRead(e, ds[i]);
    }
    assert DigitValues(e, digits) == ds;
  }

  lemma PaddingIsRemoved(digits: bytes, group: nat)
    requires group > 0 && forall i | 0 <= i < |digits| :: digits[i] != EQUALS
    ensures Unpadded(digits + Repeated(EQUALS, (group - |digits| % group) % group), group) == Some(digits)
  {
    var n := (group - |digits| % group) % group;
    var value := digits + Repeated(EQUALS, n);
    assert forall i | 0 <= i < |digits| :: value[i] == digits[i];
    assert forall i | |digits| <= i < |value| :: value[i] == EQUALS;
    if n > 0 {
      FindUnique(value, EQUALS, 0, |digits|);
    }
    assert value[..|digits|] == digits;
  }

  /** Decoding undoes encoding, and the length predicted for what is encoded is that of the digest. */
  lemma EncodedDecodes(e: Encoding, digest: bytes)
    ensures Decode(e, Encode(e, digest)) == Some(digest)
    ensures DecodedLength(e, Encode(e, digest)) == Some(|digest|)
  {
    hide DecodeDigits, EncodedDigits, DigitCount, LengthOf, Unpadded, Symbol;
    var ds := EncodedDigits(e, digest);
    DigitsDecode(e, digest);
    CountOf(e, |digest|);
    DigitsBounded(e, digest);
    var digits := Symbols(e, ds);
    forall i | 0 <= i < |digits|
      ensures digits[i] != EQUALS
    {
      SymbolIsRead(e, ds[i]);
    }
    if e.Base16? {
      assert Encode(e, digest) == digits;
    } else {
      PaddingIsRemoved(digits, Group(e));
    }
  }

  lemma DigitsBounded(e: Encoding, digest: bytes)
    ensures forall i | 0 <= i < |EncodedDigits(e, digest)| :: EncodedDigits(e, digest)[i] < Base(e)
  {
    hide Digits, Pow, OctetNumber, DigitCount, SpareBits;
  }

  /** The predicted length is the right one for everything that can be decoded. */
  lemma DecodedHasLength(e: Encoding, value: bytes)
    requires Decode(e, value).Some?
    ensures DecodedLength(e, value) == Some(|Decode(e, value).value|)
  {
    hide Octets, Number, Pow, Unpadded, DigitOf;
  }

  // ---------------------------------------------------------------------------------------------
  // At most one encoding fits
  // ---------------------------------------------------------------------------------------------

  /** The value decodes in an encoding to that many octets, when the number is known. */
  predicate Fits(e: Encoding, expected: Option<nat>, value: bytes) {
    && DecodedLength(e, value).Some?
    && (expected.Some? ==> DecodedLength(e, value) == expected)
    && Decode(e, value).Some?
  }

  /** Every encoding reads the digits before the first padding character. */
  lemma DigitsAreBeforePadding(e: Encoding, value: bytes)
    requires Decode(e, value).Some?
    ensures DigitsIn(e, value) == Some(value[..Find(value, EQUALS, 0)])
  {
    hide Number, Pow, Octets;
    if e.Base16? {
      assert forall i | 0 <= i < |value| :: DigitOf(e, value[i]).Some?;
      assert Find(value, EQUALS, 0) == |value| && value[..|value|] == value;
    }
  }

  lemma CountTellsEncoding(a: Encoding, b: Encoding, count: nat, n: nat)
    requires LengthOf(a, count) == Some(n) && LengthOf(b, count) == Some(n) && n >= 3
    ensures a == b
  {
    var x, y := count * Bits(a), count * Bits(b);
    assert x == 8 * n + x % 8 && y == 8 * n + y % 8;
  }

  /** A digest of at least three octets fits at most one encoding. */
  lemma AtMostOneFits(a: Encoding, b: Encoding, n: nat, value: bytes)
    requires n >= 3 && Fits(a, Some(n), value) && Fits(b, Some(n), value)
    ensures a == b
  {
    hide Decode, LengthOf, DigitsIn;
    DigitsAreBeforePadding(a, value);
    DigitsAreBeforePadding(b, value);
    CountTellsEncoding(a, b, |value[..Find(value, EQUALS, 0)]|, n);
  }

  lemma FitsIf(e: Encoding, value: bytes, n: nat)
    requires AreDigits(e, value) && LengthOf(e, |value|) == Some(n)
    requires Number(DigitValues(e, value), Base(e)) % Pow(2, SpareBits(e, |value|)) == 0
    ensures Fits(e, Some(n), value)
  {
    hide Octets, Number, Pow, DigitOf, LengthOf;
    assert forall i | 0 <= i < |value| :: DigitOf(e, value[i]).Some?;
    var end := Find(value, EQUALS, 0);
    assert end == |value| && value[..end] == value && value[end..] == [];
  }

  /** Shorter ones may fit two: `aa` is one octet in Base16 and in Base32, `aaaa` is two. */
  lemma ShorterIsAmbiguous()
    ensures Fits(Base16, Some(0), []) && Fits(Base32, Some(0), [])
    ensures Fits(Base16, Some(1), [97, 97]) && Fits(Base32, Some(1), [97, 97])
    ensures Fits(Base16, Some(2), [97, 97, 97, 97]) && Fits(Base32, Some(2), [97, 97, 97, 97])
  {
    hide Fits, Number, DigitValues;
    Letters(0);
    Letters(1);
    Letters(2);
    var two: bytes := [97, 97];
    var four: bytes := [97, 97, 97, 97];
    assert Repeated(97, 0) == [] && Repeated(97, 2) == two && Repeated(97, 4) == four;
  }

  lemma NoSpareBits()
    ensures Pow(2, 0) == 1
  {
  }

  lemma Letters(n: nat)
    requires n <= 2
    ensures Fits(Base16, Some(n), Repeated(97, 2 * n)) && Fits(Base32, Some(n), Repeated(97, 2 * n))
  {
    hide Fits, Number, Pow;
    var value := Repeated(97, 2 * n);
    NoSpareBits();
    FitsIf(Base16, value, n);
    ZeroNumber(2 * n);
    assert DigitValues(Base32, value) == seq(2 * n, _ => 0);
    FitsIf(Base32, value, n);
  }

  lemma {:induction false} ZeroNumber(n: nat)
    ensures Number(seq(n, _ => 0), 32) == 0
  {
    if n > 0 {
      assert seq(n, _ => 0)[..n - 1] == seq(n - 1, _ => 0);
      ZeroNumber(n - 1);
    }
  }

  // ---------------------------------------------------------------------------------------------
  // The encoding a value is in
  // ---------------------------------------------------------------------------------------------

  const ALL: seq<Encoding> := [Base16, Base32, Base64]

  function Fitting(expected: Option<nat>, value: bytes, encodings: seq<Encoding>): seq<(Encoding, bytes)> {
    if encodings == [] then []
    else
      (if Fits(encodings[0], expected, value) then [(encodings[0], Decode(encodings[0], value).value)] else [])
      + Fitting(expected, value, encodings[1..])
  }

  /** What decoding yields when a single encoding fits, and nothing otherwise. */
  function DecodeValue(expected: Option<nat>, value: bytes): Option<(Encoding, bytes)> {
    var fitting := Fitting(expected, value, ALL);
    if |fitting| == 1 then Some(fitting[0]) else None
  }

  lemma FittingAll(expected: Option<nat>, value: bytes)
    ensures Fitting(expected, value, ALL) ==
            (if Fits(Base16, expected, value) then [(Base16, Decode(Base16, value).value)] else [])
            + ((if Fits(Base32, expected, value) then [(Base32, Decode(Base32, value).value)] else [])
               + ((if Fits(Base64, expected, value) then [(Base64, Decode(Base64, value).value)] else []) + []))
  {
    hide Fits, Decode, Fitting;
    assert ALL == [Base16] + [Base32, Base64] && [Base32, Base64] == [Base32] + [Base64] && [Base64] == [Base64] + [];
    FittingStep(expected, value, Base16, [Base32, Base64]);
    FittingStep(expected, value, Base32, [Base64]);
    FittingStep(expected, value, Base64, []);
    FittingNone(expected, value);
  }

  lemma FittingNone(expected: Option<nat>, value: bytes)
    ensures Fitting(expected, value, []) == []
  {
  }

  lemma FittingStep(expected: Option<nat>, value: bytes, e: Encoding, rest: seq<Encoding>)
    ensures Fitting(expected, value, [e] + rest) ==
            (if Fits(e, expected, value) then [(e, Decode(e, value).value)] else []) + Fitting(expected, value, rest)
  {
    hide Fits, Decode;
    assert ([e] + rest)[1..] == rest;
  }

  /** The encoding is told just when it is the only one that fits. */
  lemma DecodeValueIsUnique(expected: Option<nat>, value: bytes, e: Encoding, digest: bytes)
    ensures DecodeValue(expected, value) == Some((e, digest)) <==>
            && Fits(e, expected, value) && Decode(e, value) == Some(digest)
            && forall other | other != e :: !Fits(other, expected, value)
  {
    hide Fits, Decode, Fitting;
    FittingAll(expected, value);
    assert Fits(Base16, expected, value) || !Fits(Base16, expected, value);
    assert Fits(Base32, expected, value) || !Fits(Base32, expected, value);
    assert Fits(Base64, expected, value) || !Fits(Base64, expected, value);
    FitsDecodes(Base16, expected, value);
    FitsDecodes(Base32, expected, value);
    FitsDecodes(Base64, expected, value);
  }

  lemma FitsDecodes(e: Encoding, expected: Option<nat>, value: bytes)
    ensures Fits(e, expected, value) ==> Decode(e, value).Some?
  {
    hide Decode;
  }

  /** From three octets up, the encoding chosen for a digest is the one recognized in what is written. */
  lemma WrittenDigestIsRead(e: Encoding, digest: bytes)
    requires |digest| >= 3
    ensures DecodeValue(Some(|digest|), Encode(e, digest)) == Some((e, digest))
  {
    hide Decode, DecodedLength, Encode, DecodeValue;
    var value := Encode(e, digest);
    EncodedDecodes(e, digest);
    forall other | other != e
      ensures !Fits(other, Some(|digest|), value)
    {
      if Fits(other, Some(|digest|), value) {
        AtMostOneFits(e, other, |digest|, value);
      }
    }
    DecodeValueIsUnique(Some(|digest|), value, e, digest);
  }
}
