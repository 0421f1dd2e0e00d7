/** Labelled digests: their labels, their spelling, equality and hash (`crates/archivindex-warc-digest/src/label.rs`, `lib.rs`). */
module Digest {
  import opened Bytes
  import opened BaseEncoding
  import opened Headers
  import opened Radix

  datatype Algorithm =
    | Md5 | Sha1 | Xxh3 | Xxh128 | Sha224 | Sha256 | Sha384 | Sha512 | Sha512_224 | Sha512_256
    | Sha3_224 | Sha3_256 | Sha3_384 | Sha3_512 | Blake2s | Blake2b | Blake3

  function DigestLength(a: Algorithm): nat {
    match a
    case Sha1 => 20
    case Xxh3 => 8
    case Md5 => 16
    case Xxh128 => 16
    case Sha224 => 28
    case Sha512_224 => 28
    case Sha3_224 => 28
    case Sha256 => 32
    case Sha512_256 => 32
    case Sha3_256 => 32
    case Blake2s => 32
    case Blake3 => 32
    case Sha384 => 48
    case Sha3_384 => 48
    case Sha512 => 64
    case Sha3_512 => 64
    case Blake2b => 64
  }

  // ---------------------------------------------------------------------------------------------
  // Labels
  // ---------------------------------------------------------------------------------------------

  function Label(a: Algorithm): string {
    match a
    case Md5 => "md5"
    case Sha1 => "sha1"
    case Xxh3 => "xxh3"
    case Xxh128 => "xxh128"
    case Sha224 => "sha224"
    case Sha256 => "sha256"
    case Sha384 => "sha384"
    case Sha512 => "sha512"
    case Sha512_224 => "sha512-224"
    case Sha512_256 => "sha512-256"
    case Sha3_224 => "sha3-224"
    case Sha3_256 => "sha3-256"
    case Sha3_384 => "sha3-384"
    case Sha3_512 => "sha3-512"
    case Blake2s => "blake2s"
    case Blake2b => "blake2b"
    case Blake3 => "blake3"
  }

  function CompatibilityLabel(a: Algorithm): Option<string> {
    match a
    case Sha1 => Some("sha-1")
    case Sha224 => Some("sha-224")
    case Sha256 => Some("sha-256")
    case Sha384 => Some("sha-384")
    case Sha512 => Some("sha-512")
    case _ => None
  }

  /** A spelling of a known label: the recommended one, or the one kept for compatibility. */
  datatype Spelling = Recommended(algorithm: Algorithm) | Compatible(algorithm: Algorithm) {
    function Name(): string {
      if Compatible? && CompatibilityLabel(algorithm).Some? then CompatibilityLabel(algorithm).value else Label(algorithm)
    }

    predicate IsCompatibility() {
      Compatible?
    }
  }

  /** The known spellings, in the order they are tried. */
  const SPELLINGS: seq<Spelling> := [
    Recommended(Sha256), Recommended(Sha1), Recommended(Md5), Compatible(Sha1), Recommended(Xxh3),
    Recommended(Xxh128), Recommended(Sha224), Compatible(Sha224), Compatible(Sha256), Recommended(Sha384),
    Compatible(Sha384), Recommended(Sha512), Compatible(Sha512), Recommended(Sha512_224),
    Recommended(Sha512_256), Recommended(Sha3_224), Recommended(Sha3_256), Recommended(Sha3_384),
    Recommended(Sha3_512), Recommended(Blake2s), Recommended(Blake2b), Recommended(Blake3)]

  function SpellingFrom(name: bytes, k: nat): (r: Option<Spelling>)
    requires k <= |SPELLINGS|
    ensures r.Some? ==> r.value in SPELLINGS && EqIgnoreCase(name, Ascii(r.value.Name()))
    decreases |SPELLINGS| - k
  {
    if k == |SPELLINGS| then None
    else if EqIgnoreCase(name, Ascii(SPELLINGS[k].Name())) then Some(SPELLINGS[k])
    else SpellingFrom(name, k + 1)
  }

  predicate IsUpper(b: byte) {
    65 <= b <= 90
  }

  predicate IsAlphabetic(b: byte) {
    IsUpper(b) || 97 <= b <= 122
  }

  /** Which letters from `i` on are upper case, a bit for each, the first the least. */
  function CaseBits(name: bytes, i: nat): nat
    requires i <= |name|
    decreases |name| - i
  {
    if i == |name| then 0
    else if IsAlphabetic(name[i]) then (if IsUpper(name[i]) then 1 else 0) + 2 * CaseBits(name, i + 1)
    else CaseBits(name, i + 1)
  }

  /** The flags of a label: bit zero for a compatibility spelling, then one for each letter. */
  function FlagsOf(name: bytes, compatibility: bool): nat {
    (if compatibility then 1 else 0) + 2 * CaseBits(name, 0)
  }

  /**
   * Collect the flags. The bit for the next letter is greater than any flag so far, so setting it is
   * adding it.
   */
  method FromLabel(name: bytes, compatibility: bool) returns (flags: nat)
    ensures flags == FlagsOf(name, compatibility)
  {
    flags := if compatibility then 1 else 0;
    var uppercase: nat := 2;
    for i := 0 to |name|
      invariant flags < uppercase
      invariant flags + uppercase * CaseBits(name, i) == FlagsOf(name, compatibility)
    {
      if IsAlphabetic(name[i]) {
        ghost var rest := CaseBits(name, i + 1);
        Doubled(uppercase, rest);
        if IsUpper(name[i]) {
          flags := flags + uppercase;
        }
        uppercase := 2 * uppercase;
      }
    }
  }

  lemma Doubled(a: nat, b: nat)
    ensures a * (1 + 2 * b) == a + 2 * a * b && a * (0 + 2 * b) == 2 * a * b
  {
  }

  /** Whether the letter of that index is upper case. */
  predicate IsUppercase(flags: nat, index: nat) {
    flags / Pow(2, index + 1) % 2 == 1
  }

  function ToUpper(b: byte): byte {
    if 97 <= b <= 122 then b - 32 else b
  }

  /** A spelling from its octet `i` and its letter `index` on, in the case the flags give. */
  function Respelled(name: bytes, flags: nat, i: nat, index: nat): bytes
    requires i <= |name|
    decreases |name| - i
  {
    if i == |name| then []
    else if IsAlphabetic(name[i]) then
      [if IsUppercase(flags, index) then ToUpper(name[i]) else name[i]] + Respelled(name, flags, i + 1, index + 1)
    else [name[i]] + Respelled(name, flags, i + 1, index)
  }

  datatype AlgorithmLabel = Known(algorithm: Algorithm, flags: nat) | Custom(name: bytes)

  function NewLabel(name: bytes): AlgorithmLabel {
    match SpellingFrom(name, 0)
    case Some(s) => Known(s.algorithm, FlagsOf(name, s.IsCompatibility()))
    case None => Custom(name)
  }

  /** The spelling the flags of a label go with. */
  function SpellingOf(a: Algorithm, flags: nat): string {
    if flags % 2 == 1 && CompatibilityLabel(a).Some? then CompatibilityLabel(a).value else Label(a)
  }

  function AsRead(name: AlgorithmLabel): bytes {
    match name
    case Known(a, flags) => Respelled(Ascii(SpellingOf(a, flags)), flags, 0, 0)
    case Custom(name) => name
  }

  method WriteLabel(name: AlgorithmLabel) returns (written: bytes)
    ensures written == AsRead(name)
  {
    hide IsUppercase, Ascii, SpellingOf;
    if name.Custom? {
      return name.name;
    }
    var spelling := Ascii(SpellingOf(name.algorithm, name.flags));
    written := [];
    var index: nat := 0;
    ghost var whole := Respelled(spelling, name.flags, 0, 0);
    for i := 0 to |spelling|
      invariant written + Respelled(spelling, name.flags, i, index) == whole
    {
      var b := spelling[i];
      ghost var before, rest := written, Respelled(spelling, name.flags, i, index);
      if IsAlphabetic(b) {
        if IsUppercase(name.flags, index) {
          b := ToUpper(b);
        }
        index := index + 1;
      }
      written := written + [b];
      assert rest == [b] + Respelled(spelling, name.flags, i + 1, index);
      ConcatAssociates(before, [b], Respelled(spelling, name.flags, i + 1, index));
    }
  }

  /** The bit of the letter `index` in flags whose higher bits are `bits`. */
  lemma BitAt(low: nat, weight: nat, bits: nat)
    requires weight > 1 && low < weight
    ensures (low + weight * bits) / weight == bits
  {
    Split(bits, weight, low);
  }

  /** A label is respelled as it was, letter by letter. */
  lemma {:induction false} RespelledAsRead(name: bytes, spelling: bytes, flags: nat, low: nat, i: nat, index: nat)
    requires EqIgnoreCase(name, spelling) && forall k | 0 <= k < |spelling| :: !IsUpper(spelling[k])
    requires i <= |name| && low < Pow(2, index + 1) && flags == low + Pow(2, index + 1) * CaseBits(name, i)
    ensures Respelled(spelling, flags, i, index) == name[i..]
    decreases |name| - i
  {
    hide IsUppercase;
    if i < |name| {
      assert ToLower(name[i]) == ToLower(spelling[i]);
      assert name[i..] == [name[i]] + name[i + 1..];
      if IsAlphabetic(name[i]) {
        var bit, rest := if IsUpper(name[i]) then 1 else 0, CaseBits(name, i + 1);
        LetterIs(flags, low, index, bit, rest);
        RespelledAsRead(name, spelling, flags, low + Pow(2, index + 1) * bit, i + 1, index + 1);
      } else {
        RespelledAsRead(name, spelling, flags, low, i + 1, index);
      }
    }
  }

  lemma LetterIs(flags: nat, low: nat, index: nat, bit: nat, rest: nat)
    requires low < Pow(2, index + 1) && bit <= 1 && flags == low + Pow(2, index + 1) * (bit + 2 * rest)
    ensures IsUppercase(flags, index) <==> bit == 1
    ensures low + Pow(2, index + 1) * bit < Pow(2, index + 2)
    ensures flags == low + Pow(2, index + 1) * bit + Pow(2, index + 2) * rest
  {
    hide Pow;
    var w := Pow(2, index + 1);
    PowStep(index + 1);
    BitAt(low, w, bit + 2 * rest);
    assert (bit + 2 * rest) % 2 == bit;
    assert w * (bit + 2 * rest) == w * bit + 2 * w * rest;
  }

  lemma PowStep(e: nat)
    requires e > 0
    ensures Pow(2, e + 1) == 2 * Pow(2, e) && Pow(2, e) > 1
  {
    assert Pow(2, e) == 2 * Pow(2, e - 1);
  }

  predicate IsLowerAscii(name: string) {
    forall k | 0 <= k < |name| :: name[k] < 128 as char && !('A' <= name[k] <= 'Z')
  }

  /** Only an algorithm that has a compatibility label is spelled with it. */
  lemma SpellingsHaveNames(s: Spelling)
    requires s in SPELLINGS
    ensures s.Compatible? ==> CompatibilityLabel(s.algorithm).Some?
  {
  }

  lemma LabelsAreLower(a: Algorithm)
    ensures IsLowerAscii(Label(a))
  {
  }

  lemma CompatibilityLabelsAreLower(a: Algorithm)
    ensures CompatibilityLabel(a).Some? ==> IsLowerAscii(CompatibilityLabel(a).value)
  {
  }

  lemma LowerHasNoUpper(name: string)
    requires IsLowerAscii(name)
    ensures forall k | 0 <= k < |name| :: !IsUpper(Ascii(name)[k])
  {
  }

  /** A label is written as it was read, whether or not it is known. */
  lemma LabelReadsBack(name: bytes)
    ensures AsRead(NewLabel(name)) == name
  {
    hide Respelled, CaseBits, SpellingFrom, EqIgnoreCase, IsLowerAscii, Label, CompatibilityLabel, Ascii, IsUpper, SPELLINGS;
    var found := SpellingFrom(name, 0);
    if found.Some? {
      var s := found.value;
      SpellingsHaveNames(s);
      LabelsAreLower(s.algorithm);
      CompatibilityLabelsAreLower(s.algorithm);
      LowerHasNoUpper(s.Name());
      RespelledFromFlags(name, Ascii(s.Name()), s.IsCompatibility());
    }
  }

  lemma RespelledFromFlags(name: bytes, spelling: bytes, compatibility: bool)
    requires EqIgnoreCase(name, spelling) && forall k | 0 <= k < |spelling| :: !IsUpper(spelling[k])
    ensures Respelled(spelling, FlagsOf(name, compatibility), 0, 0) == name
    ensures FlagsOf(name, compatibility) % 2 == 1 <==> compatibility
  {
    hide Respelled, CaseBits, EqIgnoreCase, IsUpper;
    PowOne();
    RespelledAsRead(name, spelling, FlagsOf(name, compatibility), if compatibility then 1 else 0, 0, 0);
    assert name[0..] == name;
  }

  lemma PowOne()
    ensures Pow(2, 1) == 2
  {
  }

  /** The flags of a known label fit the octet they are kept in. */
  lemma FlagsFitOctet(name: bytes)
    ensures NewLabel(name).Known? ==> NewLabel(name).flags < 256
  {
    hide SpellingFrom, EqIgnoreCase, IsAlphabetic, SPELLINGS, Ascii;
    var found := SpellingFrom(name, 0);
    if found.Some? {
      SpellingsHaveNames(found.value);
      SameLetters(name, Ascii(found.value.Name()), 0);
      FewLetters(found.value);
      CaseBitsBound(name, 0);
      PowMonotone(Letters(name, 0), 6);
    }
  }

  function Letters(name: bytes, i: nat): nat
    requires i <= |name|
    decreases |name| - i
  {
    if i == |name| then 0 else (if IsAlphabetic(name[i]) then 1 else 0) + Letters(name, i + 1)
  }

  lemma {:induction false} SameLetters(a: bytes, b: bytes, i: nat)
    requires EqIgnoreCase(a, b) && i <= |a|
    ensures Letters(a, i) == Letters(b, i)
    decreases |a| - i
  {
    if i < |a| {
      assert ToLower(a[i]) == ToLower(b[i]);
      SameLetters(a, b, i + 1);
    }
  }

  lemma {:induction false} CaseBitsBound(name: bytes, i: nat)
    requires i <= |name|
    ensures CaseBits(name, i) < Pow(2, Letters(name, i))
    decreases |name| - i
  {
    if i < |name| {
      CaseBitsBound(name, i + 1);
    }
  }

  lemma {:induction false} PowMonotone(a: nat, b: nat)
    requires a <= b
    ensures Pow(2, a) <= Pow(2, b)
    ensures Pow(2, 6) == 64
    decreases b - a
  {
    assert Pow(2, 3) == 8 && Pow(2, 6) == 8 * Pow(2, 3);
    if a < b {
      PowMonotone(a, b - 1);
    }
  }

  /** From `i` up to `j` there are at most as many letters as octets. */
  lemma {:induction false} LettersBetween(name: bytes, i: nat, j: nat)
    requires i <= j <= |name|
    ensures Letters(name, i) <= j - i + Letters(name, j)
    ensures (forall k | i <= k < j :: !IsAlphabetic(name[k])) ==> Letters(name, i) == Letters(name, j)
    decreases j - i
  {
    if i < j {
      LettersBetween(name, i + 1, j);
    }
  }

  /** A name has at most six letters whose octets from `i` up to `j` are none, where few octets are left. */
  lemma LettersAround(name: bytes, i: nat, j: nat)
    requires i <= j <= |name| && i + (|name| - j) <= 6 && forall k | i <= k < j :: !IsAlphabetic(name[k])
    ensures Letters(name, 0) <= 6
  {
    LettersBetween(name, 0, i);
    LettersBetween(name, i, j);
    LettersBetween(name, j, |name|);
  }

  /** A label has at most six letters: its digits and hyphens are none. */
  lemma FewLetters(s: Spelling)
    ensures Letters(Ascii(s.Name()), 0) <= 6
  {
    hide Letters;
    var name := s.Name();
    if |name| <= 6 {
      LettersAround(Ascii(name), 0, 0);
    } else if s.algorithm == Blake2s || s.algorithm == Blake2b {
      LettersAround(Ascii(name), 5, 6);
    } else {
      LettersAround(Ascii(name), 3, |name|);
    }
  }

  // ---------------------------------------------------------------------------------------------
  // Labelled digests
  // ---------------------------------------------------------------------------------------------

  datatype LabelledDigest = LabelledDigest(algorithm: AlgorithmLabel, value: bytes)

  datatype Error = NoSeparator(value: bytes) | MalformedAlgorithm(algorithm: bytes) | MalformedValue(digest: bytes)

  predicate IsDigestValue(value: bytes) {
    value != [] && forall i | 0 <= i < |value| :: IsTokenChar(value[i]) || value[i] == EQUALS || value[i] == SLASH
  }

  function Parse(value: bytes): Result<LabelledDigest, Error> {
    var colon := Find(value, COLON, 0);
    if colon == |value| then Failure(NoSeparator(value))
    else if !IsToken(value[..colon]) then Failure(MalformedAlgorithm(value[..colon]))
    else if !IsDigestValue(value[colon + 1..]) then Failure(MalformedValue(value[colon + 1..]))
    else Success(LabelledDigest(NewLabel(value[..colon]), value[colon + 1..]))
  }

  function Print(d: LabelledDigest): bytes {
    AsRead(d.algorithm) + [COLON] + d.value
  }

  /** A labelled digest is written exactly as it was read, in the case and the spelling of its label. */
  lemma PrintsAsRead(value: bytes)
    requires Parse(value).Success?
    ensures Print(Parse(value).value) == value
  {
    hide NewLabel, AsRead, IsToken, IsDigestValue;
    var colon := Find(value, COLON, 0);
    LabelReadsBack(value[..colon]);
    assert value == value[..colon] + [COLON] + value[colon + 1..];
  }

  /** The octets a digest of this algorithm has, when it is known. */
  function Expected(a: AlgorithmLabel): Option<nat> {
    match a
    case Known(algorithm, _) => Some(DigestLength(algorithm))
    case Custom(_) => None
  }

  function Decoded(d: LabelledDigest): Option<bytes> {
    match DecodeValue(Expected(d.algorithm), d.value)
    case Some((_, digest)) => Some(digest)
    case None => None
  }

  function FromDigest(a: Algorithm, e: Encoding, digest: bytes): LabelledDigest {
    LabelledDigest(Known(a, 0), Encode(e, digest))
  }

  /** The value of a known algorithm fits at most one encoding. */
  lemma KnownIsUnambiguous(d: LabelledDigest, a: Encoding, b: Encoding)
    requires d.algorithm.Known? && Fits(a, Expected(d.algorithm), d.value) && Fits(b, Expected(d.algorithm), d.value)
    ensures a == b
  {
    hide Fits;
    AtMostOneFits(a, b, DigestLength(d.algorithm.algorithm), d.value);
  }

  /** Whatever encoding is chosen for a digest of its algorithm's length, decoding gives the digest. */
  lemma FromDigestDecodes(a: Algorithm, e: Encoding, digest: bytes)
    requires |digest| == DigestLength(a)
    ensures Decoded(FromDigest(a, e, digest)) == Some(digest)
  {
    hide DecodeValue, Encode;
    WrittenDigestIsRead(e, digest);
  }

  // ---------------------------------------------------------------------------------------------
  // Equality
  // ---------------------------------------------------------------------------------------------

  predicate SameAlgorithm(a: AlgorithmLabel, b: AlgorithmLabel) {
    match (a, b)
    case (Known(x, _), Known(y, _)) => x == y
    case (Custom(x), Custom(y)) => EqIgnoreCase(x, y)
    case _ => false
  }

  /** Labelled digests are equal as digests, or where they cannot be decoded as written. */
  predicate Same(a: LabelledDigest, b: LabelledDigest) {
    && SameAlgorithm(a.algorithm, b.algorithm)
    && (a.value == b.value || (Decoded(a).Some? && Decoded(b).Some? && Decoded(a) == Decoded(b)))
  }

  function Index(a: Algorithm): byte {
    match a
    case Md5 => 0
    case Sha1 => 1
    case Xxh3 => 2
    case Xxh128 => 3
    case Sha224 => 4
    case Sha256 => 5
    case Sha384 => 6
    case Sha512 => 7
    case Sha512_224 => 8
    case Sha512_256 => 9
    case Sha3_224 => 10
    case Sha3_256 => 11
    case Sha3_384 => 12
    case Sha3_512 => 13
    case Blake2s => 14
    case Blake2b => 15
    case Blake3 => 16
  }

  /** What a label feeds a hasher. */
  function HashedLabel(a: AlgorithmLabel): bytes {
    match a
    case Known(algorithm, _) => [0, Index(algorithm)]
    case Custom(name) => [1] + Lowered(name) + [COLON]
  }

  /** What a digest feeds a hasher: the octets it decodes to, or the value that does not decode. */
  function Hashed(d: LabelledDigest): bytes {
    HashedLabel(d.algorithm) + match Decoded(d)
                               case Some(digest) => Octets(|digest|, 8) + digest
                               case None => d.value + [255]
  }

  lemma SameAlgorithmDecodes(a: LabelledDigest, b: LabelledDigest)
    requires SameAlgorithm(a.algorithm, b.algorithm) && a.value == b.value
    ensures Decoded(a) == Decoded(b)
  {
    hide DecodeValue;
  }

  /** Equality is an equivalence relation. */
  lemma SameIsEquivalence(a: LabelledDigest, b: LabelledDigest, c: LabelledDigest)
    ensures Same(a, a)
    ensures Same(a, b) ==> Same(b, a)
    ensures Same(a, b) && Same(b, c) ==> Same(a, c)
  {
    hide Decoded;
    if SameAlgorithm(a.algorithm, b.algorithm) && a.value == b.value {
      SameAlgorithmDecodes(a, b);
    }
    if SameAlgorithm(b.algorithm, c.algorithm) && b.value == c.value {
      SameAlgorithmDecodes(b, c);
    }
  }

  /** Equal digests feed a hasher the same. */
  lemma SameHashesSame(a: LabelledDigest, b: LabelledDigest)
    requires Same(a, b)
    ensures Hashed(a) == Hashed(b)
  {
    hide Decoded, Octets;
    if a.value == b.value {
      SameAlgorithmDecodes(a, b);
    }
    if a.algorithm.Custom? {
      assert Lowered(a.algorithm.name) == Lowered(b.algorithm.name);
    }
  }

  /** One digest is equal to itself in whatever encodings and under whatever spellings it is written. */
  lemma EncodingsAreSame(a: Algorithm, d: Encoding, e: Encoding, flags: nat, digest: bytes)
    requires |digest| == DigestLength(a)
    ensures Same(FromDigest(a, d, digest), LabelledDigest(Known(a, flags), Encode(e, digest)))
  {
    hide DecodeValue, Encode;
    WrittenDigestIsRead(d, digest);
    WrittenDigestIsRead(e, digest);
  }
}
