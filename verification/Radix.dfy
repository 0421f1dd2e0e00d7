/** Numbers as sequences of digits, most significant first. */
module Radix {
  import opened Bytes

  function Pow(base: nat, e: nat): (p: nat)
    ensures base > 0 ==> p > 0
  {
    if e == 0 then 1 else base * Pow(base, e - 1)
  }

  function Digits(n: nat, base: nat, count: nat): (ds: seq<nat>)
    requires base > 1
    ensures |ds| == count && forall i | 0 <= i < count :: ds[i] < base
    decreases count
  {
    if count == 0 then [] else Digits(n / base, base, count - 1) + [n % base]
  }

  function Number(ds: seq<nat>, base: nat): nat {
    if ds == [] then 0 else Number(ds[..|ds| - 1], base) * base + ds[|ds| - 1]
  }

  lemma {:induction false} NumberOfDigits(n: nat, base: nat, count: nat)
    requires base > 1 && n < Pow(base, count)
    ensures Number(Digits(n, base, count), base) == n
    decreases count
  {
    if count > 0 {
      Quotient(n, base, Pow(base, count - 1));
      NumberOfDigits(n / base, base, count - 1);
      assert Digits(n, base, count)[..count - 1] == Digits(n / base, base, count - 1);
    }
  }

  lemma Quotient(n: nat, base: nat, bound: nat)
    requires base > 1 && n < base * bound
    ensures n / base < bound
    ensures n / base * base + n % base == n
  {
    if n / base >= bound {
      Grows(base, bound, n / base);
      assert false;
    }
  }

  lemma Grows(base: nat, a: nat, b: nat)
    requires a <= b
    ensures base * a <= base * b
  {
  }

  lemma {:induction false} NumberBound(ds: seq<nat>, base: nat)
    requires base > 1 && forall i | 0 <= i < |ds| :: ds[i] < base
    ensures Number(ds, base) < Pow(base, |ds|)
    decreases |ds|
  {
    if ds != [] {
      var n := |ds| - 1;
      NumberBound(ds[..n], base);
      Grows(base, Number(ds[..n], base) + 1, Pow(base, n));
      assert base * (Number(ds[..n], base) + 1) == Number(ds[..n], base) * base + base;
    }
  }

  lemma {:induction false} DigitsOfNumber(ds: seq<nat>, base: nat)
    requires base > 1 && forall i | 0 <= i < |ds| :: ds[i] < base
    ensures Digits(Number(ds, base), base, |ds|) == ds
    decreases |ds|
  {
    if ds != [] {
      var n := |ds| - 1;
      DigitsOfNumber(ds[..n], base);
      Split(Number(ds[..n], base), base, ds[n]);
      assert ds == ds[..n] + [ds[n]];
    }
  }

  lemma Split(q: nat, base: nat, r: nat)
    requires r < base
    ensures (q * base + r) / base == q && (q * base + r) % base == r
  {
    var n := q * base + r;
    assert n / base * base + n % base == n;
    assert (n / base - q) * base == r - n % base;
    if n / base > q {
      Grows(base, 1, n / base - q);
    } else if n / base < q {
      Grows(base, 1, q - n / base);
    }
  }

  // ---------------------------------------------------------------------------------------------
  // Powers of two
  // ---------------------------------------------------------------------------------------------

  lemma {:induction false} PowAdd(base: nat, a: nat, b: nat)
    ensures Pow(base, a + b) == Pow(base, a) * Pow(base, b)
    decreases a
  {
    if a == 0 {
    } else {
      PowAdd(base, a - 1, b);
      assert base * (Pow(base, a - 1) * Pow(base, b)) == base * Pow(base, a - 1) * Pow(base, b);
    }
  }

  lemma {:induction false} PowMul(base: nat, bits: nat, count: nat)
    ensures Pow(Pow(base, bits), count) == Pow(base, bits * count)
    decreases count
  {
    if count == 0 {
      assert bits * count == 0;
    } else {
      PowMul(base, bits, count - 1);
      PowAdd(base, bits, bits * (count - 1));
      assert bits + bits * (count - 1) == bits * count;
    }
  }

  // ---------------------------------------------------------------------------------------------
  // Octets
  // ---------------------------------------------------------------------------------------------

  /** A number as that many octets. */
  function Octets(n: nat, count: nat): (s: bytes)
    ensures |s| == count
  {
    seq(count, i requires 0 <= i < count => Digits(n, 256, count)[i] as byte)
  }

  function OctetValues(s: bytes): (ds: seq<nat>)
    ensures |ds| == |s| && forall i | 0 <= i < |s| :: ds[i] < 256 && ds[i] == s[i] as nat
  {
    seq(|s|, i requires 0 <= i < |s| => s[i] as nat)
  }

  function OctetNumber(s: bytes): nat {
    Number(OctetValues(s), 256)
  }

  lemma NumberOfOctets(n: nat, count: nat)
    requires n < Pow(256, count)
    ensures OctetNumber(Octets(n, count)) == n
  {
    hide Digits;
    NumberOfDigits(n, 256, count);
    assert OctetValues(Octets(n, count)) == Digits(n, 256, count);
  }

  lemma OctetsOfNumber(s: bytes)
    ensures OctetNumber(s) < Pow(256, |s|) && Octets(OctetNumber(s), |s|) == s
  {
    hide Digits, Number, Pow;
    NumberBound(OctetValues(s), 256);
    DigitsOfNumber(OctetValues(s), 256);
  }

  // ---------------------------------------------------------------------------------------------
  // Decimal numbers
  // ---------------------------------------------------------------------------------------------

  /** A number in decimal, with leading zeros to that width. */
  function Padded(n: nat, width: nat): (s: bytes)
    ensures |s| == width
  {
    seq(width, i requires 0 <= i < width => 48 + Digits(n, 10, width)[i] as byte)
  }

  predicate AreDigits(s: bytes) {
    s != [] && forall i | 0 <= i < |s| :: 48 <= s[i] <= 57
  }

  function DecimalValues(s: bytes): (ds: seq<nat>)
    requires AreDigits(s)
    ensures |ds| == |s| && forall i | 0 <= i < |s| :: ds[i] == (s[i] - 48) as nat < 10
  {
    seq(|s|, i requires 0 <= i < |s| => (s[i] - 48) as nat)
  }

  function Decimal(s: bytes): nat
    requires AreDigits(s)
  {
    Number(DecimalValues(s), 10)
  }

  lemma PaddedReads(n: nat, width: nat)
    requires width > 0 && n < Pow(10, width)
    ensures AreDigits(Padded(n, width)) && Decimal(Padded(n, width)) == n
  {
    hide Digits, Number, Pow;
    var s := Padded(n, width);
    assert forall i | 0 <= i < width :: s[i] == 48 + Digits(n, 10, width)[i] as byte;
    assert AreDigits(s);
    assert DecimalValues(s) == Digits(n, 10, width);
    NumberOfDigits(n, 10, width);
  }

  lemma DigitsPad(s: bytes)
    requires AreDigits(s)
    ensures Decimal(s) < Pow(10, |s|) && Padded(Decimal(s), |s|) == s
  {
    hide Digits, Number, Pow;
    NumberBound(DecimalValues(s), 10);
    DigitsOfNumber(DecimalValues(s), 10);
  }

  /** A number in decimal, without leading zeros. */
  function DecimalText(n: nat): (s: bytes)
    ensures s != []
  {
    if n < 10 then [48 + n as byte] else DecimalText(n / 10) + [48 + (n % 10) as byte]
  }

  lemma {:induction false} DecimalTextReads(n: nat)
    ensures AreDigits(DecimalText(n)) && Decimal(DecimalText(n)) == n
    decreases n
  {
    var s := DecimalText(n);
    if n < 10 {
      assert DecimalValues(s) == [n];
      assert [n][..0] == [];
      assert Number([], 10) == 0;
    } else {
      DecimalTextReads(n / 10);
      assert s[..|s| - 1] == DecimalText(n / 10);
      assert DecimalValues(s)[..|s| - 1] == DecimalValues(DecimalText(n / 10));
    }
  }
}
