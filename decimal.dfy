/**
 * The decimal and BCD arithmetic behind draw_number (main/display.cpp):
 * the digits of a value most significant first, the same digits left-padded
 * with zeros to a minimum count, and the packed BCD word in which nibble j
 * holds decimal digit j counted from the least significant end.
 */
module Decimal {
  import opened StdInt

  function Max(a: nat, b: nat): nat
  {
    if a < b then b else a
  }

  function Pow10(n: nat): (p: nat)
    ensures p >= 1
  {
    if n == 0 then 1 else 10 * Pow10(n - 1)
  }

  /** The decimal digits of `n`, most significant first; 0 has none. */
  function Digits(n: nat): (ds: seq<nat>)
    ensures forall i :: 0 <= i < |ds| ==> ds[i] < 10
    ensures ds == [] <==> n == 0
    ensures ds != [] ==> ds[0] != 0
  {
    if n == 0 then [] else Digits(n / 10) + [n % 10]
  }

  function Zeros(k: nat): (zs: seq<nat>)
    ensures |zs| == k
  {
    seq(k, _ => 0)
  }

  /** The digits of `n`, left-padded with zeros to at least `minDigits` places. */
  function Padded(n: nat, minDigits: nat): (ds: seq<nat>)
    ensures |ds| == Max(|Digits(n)|, minDigits)
    ensures forall i :: 0 <= i < |ds| ==> ds[i] < 10
  {
    var d := Digits(n);
    Zeros(if |d| < minDigits then minDigits - |d| else 0) + d
  }

  /** The number a row of decimal digits spells when read left to right. */
  function ValueOf(ds: seq<nat>): nat
  {
    if ds == [] then 0 else ValueOf(ds[..|ds| - 1]) * 10 + ds[|ds| - 1]
  }

  /** Reading the digits of `n` gives back `n`. */
  lemma {:induction false} DigitsSpellValue(n: nat)
    ensures ValueOf(Digits(n)) == n
  {
    if n > 0 {
      var d := Digits(n);
      assert d[..|d| - 1] == Digits(n / 10);
      DigitsSpellValue(n / 10);
    }
  }

  /** Leading zeros do not change the value read. */
  lemma {:induction false} ZerosPrefixValue(k: nat, ds: seq<nat>)
    ensures ValueOf(Zeros(k) + ds) == ValueOf(ds)
  {
    if ds == [] {
      ZerosValue(k);
      assert Zeros(k) + ds == Zeros(k);
    } else {
      var s := Zeros(k) + ds;
      assert s[..|s| - 1] == Zeros(k) + ds[..|ds| - 1];
      ZerosPrefixValue(k, ds[..|ds| - 1]);
    }
  }

  lemma {:induction false} ZerosValue(k: nat)
    ensures ValueOf(Zeros(k)) == 0
  {
    if k > 0 {
      assert Zeros(k)[..k - 1] == Zeros(k - 1);
      ZerosValue(k - 1);
    }
  }

  /**
   * The padded digits spell `n`, number max(digit count, minDigits), and
   * carry no zeros beyond the padding.
   */
  lemma PaddedSpellsValue(n: nat, minDigits: nat)
    ensures ValueOf(Padded(n, minDigits)) == n
    ensures |Padded(n, minDigits)| > minDigits ==> Padded(n, minDigits)[0] != 0
    ensures n == 0 ==> Padded(n, minDigits) == Zeros(minDigits)
  {
    var d := Digits(n);
    ZerosPrefixValue(if |d| < minDigits then minDigits - |d| else 0, d);
    DigitsSpellValue(n);
  }

  /** A row of digits without a leading zero is the digit row of its value. */
  lemma {:induction false} DigitsOfValue(ds: seq<nat>)
    requires forall i :: 0 <= i < |ds| ==> ds[i] < 10
    requires ds != [] ==> ds[0] != 0
    ensures Digits(ValueOf(ds)) == ds
  {
    if ds != [] {
      var init := ds[..|ds| - 1];
      DigitsOfValue(init);
      ValueOfZeroIff(init);
      var v := ValueOf(ds);
      assert v / 10 == ValueOf(init) && v % 10 == ds[|ds| - 1];
      if init == [] {
        assert v == ds[0];
      }
    }
  }

  lemma {:induction false} ValueOfZeroIff(ds: seq<nat>)
    requires ds != [] ==> ds[0] != 0
    ensures ValueOf(ds) == 0 <==> ds == []
  {
    if ds != [] {
      var init := ds[..|ds| - 1];
      if init != [] {
        ValueOfZeroIff(init);
      }
    }
  }

  lemma DivDiv(a: nat, b: nat, c: nat)
    requires b > 0 && c > 0
    ensures a / b / c == a / (b * c)
  {
    var q1, r1 := a / b, a % b;
    var q, r2 := q1 / c, q1 % c;
    var d := b * c;
    var r := b * r2 + r1;
    DivDivParts(a, b, c, q1, r1, q, r2);
    DivUnique(a, d, q, r);
  }

  lemma DivDivParts(a: nat, b: nat, c: nat, q1: nat, r1: nat, q: nat, r2: nat)
    requires b > 0 && c > 0 && r1 < b && r2 < c
    requires a == b * q1 + r1 && q1 == c * q + r2
    ensures a == (b * c) * q + (b * r2 + r1)
    ensures b * r2 + r1 < b * c
  {
    calc {
      a;
      b * q1 + r1;
      b * (c * q + r2) + r1;
      { Distribute(b, c * q, r2); }
      b * (c * q) + b * r2 + r1;
      { assert b * (c * q) == (b * c) * q; }
      (b * c) * q + (b * r2 + r1);
    }
    MulLe(b, r2, c - 1);
    Distribute(b, c - 1, 1);
  }

  lemma Distribute(a: nat, x: nat, y: nat)
    ensures a * (x + y) == a * x + a * y
  {
  }

  lemma DivUnique(a: nat, d: nat, q: nat, r: nat)
    requires d > 0 && r < d && a == d * q + r
    ensures a / d == q && a % d == r
  {
    var q', r' := a / d, a % d;
    assert a == d * q' + r';
    if q' > q {
      MulLe(d, q + 1, q');
      assert false;
    } else if q' < q {
      MulLe(d, q' + 1, q);
      assert false;
    }
  }

  lemma MulLe(d: nat, x: nat, y: nat)
    requires x <= y
    ensures d * x <= d * y
  {
  }

  /** `n` has |Digits(n)| digits: it lies below 10 to that power, and at or above the one below. */
  lemma {:induction false} DigitsBounds(n: nat)
    ensures n < Pow10(|Digits(n)|)
    ensures n > 0 ==> Pow10(|Digits(n)| - 1) <= n
  {
    if n > 0 {
      DigitsBounds(n / 10);
    }
  }

  /** A value below 10^8 has at most eight digits. */
  lemma AtMostEightDigits(n: nat)
    requires n < 100_000_000
    ensures |Digits(n)| <= 8
  {
    DigitsBounds(n);
    if |Digits(n)| > 8 {
      Pow10Monotone(8, |Digits(n)| - 1);
    }
  }

  lemma {:induction false} Pow10Monotone(a: nat, b: nat)
    requires a <= b
    ensures Pow10(a) <= Pow10(b)
  {
    if a < b {
      Pow10Monotone(a, b - 1);
    }
  }

  /** Digit j of `n`, counted from the left, is (n / 10^(count-1-j)) % 10. */
  lemma {:induction false} DigitsAt(n: nat, j: nat)
    requires j < |Digits(n)|
    ensures Digits(n)[j] == (n / Pow10(|Digits(n)| - 1 - j)) % 10
  {
    var d := Digits(n);
    if j < |d| - 1 {
      var k := |d| - 2 - j;
      DigitsAt(n / 10, j);
      DivDiv(n, 10, Pow10(k));
    }
  }

  /** Place i of the padded digits holds (n / 10^(count-1-i)) % 10, zero in the padding. */
  lemma PaddedAt(n: nat, minDigits: nat, i: nat)
    requires i < |Padded(n, minDigits)|
    ensures Padded(n, minDigits)[i] == (n / Pow10(|Padded(n, minDigits)| - 1 - i)) % 10
  {
    var d := Digits(n);
    var p := Padded(n, minDigits);
    var z := |p| - |d|;
    var k := |p| - 1 - i;
    if i < z {
      DigitsBounds(n);
      Pow10Monotone(|d|, k);
      DivUnique(n, Pow10(k), 0, n);
    } else {
      assert p[i] == d[i - z];
      DigitsAt(n, i - z);
    }
  }

  /** A value below 10^k padded to k places takes exactly k places. */
  lemma PaddedExact(n: nat, k: nat)
    requires n < Pow10(k)
    ensures |Padded(n, k)| == k
  {
    DigitsBounds(n);
    if |Digits(n)| > k {
      Pow10Monotone(k, |Digits(n)| - 1);
    }
  }

  /** The BCD word of `n`: nibble j holds decimal digit j from the right. */
  function Bcd(n: nat): (b: nat)
    ensures b == 0 <==> n == 0
    ensures b % 16 == n % 10
  {
    if n == 0 then 0 else Bcd(n / 10) * 16 + n % 10
  }

  /** Nibble j of Bcd(n) is decimal digit j of n, counted from the least significant end. */
  lemma {:induction false} BcdNibble(n: nat, j: nat)
    ensures (Bcd(n) / Pow2(4 * j)) % 16 == (n / Pow10(j)) % 10
  {
    if j > 0 {
      var q := 4 * (j - 1);
      assert 4 * j == 4 + q;
      assert Pow2(4) == 16;
      Pow2Add(4, q);
      DivDiv(Bcd(n), 16, Pow2(q));
      assert Bcd(n) / Pow2(4 * j) == Bcd(n) / 16 / Pow2(q);
      DivDiv(n, 10, Pow10(j - 1));
      assert n / Pow10(j) == n / 10 / Pow10(j - 1);
      if n == 0 {
        BcdNibble(0, j - 1);
      } else {
        assert Bcd(n) / 16 == Bcd(n / 10);
        BcdNibble(n / 10, j - 1);
      }
    }
  }

  /** One step of the packing loop: the low digit moves into the word, the rest moves up a nibble. */
  lemma BcdStep(bcd: nat, v: nat, p: nat)
    requires v > 0
    ensures bcd + Bcd(v) * p == (bcd + (v % 10) * p) + Bcd(v / 10) * (16 * p)
    ensures bcd <= bcd + (v % 10) * p <= bcd + Bcd(v) * p
  {
    var b, d := Bcd(v / 10), v % 10;
    assert Bcd(v) == b * 16 + d;
    MulDistRight(b * 16, d, p);
    MulAssoc(b, 16, p);
    MulNonneg(d, p);
    MulNonneg(b * 16, p);
  }

  lemma MulDistRight(x: nat, y: nat, p: nat)
    ensures (x + y) * p == x * p + y * p
  {
  }

  lemma MulAssoc(x: nat, y: nat, z: nat)
    ensures (x * y) * z == x * (y * z)
  {
  }

  lemma MulNonneg(x: nat, y: nat)
    ensures x * y >= 0
  {
  }

  /** Nibble `digits - 1 - i` of Bcd(value) is place i of the padded digits. */
  lemma NibbleIsPaddedDigit(value: nat, minDigits: nat, i: nat)
    requires i < |Padded(value, minDigits)|
    ensures (Bcd(value) / Pow2((|Padded(value, minDigits)| - i - 1) * 4)) % 16 == Padded(value, minDigits)[i]
  {
    var k := |Padded(value, minDigits)| - i - 1;
    assert k * 4 == 4 * k;
    BcdNibble(value, k);
    PaddedAt(value, minDigits, i);
  }

  /** Bcd(n) fits in four bits per decimal digit. */
  lemma {:induction false} BcdBound(n: nat)
    ensures Bcd(n) < Pow2(4 * |Digits(n)|)
  {
    if n > 0 {
      var k := |Digits(n / 10)|;
      assert |Digits(n)| == k + 1;
      BcdBound(n / 10);
      Pow2Add(4, 4 * k);
      assert 4 + 4 * k == 4 * (k + 1);
      assert Pow2(4) == 16;
      MulLe(16, Bcd(n / 10), Pow2(4 * k) - 1);
    }
  }
}
