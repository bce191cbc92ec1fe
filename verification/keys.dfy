/**
 * Keys of the ordered key/value engine and the two ways of turning a
 * sequence number into a key.
 *
 * The engine orders keys byte-lexicographically. Keys here are `seq<char>`;
 * every key the store writes is ASCII (decimal digits) and topic names are
 * compared the same way, which agrees with byte order of their UTF-8 form.
 */
module Keys {
  import opened Wrappers

  type Key = seq<char>

  /** The largest value of Go's `uint64`. */
  const MaxUint64: nat := 0xFFFF_FFFF_FFFF_FFFF

  /** Number of decimal digits of `MaxUint64`: the width of a fixed-width key. */
  const KeyWidth: nat := 20

  /** Byte-lexicographic order: a proper prefix comes first, otherwise the first differing byte decides. */
  predicate Less(a: Key, b: Key)
    decreases |a|
  {
    if |a| == 0 then |b| > 0
    else if |b| == 0 then false
    else if a[0] != b[0] then a[0] < b[0]
    else Less(a[1..], b[1..])
  }

  lemma {:induction false} LessIrreflexive(a: Key)
    ensures !Less(a, a)
    decreases |a|
  {
    if |a| > 0 {
      LessIrreflexive(a[1..]);
    }
  }

  lemma {:induction false} LessTransitive(a: Key, b: Key, c: Key)
    requires Less(a, b) && Less(b, c)
    ensures Less(a, c)
    decreases |a|
  {
    if |a| > 0 && a[0] == b[0] && b[0] == c[0] {
      LessTransitive(a[1..], b[1..], c[1..]);
    }
  }

  /** Any two distinct keys are ordered one way or the other. */
  lemma {:induction false} LessTotal(a: Key, b: Key)
    ensures a == b || Less(a, b) || Less(b, a)
    decreases |a|
  {
    if |a| > 0 && |b| > 0 && a[0] == b[0] {
      LessTotal(a[1..], b[1..]);
      if a[1..] == b[1..] {
        assert a == [a[0]] + a[1..] && b == [b[0]] + b[1..];
      }
    }
  }

  lemma LessAsymmetric(a: Key, b: Key)
    requires Less(a, b)
    ensures !Less(b, a)
  {
    if Less(b, a) {
      LessTransitive(a, b, a);
      LessIrreflexive(a);
    }
  }

  // ----- decimal digits -----

  predicate IsDigit(c: char) {
    '0' <= c <= '9'
  }

  predicate AllDigits(s: seq<char>) {
    forall i :: 0 <= i < |s| ==> IsDigit(s[i])
  }

  function DigitChar(d: nat): (c: char)
    requires d < 10
    ensures IsDigit(c) && DigitValue(c) == d
  {
    (48 + d) as char
  }

  function DigitValue(c: char): (d: nat)
    requires IsDigit(c)
    ensures d < 10
  {
    c as int - 48
  }

  function Pow10(k: nat): (p: nat)
    ensures p >= 1
  {
    if k == 0 then 1 else 10 * Pow10(k - 1)
  }

  /** The number a string of decimal digits denotes, most significant digit first. */
  function Value(s: seq<char>): nat
    requires AllDigits(s)
    decreases |s|
  {
    if |s| == 0 then 0 else DigitValue(s[0]) * Pow10(|s| - 1) + Value(s[1..])
  }

  lemma MulLe(x: nat, y: nat, p: nat)
    requires x <= y
    ensures x * p <= y * p
  {
  }

  /** A smaller leading digit outweighs whatever follows it. */
  lemma DigitsApart(da: nat, ra: nat, db: nat, rb: nat, p: nat)
    requires da < db && ra < p
    ensures da * p + ra < db * p + rb
  {
    MulLe(da + 1, db, p);
    assert (da + 1) * p == da * p + p;
  }

  /** A string of `k` digits denotes a number below 10^k. */
  lemma {:induction false} ValueBound(s: seq<char>)
    requires AllDigits(s)
    ensures Value(s) < Pow10(|s|)
    decreases |s|
  {
    if |s| > 0 {
      var d, p, r := DigitValue(s[0]), Pow10(|s| - 1), Value(s[1..]);
      ValueBound(s[1..]);
      assert Value(s) == d * p + r;
      assert Pow10(|s|) == 10 * p;
      DigitsApart(d, r, 10, 0, p);
    }
  }

  /** Appending a digit multiplies by ten and adds the digit. */
  lemma {:induction false} ValueSnoc(s: seq<char>, c: char)
    requires AllDigits(s) && IsDigit(c)
    ensures AllDigits(s + [c])
    ensures Value(s + [c]) == 10 * Value(s) + DigitValue(c)
    decreases |s|
  {
    var t := s + [c];
    if |s| == 0 {
      assert t == [c];
    } else {
      assert t[1..] == s[1..] + [c];
      ValueSnoc(s[1..], c);
      var d, p, r := DigitValue(s[0]), Pow10(|s| - 1), Value(s[1..]);
      assert Value(s) == d * p + r;
      assert Pow10(|t| - 1) == 10 * p;
      assert Value(t) == d * (10 * p) + (10 * r + DigitValue(c));
      ShiftDigit(d, p, r, DigitValue(c));
    }
  }

  lemma ShiftDigit(d: nat, p: nat, r: nat, c: nat)
    ensures d * (10 * p) + (10 * r + c) == 10 * (d * p + r) + c
  {
    assert d * (10 * p) == 10 * (d * p);
  }

  /** Leading zeros do not change the value. */
  lemma {:induction false} ValueZeros(m: nat, s: seq<char>)
    requires AllDigits(s)
    ensures AllDigits(Zeros(m) + s) && Value(Zeros(m) + s) == Value(s)
    decreases m
  {
    var t := Zeros(m) + s;
    if m == 0 {
      assert t == s;
    } else {
      assert t[1..] == Zeros(m - 1) + s;
      ValueZeros(m - 1, s);
    }
  }

  function Zeros(m: nat): (z: seq<char>)
    ensures |z| == m && AllDigits(z)
    ensures forall i :: 0 <= i < m ==> z[i] == '0'
  {
    seq(m, _ => '0')
  }

  /**
   * Among digit strings of one length, byte order is numeric order.
   */
  lemma {:induction false} DigitOrderIsNumericOrder(a: seq<char>, b: seq<char>)
    requires AllDigits(a) && AllDigits(b) && |a| == |b|
    ensures Less(a, b) <==> Value(a) < Value(b)
    decreases |a|
  {
    if |a| > 0 {
      var p := Pow10(|a| - 1);
      var da, db := DigitValue(a[0]), DigitValue(b[0]);
      var ra, rb := Value(a[1..]), Value(b[1..]);
      assert Value(a) == da * p + ra;
      assert Value(b) == db * p + rb;
      ValueBound(a[1..]);
      ValueBound(b[1..]);
      if a[0] == b[0] {
        DigitOrderIsNumericOrder(a[1..], b[1..]);
      } else if a[0] < b[0] {
        DigitsApart(da, ra, db, rb, p);
      } else {
        DigitsApart(db, rb, da, ra, p);
      }
    }
  }

  // ----- strconv.FormatUint(n, 10) -----

  /**
   * The decimal text of `n` as Go's `strconv.FormatUint(n, 10)` writes it:
   * no sign, no leading zeros ("0" for zero). Its length grows with `n`,
   * so texts of different lengths are not ordered numerically.
   */
  function Decimal(n: nat): (s: Key)
    ensures AllDigits(s) && Value(s) == n
    ensures |s| >= 1 && (|s| == 1 || s[0] != '0')
    ensures n < Pow10(|s|)
    ensures |s| > 1 ==> Pow10(|s| - 1) <= n
    decreases n
  {
    if n < 10 then
      [DigitChar(n)]
    else
      var init := Decimal(n / 10);
      var c := DigitChar(n % 10);
      ValueSnoc(init, c);
      init + [c]
  }

  lemma {:induction false} Pow10Monotone(i: nat, j: nat)
    requires i <= j
    ensures Pow10(i) <= Pow10(j)
    decreases j
  {
    if i < j {
      Pow10Monotone(i, j - 1);
    }
  }

  lemma Pow10Log(k: nat, j: nat)
    requires Pow10(k) < Pow10(j)
    ensures k < j
  {
    if j <= k {
      Pow10Monotone(j, k);
    }
  }

  lemma Pow10KeyWidth()
    ensures MaxUint64 < Pow10(KeyWidth)
  {
    assert Pow10(1) == 10;
    assert Pow10(2) == 100;
    assert Pow10(3) == 1_000;
    assert Pow10(4) == 10_000;
    assert Pow10(5) == 100_000;
    assert Pow10(6) == 1_000_000;
    assert Pow10(7) == 10_000_000;
    assert Pow10(8) == 100_000_000;
    assert Pow10(9) == 1_000_000_000;
    assert Pow10(10) == 10_000_000_000;
    assert Pow10(11) == 100_000_000_000;
    assert Pow10(12) == 1_000_000_000_000;
    assert Pow10(13) == 10_000_000_000_000;
    assert Pow10(14) == 100_000_000_000_000;
    assert Pow10(15) == 1_000_000_000_000_000;
    assert Pow10(16) == 10_000_000_000_000_000;
    assert Pow10(17) == 100_000_000_000_000_000;
    assert Pow10(18) == 1_000_000_000_000_000_000;
    assert Pow10(19) == 10_000_000_000_000_000_000;
    assert Pow10(20) == 100_000_000_000_000_000_000;
  }

  /** Every `uint64` has at most `KeyWidth` decimal digits. */
  lemma DecimalFitsWidth(n: nat)
    requires n <= MaxUint64
    ensures |Decimal(n)| <= KeyWidth
  {
    var d := Decimal(n);
    Pow10KeyWidth();
    if |d| > 1 {
      Pow10Log(|d| - 1, KeyWidth);
    }
  }

  /** Two indices whose decimal texts have the same length compare the same way as numbers and as keys. */
  lemma DecimalOrderWithinWidth(a: nat, b: nat)
    requires |Decimal(a)| == |Decimal(b)|
    ensures Less(Decimal(a), Decimal(b)) <==> a < b
  {
    DigitOrderIsNumericOrder(Decimal(a), Decimal(b));
  }

  /** Across a digit-count boundary the orders can disagree: the key of 10 sorts before the key of 2. */
  lemma DecimalOrderAcrossWidths()
    ensures Less(Decimal(10), Decimal(2)) && 2 < 10
  {
    assert Decimal(1) == ['1'];
    assert Decimal(10) == ['1', '0'];
    assert Decimal(2) == ['2'];
  }

  // ----- fixed-width keys -----

  /**
   * The decimal text of `n` left-padded with zeros to `KeyWidth` digits.
   * Numbers too large for a `uint64` are left unpadded.
   */
  function Padded(n: nat): (s: Key)
    ensures AllDigits(s) && Value(s) == n
    ensures n <= MaxUint64 ==> |s| == KeyWidth
  {
    var d := Decimal(n);
    if |d| >= KeyWidth then
      (if n <= MaxUint64 then DecimalFitsWidth(n); d else d)
    else
      ValueZeros(KeyWidth - |d|, d);
      Zeros(KeyWidth - |d|) + d
  }

  /** For every pair of `uint64` indices, fixed-width key order is numeric order. */
  lemma PaddedOrder(a: nat, b: nat)
    requires a <= MaxUint64 && b <= MaxUint64
    ensures Less(Padded(a), Padded(b)) <==> a < b
  {
    DecimalFitsWidth(a);
    DecimalFitsWidth(b);
    DigitOrderIsNumericOrder(Padded(a), Padded(b));
  }

  // ----- strconv.ParseUint(s, 10, 64) -----

  datatype NumError = ErrSyntax | ErrRange

  /**
   * Go's `strconv.ParseUint(s, 10, 64)`: digits only (no sign, no
   * underscores in base 10), at least one, and a value that fits 64 bits.
   * Leading zeros are accepted.
   */
  function ParseUint(s: string): (r: Result<nat, NumError>)
    ensures r.Success? <==> |s| > 0 && AllDigits(s) && Value(s) <= MaxUint64
    ensures r.Success? ==> r.value == Value(s)
  {
    if |s| == 0 then Failure(ErrSyntax) else ParseDigits(s, 0)
  }

  /**
   * The scan loop of ParseUint with `acc` digits already accumulated: a
   * non-digit is a syntax error, a step that would exceed `MaxUint64` is a
   * range error, whichever comes first.
   */
  function ParseDigits(s: string, acc: nat): (r: Result<nat, NumError>)
    requires acc <= MaxUint64
    ensures r.Success? <==> AllDigits(s) && acc * Pow10(|s|) + Value(s) <= MaxUint64
    ensures r.Success? ==> r.value == acc * Pow10(|s|) + Value(s)
    decreases |s|
  {
    if |s| == 0 then
      Success(acc)
    else if !IsDigit(s[0]) then
      Failure(ErrSyntax)
    else
      var n := acc * 10 + DigitValue(s[0]);
      ParseStep(s, acc);
      if n > MaxUint64 then Failure(ErrRange) else ParseDigits(s[1..], n)
  }

  /** One step of the scan: the remaining total after consuming a digit. */
  lemma ParseStep(s: string, acc: nat)
    requires |s| > 0 && IsDigit(s[0])
    ensures AllDigits(s) <==> AllDigits(s[1..])
    ensures AllDigits(s) ==>
      acc * Pow10(|s|) + Value(s) == (acc * 10 + DigitValue(s[0])) * Pow10(|s| - 1) + Value(s[1..])
    ensures (acc * 10 + DigitValue(s[0])) <= (acc * 10 + DigitValue(s[0])) * Pow10(|s| - 1)
  {
    var p, d := Pow10(|s| - 1), DigitValue(s[0]);
    MulLe(1, p, acc * 10 + d);
    AllDigitsCons(s);
    if AllDigits(s) {
      assert Value(s) == d * p + Value(s[1..]);
      assert Pow10(|s|) == 10 * p;
      Distribute(acc, d, p);
    }
  }

  lemma Distribute(acc: nat, d: nat, p: nat)
    ensures acc * (10 * p) + d * p == (acc * 10 + d) * p
  {
  }

  lemma AllDigitsCons(s: seq<char>)
    requires |s| > 0 && IsDigit(s[0])
    ensures AllDigits(s) <==> AllDigits(s[1..])
  {
    if AllDigits(s[1..]) {
      forall i | 0 <= i < |s|
        ensures IsDigit(s[i])
      {
        if i > 0 {
          assert s[i] == s[1..][i - 1];
        }
      }
    }
  }
}
