/** Numbers as text: std::to_string() and the trimming of trailing zeros. */
module Text {
  import opened Values

  const ZERO: Byte := 48   // '0'
  const POINT: Byte := 46  // '.'
  const MINUS: Byte := 45  // '-'

  predicate IsDigits(s: Bytes) {
    forall i | 0 <= i < |s| :: ZERO <= s[i] <= ZERO + 9
  }

  function DigitsValue(s: Bytes): nat
    requires IsDigits(s)
  {
    if s == [] then 0
    else 10 * DigitsValue(s[..|s| - 1]) + (s[|s| - 1] - ZERO)
  }

  function Pow10(k: nat): (r: nat)
    ensures r > 0
  {
    if k == 0 then 1 else 10 * Pow10(k - 1)
  }

  /** The number 0.d1d2d3... that the digits after the point stand for. */
  ghost function FractionValue(s: Bytes): real
    requires IsDigits(s)
  {
    DigitsValue(s) as real / Pow10(|s|) as real
  }

  function Digits(n: nat): (s: Bytes)
    ensures IsDigits(s) && |s| > 0 && DigitsValue(s) == n
    ensures |s| > 1 ==> s[0] != ZERO
  {
    if n < 10 then [ZERO + n] else Digits(n / 10) + [ZERO + n % 10]
  }

  /** std::to_string() of an integer. */
  function IntText(i: int): Bytes {
    if i < 0 then [MINUS] + Digits(-i) else Digits(i)
  }

  /** Reads back what IntText() wrote. */
  function IntValue(s: Bytes): int
    requires s != [] && IsDigits(if s[0] == MINUS then s[1..] else s)
  {
    if s[0] == MINUS then -(DigitsValue(s[1..]) as int) else DigitsValue(s)
  }

  lemma IntTextRoundTrip(i: int)
    ensures var s := IntText(i); s != [] && IsDigits(if s[0] == MINUS then s[1..] else s) && IntValue(s) == i
  {
    if i < 0 {
      assert IntText(i)[1..] == Digits(-i);
    }
  }

  /** Decimal digits without leading zeros, after a minus sign for negative numbers. */
  lemma IntTextIsDecimal(i: int)
    ensures var t := IntText(i);
            && t != [] && (t[0] == 45 <==> i < 0)
            && var digits := if i < 0 then t[1..] else t;
               && digits != [] && (forall k | 0 <= k < |digits| :: 48 <= digits[k] <= 57)
               && (digits[0] == 48 ==> |digits| == 1)
  {
    assert i < 0 ==> IntText(i)[1..] == Digits(-i);
  }

  /** `n` written with exactly `k` digits. */
  function Padded(k: nat, n: nat): (s: Bytes)
    requires n < Pow10(k)
    ensures IsDigits(s) && |s| == k && DigitsValue(s) == n
  {
    if k == 0 then [] else Padded(k - 1, n / 10) + [ZERO + n % 10]
  }

  function RoundHalfEven(x: Magnitude): (n: nat)
    ensures -0.5 <= n as real - x <= 0.5
    ensures n as real - x == 0.5 || n as real - x == -0.5 ==> n % 2 == 0
  {
    var f := x.Floor;
    var rest := x - f as real;
    if rest < 0.5 || (rest == 0.5 && f % 2 == 0) then f else f + 1
  }

  /** The number of millionths that "%f" prints for `d`. */
  function Millionths(d: Double): nat {
    RoundHalfEven(d.magnitude * 1000000.0)
  }

  function WholePart(d: Double): Bytes {
    (if d.negative then [MINUS] else []) + Digits(Millionths(d) / 1000000)
  }

  /** The six digits after the point when `m` millionths are printed. */
  function SixDigits(m: nat): (s: Bytes)
    ensures IsDigits(s) && |s| == 6
    ensures FractionValue(s) == (m % 1000000) as real / 1000000.0
  {
    assert Pow10(6) == 1000000 by { assert Pow10(3) == 1000; }
    Padded(6, m % 1000000)
  }

  /** std::to_string() of a double: "%f", six digits after the point, ties to even. */
  function FixedText(d: Double): Bytes {
    WholePart(d) + [POINT] + SixDigits(Millionths(d))
  }

  /** std::string::find_last_not_of('0'), with -1 for npos. */
  function LastNotZero(s: Bytes): (r: int)
    ensures -1 <= r < |s|
    ensures r >= 0 ==> s[r] != ZERO
    ensures forall i | r < i < |s| :: s[i] == ZERO
  {
    if s == [] then -1
    else if s[|s| - 1] != ZERO then |s| - 1
    else LastNotZero(s[..|s| - 1])
  }

  function TrimZeros(s: Bytes): Bytes {
    var found := LastNotZero(s);
    if found >= 0 && found + 2 < |s| then s[..found + 2] else s
  }

  /** The text of a double in a character vector. */
  function DoubleText(d: Double): Bytes {
    TrimZeros(FixedText(d))
  }

  lemma PaddedByZero(k: nat, n: nat)
    requires n < Pow10(k)
    ensures 10 * n < Pow10(k + 1) && Padded(k + 1, 10 * n) == Padded(k, n) + [48]
  {
  }

  lemma HalfPadded()
    ensures SixDigits(1500000) == [53, 48, 48, 48, 48, 48]
  {
    hide Padded, Pow10;
    assert 5 < Pow10(1) && Padded(1, 5) == [53] by { OneDigit(5); }
    PaddedByZero(1, 5);
    PaddedByZero(2, 50);
    PaddedByZero(3, 500);
    PaddedByZero(4, 5000);
    PaddedByZero(5, 50000);
  }

  lemma OneDigit(n: nat)
    requires n < 10
    ensures n < Pow10(1) && Padded(1, n) == [48 + n]
  {
    assert n / 10 == 0 && Pow10(0) == 1;
  }

  lemma HalfTrimmed(t: Bytes)
    requires t == [45, 49, 46, 53, 48, 48, 48, 48, 48]
    ensures TrimZeros(t) == [45, 49, 46, 53, 48]
  {
    assert t[3] == 53;
    assert LastNotZero(t) == 3;
  }

  /** -120 is "-120", and -1.5 is "-1.50". */
  lemma TextsOfNumbers()
    ensures IntText(-120) == [45, 49, 50, 48]
    ensures DoubleText(Double(true, 1.5)) == [45, 49, 46, 53, 48]
  {
    hide SixDigits, TrimZeros;
    assert Digits(120) == [49, 50, 48];
    var d := Double(true, 1.5);
    assert Millionths(d) == 1500000;
    HalfPadded();
    assert FixedText(d) == [45, 49, 46, 53, 48, 48, 48, 48, 48];
    HalfTrimmed(FixedText(d));
  }

  lemma Cancel(x: real, q: real)
    requires q > 0.0
    ensures (x * q) / q == x
  {
  }

  lemma CancelTen(v: real, p: real)
    requires p > 0.0
    ensures (10.0 * v) / (10.0 * p) == v / p
  {
    var x := v / p;
    assert x * p == v;
    assert x * (10.0 * p) == 10.0 * v;
    Cancel(x, 10.0 * p);
  }

  lemma {:induction false} DropZeros(f: Bytes, n: nat)
    requires IsDigits(f) && n <= |f|
    requires forall i | n <= i < |f| :: f[i] == ZERO
    ensures FractionValue(f) == FractionValue(f[..n])
    decreases |f|
  {
    if n == |f| {
      assert f[..n] == f;
    } else {
      var g := f[..|f| - 1];
      DropZeros(g, n);
      assert g[..n] == f[..n];
      var v, p := DigitsValue(g) as real, Pow10(|g|) as real;
      assert FractionValue(f) == (10.0 * v) / (10.0 * p);
      CancelTen(v, p);
    }
  }

  /**
   * Trimming a text with digits `f` after its only relevant point keeps everything up to the point, keeps the
   * number after it, leaves at least one digit there and at most one trailing zero, exactly one if it drops any, and
   * has no further effect.
   */
  lemma TrimKeepsNumber(whole: Bytes, f: Bytes)
    requires IsDigits(f) && f != []
    ensures var t := TrimZeros(whole + [POINT] + f);
            && |t| > |whole| + 1
            && t[..|whole| + 1] == whole + [POINT]
            && t[|whole| + 1..] <= f
            && IsDigits(t[|whole| + 1..])
            && FractionValue(t[|whole| + 1..]) == FractionValue(f)
            && !(|t| > |whole| + 2 && t[|t| - 1] == ZERO && t[|t| - 2] == ZERO)
            && (t != whole + [POINT] + f ==> t[|t| - 1] == ZERO)
            && TrimZeros(t) == t
  {
    var s := whole + [POINT] + f;
    var found := LastNotZero(s);
    assert s[|whole|] == POINT;
    assert found >= |whole|;
    var t := TrimZeros(s);
    var n := |t| - |whole| - 1;
    assert t[|whole| + 1..] == f[..n];
    assert f == s[|whole| + 1..];
    forall i | n <= i < |f| ensures f[i] == ZERO {
      assert f[i] == s[|whole| + 1 + i];
    }
    DropZeros(f, n);
    var again := LastNotZero(t);
    assert t[found] != ZERO;
    assert again >= found;
  }

  lemma WholeAndMillionths(m: nat)
    ensures (m / 1000000) as real + (m % 1000000) as real / 1000000.0 == m as real / 1000000.0
  {
    var q, r := m / 1000000, m % 1000000;
    assert m as real == 1000000.0 * q as real + r as real;
  }

  /** The text of a double denotes its magnitude rounded to six places, exactly, whatever was trimmed. */
  lemma DoubleTextDenotes(d: Double)
    ensures var w := WholePart(d);
            var t := DoubleText(d);
            && |t| > |w| + 1
            && t[..|w| + 1] == w + [POINT]
            && IsDigits(t[|w| + 1..]) && |t| <= |w| + 7
            && !(|t| > |w| + 2 && t[|t| - 1] == ZERO && t[|t| - 2] == ZERO)
            && (|t| < |w| + 7 ==> t[|t| - 1] == ZERO)
            && (Millionths(d) / 1000000) as real + FractionValue(t[|w| + 1..]) == Millionths(d) as real / 1000000.0
  {
    TrimKeepsNumber(WholePart(d), SixDigits(Millionths(d)));
    WholeAndMillionths(Millionths(d));
  }

  /** Where the first point is, or the length of the text. */
  function PointPosition(t: Bytes): (p: nat)
    ensures p <= |t| && (p < |t| ==> t[p] == POINT)
  {
    if t == [] || t[0] == POINT then 0 else 1 + PointPosition(t[1..])
  }

  /** The decimal text `t` is that of exactly the number `d`, sign included. */
  ghost predicate ReadsAs(t: Bytes, d: Double) {
    var p := PointPosition(t);
    var start := if d.negative then 1 else 0;
    && start <= p < |t|
    && (d.negative ==> t[0] == MINUS)
    && IsDigits(t[start..p]) && IsDigits(t[p + 1..])
    && DigitsValue(t[start..p]) as real + FractionValue(t[p + 1..]) == d.magnitude
  }

  lemma {:induction false} PointAfter(t: Bytes, w: Bytes)
    requires |t| > |w| && t[..|w| + 1] == w + [POINT] && POINT !in w
    ensures PointPosition(t) == |w|
  {
    assert t[|w|] == POINT;
    if w != [] {
      assert t[0] == w[0] && w[0] in w;
      assert t[1..][..|w|] == w[1..] + [POINT];
      PointAfter(t[1..], w[1..]);
    }
  }

  /** The text of a double reads as its sign and the nearest number of millionths, the even one on a tie. */
  lemma DoubleTextReads(d: Double)
    ensures var m := Millionths(d);
            var error := m as real - d.magnitude * 1000000.0;
            && ReadsAs(DoubleText(d), Double(d.negative, m as real / 1000000.0))
            && -0.5 <= error <= 0.5 && (error == 0.5 || error == -0.5 ==> m % 2 == 0)
  {
    var w, t, q := WholePart(d), DoubleText(d), Digits(Millionths(d) / 1000000);
    DoubleTextDenotes(d);
    assert POINT !in q && POINT !in w;
    PointAfter(t, w);
    var start := if d.negative then 1 else 0;
    assert t[start..|w|] == q by {
      assert t[..|w|] == w;
    }
    assert d.negative ==> t[0] == w[0];
  }

  /** The text of a double is exact for multiples of a millionth, and for those only. */
  lemma DoubleTextExactly(d: Double)
    ensures ReadsAs(DoubleText(d), d) <==> Millionths(d) as real == d.magnitude * 1000000.0
  {
    DoubleTextReads(d);
    Cancel(d.magnitude, 1000000.0);
  }

  predicate IsPowerOfTwo(u: nat) {
    u == 1 || (u > 0 && u % 2 == 0 && IsPowerOfTwo(u / 2))
  }

  /** The unit in the last place of an integer held in a 53-bit significand. */
  function LastPlace(n: nat): (u: nat)
    ensures u > 0 && IsPowerOfTwo(u)
    ensures u == 1 || 0x10_0000_0000_0000 * u <= n
    ensures n < 0x20_0000_0000_0000 * u
  {
    if n < 0x20_0000_0000_0000 then 1 else 2 * LastPlace(n / 2)
  }

  /** How many units of `u` are nearest to `n`, an even number of them if two are equally near. */
  function NearestQuotient(n: nat, u: nat): (q: nat)
    requires u > 0
    ensures u == 1 ==> q == n
  {
    var q, rest := n / u, n % u;
    if 2 * rest < u || (2 * rest == u && q % 2 == 0) then q else q + 1
  }

  lemma Product(n: nat, u: nat, q: nat, p: nat)
    requires u > 0 && q == n / u && p == q * u
    ensures n == p + n % u && (q + 1) * u == p + u
  {
  }

  lemma QuotientIsNearest(n: nat, u: nat)
    requires u > 0
    ensures var m := NearestQuotient(n, u) * u;
            && 2 * n - u <= 2 * m <= 2 * n + u
            && (2 * m == 2 * n - u || 2 * m == 2 * n + u ==> NearestQuotient(n, u) % 2 == 0)
  {
    var q := n / u;
    var p := q * u;
    Product(n, u, q, p);
  }

  function Absolute(i: int): nat {
    if i < 0 then -i else i
  }

  /** static_cast<double>() of an integer: to the nearest multiple of the last place. */
  function ToDouble(i: int): Double {
    var u := LastPlace(Absolute(i));
    Double(i < 0, (NearestQuotient(Absolute(i), u) * u) as real)
  }

  /** Every integer of up to 53 bits survives as a double; beyond that the error is half a unit at most. */
  lemma ToDoubleNearest(i: int)
    ensures ToDouble(i).negative == (i < 0)
    ensures Absolute(i) < 0x20_0000_0000_0000 ==> ToDouble(i).magnitude == Absolute(i) as real
    ensures -(LastPlace(Absolute(i)) as real) <= 2.0 * (ToDouble(i).magnitude - Absolute(i) as real)
            <= LastPlace(Absolute(i)) as real
  {
    var u := LastPlace(Absolute(i));
    var m := NearestQuotient(Absolute(i), u) * u;
    QuotientIsNearest(Absolute(i), u);
    assert 2.0 * (m as real - Absolute(i) as real) == (2 * (m - Absolute(i))) as real;
  }

  /** An integer is a double exactly if it is a multiple of its last place. */
  lemma ToDoubleExactly(i: int)
    ensures ToDouble(i).magnitude == Absolute(i) as real <==> Absolute(i) % LastPlace(Absolute(i)) == 0
  {
    var n := Absolute(i);
    var u := LastPlace(n);
    var q := n / u;
    Product(n, u, q, q * u);
  }
}
