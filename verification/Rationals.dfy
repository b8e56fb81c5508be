/**
 Exact rationals as the sheet crates use them: a numerator over a denominator, always taken to
 lowest terms with a positive denominator by `parse_rational_parts`. That function belongs to another
 crate; `Reduce` and `ParseRational` state what is assumed of it.
 */
module Rationals {
  import opened Text
  import opened Wrappers

  datatype Rational = Rational(num: int, den: int)

  function Abs(n: int): nat {
    if n < 0 then -n else n
  }

  function Gcd(a: nat, b: nat): (g: nat)
    ensures a > 0 || b > 0 ==> g > 0
    decreases b
  {
    if b == 0 then a else Gcd(b, a % b)
  }

  ghost predicate Divides(d: nat, n: int) {
    d > 0 && n % d == 0
  }

  ghost predicate Canonical(q: Rational) {
    q.den > 0 && Gcd(Abs(q.num), q.den) == 1
  }

  // ---------------------------------------------------------------- greatest common divisor

  lemma MulBounds(d: int, e: int)
    requires d > 0
    ensures e > 0 ==> d * e >= d
    ensures e < 0 ==> d * e <= -d
    ensures d * e == 0 ==> e == 0
  {
    if e > 0 {
      MulMonotone(d, 1, e);
    } else if e < 0 {
      MulMonotone(d, e, -1);
    }
  }

  lemma MulMonotone(d: int, x: int, y: int)
    requires d >= 0 && x <= y
    ensures d * x <= d * y
  {
  }

  /** Quotient and remainder are the only pair that fits. */
  lemma QuotientUnique(x: int, d: int, q: int, r: int)
    requires 0 <= r < d && x == d * q + r
    ensures x / d == q && x % d == r
  {
    assert x == d * (x / d) + x % d;
    assert d * (q - x / d) == x % d - r;
    MulBounds(d, q - x / d);
  }

  lemma MultipleMod(d: nat, k: int)
    requires d > 0
    ensures (d * k) % d == 0 && (d * k) / d == k
  {
    QuotientUnique(d * k, d, k, 0);
  }

  lemma ModOfSum(q: int, r: int, d: nat, m: int)
    requires d > 0 && m % d == 0 && r % d == 0
    ensures (q * m + r) % d == 0
  {
    var k, l := m / d, r / d;
    assert m == d * k && r == d * l;
    assert q * (d * k) == d * (q * k);
    assert q * m + r == d * (q * k + l);
    MultipleMod(d, q * k + l);
  }

  lemma {:induction false} GcdDivides(a: nat, b: nat)
    requires a > 0 || b > 0
    ensures Divides(Gcd(a, b), a) && Divides(Gcd(a, b), b)
    decreases b
  {
    if b == 0 {
    } else {
      var q, r := a / b, a % b;
      assert a == q * b + r;
      GcdDivides(b, r);
      ModOfSum(q, r, Gcd(b, r), b);
    }
  }

  lemma {:induction false} GcdScale(a: nat, b: nat, m: nat)
    requires m > 0
    ensures Gcd(a * m, b * m) == Gcd(a, b) * m
    decreases b
  {
    if b == 0 {
    } else {
      GcdScale(b, a % b, m);
      ModScale(a, b, m);
      assert b * m > 0;
    }
  }

  lemma ModScale(a: nat, b: nat, m: nat)
    requires b > 0 && m > 0
    ensures b * m > 0
    ensures (a * m) % (b * m) == (a % b) * m
    ensures (a * m) / (b * m) == a / b
  {
    var q, r := a / b, a % b;
    assert a * m == (b * q) * m + r * m;
    assert (b * q) * m == (b * m) * q;
    MulMonotone(m, r, b - 1);
    assert m * (b - 1) == b * m - m;
    QuotientUnique(a * m, b * m, q, r * m);
  }

  // ---------------------------------------------------------------- lowest terms

  /** `n / d` in lowest terms with a positive denominator. */
  function Reduce(n: int, d: int): (q: Rational)
    requires d != 0
  {
    var g := Gcd(Abs(n), Abs(d));
    if d > 0 then Rational(n / g, d / g) else Rational((-n) / g, (-d) / g)
  }

  /** Reducing keeps the ratio and reaches lowest terms. */
  lemma ReduceIsCanonical(n: int, d: int)
    requires d != 0
    ensures Canonical(Reduce(n, d))
    ensures Reduce(n, d).num * d == n * Reduce(n, d).den
  {
    hide Reduce;
    if d > 0 {
      ReducePositive(n, d);
    } else {
      ReduceNegate(n, d);
      ReducePositive(-n, -d);
    }
  }

  lemma ReducePositive(n: int, d: int)
    requires d > 0
    ensures Canonical(Reduce(n, d))
    ensures Reduce(n, d).num * d == n * Reduce(n, d).den
  {
    var g := Gcd(Abs(n), d);
    assert Reduce(n, d) == Rational(n / g, d / g);
    hide Reduce, Gcd;
    GcdDivides(Abs(n), d);
    DivideAbs(n, g);
    assert d == g * (d / g);
    LowestTerms(n / g, d / g, g);
  }

  lemma LowestTerms(x: int, y: int, g: nat)
    requires g > 0 && g * y > 0
    requires Gcd(Abs(g * x), g * y) == g
    ensures y > 0 && Gcd(Abs(x), y) == 1
  {
    MulBounds(g, y);
    AbsScale(x, g);
    assert Abs(g * x) == Abs(x) * g by { assert g * x == x * g; }
    GcdScale(Abs(x), y, g);
    var h := Gcd(Abs(x), y);
    assert g * (h - 1) == 0 by { assert g * y == y * g; }
    MulBounds(g, h - 1);
  }

  lemma DivideAbs(n: int, g: nat)
    requires g > 0 && Abs(n) % g == 0
    ensures n % g == 0 && n == g * (n / g)
  {
    var k := Abs(n) / g;
    assert Abs(n) == g * k;
    MultipleMod(g, if n < 0 then -k else k);
    assert g * (-k) == -(g * k);
  }

  lemma ReduceCanonical(q: Rational)
    requires Canonical(q)
    ensures Reduce(q.num, q.den) == q
  {
  }

  lemma ReduceScale(n: int, d: int, m: int)
    requires d != 0 && m != 0
    ensures d * m != 0
    ensures Reduce(n * m, d * m) == Reduce(n, d)
  {
    ProductNonZero(d, m);
    if m > 0 {
      ReduceScalePositive(n, d, m);
    } else {
      ReduceNegate(n * m, d * m);
      ReduceScalePositive(n, d, -m);
      assert -(n * m) == n * (-m) && -(d * m) == d * (-m);
    }
  }

  lemma ProductNonZero(x: int, y: int)
    requires x != 0 && y != 0
    ensures x * y != 0
  {
    if x > 0 {
      MulBounds(x, y);
    } else {
      MulBounds(-x, y);
      assert (-x) * y == -(x * y);
    }
  }

  lemma ReduceNegate(n: int, d: int)
    requires d != 0
    ensures Reduce(-n, -d) == Reduce(n, d)
  {
  }

  lemma ReduceScalePositive(n: int, d: int, m: nat)
    requires d != 0 && m > 0
    ensures d * m != 0
    ensures Reduce(n * m, d * m) == Reduce(n, d)
  {
    hide Reduce;
    ProductNonZero(d, m);
    if d < 0 {
      ReduceNegate(n, d);
      ReduceNegate(n * m, d * m);
      ReduceScaleBoth(-n, -d, m);
    } else {
      ReduceScaleBoth(n, d, m);
    }
  }

  lemma ReduceScaleBoth(n: int, d: nat, m: nat)
    requires d > 0 && m > 0
    ensures d * m > 0
    ensures Reduce(n * m, d * m) == Reduce(n, d)
  {
    AbsScale(n, m);
    MulBounds(m, d);
    var g := Gcd(Abs(n), d);
    GcdScale(Abs(n), d, m);
    GcdDivides(Abs(n), d);
    DivideAbs(n, g);
    MulBounds(m, g);
    ScaledQuotient(n, g, m);
    ScaledQuotient(d, g, m);
    assert Abs(d * m) == d * m;
    hide Gcd;
    assert Gcd(Abs(n * m), Abs(d * m)) == g * m;
  }

  lemma ScaledQuotient(x: int, g: nat, m: nat)
    requires g > 0 && g * m > 0 && x == g * (x / g)
    ensures (x * m) / (g * m) == x / g
  {
    assert x * m == (g * (x / g)) * m == (g * m) * (x / g);
    MultipleMod(g * m, x / g);
  }

  lemma AbsScale(n: int, m: nat)
    ensures Abs(n * m) == Abs(n) * m
  {
    if n < 0 {
      assert n * m <= 0;
      assert (-n) * m == -(n * m);
    } else {
      assert n * m >= 0;
    }
  }

  /** Two fractions reduce to the same rational exactly when they are equal as fractions. */
  lemma ReduceEqualIff(a: int, b: int, c: int, d: int)
    requires b != 0 && d != 0
    ensures Reduce(a, b) == Reduce(c, d) <==> a * d == c * b
  {
    if a * d == c * b {
      ReduceScale(a, b, d);
      ReduceScale(c, d, b);
      assert b * d == d * b;
    }
    if Reduce(a, b) == Reduce(c, d) {
      var q := Reduce(a, b);
      ReduceIsCanonical(a, b);
      ReduceIsCanonical(c, d);
      CrossProducts(q.num, q.den, a, b, c, d);
    }
  }

  lemma CrossProducts(x: int, y: int, a: int, b: int, c: int, d: int)
    requires y > 0 && x * b == a * y && x * d == c * y
    ensures a * d == c * b
  {
    assert (a * d) * y == (a * y) * d == (x * b) * d;
    assert (c * b) * y == (c * y) * b == (x * d) * b;
    assert (x * b) * d == (x * d) * b;
    assert y * (a * d - c * b) == 0;
    MulBounds(y, a * d - c * b);
  }

  // ---------------------------------------------------------------- the number denoted

  /** The real number a fraction stands for. */
  ghost function Ratio(n: int, d: int): real
    requires d != 0
  {
    n as real / d as real
  }

  ghost function Denote(q: Rational): real
    requires q.den != 0
  {
    Ratio(q.num, q.den)
  }

  lemma RatioEqual(a: int, b: int, c: int, d: int)
    requires b != 0 && d != 0 && a * d == c * b
    ensures Ratio(a, b) == Ratio(c, d)
  {
    var x, y := Ratio(a, b), Ratio(c, d);
    var rb, rd := b as real, d as real;
    assert x * rb == a as real && y * rd == c as real;
    assert (a * d) as real == a as real * rd;
    assert (c * b) as real == c as real * rb;
    assert (x - y) * (rb * rd) == 0.0 by {
      assert (x * rb) * rd == (y * rd) * rb;
      assert (x * rb) * rd == x * (rb * rd);
      assert (y * rd) * rb == y * (rb * rd);
    }
    RealProductNonZero(rb, rd);
    if x != y {
      RealProductNonZero(x - y, rb * rd);
    }
  }

  lemma RealProductNonZero(x: real, y: real)
    requires x != 0.0 && y != 0.0
    ensures x * y != 0.0
  {
    assert (x * y) / y == x;
  }

  lemma ReduceDenotes(n: int, d: int)
    requires d != 0
    ensures Canonical(Reduce(n, d))
    ensures Denote(Reduce(n, d)) == Ratio(n, d)
  {
    ReduceIsCanonical(n, d);
    var q := Reduce(n, d);
    RatioEqual(q.num, q.den, n, d);
  }

  /** Lowest terms are a normal form: a real number has at most one canonical rational. */
  lemma CanonicalUnique(p: Rational, q: Rational)
    requires Canonical(p) && Canonical(q)
    requires Denote(p) == Denote(q)
    ensures p == q
  {
    var x := Denote(p);
    assert p.num as real == x * p.den as real && q.num as real == x * q.den as real;
    assert p.num as real * q.den as real == q.num as real * p.den as real by {
      assert (x * p.den as real) * q.den as real == (x * q.den as real) * p.den as real;
    }
    assert (p.num * q.den) as real == p.num as real * q.den as real;
    assert (q.num * p.den) as real == q.num as real * p.den as real;
    assert p.num * q.den == q.num * p.den;
    SameProducts(p, q);
  }

  lemma SameProducts(p: Rational, q: Rational)
    requires Canonical(p) && Canonical(q) && p.num * q.den == q.num * p.den
    ensures p == q
  {
    ReduceEqualIff(p.num, p.den, q.num, q.den);
    ReduceCanonical(p);
    ReduceCanonical(q);
  }

  // ---------------------------------------------------------------- literals

  /** A signed decimal integer. */
  function ParseInt(s: string): Option<int> {
    var negative := |s| > 0 && s[0] == '-';
    var digits := if |s| > 0 && (s[0] == '-' || s[0] == '+') then s[1..] else s;
    if digits == [] || !AllDigits(digits) then None
    else
      var value: int := DigitsValue(digits);
      Some(if negative then -value else value)
  }

  function IntText(n: int): string {
    if n < 0 then "-" + NatText(-n) else NatText(n)
  }

  lemma ParseIntOfText(n: int)
    ensures ParseInt(IntText(n)) == Some(n)
    ensures '/' !in IntText(n) && '.' !in IntText(n)
    ensures IntText(n) != [] && !IsWhitespace(IntText(n)[0]) && !IsWhitespace(IntText(n)[|IntText(n)| - 1])
  {
    hide NatText, DigitsValue;
    NatTextValue(Abs(n));
    var t := NatText(Abs(n));
    assert IsDigit(t[0]) && IsDigit(t[|t| - 1]);
    if n < 0 {
      assert IntText(n)[1..] == t;
    }
  }

  /** The fraction two integers make, or nothing when the denominator is zero. */
  function FromParts(num: int, den: int): Option<Rational> {
    if den == 0 then None else Some(Reduce(num, den))
  }

  /** A `num/den` literal. */
  function ParseRational(s: string): Option<Rational> {
    match FirstAt(s, '/')
    case None => None
    case Some(i) =>
      match (ParseInt(s[..i]), ParseInt(s[i + 1..]))
      case (Some(n), Some(d)) => FromParts(n, d)
      case _ => None
  }

  /** An integer or `num/den` literal, after trimming. */
  function RationalFromText(text: string): Option<Rational> {
    var source := Trim(text);
    ParseRational(if '/' in source then source else source + "/1")
  }

  /** The compact canonical text of a rational. */
  function RationalText(q: Rational): string {
    IntText(q.num) + "/" + IntText(q.den)
  }

  lemma ParseFraction(a: string, b: string)
    requires '/' !in a
    requires ParseInt(a).Some? && ParseInt(b).Some?
    ensures ParseRational(a + "/" + b) == FromParts(ParseInt(a).value, ParseInt(b).value)
  {
    FirstAtConcat(a, '/', b);
    var s := a + "/" + b;
    assert s[..|a|] == a && s[|a| + 1..] == b;
  }

  /** The text of any fraction reads back in lowest terms; a zero denominator is refused. */
  lemma RationalTextReads(q: Rational)
    ensures RationalFromText(RationalText(q)) == FromParts(q.num, q.den)
    ensures Trim(RationalText(q)) == RationalText(q)
    ensures '/' in RationalText(q)
  {
    hide NatText, DigitsValue;
    ParseIntOfText(q.num);
    ParseIntOfText(q.den);
    var t := RationalText(q);
    assert t[|t| - 1] == IntText(q.den)[|IntText(q.den)| - 1];
    assert t[|IntText(q.num)|] == '/';
    TrimIdentity(t);
    ParseFraction(IntText(q.num), IntText(q.den));
  }

  /** Canonical text reads back as the same rational. */
  lemma RationalTextRoundTrip(q: Rational)
    requires Canonical(q)
    ensures RationalFromText(RationalText(q)) == Some(q)
    ensures Trim(RationalText(q)) == RationalText(q)
    ensures '/' in RationalText(q)
  {
    RationalTextReads(q);
    ReduceCanonical(q);
  }
}
