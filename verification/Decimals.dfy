/** Decimal text as an exact number: a text-rewriting conversion and a big-integer conversion. */
module Decimals {
  import opened Wrappers
  import opened Text
  import opened Rationals

  // ---------------------------------------------------------------- rewriting the text

  function Zeroes(n: nat): string {
    if n == 0 then "" else Zeroes(n - 1) + "0"
  }

  /** A leading minus sign and the rest. */
  function SplitSign(text: string): (bool, string) {
    if text != [] && text[0] == '-' then (true, text[1..]) else (false, text)
  }

  function SignText(negative: bool): string {
    if negative then "-" else ""
  }

  /** A decimal rewritten as a fraction literal; scientific notation is refused. */
  function RationalLiteral(input: string): Option<string> {
    var text := Trim(input);
    if '/' in text || '.' !in text then Some(text)
    else if 'e' in text || 'E' in text then None
    else
      var (negative, unsigned) := SplitSign(text);
      match FirstAt(unsigned, '.')
      case None => None
      case Some(dot) =>
        var whole, fraction := unsigned[..dot], unsigned[dot + 1..];
        if fraction == [] then Some(SignText(negative) + whole + "/1")
        else Some(SignText(negative) + StripZeroes(whole + fraction) + "/1" + Zeroes(Utf8Length(fraction)))
  }

  function CellNumber(text: string): Option<Rational> {
    match RationalLiteral(text)
    case None => None
    case Some(literal) => RationalFromText(literal)
  }

  // ---------------------------------------------------------------- big integers

  function Signed(negative: bool, n: int): int {
    if negative then -n else n
  }

  /** The exponent of ten is the fraction's length cut to 32 bits. */
  function DecimalRational(text: string): Option<Rational> {
    var (negative, unsigned) := SplitSign(text);
    match FirstAt(unsigned, '.')
    case None => RationalFromText(text)
    case Some(dot) =>
      var whole, fraction := unsigned[..dot], unsigned[dot + 1..];
      if whole == [] || fraction == [] || !AllDigits(whole) || !AllDigits(fraction) then None
      else
        var denominator := Pow10(|fraction| % WIDTH_32);
        FromParts(Signed(negative, DigitsValue(whole) * denominator + DigitsValue(fraction)), denominator)
  }

  // ---------------------------------------------------------------- what they denote

  function DecimalText(negative: bool, whole: string, fraction: string): string {
    SignText(negative) + whole + "." + fraction
  }

  predicate Decimal(whole: string, fraction: string) {
    whole != [] && fraction != [] && AllDigits(whole) && AllDigits(fraction)
  }

  lemma DecimalTextSplits(negative: bool, whole: string, fraction: string)
    requires Decimal(whole, fraction)
    ensures SplitSign(DecimalText(negative, whole, fraction)) == (negative, whole + "." + fraction)
    ensures FirstAt(whole + "." + fraction, '.') == Some(|whole|)
    ensures (whole + "." + fraction)[..|whole|] == whole
    ensures (whole + "." + fraction)[|whole| + 1..] == fraction
  {
    hide FirstAt, SplitSign, SignText;
    var unsigned := whole + "." + fraction;
    assert unsigned[0] == whole[0] && IsDigit(whole[0]);
    assert DecimalText(negative, whole, fraction) == SignText(negative) + unsigned;
    SplitSignOf(negative, unsigned);
    FirstAtConcat(whole, '.', fraction);
  }

  lemma SplitSignOf(negative: bool, unsigned: string)
    requires unsigned != [] && unsigned[0] != '-'
    ensures SplitSign(SignText(negative) + unsigned) == (negative, unsigned)
  {
    var text := SignText(negative) + unsigned;
    if negative {
      assert text[1..] == unsigned;
    } else {
      assert text == unsigned;
    }
  }

  /** A signed decimal holds only digits, one point and perhaps a sign, and nothing to trim. */
  lemma DecimalTextPlain(negative: bool, whole: string, fraction: string)
    requires Decimal(whole, fraction)
    ensures var text := DecimalText(negative, whole, fraction);
            Trim(text) == text && '.' in text && '/' !in text && 'e' !in text && 'E' !in text
  {
    var sign, text := SignText(negative), DecimalText(negative, whole, fraction);
    assert text[|text| - 1] == fraction[|fraction| - 1];
    assert text[0] == if negative then '-' else whole[0];
    assert !IsWhitespace(text[0]) && !IsWhitespace(text[|text| - 1]);
    TrimIdentity(text);
    assert text[|sign| + |whole|] == '.';
    forall i | 0 <= i < |text|
      ensures text[i] == '-' || text[i] == '.' || IsDigit(text[i])
    {
      if |sign| <= i < |sign| + |whole| {
        assert text[i] == whole[i - |sign|];
      } else if i > |sign| + |whole| {
        assert text[i] == fraction[i - |sign| - |whole| - 1];
      }
    }
  }

  lemma {:induction false} ZeroesDigits(n: nat)
    ensures AllDigits(Zeroes(n)) && |Zeroes(n)| == n && DigitsValue(Zeroes(n)) == 0
  {
    if n > 0 {
      ZeroesDigits(n - 1);
      assert Zeroes(n)[..|Zeroes(n)| - 1] == Zeroes(n - 1);
    }
  }

  lemma PowerText(n: nat)
    ensures AllDigits("1" + Zeroes(n)) && DigitsValue("1" + Zeroes(n)) == Pow10(n)
  {
    ZeroesDigits(n);
    DigitsValueConcat("1", Zeroes(n));
    assert "1"[..0] == [];
    assert DigitsValue("1") == 1;
  }

  lemma ParseSigned(negative: bool, digits: string)
    requires digits != [] && AllDigits(digits)
    ensures ParseInt(SignText(negative) + digits) == Some(Signed(negative, DigitsValue(digits)))
    ensures '/' !in SignText(negative) + digits
  {
    assert IsDigit(digits[0]);
    var s := SignText(negative) + digits;
    if negative {
      assert s[1..] == digits;
    } else {
      assert s == digits;
    }
  }

  /** The rewritten literal is plain: no leading zero, and the power of ten below. */
  lemma LiteralOfDecimal(negative: bool, whole: string, fraction: string)
    requires Decimal(whole, fraction)
    ensures RationalLiteral(DecimalText(negative, whole, fraction)) ==
            Some(SignText(negative) + StripZeroes(whole + fraction) + "/" + ("1" + Zeroes(|fraction|)))
  {
    hide Trim, FirstAt, StripZeroes, Zeroes, SplitSign, DecimalText;
    DecimalTextSplits(negative, whole, fraction);
    DecimalTextPlain(negative, whole, fraction);
    Utf8LengthOfDigits(fraction);
    var head := SignText(negative) + StripZeroes(whole + fraction);
    assert head + "/1" + Zeroes(|fraction|) == head + "/" + ("1" + Zeroes(|fraction|));
  }

  /** Rewriting denotes all the digits over a power of ten. */
  lemma CellNumberDenotes(negative: bool, whole: string, fraction: string)
    requires Decimal(whole, fraction)
    ensures Pow10(|fraction|) > 0
    ensures CellNumber(DecimalText(negative, whole, fraction)) ==
            Some(Reduce(Signed(negative, DigitsValue(whole + fraction)), Pow10(|fraction|)))
  {
    hide StripZeroes, Zeroes, DigitsValue, Pow10, Reduce, RationalLiteral, RationalFromText;
    LiteralOfDecimal(negative, whole, fraction);
    StripZeroesValue(whole + fraction);
    PowerText(|fraction|);
    Pow10Positive(|fraction|);
    ReadsFraction(negative, StripZeroes(whole + fraction), "1" + Zeroes(|fraction|));
  }

  lemma ReadsFraction(negative: bool, digits: string, den: string)
    requires digits != [] && AllDigits(digits) && den != [] && AllDigits(den)
    requires DigitsValue(den) != 0
    ensures RationalFromText(SignText(negative) + digits + "/" + den) ==
            Some(Reduce(Signed(negative, DigitsValue(digits)), DigitsValue(den)))
  {
    hide Trim, DigitsValue, Reduce, ParseInt, ParseRational;
    var num := SignText(negative) + digits;
    ParseSigned(negative, digits);
    ParseSigned(false, den);
    assert SignText(false) + den == den;
    ParseFraction(num, den);
    var literal := num + "/" + den;
    assert literal[|num|] == '/';
    assert literal[0] == num[0] && (num[0] == '-' || IsDigit(num[0]));
    assert literal[|literal| - 1] == den[|den| - 1] && IsDigit(den[|den| - 1]);
    TrimIdentity(literal);
  }

  /** The big-integer conversion denotes the same while the fraction has fewer than 2^32 digits. */
  lemma DecimalRationalDenotes(negative: bool, whole: string, fraction: string)
    requires Decimal(whole, fraction)
    ensures var power := Pow10(|fraction| % WIDTH_32);
            && power > 0
            && DecimalRational(DecimalText(negative, whole, fraction)) ==
               Some(Reduce(Signed(negative, DigitsValue(whole) * power + DigitsValue(fraction)), power))
  {
    hide Trim, FirstAt, Pow10, DigitsValue, Reduce, SplitSign, DecimalText;
    DecimalTextSplits(negative, whole, fraction);
    Pow10Positive(|fraction| % WIDTH_32);
  }

  lemma {:induction false} Pow10Grows(m: nat, n: nat)
    requires m < n
    ensures 0 < Pow10(m) < Pow10(n)
  {
    Pow10Positive(m);
    if m + 1 < n {
      Pow10Grows(m, n - 1);
    }
  }

  lemma ProductZeroIff(x: int, y: int)
    ensures x * y == 0 <==> x == 0 || y == 0
  {
    if x != 0 && y != 0 {
      ProductNonZero(x, y);
    }
  }

  /**
   On every signed decimal both conversions succeed, and they denote the same rational exactly when
   the fraction's length fits 32 bits or the fraction is zero.
   */
  lemma ConversionsAgreeIff(negative: bool, whole: string, fraction: string)
    requires Decimal(whole, fraction)
    ensures var text := DecimalText(negative, whole, fraction);
            && CellNumber(text).Some? && DecimalRational(text).Some?
            && (CellNumber(text) == DecimalRational(text)
                <==> |fraction| <= U32_MAX || DigitsValue(fraction) == 0)
  {
    hide DigitsValue, Pow10, Reduce, CellNumber, DecimalRational, DecimalText;
    CellNumberDenotes(negative, whole, fraction);
    DecimalRationalDenotes(negative, whole, fraction);
    DigitsValueConcat(whole, fraction);
    var n := |fraction|;
    var w: int, f: int, p: int, q: int := DigitsValue(whole), DigitsValue(fraction), Pow10(n % WIDTH_32), Pow10(n);
    ReduceEqualIff(Signed(negative, w * q + f), q, Signed(negative, w * p + f), p);
    ProductZeroIff(f, q - p);
    if n > U32_MAX {
      Pow10Grows(n % WIDTH_32, n);
    }
  }

  /** On text with a point, the big-integer conversion accepts exactly the signed decimals. */
  lemma AcceptedDecimalIff(text: string)
    requires '.' in text
    ensures DecimalRational(text).Some? <==>
              exists negative, whole, fraction ::
                Decimal(whole, fraction) && text == DecimalText(negative, whole, fraction)
  {
    hide DecimalRational, DecimalText, Decimal, SplitPoint;
    DecimalIsSplit(text);
    SplitPointSplits(text);
    if negative, whole, fraction :| Decimal(whole, fraction) && text == DecimalText(negative, whole, fraction) {
      DecimalRationalDenotes(negative, whole, fraction);
    }
  }

  lemma SignSplits(text: string)
    ensures text == SignText(SplitSign(text).0) + SplitSign(text).1
    ensures '.' in text ==> '.' in SplitSign(text).1
  {
  }

  // ---------------------------------------------------------------- what cells accept

  /** A leading minus sign, the text before the first point, and the text after it. */
  function SplitPoint(text: string): (bool, string, string) {
    var (negative, unsigned) := SplitSign(text);
    match FirstAt(unsigned, '.')
    case None => (negative, unsigned, [])
    case Some(dot) => (negative, unsigned[..dot], unsigned[dot + 1..])
  }

  /** The numerator of the rewritten literal. */
  function NumeratorText(negative: bool, whole: string, fraction: string): string {
    SignText(negative) + if fraction == [] then whole else StripZeroes(whole + fraction)
  }

  predicate Scientific(text: string) {
    'e' in text || 'E' in text
  }

  /** What a cell reads from text with a point and no slash. */
  function PointNumber(text: string): Option<Rational> {
    var t := Trim(text);
    var (negative, whole, fraction) := SplitPoint(t);
    if Scientific(t) then None
    else
      match ParseInt(TrimStart(NumeratorText(negative, whole, fraction)))
      case None => None
      case Some(n) => FromParts(n, Pow10(Utf8Length(fraction)))
  }

  lemma SplitPointSplits(text: string)
    requires '.' in text
    ensures var (negative, whole, fraction) := SplitPoint(text);
            && '.' !in whole
            && text == DecimalText(negative, whole, fraction)
            && SplitSign(text).0 == negative
            && FirstAt(SplitSign(text).1, '.') == Some(|whole|)
            && SplitSign(text).1[..|whole|] == whole
            && SplitSign(text).1[|whole| + 1..] == fraction
  {
    hide FirstAt, SplitSign, SignText;
    SignSplits(text);
    var (negative, unsigned) := SplitSign(text);
    FirstAtSplits(unsigned, '.');
  }

  lemma {:induction false} StripZeroesLacks(s: string, c: char)
    requires c !in s
    ensures c !in StripZeroes(s)
  {
    if |s| > 1 && s[0] == '0' {
      StripZeroesLacks(s[1..], c);
    }
  }

  lemma NumeratorLacksSlash(negative: bool, whole: string, fraction: string)
    requires '/' !in DecimalText(negative, whole, fraction)
    ensures '/' !in NumeratorText(negative, whole, fraction)
  {
    var text := DecimalText(negative, whole, fraction);
    assert forall c :: c in whole || c in fraction ==> c in text;
    StripZeroesLacks(whole + fraction, '/');
  }

  /** A numerator over a power of ten reads as an integer over that power, leading white space aside. */
  lemma ReadsNumerator(numerator: string, n: nat)
    requires '/' !in numerator
    ensures RationalFromText(numerator + "/" + ("1" + Zeroes(n))) ==
            match ParseInt(TrimStart(numerator)) case None => None case Some(v) => FromParts(v, Pow10(n))
  {
    hide ParseInt, TrimStart, Zeroes, Pow10, Reduce, RationalFromText;
    var den := "1" + Zeroes(n);
    PowerText(n);
    ParseSigned(false, den);
    assert SignText(false) + den == den;
    TrimStartKeeps(numerator, '/');
    FractionReads(TrimStart(numerator), den, Pow10(n));
    ReadsTrimmed(numerator, den);
  }

  lemma ReadsTrimmed(numerator: string, den: string)
    requires den != [] && AllDigits(den)
    ensures RationalFromText(numerator + "/" + den) == ParseRational(TrimStart(numerator) + "/" + den)
  {
    hide TrimStart, ParseRational;
    var rest := "/" + den;
    assert numerator + "/" + den == numerator + rest;
    TrimStartConcat(numerator, rest);
    var source := TrimStart(numerator) + rest;
    assert source == TrimStart(numerator) + "/" + den;
    assert source[|source| - 1] == den[|den| - 1] && IsDigit(den[|den| - 1]);
    assert source[|TrimStart(numerator)|] == '/';
  }

  lemma FractionReads(a: string, b: string, d: int)
    requires '/' !in a && ParseInt(b) == Some(d)
    ensures ParseRational(a + "/" + b) == match ParseInt(a) case None => None case Some(v) => FromParts(v, d)
  {
    hide FirstAt, ParseInt;
    FirstAtConcat(a, '/', b);
    var s := a + "/" + b;
    assert s[..|a|] == a && s[|a| + 1..] == b;
  }

  /** What a cell reads from text with a point and no slash, exactly. */
  lemma PointNumberRead(text: string)
    requires '.' in text && '/' !in text
    ensures CellNumber(text) == PointNumber(text)
  {
    hide FirstAt, SplitSign, ParseInt, TrimStart, StripZeroes, Zeroes, Pow10, Utf8Length, RationalFromText,
         Trim, FromParts;
    TrimKeeps(text, '.');
    TrimKeeps(text, '/');
    var t := Trim(text);
    SplitPointSplits(t);
    var (negative, whole, fraction) := SplitPoint(t);
    if !Scientific(t) {
      LiteralOfPoint(text);
      NumeratorLacksSlash(negative, whole, fraction);
      ReadsNumerator(NumeratorText(negative, whole, fraction), Utf8Length(fraction));
    }
  }

  lemma LiteralOfPoint(text: string)
    requires '.' in Trim(text) && '/' !in Trim(text) && !Scientific(Trim(text))
    ensures var (negative, whole, fraction) := SplitPoint(Trim(text));
            RationalLiteral(text) ==
            Some(NumeratorText(negative, whole, fraction) + "/" + ("1" + Zeroes(Utf8Length(fraction))))
  {
    hide FirstAt, SplitSign, StripZeroes, Trim;
    var t := Trim(text);
    SplitPointSplits(t);
    var (negative, whole, fraction) := SplitPoint(t);
    var n := Utf8Length(fraction);
    if fraction == [] {
      var head := SignText(negative) + whole;
      assert "1" + Zeroes(n) == "1" && head + "/1" == head + "/" + "1";
    } else {
      var head := SignText(negative) + StripZeroes(whole + fraction);
      assert head + "/1" + Zeroes(n) == head + "/" + ("1" + Zeroes(n));
    }
  }

  /** A stray character makes an integer literal unreadable. */
  lemma ParseIntPlain(s: string, c: char)
    requires c in s && !IsDigit(c) && c != '-' && c != '+'
    ensures ParseInt(s) == None
  {
    var digits := if s[0] == '-' || s[0] == '+' then s[1..] else s;
    assert s == [s[0]] + s[1..];
    assert c in digits;
  }

  /** Text with a point and a slash is no number for a cell. */
  lemma PointAndSlash(text: string)
    requires '.' in text && '/' in text
    ensures CellNumber(text) == None
  {
    hide Trim, FirstAt, ParseInt;
    TrimKeeps(text, '/');
    var t := Trim(text);
    assert RationalLiteral(text) == Some(t);
    var source := Trim(t);
    TrimKeeps(text, '.');
    TrimKeeps(t, '.');
    TrimKeeps(t, '/');
    FirstAtSplits(source, '/');
    var i := FirstAt(source, '/').value;
    if '.' in source[..i] {
      ParseIntPlain(source[..i], '.');
    } else {
      assert '.' in source[i + 1..];
      ParseIntPlain(source[i + 1..], '.');
    }
  }

  /**
   Cells accept a text with a point exactly when it holds no slash and no exponent letter and its
   rewritten numerator is an integer literal.
   */
  predicate CellAccepts(text: string) {
    var t := Trim(text);
    var (negative, whole, fraction) := SplitPoint(t);
    && '/' !in text && !Scientific(t)
    && ParseInt(TrimStart(NumeratorText(negative, whole, fraction))).Some?
  }

  /** A signed decimal with digits on both sides of its first point. */
  predicate SignedDecimal(text: string) {
    var (_, whole, fraction) := SplitPoint(text);
    Decimal(whole, fraction)
  }

  lemma CellAcceptsIff(text: string)
    requires '.' in text
    ensures CellNumber(text).Some? <==> CellAccepts(text)
  {
    hide CellNumber, Trim, SplitPoint, NumeratorText, ParseInt, TrimStart, Pow10, Reduce, Utf8Length;
    if '/' in text {
      PointAndSlash(text);
    } else {
      PointNumberRead(text);
      var (_, _, fraction) := SplitPoint(Trim(text));
      Pow10Positive(Utf8Length(fraction));
    }
  }

  /**
   The two conversions differ on which texts with a point they accept exactly for those a cell
   accepts that are not signed decimals; the big-integer conversion accepts nothing more.
   */
  lemma AcceptanceDiffersIff(text: string)
    requires '.' in text
    ensures DecimalRational(text).Some? <==> SignedDecimal(text)
    ensures DecimalRational(text).Some? ==> CellNumber(text).Some?
    ensures DecimalRational(text).Some? != CellNumber(text).Some? <==> CellAccepts(text) && !SignedDecimal(text)
  {
    hide DecimalRational, CellNumber, CellAccepts, DecimalText;
    CellAcceptsIff(text);
    SplitPointSplits(text);
    var (negative, whole, fraction) := SplitPoint(text);
    DecimalIsSplit(text);
    if SignedDecimal(text) {
      ConversionsAgreeIff(negative, whole, fraction);
    }
  }

  lemma DecimalIsSplit(text: string)
    requires '.' in text
    ensures DecimalRational(text).Some? <==> SignedDecimal(text)
  {
    hide FirstAt, SplitSign, Pow10, DigitsValue, Reduce, AllDigits, DecimalText;
    SplitPointSplits(text);
    var (_, _, fraction) := SplitPoint(text);
    Pow10Positive(|fraction| % WIDTH_32);
  }

  /** On signed text the extra ones are exactly those with digits on one side only, or untrimmed. */
  lemma MinusAcceptsIff(text: string)
    requires '.' in text && Trim(text) != [] && Trim(text)[0] == '-'
    ensures var (_, whole, fraction) := SplitPoint(Trim(text));
            CellAccepts(text) <==> AllDigits(whole) && AllDigits(fraction) && whole + fraction != []
  {
    hide Trim, TrimStart, FirstAt, Utf8Length, ParseInt, StripZeroes, Scientific;
    TrimKeeps(text, '.');
    TrimKeeps(text, '/');
    var t := Trim(text);
    SplitPointSplits(t);
    var (negative, whole, fraction) := SplitPoint(t);
    var both := whole + fraction;
    var kept := if fraction == [] then whole else StripZeroes(both);
    PlainStart("-" + kept);
    ParseMinus(kept);
    StripZeroesDigits(both);
    if fraction == [] {
      assert both == whole;
    }
    DigitsOfBoth(whole, fraction);
    if AllDigits(both) {
      DigitsTextPlain(t, whole, fraction);
    }
  }

  lemma ParseMinus(kept: string)
    ensures ParseInt("-" + kept).Some? <==> kept != [] && AllDigits(kept)
  {
    assert ("-" + kept)[1..] == kept;
  }

  lemma DigitsOfBoth(a: string, b: string)
    ensures AllDigits(a + b) <==> AllDigits(a) && AllDigits(b)
  {
    assert forall i :: 0 <= i < |a| ==> (a + b)[i] == a[i];
    assert forall i :: 0 <= i < |b| ==> (a + b)[|a| + i] == b[i];
  }

  lemma DigitsTextPlain(t: string, whole: string, fraction: string)
    requires AllDigits(whole) && AllDigits(fraction) && t == DecimalText(true, whole, fraction)
    ensures '/' !in t && !Scientific(t)
  {
    forall i | 0 <= i < |t|
      ensures t[i] == '-' || t[i] == '.' || IsDigit(t[i])
    {
      if 1 <= i < 1 + |whole| {
        assert t[i] == whole[i - 1];
      } else if i > 1 + |whole| {
        assert t[i] == fraction[i - |whole| - 2];
      }
    }
  }

  lemma {:induction false} StripZeroesDigits(s: string)
    ensures AllDigits(StripZeroes(s)) <==> AllDigits(s)
    ensures StripZeroes(s) == [] <==> s == []
  {
    if |s| > 1 && s[0] == '0' {
      StripZeroesDigits(s[1..]);
      assert s == [s[0]] + s[1..];
    }
  }

  /**
   Whatever the big-integer conversion accepts, a cell reads as the same number, exactly while the
   fraction's length fits 32 bits or the fraction is zero.
   */
  lemma AcceptedDecimalsAgree(text: string)
    requires '.' in text
    ensures DecimalRational(text).Some? ==>
              var (_, _, fraction) := SplitPoint(text);
              && AllDigits(fraction)
              && (CellNumber(text) == DecimalRational(text) <==> |fraction| <= U32_MAX || DigitsValue(fraction) == 0)
  {
    hide DecimalRational, CellNumber, DecimalText;
    DecimalIsSplit(text);
    SplitPointSplits(text);
    if DecimalRational(text).Some? {
      var (negative, whole, fraction) := SplitPoint(text);
      ConversionsAgreeIff(negative, whole, fraction);
    }
  }

  // ---------------------------------------------------------------- texts only cells accept

  /** A missing whole part: `.5` and its like are read as fractions there and refused here. */
  lemma MissingWholePart(fraction: string)
    requires fraction != [] && AllDigits(fraction)
    ensures DecimalRational("." + fraction) == None
    ensures Pow10(|fraction|) > 0
    ensures CellNumber("." + fraction) == Some(Reduce(DigitsValue(fraction), Pow10(|fraction|)))
  {
    hide Utf8Length, DigitsValue, Pow10, Reduce, CellNumber, StripZeroes, SplitPoint, Trim, ParseInt, DecimalRational,
         Scientific, TrimStart;
    var text, kept := "." + fraction, StripZeroes(fraction);
    assert text[|text| - 1] == fraction[|fraction| - 1] && text[0] == '.';
    TrimIdentity(text);
    PlainHeads();
    DigitsAfter(".", fraction);
    SplitPointOf("", fraction);
    assert "" + "." + fraction == text && [] + fraction == fraction;
    StripZeroesValue(fraction);
    Utf8LengthOfDigits(fraction);
    ParseSigned(false, kept);
    assert SignText(false) + kept == kept && IsDigit(kept[0]);
    PlainStart(kept);
    ReadsKept(text, kept, fraction, DigitsValue(fraction), |fraction|);
    DecimalIsSplit(text);
  }

  /** A sign after the point: `0.-5` and its like are read as negative numbers there and refused here. */
  lemma SignAfterPoint(digits: string)
    requires digits != [] && AllDigits(digits)
    ensures DecimalRational("0.-" + digits) == None
    ensures Pow10(|digits| + 1) > 0
    ensures CellNumber("0.-" + digits) == Some(Reduce(Signed(true, DigitsValue(digits)), Pow10(|digits| + 1)))
  {
    hide DigitsValue, Pow10, Reduce, CellNumber, Trim, TrimStart, NumeratorText, Utf8Length, ParseInt;
    var text, fraction := "0.-" + digits, "-" + digits;
    SignAfterPointSplits(digits);
    Pow10Positive(|digits| + 1);
    ParseSigned(true, digits);
    assert SignText(true) + digits == fraction;
    PlainStart(fraction);
    ReadsKept(text, fraction, fraction, Signed(true, DigitsValue(digits)), |digits| + 1);
    assert !AllDigits(fraction) by { assert !IsDigit(fraction[0]); }
    DecimalIsSplit(text);
  }

  lemma PlainStart(s: string)
    requires s != [] && !IsWhitespace(s[0])
    ensures TrimStart(s) == s
  {
  }

  lemma SignAfterPointSplits(digits: string)
    requires digits != [] && AllDigits(digits)
    ensures var text, fraction := "0.-" + digits, "-" + digits;
            && '.' in text && '/' !in text && !Scientific(text) && Trim(text) == text
            && SplitPoint(text) == (false, "0", fraction)
            && NumeratorText(false, "0", fraction) == fraction
            && Utf8Length(fraction) == |digits| + 1
  {
    hide Trim, SplitPoint;
    var text, fraction := "0.-" + digits, "-" + digits;
    assert text[|text| - 1] == digits[|digits| - 1] && text[0] == '0' && text[1] == '.';
    TrimIdentity(text);
    PlainHeads();
    DigitsAfter("0.-", digits);
    assert "0" + "." + fraction == text;
    SplitPointOf("0", fraction);
    assert ("0" + fraction)[1..] == fraction && fraction[1..] == digits;
    assert StripZeroes(fraction) == fraction && StripZeroes("0" + fraction) == fraction;
    assert SignText(false) + fraction == fraction;
    Utf8LengthOfDigits(digits);
  }

  lemma PlainHeads()
    ensures '/' !in "." && !Scientific(".") && '/' !in "0.-" && !Scientific("0.-")
  {
    assert forall c :: c in "0.-" ==> c == '0' || c == '.' || c == '-';
  }

  lemma SplitPointOf(whole: string, fraction: string)
    requires '.' !in whole && '-' !in whole
    ensures SplitPoint(whole + "." + fraction) == (false, whole, fraction)
  {
    hide FirstAt;
    var text := whole + "." + fraction;
    FirstAtConcat(whole, '.', fraction);
    assert text[0] == if whole == [] then '.' else whole[0];
    assert text[..|whole|] == whole && text[|whole| + 1..] == fraction;
  }

  lemma DigitsAfter(head: string, digits: string)
    requires AllDigits(digits) && '/' !in head && !Scientific(head)
    ensures '/' !in head + digits && !Scientific(head + digits)
  {
    assert forall c :: c in head + digits ==> c in head || c in digits;
    assert forall c :: c in digits ==> IsDigit(c);
  }

  /** A readable numerator, given what the text splits into. */
  lemma ReadsKept(text: string, kept: string, fraction: string, v: int, n: nat)
    requires '.' in text && '/' !in text && !Scientific(text) && Trim(text) == text
    requires SplitPoint(text).2 == fraction && Utf8Length(fraction) == n
    requires NumeratorText(SplitPoint(text).0, SplitPoint(text).1, fraction) == kept
    requires ParseInt(kept) == Some(v) && TrimStart(kept) == kept
    ensures Pow10(n) > 0 && CellNumber(text) == Some(Reduce(v, Pow10(n)))
  {
    hide Trim, TrimStart, SplitPoint, NumeratorText, CellNumber, ParseInt, Pow10, Reduce, Utf8Length;
    PointNumberRead(text);
    Pow10Positive(n);
  }

  // ---------------------------------------------------------------- the loop of the source

  /** `rational_literal`, which removes leading zeros one at a time. */
  method WriteLiteral(input: string) returns (r: Option<string>)
    ensures r == RationalLiteral(input)
  {
    var text := Trim(input);
    if '/' in text || '.' !in text {
      return Some(text);
    }
    if 'e' in text || 'E' in text {
      return None;
    }
    var (negative, unsigned) := SplitSign(text);
    var dot := FirstAt(unsigned, '.');
    if dot.None? {
      return None;
    }
    var whole, fraction := unsigned[..dot.value], unsigned[dot.value + 1..];
    if fraction == [] {
      return Some(SignText(negative) + whole + "/1");
    }
    var digits := whole + fraction;
    while |digits| > 1 && digits[0] == '0'
      invariant StripZeroes(digits) == StripZeroes(whole + fraction)
    {
      digits := digits[1..];
    }
    return Some(SignText(negative) + digits + "/1" + Zeroes(Utf8Length(fraction)));
  }
}
