/** Strings as the Rust code sees them: trimming, digits, and decimal text for unsigned integers. */
module Text {
  import opened Wrappers

  const U32_MAX: nat := 0xFFFF_FFFF

  type u32 = n: int | 0 <= n <= U32_MAX

  const WIDTH_32: nat := U32_MAX + 1

  /** Arithmetic that leaves its width stops a build with overflow checks and wraps in any other. */
  datatype Build = Checked | Wrapping

  function Plus32(a: u32, b: nat, build: Build): Option<u32> {
    if a + b <= U32_MAX then Some(a + b) else if build.Checked? then None else Some((a + b) % WIDTH_32)
  }

  // ---------------------------------------------------------------- characters

  /** The Unicode White_Space property, which `str::trim` and `char::is_whitespace` use. */
  predicate IsWhitespace(c: char) {
    || '\t' <= c <= '\r'
    || c == ' '
    || c == '\U{85}'
    || c == '\U{A0}'
    || c == '\U{1680}'
    || '\U{2000}' <= c <= '\U{200A}'
    || c == '\U{2028}'
    || c == '\U{2029}'
    || c == '\U{202F}'
    || c == '\U{205F}'
    || c == '\U{3000}'
  }

  predicate IsDigit(c: char) {
    '0' <= c <= '9'
  }

  predicate AllDigits(s: string) {
    forall i :: 0 <= i < |s| ==> IsDigit(s[i])
  }

  // ---------------------------------------------------------------- trimming

  function TrimStart(s: string): string {
    if |s| > 0 && IsWhitespace(s[0]) then TrimStart(s[1..]) else s
  }

  function TrimEnd(s: string): string {
    if |s| > 0 && IsWhitespace(s[|s| - 1]) then TrimEnd(s[..|s| - 1]) else s
  }

  function Trim(s: string): string {
    TrimEnd(TrimStart(s))
  }

  /** A string is blank exactly when trimming leaves nothing. */
  predicate Blank(s: string) {
    forall i :: 0 <= i < |s| ==> IsWhitespace(s[i])
  }

  lemma {:induction false} TrimStartBlank(s: string)
    ensures TrimStart(s) == [] <==> Blank(s)
  {
    if |s| > 0 && IsWhitespace(s[0]) {
      TrimStartBlank(s[1..]);
      assert forall i :: 1 <= i < |s| ==> s[i] == s[1..][i - 1];
    }
  }

  lemma {:induction false} TrimEndEmpty(s: string)
    ensures TrimEnd(s) == [] <==> Blank(s)
  {
    if |s| > 0 && IsWhitespace(s[|s| - 1]) {
      TrimEndEmpty(s[..|s| - 1]);
      assert forall i :: 0 <= i < |s| - 1 ==> s[i] == s[..|s| - 1][i];
    }
  }

  lemma {:induction false} TrimStartIsSuffix(s: string)
    ensures |TrimStart(s)| <= |s| && TrimStart(s) == s[|s| - |TrimStart(s)|..]
    ensures Blank(s[..|s| - |TrimStart(s)|])
  {
    if |s| > 0 && IsWhitespace(s[0]) {
      TrimStartIsSuffix(s[1..]);
    }
  }

  lemma TrimEmptyIffBlank(s: string)
    ensures Trim(s) == [] <==> Blank(s)
  {
    TrimStartBlank(s);
    TrimEndEmpty(TrimStart(s));
    TrimStartIsSuffix(s);
    if Blank(TrimStart(s)) && TrimStart(s) != [] {
      assert IsWhitespace(TrimStart(s)[0]);
      TrimStartFirst(s);
    }
  }

  lemma {:induction false} TrimStartFirst(s: string)
    ensures TrimStart(s) != [] ==> !IsWhitespace(TrimStart(s)[0])
  {
    if |s| > 0 && IsWhitespace(s[0]) {
      TrimStartFirst(s[1..]);
    }
  }

  /** Text whose ends are not white space is left alone. */
  lemma TrimIdentity(s: string)
    requires s != [] ==> !IsWhitespace(s[0]) && !IsWhitespace(s[|s| - 1])
    ensures Trim(s) == s
  {
  }

  lemma {:induction false} TrimStartKeeps(s: string, c: char)
    requires !IsWhitespace(c)
    ensures c in TrimStart(s) <==> c in s
  {
    if s != [] && IsWhitespace(s[0]) {
      assert s == [s[0]] + s[1..];
      TrimStartKeeps(s[1..], c);
    }
  }

  lemma {:induction false} TrimEndKeeps(s: string, c: char)
    requires !IsWhitespace(c)
    ensures c in TrimEnd(s) <==> c in s
  {
    if s != [] && IsWhitespace(s[|s| - 1]) {
      assert s == s[..|s| - 1] + [s[|s| - 1]];
      TrimEndKeeps(s[..|s| - 1], c);
    }
  }

  /** Trimming takes away no character but white space. */
  lemma TrimKeeps(s: string, c: char)
    requires !IsWhitespace(c)
    ensures c in Trim(s) <==> c in s
  {
    TrimStartKeeps(s, c);
    TrimEndKeeps(TrimStart(s), c);
  }

  lemma {:induction false} TrimStartConcat(a: string, b: string)
    requires b != [] && !IsWhitespace(b[0])
    ensures TrimStart(a + b) == TrimStart(a) + b
  {
    if a == [] {
      assert a + b == b;
    } else if IsWhitespace(a[0]) {
      assert (a + b)[1..] == a[1..] + b;
      TrimStartConcat(a[1..], b);
    }
  }

  /** Trimming takes white space off both ends and stops at the first other character on each side. */
  lemma TrimSplits(s: string)
    ensures exists a, b :: TrimmedBy(s, a, b)
    ensures Trim(s) != [] ==> !IsWhitespace(Trim(s)[0]) && !IsWhitespace(Trim(s)[|Trim(s)| - 1])
  {
    TrimStartIsSuffix(s);
    var t := TrimStart(s);
    TrimEndIsPrefix(t);
    var a, b := s[..|s| - |t|], t[|TrimEnd(t)|..];
    assert s == a + TrimEnd(t) + b;
    assert TrimmedBy(s, a, b);
    TrimStartFirst(s);
  }

  ghost predicate TrimmedBy(s: string, a: string, b: string) {
    Blank(a) && Blank(b) && s == a + Trim(s) + b
  }

  lemma {:induction false} TrimEndIsPrefix(s: string)
    ensures |TrimEnd(s)| <= |s| && TrimEnd(s) == s[..|TrimEnd(s)|] && Blank(s[|TrimEnd(s)|..])
    ensures TrimEnd(s) != [] ==> !IsWhitespace(TrimEnd(s)[|TrimEnd(s)| - 1])
  {
    if s != [] && IsWhitespace(s[|s| - 1]) {
      TrimEndIsPrefix(s[..|s| - 1]);
      var k := |TrimEnd(s)|;
      assert s[k..] == s[..|s| - 1][k..] + [s[|s| - 1]];
    }
  }

  // ---------------------------------------------------------------- UTF-8

  /** `str::len`: the bytes of the text. */
  function Utf8Length(s: string): nat {
    if s == [] then 0
    else
      (if s[0] < '\U{80}' then 1 else if s[0] < '\U{800}' then 2 else if s[0] < '\U{10000}' then 3 else 4)
      + Utf8Length(s[1..])
  }

  lemma {:induction false} Utf8LengthOfDigits(s: string)
    requires AllDigits(s)
    ensures Utf8Length(s) == |s|
  {
    if s != [] {
      Utf8LengthOfDigits(s[1..]);
    }
  }

  // ---------------------------------------------------------------- decimal text

  function DigitChar(d: nat): char
    requires d < 10
  {
    ('0' as int + d) as char
  }

  function DigitOf(c: char): nat
    requires IsDigit(c)
  {
    c as int - '0' as int
  }

  function Pow10(n: nat): nat {
    if n == 0 then 1 else 10 * Pow10(n - 1)
  }

  /** The number a run of digits denotes. */
  function DigitsValue(s: string): nat
    requires AllDigits(s)
  {
    if s == [] then 0 else 10 * DigitsValue(s[..|s| - 1]) + DigitOf(s[|s| - 1])
  }

  /** `n.to_string()` for an unsigned integer. */
  function NatText(n: nat): (s: string)
    ensures s != [] && AllDigits(s)
  {
    if n < 10 then [DigitChar(n)] else NatText(n / 10) + [DigitChar(n % 10)]
  }

  predicate LeadingZero(s: string) {
    |s| > 1 && s[0] == '0'
  }

  lemma {:induction false} NatTextValue(n: nat)
    ensures DigitsValue(NatText(n)) == n
    ensures !LeadingZero(NatText(n))
    ensures n != 0 ==> NatText(n)[0] != '0'
  {
    if n >= 10 {
      NatTextValue(n / 10);
      assert NatText(n)[..|NatText(n)| - 1] == NatText(n / 10);
    } else {
      assert NatText(n)[..0] == [];
    }
  }

  lemma NatTextInjective(m: nat, n: nat)
    requires NatText(m) == NatText(n)
    ensures m == n
  {
    NatTextValue(m);
    NatTextValue(n);
  }

  /** Without leading zeros, digits are already the printed form of their value. */
  lemma {:induction false} CanonicalDigits(s: string)
    requires s != [] && AllDigits(s) && !LeadingZero(s)
    ensures NatText(DigitsValue(s)) == s
    ensures s[0] != '0' ==> DigitsValue(s) > 0
  {
    var front := s[..|s| - 1];
    if |s| == 1 {
      assert front == [];
    } else {
      CanonicalDigits(front);
      assert s == front + [s[|s| - 1]];
    }
  }

  lemma {:induction false} DigitsValueConcat(a: string, b: string)
    requires AllDigits(a) && AllDigits(b)
    ensures AllDigits(a + b)
    ensures DigitsValue(a + b) == DigitsValue(a) * Pow10(|b|) + DigitsValue(b)
  {
    if b == [] {
      assert a + b == a;
    } else {
      var front := b[..|b| - 1];
      DigitsValueConcat(a, front);
      assert (a + b)[..|a + b| - 1] == a + front;
      assert Pow10(|b|) == 10 * Pow10(|front|);
      TimesTen(DigitsValue(a), Pow10(|front|));
    }
  }

  lemma TimesTen(x: int, y: int)
    ensures 10 * (x * y) == x * (10 * y)
  {
  }

  lemma LeadingZeroesKeepValue(s: string)
    requires AllDigits(s) && s != [] && s[0] == '0'
    ensures DigitsValue(s[1..]) == DigitsValue(s)
  {
    DigitsValueConcat(s[..1], s[1..]);
    assert s[..1] + s[1..] == s;
    assert s[..1][..0] == [];
    assert DigitsValue(s[..1]) == 10 * DigitsValue(s[..1][..0]) + DigitOf('0');
  }

  lemma {:induction false} Pow10Positive(n: nat)
    ensures Pow10(n) > 0
  {
    if n > 0 {
      Pow10Positive(n - 1);
    }
  }

  function StripZeroes(digits: string): string {
    if |digits| > 1 && digits[0] == '0' then StripZeroes(digits[1..]) else digits
  }

  lemma {:induction false} StripZeroesValue(digits: string)
    requires digits != [] && AllDigits(digits)
    ensures StripZeroes(digits) != [] && AllDigits(StripZeroes(digits))
    ensures DigitsValue(StripZeroes(digits)) == DigitsValue(digits)
    ensures !LeadingZero(StripZeroes(digits))
  {
    if |digits| > 1 && digits[0] == '0' {
      LeadingZeroesKeepValue(digits);
      StripZeroesValue(digits[1..]);
    }
  }

  /** Digits without their leading zeros are the printed form of their value. */
  lemma StripZeroesPrints(digits: string)
    requires digits != [] && AllDigits(digits)
    ensures NatText(DigitsValue(digits)) == StripZeroes(digits)
  {
    StripZeroesValue(digits);
    CanonicalDigits(StripZeroes(digits));
  }

  /** `str::parse::<u32>`: an optional plus sign, at least one digit, no overflow. */
  function ParseU32(s: string): Option<u32> {
    var digits := if |s| > 1 && s[0] == '+' then s[1..] else s;
    if digits == [] || !AllDigits(digits) then None
    else if DigitsValue(digits) > U32_MAX then None
    else Some(DigitsValue(digits))
  }

  lemma ParseU32OfDigits(s: string)
    requires AllDigits(s) && s != []
    ensures ParseU32(s) == if DigitsValue(s) > U32_MAX then None else Some(DigitsValue(s))
  {
    assert IsDigit(s[0]);
  }

  lemma ParseU32OfText(n: nat)
    ensures ParseU32(NatText(n)) == if n <= U32_MAX then Some(n) else None
  {
    NatTextValue(n);
    assert IsDigit(NatText(n)[0]);
  }

  // ---------------------------------------------------------------- replacing and prefixes

  predicate StartsWith(s: string, prefix: string) {
    |prefix| <= |s| && s[..|prefix|] == prefix
  }

  /** `str::replace` of one character. */
  function Replace(s: string, c: char, put: string): string {
    if s == [] then [] else (if s[0] == c then put else [s[0]]) + Replace(s[1..], c, put)
  }

  lemma {:induction false} ReplaceConcat(a: string, b: string, c: char, put: string)
    ensures Replace(a + b, c, put) == Replace(a, c, put) + Replace(b, c, put)
  {
    if a == [] {
      assert a + b == b;
    } else {
      assert (a + b)[1..] == a[1..] + b;
      ReplaceConcat(a[1..], b, c, put);
    }
  }

  lemma {:induction false} ReplaceAbsent(s: string, c: char, put: string)
    requires c !in s
    ensures Replace(s, c, put) == s
  {
    if s != [] {
      assert s == [s[0]] + s[1..];
      ReplaceAbsent(s[1..], c, put);
    }
  }

  lemma ReplaceOne(c: char, d: char, put: string)
    ensures Replace([c], d, put) == if c == d then put else [c]
  {
    assert [c][1..] == [];
  }

  // ---------------------------------------------------------------- upper case

  function UpperChar(c: char): char {
    if 'a' <= c <= 'z' then (c as int - 'a' as int + 'A' as int) as char else c
  }

  /** ASCII letters in upper case, everything else as it is. */
  function Upper(s: string): string {
    seq(|s|, i requires 0 <= i < |s| => UpperChar(s[i]))
  }

  lemma {:induction false} UpperTrimStart(s: string)
    ensures TrimStart(Upper(s)) == Upper(TrimStart(s))
  {
    if s != [] && IsWhitespace(s[0]) {
      UpperTrimStart(s[1..]);
      assert Upper(s)[1..] == Upper(s[1..]);
    }
  }

  lemma {:induction false} UpperTrimEnd(s: string)
    ensures TrimEnd(Upper(s)) == Upper(TrimEnd(s))
  {
    if s != [] && IsWhitespace(s[|s| - 1]) {
      UpperTrimEnd(s[..|s| - 1]);
      assert Upper(s)[..|s| - 1] == Upper(s[..|s| - 1]);
    }
  }

  lemma UpperTrim(s: string)
    ensures Trim(Upper(s)) == Upper(Trim(s))
  {
    UpperTrimStart(s);
    UpperTrimEnd(TrimStart(s));
  }

  // ---------------------------------------------------------------- searching

  /** Where a character first occurs. */
  function FirstAt(s: string, c: char): (r: Option<nat>)
    ensures r.Some? ==> r.value < |s|
  {
    if s == [] then None
    else if s[0] == c then Some(0)
    else match FirstAt(s[1..], c) case None => None case Some(i) => Some(i + 1)
  }

  lemma {:induction false} FirstAtConcat(a: string, c: char, b: string)
    requires c !in a
    ensures FirstAt(a + [c] + b, c) == Some(|a|)
  {
    if a != [] {
      assert a == [a[0]] + a[1..];
      assert (a + [c] + b)[1..] == a[1..] + [c] + b;
      FirstAtConcat(a[1..], c, b);
    }
  }

  lemma {:induction false} FirstAtSplits(s: string, c: char)
    ensures FirstAt(s, c).None? <==> c !in s
    ensures FirstAt(s, c).Some? ==>
              var i := FirstAt(s, c).value;
              c !in s[..i] && s == s[..i] + [c] + s[i + 1..]
  {
    if s != [] {
      assert s == [s[0]] + s[1..];
      FirstAtSplits(s[1..], c);
    }
  }
}
