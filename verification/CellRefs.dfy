/** Cell references in A1 notation: bijective base 26 columns and decimal rows. */
module CellRefs {
  import opened Text
  import opened Wrappers

  /** Both fields are public in the source, so only `OneBased` references are meaningful. */
  datatype CellRef = CellRef(column: u32, row: u32)

  predicate OneBased(cell: CellRef) {
    cell.column > 0 && cell.row > 0
  }

  // ---------------------------------------------------------------- letters

  predicate IsUpper(c: char) {
    'A' <= c <= 'Z'
  }

  predicate IsLetter(c: char) {
    IsUpper(c) || 'a' <= c <= 'z'
  }

  predicate AllLetters(s: string) {
    forall i :: 0 <= i < |s| ==> IsLetter(s[i])
  }

  predicate AllUpper(s: string) {
    forall i :: 0 <= i < |s| ==> IsUpper(s[i])
  }

  /** The digit 1 to 26 of a letter of either case. */
  function LetterDigit(c: char): nat
    requires IsLetter(c)
  {
    1 + if IsUpper(c) then c as int - 'A' as int else c as int - 'a' as int
  }

  function LetterOf(d: nat): char
    requires d < 26
  {
    ('A' as int + d) as char
  }

  /** The number a run of letters denotes in bijective base 26. */
  function LettersValue(s: string): nat
    requires AllLetters(s)
  {
    if s == [] then 0 else 26 * LettersValue(s[..|s| - 1]) + LetterDigit(s[|s| - 1])
  }

  function ColumnText(column: nat): (s: string)
    ensures AllUpper(s)
  {
    if column == 0 then [] else ColumnText((column - 1) / 26) + [LetterOf((column - 1) % 26)]
  }

  lemma {:induction false} ColumnTextValue(column: nat)
    ensures AllLetters(ColumnText(column))
    ensures LettersValue(ColumnText(column)) == column
  {
    if column > 0 {
      ColumnTextValue((column - 1) / 26);
      var t := ColumnText(column);
      assert t[..|t| - 1] == ColumnText((column - 1) / 26);
    }
  }

  /** Bijective base 26 has one upper-case spelling of each number. */
  lemma {:induction false} UpperLettersCanonical(s: string)
    requires AllUpper(s)
    ensures AllLetters(s) && ColumnText(LettersValue(s)) == s
    ensures s != [] ==> LettersValue(s) > 0
  {
    if s != [] {
      var front := s[..|s| - 1];
      UpperLettersCanonical(front);
      assert s == front + [s[|s| - 1]];
      var d := LetterDigit(s[|s| - 1]);
      assert (26 * LettersValue(front) + d - 1) / 26 == LettersValue(front);
      assert (26 * LettersValue(front) + d - 1) % 26 == d - 1;
    }
  }

  /** Reading more letters never makes the column smaller, so an early overflow is a final one. */
  lemma {:induction false} LettersValueMonotone(s: string, k: nat)
    requires AllLetters(s) && k <= |s|
    ensures LettersValue(s[..k]) <= LettersValue(s)
    decreases |s|
  {
    if k < |s| {
      LettersValueMonotone(s[..|s| - 1], k);
      assert s[..|s| - 1][..k] == s[..k];
    } else {
      assert s[..k] == s;
    }
  }

  // ---------------------------------------------------------------- printing and parsing

  function CellText(cell: CellRef): string {
    ColumnText(cell.column) + NatText(cell.row)
  }

  function LetterRun(s: string): (k: nat)
    ensures k <= |s| && AllLetters(s[..k]) && (k < |s| ==> !IsLetter(s[k]))
  {
    if s != [] && IsLetter(s[0]) then
      var k := LetterRun(s[1..]);
      assert forall i :: 1 <= i <= k ==> s[i] == s[1..][i - 1];
      k + 1
    else 0
  }

  /** The cell a text names: letters, then digits, each in range and not zero. */
  function ParseCell(text: string): Option<CellRef> {
    ParseTrimmed(Trim(text))
  }

  function ParseTrimmed(t: string): Option<CellRef> {
    var k := LetterRun(t);
    if k == 0 || k == |t| || !AllDigits(t[k..]) then None
    else
      var column, row := LettersValue(t[..k]), DigitsValue(t[k..]);
      if column == 0 || column > U32_MAX || row == 0 || row > U32_MAX then None
      else Some(CellRef(column, row))
  }

  lemma {:induction false} LetterRunConcat(letters: string, rest: string)
    requires AllLetters(letters) && (rest != [] ==> !IsLetter(rest[0]))
    ensures LetterRun(letters + rest) == |letters|
  {
    if letters != [] {
      assert (letters + rest)[1..] == letters[1..] + rest;
      LetterRunConcat(letters[1..], rest);
    } else {
      assert letters + rest == rest;
    }
  }

  lemma LettersThenDigits(letters: string, digits: string)
    requires letters != [] && digits != [] && AllLetters(letters) && AllDigits(digits)
    requires 0 < LettersValue(letters) <= U32_MAX && 0 < DigitsValue(digits) <= U32_MAX
    ensures ParseCell(letters + digits) == Some(CellRef(LettersValue(letters), DigitsValue(digits)))
  {
    var t := letters + digits;
    assert t[0] == letters[0] && t[|t| - 1] == digits[|digits| - 1];
    TrimIdentity(t);
    LetterRunConcat(letters, digits);
    assert t[..|letters|] == letters && t[|letters|..] == digits;
  }

  /** Printing a one-based reference and parsing it back is the identity. */
  lemma CellTextRoundTrip(cell: CellRef)
    requires OneBased(cell)
    ensures ParseCell(CellText(cell)) == Some(cell)
  {
    ColumnTextValue(cell.column);
    NatTextValue(cell.row);
    LettersThenDigits(ColumnText(cell.column), NatText(cell.row));
  }

  /** Every accepted text prints to a form that names the same cell. */
  lemma AcceptedTextNormalises(text: string)
    requires ParseCell(text).Some?
    ensures OneBased(ParseCell(text).value)
    ensures ParseCell(CellText(ParseCell(text).value)) == ParseCell(text)
  {
    CellTextRoundTrip(ParseCell(text).value);
  }

  /**
   An accepted text is already the printed form exactly when it has no surrounding white space,
   only upper-case letters, and no leading zero in the row.
   */
  lemma PrintedFormIff(text: string)
    requires ParseCell(text).Some?
    ensures CellText(ParseCell(text).value) == text
        <==> Trim(text) == text && AllUpper(text[..LetterRun(text)]) && text[LetterRun(text)] != '0'
  {
    if CellText(ParseCell(text).value) == text {
      PrintedFormShape(ParseCell(text).value);
    }
    if Trim(text) == text && AllUpper(text[..LetterRun(text)]) && text[LetterRun(text)] != '0' {
      PlainFormPrints(text, LetterRun(text));
    }
  }

  lemma PrintedFormShape(cell: CellRef)
    requires OneBased(cell)
    ensures var t := CellText(cell); var k := LetterRun(t);
            Trim(t) == t && k < |t| && AllUpper(t[..k]) && t[k] != '0'
  {
    hide DigitsValue, LetterRun;
    var letters, digits := ColumnText(cell.column), NatText(cell.row);
    ColumnTextValue(cell.column);
    NatTextValue(cell.row);
    LetterRunConcat(letters, digits);
    var t := CellText(cell);
    assert t[..|letters|] == letters && t[|letters|..] == digits;
    assert letters != [];
    assert t[0] == letters[0] && t[|t| - 1] == digits[|digits| - 1];
    TrimIdentity(t);
  }

  lemma PlainFormPrints(t: string, k: nat)
    requires 0 < k < |t| && AllUpper(t[..k]) && AllDigits(t[k..]) && t[k] != '0'
    ensures AllLetters(t[..k])
    ensures ColumnText(LettersValue(t[..k])) + NatText(DigitsValue(t[k..])) == t
  {
    UpperLettersCanonical(t[..k]);
    CanonicalDigits(t[k..]);
    assert t == t[..k] + t[k..];
  }

  /** Distinct one-based references print differently. */
  lemma CellTextInjective(a: CellRef, b: CellRef)
    requires OneBased(a) && OneBased(b) && CellText(a) == CellText(b)
    ensures a == b
  {
    CellTextRoundTrip(a);
    CellTextRoundTrip(b);
  }

  // ---------------------------------------------------------------- either case

  lemma {:induction false} UpperLettersValue(s: string)
    requires AllLetters(s)
    ensures AllUpper(Upper(s)) && AllLetters(Upper(s)) && LettersValue(Upper(s)) == LettersValue(s)
  {
    if s != [] {
      UpperLettersValue(s[..|s| - 1]);
      assert Upper(s)[..|s| - 1] == Upper(s[..|s| - 1]);
    }
  }

  lemma {:induction false} UpperLetterRun(s: string)
    ensures LetterRun(Upper(s)) == LetterRun(s)
  {
    if s != [] && IsLetter(s[0]) {
      UpperLetterRun(s[1..]);
      assert Upper(s)[1..] == Upper(s[1..]);
    }
  }

  /** Letters count the same in either case: every text means what its upper-case form means. */
  lemma EitherCaseSame(text: string)
    ensures ParseCell(text) == ParseCell(Upper(text))
  {
    hide LettersValue, DigitsValue, LetterRun;
    UpperTrim(text);
    var t := Trim(text);
    UpperLetterRun(t);
    var k := LetterRun(t);
    UpperLettersValue(t[..k]);
    assert Upper(t)[..k] == Upper(t[..k]) && Upper(t)[k..] == Upper(t[k..]);
    DigitsUnchanged(t[k..]);
  }

  lemma DigitsUnchanged(s: string)
    ensures AllDigits(Upper(s)) <==> AllDigits(s)
    ensures AllDigits(s) ==> Upper(s) == s
  {
    assert forall i :: 0 <= i < |s| ==> (IsDigit(Upper(s)[i]) <==> IsDigit(s[i]));
  }

  /** Accepted text prints as its letters in upper case, then its row digits without leading zeros. */
  lemma AcceptedTextPrints(text: string)
    requires ParseCell(text).Some?
    ensures var t := Trim(text); var k := LetterRun(t);
            && AllDigits(t[k..])
            && CellText(ParseCell(text).value) == Upper(t[..k]) + StripZeroes(t[k..])
  {
    hide LettersValue, DigitsValue, LetterRun, ColumnText, NatText;
    var t := Trim(text);
    var k := LetterRun(t);
    UpperLettersValue(t[..k]);
    UpperLettersCanonical(Upper(t[..k]));
    StripZeroesPrints(t[k..]);
  }

  /** A text is accepted exactly when, trimmed, it is letters and then digits, both in range. */
  lemma AcceptedTextIff(text: string)
    ensures ParseCell(text).Some? <==>
              exists cell, letters, digits :: OneBased(cell) && Spells(Trim(text), cell, letters, digits)
  {
    hide LettersValue, DigitsValue, LetterRun, ColumnText, NatText;
    if ParseCell(text).Some? {
      AcceptedTextPrints(text);
      AcceptedTextNormalises(text);
      var t := Trim(text);
      var k := LetterRun(t);
      UpperLettersValue(t[..k]);
      UpperLettersCanonical(Upper(t[..k]));
      StripZeroesPrints(t[k..]);
      assert t == t[..k] + t[k..];
      assert Spells(t, ParseCell(text).value, t[..k], t[k..]);
    }
    if cell, letters, digits :| OneBased(cell) && Spells(Trim(text), cell, letters, digits) {
      SpelledIsAccepted(text, cell, letters, digits);
    }
  }

  /** The letters spell the column in either case and the digits the row, zeros in front or not. */
  ghost predicate Spells(t: string, cell: CellRef, letters: string, digits: string) {
    && t == letters + digits && letters != [] && digits != [] && AllLetters(letters) && AllDigits(digits)
    && Upper(letters) == ColumnText(cell.column) && StripZeroes(digits) == NatText(cell.row)
  }

  lemma SpelledIsAccepted(text: string, cell: CellRef, letters: string, digits: string)
    requires OneBased(cell) && Spells(Trim(text), cell, letters, digits)
    ensures ParseCell(text) == Some(cell)
  {
    hide LettersValue, DigitsValue, ColumnText, NatText, StripZeroes;
    var t := Trim(text);
    LetterRunConcat(letters, digits);
    assert t[..|letters|] == letters && t[|letters|..] == digits;
    UpperLettersValue(letters);
    ColumnTextValue(cell.column);
    StripZeroesValue(digits);
    NatTextValue(cell.row);
  }

  // ---------------------------------------------------------------- the loops of the source

  function Reversed(s: string): string {
    if s == [] then [] else Reversed(s[1..]) + [s[0]]
  }

  lemma {:induction false} ReversedSnoc(s: string, c: char)
    ensures Reversed(s + [c]) == [c] + Reversed(s)
  {
    if s == [] {
    } else {
      assert (s + [c])[1..] == s[1..] + [c];
      ReversedSnoc(s[1..], c);
    }
  }

  /** `Display`: push the low letter, divide, and write the letters backwards. */
  method PrintCell(cell: CellRef) returns (out: string)
    ensures out == CellText(cell)
  {
    var column := cell.column;
    var letters: string := [];
    while column > 0
      invariant ColumnText(cell.column) == ColumnText(column) + Reversed(letters)
    {
      var rem := (column - 1) % 26;
      ReversedSnoc(letters, LetterOf(rem));
      letters := letters + [LetterOf(rem)];
      column := (column - 1) / 26;
    }
    out := [];
    var i := |letters|;
    assert letters[..i] == letters;
    while i > 0
      invariant 0 <= i <= |letters|
      invariant out + Reversed(letters[..i]) == Reversed(letters)
    {
      assert letters[..i] == letters[..i - 1] + [letters[i - 1]];
      ReversedSnoc(letters[..i - 1], letters[i - 1]);
      i := i - 1;
      out := out + [letters[i]];
    }
    out := out + NatText(cell.row);
  }

  /** What the parsing loop knows after `i` characters. */
  ghost predicate Read(t: string, i: nat, sawDigit: bool, column: nat, rowText: string) {
    var k := LetterRun(t);
    && i <= |t|
    && (sawDigit <==> i > k)
    && column == LettersValue(t[..if i <= k then i else k])
    && rowText == (if i <= k then [] else t[k..i])
    && AllDigits(rowText)
  }

  lemma ReadLetter(t: string, i: nat, column: nat, rowText: string)
    requires Read(t, i, false, column, rowText) && i < |t| && IsLetter(t[i])
    ensures Read(t, i + 1, false, column * 26 + LetterDigit(t[i]), rowText)
    ensures column * 26 + LetterDigit(t[i]) > U32_MAX ==> ParseTrimmed(t).None?
  {
    var k := LetterRun(t);
    assert i < k;
    assert t[..i + 1][..i] == t[..i];
    assert t[..k][..i + 1] == t[..i + 1];
    LettersValueMonotone(t[..k], i + 1);
  }

  lemma ReadStray(t: string, i: nat, sawDigit: bool, column: nat, rowText: string)
    requires Read(t, i, sawDigit, column, rowText) && i < |t|
    requires !IsDigit(t[i]) && (IsLetter(t[i]) ==> sawDigit)
    ensures ParseTrimmed(t).None?
  {
    var k := LetterRun(t);
    assert k <= i;
    assert t[k..][i - k] == t[i];
  }

  lemma ReadAll(t: string, sawDigit: bool, column: nat, rowText: string)
    requires Read(t, |t|, sawDigit, column, rowText)
    ensures ParseTrimmed(t) ==
              if column == 0 || column > U32_MAX || rowText == [] then None
              else if ParseU32(rowText).None? || ParseU32(rowText).value == 0 then None
              else Some(CellRef(column, ParseU32(rowText).value))
  {
    var k := LetterRun(t);
    assert t[k..|t|] == t[k..];
    if rowText != [] {
      ParseU32OfDigits(rowText);
    }
  }

  /** `FromStr`: one pass with a checked multiply-and-add; every intermediate column fits a u32. */
  method ParseCellText(text: string) returns (r: Option<CellRef>)
    ensures r == ParseCell(text)
  {
    var t := Trim(text);
    if t == [] {
      return None;
    }
    var column: u32 := 0;
    var rowText: string := [];
    var sawDigit := false;
    var i := 0;
    assert Read(t, 0, false, 0, []);
    hide Read, ParseTrimmed;
    while i < |t|
      invariant 0 <= i <= |t|
      invariant Read(t, i, sawDigit, column, rowText)
    {
      var c := t[i];
      if IsLetter(c) && !sawDigit {
        ReadLetter(t, i, column, rowText);
        var next := column * 26 + LetterDigit(c);
        if next > U32_MAX {
          return None;
        }
        column := next;
      } else if IsDigit(c) {
        sawDigit := true;
        rowText := rowText + [c];
      } else {
        ReadStray(t, i, sawDigit, column, rowText);
        return None;
      }
      i := i + 1;
    }
    ReadAll(t, sawDigit, column, rowText);
    if column == 0 || rowText == [] {
      return None;
    }
    var row := ParseU32(rowText);
    if row.None? || row.value == 0 {
      return None;
    }
    return Some(CellRef(column, row.value));
  }
}
