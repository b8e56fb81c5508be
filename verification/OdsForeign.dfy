/** Cells of tables written by any program: what is read, said by their attributes and paragraphs. */
module OdsForeign {
  import opened Wrappers
  import opened Text
  import opened Xml
  import opened XmlNames
  import opened CellRefs
  import opened Rationals
  import opened Sheets
  import opened Decimals
  import opened OdsTables

  type Reading = Result<CellValue, OdsError>

  // ---------------------------------------------------------------- attributes

  /** The attribute of this name, or failing that the first with this local name. */
  ghost predicate Given(node: Node, space: string, local: string, value: string) {
    Has(node, space, local, value) || (Without(node, space, local) && HasLocal(node, local, value))
  }

  ghost predicate GivenOr(node: Node, space: string, local: string, otherwise: string, value: string) {
    Given(node, space, local, value) || (WithoutLocal(node, local) && value == otherwise)
  }

  lemma GivenIff(node: Node, space: string, local: string)
    ensures WithoutLocal(node, local) <==> Lookup(node, space, local).None?
    ensures forall v :: Given(node, space, local, v) <==> Lookup(node, space, local) == Some(v)
  {
    HasIff(node, space, local);
    HasLocalIff(node, local);
    LocalCovers(node, space, local);
    hide Has, HasLocal, Without, WithoutLocal, AttrNs, AttrAny;
  }

  // ---------------------------------------------------------------- values

  ghost predicate BoolReads(text: string, r: Reading) {
    if Trim(text) in {"1", "true", "TRUE"} then r == Success(Bool(true))
    else if Trim(text) in {"0", "false", "FALSE", ""} then r == Success(Bool(false))
    else r == Failure(BadBool)
  }

  ghost predicate NumberReads(text: string, r: Reading) {
    if CellNumber(text).Some? then r == Success(Number(CellNumber(text).value)) else r == Failure(BadNumber)
  }

  /** A formula behind its namespace prefix, or behind none. */
  ghost predicate Spelled(written: string, body: string) {
    Trim(written) == "=" + body || Trim(written) == "of:=" + body || Trim(written) == "oooc:=" + body
  }

  ghost predicate FormulaReads(written: string, r: Reading) {
    if exists body :: Spelled(written, body)
    then exists body :: Spelled(written, body) && r == Success(Formula("=" + body))
    else r == Failure(BadFormula)
  }

  /** The body of a formula of this codec: everything after the leading equals signs. */
  ghost predicate Body(text: string, body: string) {
    && |body| <= |text| && text[|text| - |body|..] == body
    && (forall i :: 0 <= i < |text| - |body| ==> text[i] == '=')
    && (body != [] ==> body[0] != '=')
  }

  lemma {:induction false} BodyIff(text: string, body: string)
    ensures Body(text, body) <==> body == TrimEquals(text)
  {
    if text != [] && text[0] == '=' {
      BodyIff(text[1..], body);
      if Body(text, body) {
        assert |body| < |text|;
        assert text[1..][|text| - 1 - |body|..] == text[|text| - |body|..];
      }
      if Body(text[1..], body) {
        assert text[1..][|text| - 1 - |body|..] == text[|text| - |body|..];
        forall i | 0 <= i < |text| - |body|
          ensures text[i] == '='
        {
          assert i > 0 ==> text[1..][i - 1] == text[i];
        }
      }
    }
  }

  lemma FormulaReadsIff(written: string, r: Reading)
    ensures FormulaReads(written, r) <==> r == NormalizeFormula(written)
  {
    SpelledOnce(Trim(written), written);
    NormalizedSpells(written);
    hide Spelled, NormalizeFormula;
  }

  lemma NormalizedSpells(written: string)
    ensures NormalizeFormula(written).Failure? ==> NormalizeFormula(written) == Failure(BadFormula)
    ensures NormalizeFormula(written).Success? ==>
              exists body :: Spelled(written, body) && NormalizeFormula(written) == Success(Formula("=" + body))
  {
    hide Trim;
    var t := Trim(written);
    if NormalizeFormula(written).Success? {
      var plain := NormalizeFormula(written).value.formula;
      assert t == plain || t == "of:" + plain || t == "oooc:" + plain by {
        PrefixSplits(t, "of:");
        PrefixSplits(t, "oooc:");
      }
      assert plain != [] && plain[0] == '=';
      hide NormalizeFormula, StartsWith;
      EqualsSplits(plain);
      PrefixesSpell(plain[1..]);
      assert Spelled(written, plain[1..]);
    }
  }

  lemma PrefixSplits(t: string, prefix: string)
    ensures StartsWith(t, prefix) ==> t == prefix + t[|prefix|..]
  {
  }

  lemma EqualsSplits(plain: string)
    requires plain != [] && plain[0] == '='
    ensures plain == "=" + plain[1..]
  {
  }

  lemma PrefixesSpell(body: string)
    ensures "of:" + ("=" + body) == "of:=" + body && "oooc:" + ("=" + body) == "oooc:=" + body
  {
  }

  lemma SpelledOnce(t: string, written: string)
    requires t == Trim(written)
    ensures forall body :: Spelled(written, body) ==> NormalizeFormula(written) == Success(Formula("=" + body))
  {
    hide Trim;
    forall body | Spelled(written, body)
      ensures NormalizeFormula(written) == Success(Formula("=" + body))
    {
      if t == "=" + body {
        assert t[0] == '=' && !StartsWith(t, "of:") && !StartsWith(t, "oooc:") by {
          assert t[0] != "of:"[0];
        }
      } else if t == "of:=" + body {
        assert t[..3] == "of:" && t[3..] == "=" + body;
      } else {
        assert t[1] == 'o' && "of:"[1] == 'f' && !StartsWith(t, "of:") by {
          assert t[..3][1] == t[1];
        }
        assert t[..5] == "oooc:" && t[5..] == "=" + body;
      }
    }
  }

  // ---------------------------------------------------------------- one cell

  /** The text of a cell: the stored one, else its paragraphs. */
  ghost predicate Content(node: Node, text: string) {
    Has(node, SIM_NS, "value", text) || (Without(node, SIM_NS, "value") && text == TextContent(node))
  }

  ghost predicate Typed(node: Node, kind: string) {
    Has(node, OFFICE_NS, "value-type", kind)
  }

  ghost predicate Marked(node: Node, kind: string) {
    Has(node, SIM_NS, "kind", kind)
  }

  ghost predicate TypedReads(node: Node, text: string, r: Reading) {
    if Typed(node, "boolean") then exists t :: GivenOr(node, OFFICE_NS, "boolean-value", text, t) && BoolReads(t, r)
    else if Typed(node, "float") || Typed(node, "currency") || Typed(node, "percentage") then
      exists t :: GivenOr(node, OFFICE_NS, "value", text, t) && NumberReads(t, r)
    else if Typed(node, "string") || Typed(node, "date") || Typed(node, "time") then
      r == Success(CellValue.Text(text))
    else r == Success(if Text.Blank(text) then CellValue.Blank else CellValue.Text(text))
  }

  /** A cell without this codec's kind: a formula if it has one, else by its type. */
  ghost predicate UnmarkedReads(node: Node, text: string, r: Reading) {
    || (exists f :: Given(node, TABLE_NS, "formula", f) && FormulaReads(f, r))
    || (WithoutLocal(node, "formula") && TypedReads(node, text, r))
  }

  ghost predicate MarkedReads(node: Node, text: string, r: Reading) {
    if Marked(node, "blank") then r == Success(CellValue.Blank)
    else if Marked(node, "bool") then BoolReads(text, r)
    else if Marked(node, "formula") then exists body :: Body(text, body) && r == Success(Formula("=" + body))
    else if Marked(node, "number") then NumberReads(text, r)
    else if Marked(node, "text") then r == Success(CellValue.Text(text))
    else UnmarkedReads(node, text, r)
  }

  ghost predicate Reads(node: Node, r: Reading) {
    exists text :: Content(node, text) && MarkedReads(node, text, r)
  }

  lemma TypedReadsIff(node: Node, text: string, r: Reading)
    requires WithoutLocal(node, "formula")
    ensures TypedReads(node, text, r) <==> r == DecodeUntyped(node, text)
  {
    GivenIff(node, TABLE_NS, "formula");
    HasIff(node, OFFICE_NS, "value-type");
    TrimEmptyIffBlank(text);
    BoolGivenReads(node, text, r);
    NumberGivenReads(node, text, r);
    hide Given, WithoutLocal, GivenOr, Lookup, Has, Without, Trim, AttrNs, BoolReads, NumberReads, BoolValue;
    hide NumberValue, TextContent, GetOr, NormalizeFormula;
  }

  lemma BoolGivenReads(node: Node, text: string, r: Reading)
    ensures (exists t :: GivenOr(node, OFFICE_NS, "boolean-value", text, t) && BoolReads(t, r))
            <==> r == BoolValue(GetOr(Lookup(node, OFFICE_NS, "boolean-value"), text))
  {
    GivenIff(node, OFFICE_NS, "boolean-value");
    hide Given, WithoutLocal, Lookup, Trim;
    var flag := GetOr(Lookup(node, OFFICE_NS, "boolean-value"), text);
    assert GivenOr(node, OFFICE_NS, "boolean-value", text, flag);
  }

  lemma NumberGivenReads(node: Node, text: string, r: Reading)
    ensures (exists t :: GivenOr(node, OFFICE_NS, "value", text, t) && NumberReads(t, r))
            <==> r == NumberValue(GetOr(Lookup(node, OFFICE_NS, "value"), text))
  {
    GivenIff(node, OFFICE_NS, "value");
    hide Given, WithoutLocal, Lookup, CellNumber;
    var number := GetOr(Lookup(node, OFFICE_NS, "value"), text);
    assert GivenOr(node, OFFICE_NS, "value", text, number);
  }

  lemma UnmarkedReadsIff(node: Node, text: string, r: Reading)
    ensures UnmarkedReads(node, text, r) <==> r == DecodeUntyped(node, text)
  {
    GivenIff(node, TABLE_NS, "formula");
    hide Given, WithoutLocal, Lookup, TypedReads, FormulaReads, NormalizeFormula, BoolValue, NumberValue, AttrNs, Trim;
    if WithoutLocal(node, "formula") {
      TypedReadsIff(node, text, r);
    } else {
      FormulaReadsIff(Lookup(node, TABLE_NS, "formula").value, r);
    }
  }

  lemma StoredIff(node: Node, text: string)
    ensures var stored := AttrNs(AttributesOf(node), SIM_NS, "value");
            Content(node, text) <==> text == if stored.Some? then stored.value else TextContent(node)
  {
    HasIff(node, SIM_NS, "value");
    hide Has, Without, AttrNs, TextContent;
  }

  lemma MarkedReadsIff(node: Node, text: string, r: Reading)
    requires Content(node, text)
    ensures MarkedReads(node, text, r) <==> r == DecodeCell(node)
  {
    HasIff(node, SIM_NS, "kind");
    StoredIff(node, text);
    hide Has, Without, AttrNs, Content, UnmarkedReads, DecodeUntyped, TextContent, Trim, CellNumber, AttributesOf;
    hide Body, TrimEquals, BoolReads, NumberReads, BoolValue, NumberValue;
    if Marked(node, "blank") {
    } else if Marked(node, "bool") {
      BoolReadsIff(text, r);
    } else if Marked(node, "formula") {
      BodyReads(text, r);
    } else if Marked(node, "number") {
      NumberReadsIff(text, r);
    } else if !Marked(node, "text") {
      UnmarkedReadsIff(node, text, r);
    }
  }

  lemma BoolReadsIff(text: string, r: Reading)
    ensures BoolReads(text, r) <==> r == BoolValue(text)
  {
    hide Trim;
  }

  lemma NumberReadsIff(text: string, r: Reading)
    ensures NumberReads(text, r) <==> r == NumberValue(text)
  {
    hide CellNumber;
  }

  /** Every cell reads exactly as its attributes and paragraphs say. */
  lemma ReadsIff(node: Node, r: Reading)
    ensures Reads(node, r) <==> r == DecodeCell(node)
  {
    var stored := AttrNs(AttributesOf(node), SIM_NS, "value");
    var text := if stored.Some? then stored.value else TextContent(node);
    forall t
      ensures Content(node, t) <==> t == text
    {
      StoredIff(node, t);
    }
    MarkedReadsIff(node, text, r);
    hide Content, MarkedReads, DecodeCell, AttrNs, TextContent;
  }

  lemma BodyReads(text: string, r: Reading)
    ensures (exists body :: Body(text, body) && r == Success(Formula("=" + body)))
            <==> r == Success(Formula("=" + TrimEquals(text)))
  {
    forall body
      ensures Body(text, body) <==> body == TrimEquals(text)
    {
      BodyIff(text, body);
    }
    hide Body, TrimEquals;
  }

  // ---------------------------------------------------------------- text

  /** A paragraph with nothing but text in it. */
  predicate IsParagraph(node: Node, text: string) {
    HasTag(node, "p") && node.children == [Chars(text)]
  }

  lemma {:induction false} LinesSnoc(texts: seq<string>, text: string)
    ensures Lines(texts + [text]) == if texts == [] then text else Lines(texts) + "\n" + text
  {
    if texts != [] {
      assert (texts + [text])[1..] == texts[1..] + [text];
      LinesSnoc(texts[1..], text);
    }
  }

  lemma {:induction false} ParagraphTextsConcat(a: seq<Node>, b: seq<Node>)
    ensures ParagraphTexts(a + b) == ParagraphTexts(a) + ParagraphTexts(b)
  {
    if a == [] {
      assert a + b == b;
    } else {
      assert (a + b)[1..] == a[1..] + b;
      ParagraphTextsConcat(a[1..], b);
    }
  }

  lemma ParagraphFound(node: Node, text: string)
    requires IsParagraph(node, text)
    ensures ParagraphTexts(Descendants(node)) == [text]
  {
    assert BelowFrom(node, 1) == [];
    assert Descendants(Chars(text)) == [Chars(text)];
    assert BelowFrom(node, 0) == [Chars(text)];
    assert Descendants(node) == [node, Chars(text)];
    var rest := [node, Chars(text)][1..];
    assert rest == [Chars(text)] && rest[1..] == [];
    assert ParagraphTexts(rest) == [];
  }

  lemma {:induction false} ParagraphsBelow(node: Node, k: nat, texts: seq<string>)
    requires node.Element? && k <= |node.children| == |texts|
    requires forall i :: 0 <= i < |texts| ==> IsParagraph(node.children[i], texts[i])
    ensures ParagraphTexts(BelowFrom(node, k)) == texts[k..]
    decreases |texts| - k
  {
    hide IsParagraph, Descendants, ParagraphTexts;
    if k < |texts| {
      ParagraphFound(node.children[k], texts[k]);
      ParagraphsBelow(node, k + 1, texts);
      ParagraphTextsConcat(Descendants(node.children[k]), BelowFrom(node, k + 1));
      assert texts[k..] == [texts[k]] + texts[k + 1..];
    } else {
      NoParagraphTexts();
    }
  }

  lemma NoParagraphTexts()
    ensures ParagraphTexts([]) == []
  {
  }

  /** The text of a cell is its paragraphs, one line each. */
  lemma ParagraphsAreLines(node: Node, texts: seq<string>)
    requires node.Element? && node.name.local != "p" && |node.children| == |texts|
    requires forall i :: 0 <= i < |texts| ==> IsParagraph(node.children[i], texts[i])
    ensures TextContent(node) == Lines(texts)
  {
    hide IsParagraph, Lines;
    ParagraphsBelow(node, 0, texts);
    assert Descendants(node) == [node] + BelowFrom(node, 0);
    ParagraphTextsConcat([node], BelowFrom(node, 0));
    assert ParagraphTexts([node]) == [] by {
      assert [node][1..] == [];
    }
    assert [] + texts[0..] == texts;
  }

  /** Every further paragraph is a further line. */
  lemma NextParagraph(cell: Node, longer: Node, texts: seq<string>, last: string)
    requires cell.Element? && longer.Element? && cell.name.local != "p" && longer.name.local != "p"
    requires |cell.children| == |texts| && |longer.children| == |texts| + 1
    requires longer.children[..|texts|] == cell.children && IsParagraph(longer.children[|texts|], last)
    requires forall i :: 0 <= i < |texts| ==> IsParagraph(cell.children[i], texts[i])
    ensures TextContent(longer) == if texts == [] then last else TextContent(cell) + "\n" + last
  {
    hide IsParagraph, TextContent, Lines;
    ParagraphsAreLines(cell, texts);
    forall i | 0 <= i < |texts|
      ensures longer.children[i] == cell.children[i]
    {
      assert longer.children[..|texts|][i] == cell.children[i];
    }
    ParagraphsAreLines(longer, texts + [last]);
    LinesSnoc(texts, last);
  }

  // ---------------------------------------------------------------- one cell in a row

  /** The row puts the value at the position it has come to, or refuses with the error. */
  ghost predicate Places(node: Node, r: Reading) {
    forall column: u32, row: u32, cells: Cells, build: Build ::
      1 <= column && 1 <= row && !Stops(column, build) ==> PlacesAt(node, r, column, row, cells, build)
  }

  ghost predicate PlacesAt(node: Node, r: Reading, column: u32, row: u32, cells: Cells, build: Build) {
    DecodeRow([node], column, row, cells, build) ==
    match r
    case Failure(e) => Failure(e)
    case Success(value) => Success(if value.Blank? then cells else cells[CellRef(column, row) := value])
  }

  /** A cell of another program: none of this codec's attributes, standing for one column. */
  ghost predicate Outside(node: Node) {
    && HasTag(node, "table-cell")
    && WithoutLocal(node, COLUMNS_REPEATED)
    && var a := AttributesOf(node);
       forall i :: 0 <= i < |a| ==> a[i].name.space != SIM_NS
  }

  lemma OutsideUnmarked(node: Node)
    requires Outside(node)
    ensures Without(node, SIM_NS, "kind") && Without(node, SIM_NS, "value") && Without(node, SIM_NS, "cell")
  {
  }

  lemma OneOnce(node: Node)
    requires WithoutLocal(node, COLUMNS_REPEATED)
    ensures RepeatCount(node, COLUMNS_REPEATED) == Success(1)
  {
    GivenIff(node, TABLE_NS, COLUMNS_REPEATED);
    hide Lookup, WithoutLocal, ParseU32;
    assert ParseU32("1") == Some(1) by {
      ParseU32OfText(1);
      assert NatText(1) == "1";
    }
  }

  lemma CellPlaced(node: Node, r: Reading)
    requires Outside(node) && Reads(node, r)
    ensures Places(node, r)
  {
    hide Reads, DecodeCell, RepeatCount;
    OneOnce(node);
    OutsideUnmarked(node);
    HasIff(node, SIM_NS, "cell");
    ReadsIff(node, r);
    hide AttrNs, Has, Without, AttributesOf;
    assert !HasTag(node, "covered-table-cell");
    forall column: u32, row: u32, cells: Cells, build: Build | 1 <= column && 1 <= row && !Stops(column, build)
      ensures PlacesAt(node, r, column, row, cells, build)
    {
      if r.Success? {
        SetOnce(node, r.value, column, row, cells, build);
      }
      hide SetRepeated;
      assert [node][1..] == [];
      NothingLeft(Following(column), row, build);
    }
  }

  lemma NothingLeft(column: u32, row: u32, build: Build)
    ensures forall cells: Cells :: DecodeRow([], column, row, cells, build) == Success(cells)
  {
  }

  lemma SetOnce(node: Node, value: CellValue, column: u32, row: u32, cells: Cells, build: Build)
    requires 1 <= column && 1 <= row && AttrNs(AttributesOf(node), SIM_NS, "cell") == None
    ensures SetRepeated(node, value, column, row, 0, 1, cells, build) ==
            Success(if value.Blank? then cells else cells[CellRef(column, row) := value])
  {
    hide AttrNs, AttributesOf;
    if !value.Blank? {
      var next := SetCell(cells, CellRef(column, row), value);
      assert SetRepeated(node, value, column, row, 1, 1, next, build) == Success(next);
    }
  }

  lemma OutsideReads(node: Node, r: Reading)
    requires Outside(node) && UnmarkedReads(node, TextContent(node), r)
    ensures Places(node, r)
  {
    OutsideUnmarked(node);
    HasIff(node, SIM_NS, "kind");
    hide Has, UnmarkedReads, Outside, TextContent, Without, AttrNs;
    assert Content(node, TextContent(node));
    assert forall kind :: !Marked(node, kind);
    assert MarkedReads(node, TextContent(node), r);
    CellPlaced(node, r);
  }

  // ---------------------------------------------------------------- the kinds of foreign cells

  /** A formula is kept from its equals sign on, behind either namespace prefix or none. */
  lemma FormulaCellPlaced(node: Node, written: string, body: string)
    requires Outside(node) && Given(node, TABLE_NS, "formula", written) && Spelled(written, body)
    ensures Places(node, Success(Formula("=" + body)))
  {
    hide Outside, Given, Spelled;
    assert FormulaReads(written, Success(Formula("=" + body)));
    hide FormulaReads;
    OutsideReads(node, Success(Formula("=" + body)));
  }

  lemma OtherFormulaRefused(node: Node, written: string)
    requires Outside(node) && Given(node, TABLE_NS, "formula", written)
    requires forall body :: !Spelled(written, body)
    ensures Places(node, Failure(BadFormula))
  {
    hide Outside, Given, Spelled;
    assert FormulaReads(written, Failure(BadFormula));
    hide FormulaReads;
    OutsideReads(node, Failure(BadFormula));
  }

  /** The digits of a decimal, or of an integer without a point. */
  predicate Spells(written: string, negative: bool, whole: string, fraction: string) {
    || (Decimal(whole, fraction) && written == DecimalText(negative, whole, fraction))
    || (whole != [] && AllDigits(whole) && fraction == [] && written == SignText(negative) + whole)
  }

  lemma IntegerRead(negative: bool, digits: string)
    requires digits != [] && AllDigits(digits)
    ensures CellNumber(SignText(negative) + digits) == Some(Reduce(Signed(negative, DigitsValue(digits)), 1))
  {
    var text := SignText(negative) + digits;
    hide DigitsValue, Reduce, ParseRational, ParseInt, Trim;
    assert DigitsValue("1") == 1 by {
      assert NatText(1) == "1";
      NatTextValue(1);
    }
    assert forall i :: 0 <= i < |text| ==> text[i] == '-' || IsDigit(text[i]);
    TrimIdentity(text);
    ParseSigned(negative, digits);
    ParseSigned(false, "1");
    assert SignText(false) + "1" == "1";
    ParseFraction(text, "1");
    assert text + "/" + "1" == text + "/1";
  }

  lemma SpelledNumber(written: string, negative: bool, whole: string, fraction: string, q: Rational)
    requires Spells(written, negative, whole, fraction) && Canonical(q) && Pow10(|fraction|) > 0
    requires Denote(q) == Ratio(Signed(negative, DigitsValue(whole + fraction)), Pow10(|fraction|))
    ensures CellNumber(written) == Some(q)
  {
    hide CellNumber, DigitsValue, Reduce, DecimalText, Canonical, Denote, Ratio;
    assert AllDigits(whole + fraction);
    hide AllDigits;
    var n := Signed(negative, DigitsValue(whole + fraction));
    ReduceDenotes(n, Pow10(|fraction|));
    CanonicalUnique(q, Reduce(n, Pow10(|fraction|)));
    if fraction == [] {
      assert whole + fraction == whole && Pow10(0) == 1;
      NoDecimal(whole);
      IntegerRead(negative, whole);
    } else {
      CellNumberDenotes(negative, whole, fraction);
    }
  }

  lemma NoDecimal(whole: string)
    ensures !Decimal(whole, [])
  {
  }

  /** A number, an amount or a percentage is the exact value of its digits over a power of ten. */
  lemma NumberCellPlaced(
    node: Node, kind: string, written: string, negative: bool, whole: string, fraction: string, q: Rational)
    requires Outside(node) && WithoutLocal(node, "formula")
    requires kind in {"float", "currency", "percentage"} && Typed(node, kind)
    requires GivenOr(node, OFFICE_NS, "value", TextContent(node), written)
    requires Spells(written, negative, whole, fraction) && Canonical(q) && Pow10(|fraction|) > 0
    requires Denote(q) == Ratio(Signed(negative, DigitsValue(whole + fraction)), Pow10(|fraction|))
    ensures Places(node, Success(Number(q)))
  {
    SpelledNumber(written, negative, whole, fraction, q);
    hide Outside, Spells, Canonical, Denote, Ratio, CellNumber, TextContent, GivenOr;
    assert NumberReads(written, Success(Number(q)));
    TypedOnce(node, kind);
    assert TypedReads(node, TextContent(node), Success(Number(q)));
    hide TypedReads, NumberReads;
    OutsideReads(node, Success(Number(q)));
  }

  lemma TypedOnce(node: Node, kind: string)
    requires Typed(node, kind)
    ensures forall other :: Typed(node, other) ==> other == kind
  {
    HasIff(node, OFFICE_NS, "value-type");
    hide Has, AttrNs;
  }

  /** A truth value is one of the accepted words, white space aside, or refused. */
  lemma BoolCellPlaced(node: Node, written: string)
    requires Outside(node) && WithoutLocal(node, "formula") && Typed(node, "boolean")
    requires GivenOr(node, OFFICE_NS, "boolean-value", TextContent(node), written)
    ensures Trim(written) in {"1", "true", "TRUE"} ==> Places(node, Success(Bool(true)))
    ensures Trim(written) in {"0", "false", "FALSE", ""} ==> Places(node, Success(Bool(false)))
    ensures Trim(written) !in {"1", "true", "TRUE", "0", "false", "FALSE", ""} ==> Places(node, Failure(BadBool))
  {
    var r: Reading := if Trim(written) in {"1", "true", "TRUE"} then Success(Bool(true))
                      else if Trim(written) in {"0", "false", "FALSE", ""} then Success(Bool(false))
                      else Failure(BadBool);
    assert {"1", "true", "TRUE"} !! {"0", "false", "FALSE", ""} by {
      assert "true"[0] != "0"[0] && "TRUE"[0] != "0"[0] && "1"[0] != "0"[0];
    }
    hide Outside, TextContent, GivenOr, Trim, Typed;
    assert BoolReads(written, r);
    assert TypedReads(node, TextContent(node), r);
    hide TypedReads, BoolReads;
    OutsideReads(node, r);
  }

  /** Words, dates and times are kept as the text of the cell. */
  lemma TextCellPlaced(node: Node, kind: string)
    requires Outside(node) && WithoutLocal(node, "formula")
    requires kind in {"string", "date", "time"} && Typed(node, kind)
    ensures Places(node, Success(CellValue.Text(TextContent(node))))
  {
    var r: Reading := Success(CellValue.Text(TextContent(node)));
    TypedOnce(node, kind);
    hide Outside, TextContent, GivenOr, Typed, BoolReads, NumberReads;
    assert "string" != "float" && "string" != "boolean" by {
      assert "string"[0] != "float"[0];
    }
    assert TypedReads(node, TextContent(node), r);
    hide TypedReads;
    OutsideReads(node, r);
  }

  /** Without a type, blank text sets nothing and other text is kept. */
  lemma UntypedCellPlaced(node: Node)
    requires Outside(node) && WithoutLocal(node, "formula") && Without(node, OFFICE_NS, "value-type")
    ensures Text.Blank(TextContent(node)) ==> Places(node, Success(CellValue.Blank))
    ensures !Text.Blank(TextContent(node)) ==> Places(node, Success(CellValue.Text(TextContent(node))))
  {
    var text := TextContent(node);
    var r: Reading := Success(if Text.Blank(text) then CellValue.Blank else CellValue.Text(text));
    HasIff(node, OFFICE_NS, "value-type");
    hide Outside, TextContent, GivenOr, BoolReads, NumberReads, Has, Without, AttrNs;
    assert forall kind :: !Typed(node, kind);
    assert TypedReads(node, text, r);
    hide TypedReads, Text.Blank, Typed;
    OutsideReads(node, r);
  }

  /** A cell as spreadsheets write it: a floating point number with its text. */
  const FORTY_TWO :=
    Element(Name(TABLE_NS, "table-cell"), [ValueType("float"), Attribute(Name(OFFICE_NS, "value"), "42")],
            [Paragraph("42")])

  lemma FortyTwoAttributes()
    ensures Outside(FORTY_TWO) && WithoutLocal(FORTY_TWO, "formula")
    ensures Has(FORTY_TWO, OFFICE_NS, "value-type", "float") && Has(FORTY_TWO, OFFICE_NS, "value", "42")
  {
    var a := AttributesOf(FORTY_TWO);
    assert a[0] == Attribute(Name(OFFICE_NS, "value-type"), "float");
    assert a[1] == Attribute(Name(OFFICE_NS, "value"), "42");
    assert |"value"| != |"value-type"| && |OFFICE_NS| != |SIM_NS|;
    assert "value"[0] != "formula"[0] && "value-type"[0] != "formula"[0];
  }

  lemma FortyTwoSpelled()
    ensures Spells("42", false, "42", []) && DigitsValue("42" + []) == 42 && Pow10(|""|) == 1
  {
    assert NatText(42) == "42";
    NatTextValue(42);
    assert "42" + [] == "42" && SignText(false) + "42" == "42";
  }

  lemma FortyTwoPlaced()
    ensures Places(FORTY_TWO, Success(Number(Rational(42, 1))))
  {
    FortyTwoAttributes();
    FortyTwoSpelled();
    assert Gcd(42, 1) == 1;
    hide Places, Spells, DigitsValue, Outside, WithoutLocal, Has, TextContent, Pow10, Gcd;
    NumberCellPlaced(FORTY_TWO, "float", "42", false, "42", [], Rational(42, 1));
  }

  // ---------------------------------------------------------------- what other programs read

  function DropSim(attributes: seq<Attribute>): seq<Attribute> {
    if attributes == [] then []
    else (if attributes[0].name.space == SIM_NS then [] else [attributes[0]]) + DropSim(attributes[1..])
  }

  lemma {:induction false} DropSimEnds(a: seq<Attribute>, b: seq<Attribute>)
    requires forall i :: 0 <= i < |a| ==> a[i].name.space != SIM_NS
    requires forall i :: 0 <= i < |b| ==> b[i].name.space == SIM_NS
    ensures DropSim(a + b) == a
  {
    if a != [] {
      assert (a + b)[1..] == a[1..] + b;
      DropSimEnds(a[1..], b);
    } else if b != [] {
      assert a + b == b;
      DropSimEnds([], b[1..]);
      assert [] + b[1..] == b[1..];
    }
  }

  /** An encoded cell without the attributes that only this codec knows. */
  function Foreign(node: Node): Node {
    if node.Element? then node.(attributes := DropSim(node.attributes)) else node
  }

  lemma ForeignElement(lead: seq<Attribute>, cell: CellRef, kind: string, value: string)
    requires forall i :: 0 <= i < |lead| ==> lead[i].name.space != SIM_NS && lead[i].name.local != COLUMNS_REPEATED
    ensures var node := Foreign(CellElement(lead, cell, kind, value));
            node == Element(Name(TABLE_NS, "table-cell"), lead, [Paragraph(value)])
            && Outside(node) && TextContent(node) == value
  {
    DropSimEnds(lead, AddressAttributes(cell, kind, value));
    var node := Element(Name(TABLE_NS, "table-cell"), lead, [Paragraph(value)]);
    if value == [] {
      NoText(node, Paragraph(value));
    } else {
      hide TextContent, AddressAttributes;
      ParagraphsAreLines(node, [value]);
    }
  }

  lemma NoText(node: Node, empty: Node)
    requires node.Element? && node.name.local != "p" && node.children == [empty]
    requires empty.Element? && empty.children == []
    ensures TextContent(node) == ""
  {
    assert BelowFrom(empty, 0) == [] && Descendants(empty) == [empty];
    assert BelowFrom(node, 1) == [] && BelowFrom(node, 0) == [empty];
    assert Descendants(node) == [node] + [empty];
    ParagraphTextsConcat([node], [empty]);
    assert [node][1..] == [] && [empty][1..] == [];
  }

  lemma {:induction false} TrimEndBehind(a: string, b: string)
    requires a != [] && !IsWhitespace(a[|a| - 1])
    ensures TrimEnd(a + b) == a + TrimEnd(b)
  {
    if b == [] {
      assert a + b == a;
    } else {
      assert (a + b)[..|a + b| - 1] == a + b[..|b| - 1];
      TrimEndBehind(a, b[..|b| - 1]);
    }
  }

  /**
   What an encoded cell says to other programs: the same text, truth value or formula, and a number as
   the text of its fraction; a formula loses the white space at its end.
   */
  lemma OthersRead(cell: CellRef, value: CellValue)
    requires !value.Blank?
    ensures |CellNodes(cell, value)| == 1
    ensures Places(Foreign(CellNodes(cell, value)[0]),
                   Success(match value
                           case Text(text) => CellValue.Text(text)
                           case Number(q) => CellValue.Text(RationalText(q))
                           case Bool(flag) => Bool(flag)
                           case Formula(formula) => Formula("=" + TrimEnd(TrimEquals(formula)))))
  {
    match value
    case Text(text) => OthersReadText(cell, value, "text", text);
    case Number(q) => OthersReadText(cell, value, "number", RationalText(q));
    case Bool(flag) => OthersReadBool(cell, flag);
    case Formula(formula) => OthersReadFormula(cell, formula);
  }

  lemma OthersReadText(cell: CellRef, value: CellValue, kind: string, text: string)
    requires CellNodes(cell, value) == [CellElement([ValueType("string")], cell, kind, text)]
    ensures Places(Foreign(CellNodes(cell, value)[0]), Success(CellValue.Text(text)))
  {
    var lead := [ValueType("string")];
    assert |OFFICE_NS| != |SIM_NS| && |"value-type"| != |COLUMNS_REPEATED|;
    ForeignElement(lead, cell, kind, text);
    var node := Foreign(CellNodes(cell, value)[0]);
    hide CellElement, TextContent, Foreign, CellNodes, Places;
    assert AttributesOf(node)[0] == Attribute(Name(OFFICE_NS, "value-type"), "string");
    assert |"value-type"| != |"formula"|;
    TextCellPlaced(node, "string");
  }

  lemma OthersReadBool(cell: CellRef, flag: bool)
    ensures Places(Foreign(CellNodes(cell, Bool(flag))[0]), Success(Bool(flag)))
  {
    var lead := LeadAttributes(Bool(flag));
    assert |OFFICE_NS| != |SIM_NS| && |"value-type"| != |COLUMNS_REPEATED| && |"boolean-value"| != |COLUMNS_REPEATED|;
    ForeignElement(lead, cell, "bool", BoolText(flag));
    var node := Foreign(CellNodes(cell, Bool(flag))[0]);
    hide CellElement, TextContent, Foreign, CellNodes, Places;
    var a := AttributesOf(node);
    assert a[0] == Attribute(Name(OFFICE_NS, "value-type"), "boolean");
    assert a[1] == Attribute(Name(OFFICE_NS, "boolean-value"), BoolText(flag));
    assert |"value-type"| != |"formula"| && |"boolean-value"| != |"formula"| && |"value-type"| != |"boolean-value"|;
    assert Has(node, OFFICE_NS, "boolean-value", BoolText(flag));
    TrimIdentity(BoolText(flag));
    assert "true"[0] != "false"[0];
    BoolCellPlaced(node, BoolText(flag));
  }

  lemma OthersReadFormula(cell: CellRef, formula: string)
    ensures Places(Foreign(CellNodes(cell, Formula(formula))[0]),
                   Success(Formula("=" + TrimEnd(TrimEquals(formula)))))
  {
    var written := "of:=" + TrimEquals(formula);
    var node := Foreign(CellNodes(cell, Formula(formula))[0]);
    FormulaAttributes(cell, formula, written);
    WrittenSpells(TrimEquals(formula));
    hide CellElement, Foreign, CellNodes, Places, TrimEquals, TrimEnd, Outside, Has, Spelled;
    FormulaCellPlaced(node, written, TrimEnd(TrimEquals(formula)));
  }

  lemma FormulaAttributes(cell: CellRef, formula: string, written: string)
    requires written == "of:=" + TrimEquals(formula)
    ensures var node := Foreign(CellNodes(cell, Formula(formula))[0]);
            Outside(node) && Has(node, TABLE_NS, "formula", written)
  {
    var lead := LeadAttributes(Formula(formula));
    assert |OFFICE_NS| != |SIM_NS| && |TABLE_NS| != |SIM_NS| && |"value-type"| != |"formula"|;
    assert |"value-type"| != |COLUMNS_REPEATED| && |"formula"| != |COLUMNS_REPEATED|;
    ForeignElement(lead, cell, "formula", formula);
    hide Outside, TextContent, TrimEquals, Foreign;
    assert lead[1] == Attribute(Name(TABLE_NS, "formula"), written);
  }

  lemma WrittenSpells(body: string)
    ensures Spelled("of:=" + body, TrimEnd(body))
  {
    TrimEndBehind("of:=", body);
    hide TrimEnd;
    var written := "of:=" + body;
    assert TrimStart(written) == written;
  }
}
