/** What a written slide shows to programs that know nothing of its blocks: text lines in their places. */
module DeckDisplay {
  import opened Text
  import opened Wrappers
  import opened Xml
  import opened XmlSearch
  import opened DeckPackages
  import opened DeckShapes

  // ---------------------------------------------------------------- lines

  /** A line without the carriage return before its line feed. */
  function Bare(line: string): string {
    if line != [] && line[|line| - 1] == '\r' then line[..|line| - 1] else line
  }

  lemma {:induction false} LineRun(a: string, rest: string, line: string)
    requires '\n' !in a
    ensures TextLines(a + rest, line) == TextLines(rest, line + a)
  {
    if a == [] {
      assert a + rest == rest && line + a == line;
    } else {
      assert (a + rest)[0] == a[0] && (a + rest)[1..] == a[1..] + rest;
      LineRun(a[1..], rest, line + [a[0]]);
      assert line + [a[0]] + a[1..] == line + a;
    }
  }

  /** A line feed ends a line; what follows the last one is a line unless it is empty. */
  lemma LinesSplit(a: string, rest: string)
    requires '\n' !in a
    ensures TextLines(a + "\n" + rest, []) == [Bare(a)] + TextLines(rest, [])
    ensures TextLines(a, []) == if a == [] then [] else [a]
  {
    LineRun(a, "\n" + rest, []);
    LineRun(a, [], []);
    assert a + "\n" + rest == a + ("\n" + rest) && a + [] == a && [] + a == a;
    assert ("\n" + rest)[1..] == rest;
  }

  predicate OneLine(text: string) {
    '\n' !in text && '\r' !in text
  }

  /** Lines joined by line feeds are those lines again, when the last is not empty. */
  lemma {:induction false} JoinedLines(texts: seq<string>)
    requires forall i :: 0 <= i < |texts| ==> OneLine(texts[i])
    requires texts != [] ==> texts[|texts| - 1] != []
    ensures TextLines(Join(texts, "\n"), []) == texts
  {
    if texts == [] {
    } else {
      LinesSplit(texts[0], Join(texts[1..], "\n"));
      hide TextLines;
      if |texts| > 1 {
        JoinedLines(texts[1..]);
      }
    }
  }

  lemma {:induction false} BulletsAre(items: seq<string>)
    ensures |Bullets(items)| == |items|
    ensures forall i :: 0 <= i < |items| ==> Bullets(items)[i] == "- " + items[i]
  {
    if items != [] {
      BulletsAre(items[1..]);
    }
  }

  /** A list shows one line for every item, behind a dash. */
  lemma ListLines(items: seq<string>)
    requires forall i :: 0 <= i < |items| ==> OneLine(items[i])
    ensures var lines := TextLines(DisplayText(BulletList(items)), []);
            |lines| == |items| && forall i :: 0 <= i < |items| ==> lines[i] == "- " + items[i]
  {
    BulletsAre(items);
    forall i | 0 <= i < |items|
      ensures OneLine(Bullets(items)[i])
    {
    }
    JoinedLines(Bullets(items));
  }

  /** A heading shows its own lines, and an image one line with its id in brackets. */
  lemma HeadingAndImageLines(text: string, reference: ImageReference)
    ensures DisplayText(Heading(text)) == text
    ensures OneLine(reference.externalId) ==>
              TextLines(DisplayText(Image(reference)), []) == ["[image: " + reference.externalId + "]"]
  {
    var line := "[image: " + reference.externalId + "]";
    if OneLine(reference.externalId) {
      forall i | 0 <= i < |line|
        ensures line[i] != '\n'
      {
        assert 8 <= i < |line| - 1 ==> line[i] == reference.externalId[i - 8];
      }
      LinesSplit(line, []);
    }
  }

  lemma {:induction false} RowTextsAre(rows: seq<seq<string>>)
    ensures |RowTexts(rows)| == |rows|
    ensures forall i :: 0 <= i < |rows| ==> RowTexts(rows)[i] == Join(rows[i], " | ")
  {
    if rows != [] {
      RowTextsAre(rows[1..]);
    }
  }

  /** Joining puts the separator between two neighbours and nowhere else. */
  lemma {:induction false} JoinSnoc(texts: seq<string>, text: string, separator: string)
    ensures Join([], separator) == [] && Join([text], separator) == text
    ensures texts != [] ==> Join(texts + [text], separator) == Join(texts, separator) + separator + text
  {
    if |texts| > 1 {
      JoinSnoc(texts[1..], text, separator);
      assert (texts + [text])[1..] == texts[1..] + [text];
    } else if texts != [] {
      assert (texts + [text])[1..] == [text];
    }
  }

  /** A table shows its head and every row on a line of its own, cells apart by a bar. */
  lemma TableLines(columns: seq<string>, rows: seq<seq<string>>)
    requires OneLine(Join(columns, " | "))
    requires forall i :: 0 <= i < |rows| ==> OneLine(Join(rows[i], " | "))
    requires Join(if rows == [] then columns else rows[|rows| - 1], " | ") != []
    ensures var lines := TextLines(DisplayText(Block.Table(columns, rows)), []);
            && |lines| == 1 + |rows| && lines[0] == Join(columns, " | ")
            && forall i :: 0 <= i < |rows| ==> lines[1 + i] == Join(rows[i], " | ")
  {
    hide Join;
    RowTextsAre(rows);
    JoinedLines([Join(columns, " | ")] + RowTexts(rows));
  }

  // ---------------------------------------------------------------- shapes

  lemma PlaceIs(id: nat, build: Build)
    requires id > 0
    ensures PlacedAt(id, build).Some? ==>
              PlacedAt(id, build).value == (340_000 + (id - 1) * 520_000) % 0x1_0000_0000
  {
  }

  lemma BlockShapeIs(block: Block, id: nat, top: u32)
    ensures BlockShape(block, id, top) == TextShape(id % 0x1_0000_0000, "Content", DisplayText(block), top)
  {
  }

  /** Every block has a shape of its own, numbered from three and placed below the one before. */
  lemma {:induction false} ShapesPlaced(blocks: seq<Block>, id: nat, build: Build)
    requires id > 0
    ensures var r := BlockShapes(blocks, id, build);
            r.Some? ==>
              && |r.value| == |blocks|
              && forall i :: 0 <= i < |blocks| ==>
                   r.value[i] == TextShape((id + i) % 0x1_0000_0000, "Content", DisplayText(blocks[i]),
                                           (340_000 + (id + i - 1) * 520_000) % 0x1_0000_0000)
  {
    hide TextShape, DisplayText, PlacedAt;
    if blocks != [] && PlacedAt(id, build).Some? {
      ShapesPlaced(blocks[1..], id + 1, build);
      PlaceIs(id, build);
      hide BlockShape;
      assert BlockShape(blocks[0], id, PlacedAt(id, build).value) ==
             TextShape(id % 0x1_0000_0000, "Content", DisplayText(blocks[0]),
                       (340_000 + (id - 1) * 520_000) % 0x1_0000_0000) by {
        BlockShapeIs(blocks[0], id, PlacedAt(id, build).value);
      }
    }
  }

  function TextNodes(lines: seq<string>): seq<Node> {
    if lines == [] then [] else [A("t", CharData(lines[0]))] + TextNodes(lines[1..])
  }

  lemma {:induction false} TextNodesConcat(a: seq<string>, b: seq<string>)
    ensures TextNodes(a + b) == TextNodes(a) + TextNodes(b)
  {
    if a == [] {
      assert a + b == b;
    } else {
      assert (a + b)[1..] == a[1..] + b;
      TextNodesConcat(a[1..], b);
    }
  }

  lemma LineTagged(line: string)
    ensures Tagged(A("p", [A("r", [A("t", CharData(line))])]), "t") == [A("t", CharData(line))]
  {
    hide Tagged, CharData;
    var t := A("t", CharData(line));
    var r := A("r", [t]);
    CharsLack(line, "t");
    AllLackFindsNothing(CharData(line), "t");
    TaggedElement(t, "t");
    TaggedElement(r, "t");
    OneTagged(t, "t");
    TaggedElement(A("p", [r]), "t");
    OneTagged(r, "t");
  }

  lemma {:induction false} ParagraphsTagged(lines: seq<string>)
    ensures TaggedAll(Paragraphs(lines), "t") == TextNodes(lines)
  {
    hide Tagged;
    if lines != [] {
      LineTagged(lines[0]);
      ParagraphsTagged(lines[1..]);
    }
  }

  lemma ShapeTexts(id: nat, name: string, text: string, y: nat)
    ensures Tagged(TextShape(id, name, text, y), "t") == TextNodes(TextLines(text, []))
  {
    hide Tagged, Paragraphs, TextLines, TextNodes, NatText;
    var shape := TextShape(id, name, text, y);
    TaggedElement(shape, "t");
    ThreeTagged(shape.children[0], shape.children[1], shape.children[2], "t");
    NoTextAround(shape.children[0], shape.children[1], id, name, y);
    BodyTexts(shape.children[2], TextLines(text, []));
  }

  lemma BodyTexts(body: Node, lines: seq<string>)
    requires body == P("txBody", [A("bodyPr", []), A("lstStyle", [])] + Paragraphs(lines))
    ensures Tagged(body, "t") == TextNodes(lines)
  {
    hide Tagged, Paragraphs, TextNodes, Lacks;
    var before := [A("bodyPr", []), A("lstStyle", [])];
    TaggedElement(body, "t");
    TaggedAllConcat(before, Paragraphs(lines), "t");
    LeafLacks(before[0], "t");
    LeafLacks(before[1], "t");
    AllLackFindsNothing(before, "t");
    ParagraphsTagged(lines);
  }

  lemma NoTextAround(nonVisual: Node, properties: Node, id: nat, name: string, y: nat)
    requires nonVisual == TextShape(id, name, "", y).children[0]
    requires properties == TextShape(id, name, "", y).children[1]
    ensures Tagged(nonVisual, "t") == [] && Tagged(properties, "t") == []
  {
    hide Tagged, Lacks, NatText;
    LeafLacks(nonVisual.children[0], "t");
    LeafLacks(nonVisual.children[1], "t");
    LeafLacks(nonVisual.children[2], "t");
    LacksElement(nonVisual, "t");
    LacksFindsNothing(nonVisual, "t");
    LeafLacks(properties.children[0].children[0], "t");
    LeafLacks(properties.children[0].children[1], "t");
    LacksElement(properties.children[0], "t");
    LeafLacks(properties.children[1].children[0], "t");
    LacksElement(properties.children[1], "t");
    LeafLacks(properties.children[2], "t");
    LacksElement(properties, "t");
    LacksFindsNothing(properties, "t");
  }

  /** The lines of all blocks, in order. */
  function BlockLines(blocks: seq<Block>): seq<string> {
    if blocks == [] then [] else TextLines(DisplayText(blocks[0]), []) + BlockLines(blocks[1..])
  }

  lemma {:induction false} ShapesTexts(blocks: seq<Block>, id: nat, build: Build)
    requires id > 0
    ensures BlockShapes(blocks, id, build).Some? ==>
              TaggedAll(BlockShapes(blocks, id, build).value, "t") == TextNodes(BlockLines(blocks))
  {
    hide Tagged, TextShape, DisplayText, TextLines, TextNodes;
    if blocks == [] {
      NoTexts();
    } else if PlacedAt(id, build).Some? {
      ShapeTexts(id % WIDTH_32, "Content", DisplayText(blocks[0]), PlacedAt(id, build).value);
      ShapesTexts(blocks[1..], id + 1, build);
      TextNodesConcat(TextLines(DisplayText(blocks[0]), []), BlockLines(blocks[1..]));
    }
  }

  lemma NoTexts()
    ensures TextNodes([]) == [] && TaggedAll([], "t") == []
  {
  }

  lemma NoTextInGroup()
    ensures TaggedAll(GROUP_SHAPES, "t") == []
    ensures "t" !in FRAME_TAGS && "t" !in BLOCK_TAGS
  {
    hide Lacks;
    var nonVisual, properties := GROUP_SHAPES[0], GROUP_SHAPES[1];
    LeafLacks(nonVisual.children[0], "t");
    LeafLacks(nonVisual.children[1], "t");
    LeafLacks(nonVisual.children[2], "t");
    LacksElement(nonVisual, "t");
    var placed := properties.children[0];
    LeafLacks(placed.children[0], "t");
    LeafLacks(placed.children[1], "t");
    LeafLacks(placed.children[2], "t");
    LeafLacks(placed.children[3], "t");
    LacksElement(placed, "t");
    LacksElement(properties, "t");
    AllLackFindsNothing(GROUP_SHAPES, "t");
    assert |"t"| == 1;
  }

  lemma TaggedBetween(before: seq<Node>, node: Node, after: seq<Node>, tag: string)
    ensures TaggedAll(before + [node] + after, tag) ==
            TaggedAll(before, tag) + Tagged(node, tag) + TaggedAll(after, tag)
  {
    TaggedAllConcat(before + [node], after, tag);
    TaggedAllConcat(before, [node], tag);
    OneTagged(node, tag);
    hide *;
  }

  lemma AllShapesTexts(slide: Slide, build: Build)
    requires BlockShapes(slide.blocks, 3, build).Some?
    ensures TaggedAll(AllShapes(slide, BlockShapes(slide.blocks, 3, build).value), "t") ==
            TextNodes(TextLines(slide.title, []) + BlockLines(slide.blocks))
  {
    var shapes := BlockShapes(slide.blocks, 3, build).value;
    assert AllShapes(slide, shapes) == GROUP_SHAPES + [TitleShape(slide)] + shapes;
    var lines, more := TextLines(slide.title, []), BlockLines(slide.blocks);
    NoTextInGroup();
    TaggedBetween(GROUP_SHAPES, TitleShape(slide), shapes, "t");
    ShapeTexts(2, "Title", slide.title, 340_000);
    assert Tagged(TitleShape(slide), "t") == TextNodes(lines);
    ShapesTexts(slide.blocks, 3, build);
    TextNodesConcat(lines, more);
    hide *;
    assert [] + TextNodes(lines) == TextNodes(lines);
  }

  lemma NoTextInMetadata(blocks: seq<Block>)
    ensures TaggedAll(BlockNodes(blocks), "t") == []
  {
    NoTextInGroup();
    hide BlockNodes, Lacks, TaggedAll, BLOCK_TAGS, FRAME_TAGS, GROUP_SHAPES;
    BlocksLack(blocks, "t");
    AllLackFindsNothing(BlockNodes(blocks), "t");
  }

  /** A written slide shows the lines of its title and then of every block, and no other text. */
  lemma SlideShows(index: nat, slide: Slide, build: Build)
    ensures SlideNode(index, slide, build).Some? ==>
              Tagged(SlideNode(index, slide, build).value, "t") ==
              TextNodes(TextLines(slide.title, []) + BlockLines(slide.blocks))
  {
    var more := BlockShapes(slide.blocks, 3, build);
    if more.Some? {
      hide Tagged, TaggedAll, TitleShape, TextNodes, TextLines, BlockLines, BlockShapes, BlockNodes, SlideElement;
      hide FRAME_TAGS, BLOCK_TAGS, GROUP_SHAPES;
      var shapes := AllShapes(slide, more.value);
      NoTextInGroup();
      TaggedSlide(index, slide, shapes, BlockNodes(slide.blocks), "t");
      AllShapesTexts(slide, build);
      NoTextInMetadata(slide.blocks);
      assert SlideNode(index, slide, build) == Some(SlideElement(index, slide, shapes, BlockNodes(slide.blocks)));
    }
  }
}
