/** What a slide part contains: its metadata blocks, and shapes that decoding must not mistake for them. */
module DeckShapes {
  import opened Text
  import opened Xml
  import opened XmlSearch
  import opened DeckPackages

  /** Every local name the display side of a slide uses. */
  const SHAPE_TAGS: set<string> := {
    "nvGrpSpPr", "cNvPr", "cNvGrpSpPr", "nvPr", "grpSpPr", "xfrm", "off", "ext", "chOff", "chExt",
    "sp", "nvSpPr", "cNvSpPr", "spPr", "prstGeom", "avLst", "noFill", "txBody", "bodyPr", "lstStyle", "p", "r", "t"
  }

  /** The local names around the shapes and the metadata. */
  const FRAME_TAGS: set<string> := {
    "sld", "cSld", "spTree", "clrMapOvr", "masterClrMapping", "extLst", "ext", "blocks", "index"
  }

  const BLOCK_TAGS: set<string> := {"block", "value", "item", "columns", "rows", "row"}

  lemma LacksElement(node: Node, tag: string)
    requires node.Element? && node.name.local != tag && AllLack(node.children, tag)
    ensures Lacks(node, tag)
  {
  }

  lemma CharsLack(text: string, tag: string)
    ensures AllLack(CharData(text), tag)
  {
  }

  lemma {:induction false} ParagraphsLack(lines: seq<string>, tag: string)
    requires tag !in {"p", "r", "t"}
    ensures AllLack(Paragraphs(lines), tag)
  {
    hide Lacks;
    if lines != [] {
      var t := A("t", CharData(lines[0]));
      CharsLack(lines[0], tag);
      LacksElement(t, tag);
      LacksElement(A("r", [t]), tag);
      LacksElement(A("p", [A("r", [t])]), tag);
      ParagraphsLack(lines[1..], tag);
    }
  }

  lemma LeafLacks(node: Node, tag: string)
    requires node.Element? && node.name.local != tag && node.children == []
    ensures Lacks(node, tag)
  {
  }

  lemma TextShapeLacks(id: nat, name: string, text: string, y: nat, tag: string)
    requires tag !in SHAPE_TAGS
    ensures Lacks(TextShape(id, name, text, y), tag)
  {
    hide Lacks, Paragraphs, TextLines, NatText;
    var shape := TextShape(id, name, text, y);
    var nonVisual, properties, body := shape.children[0], shape.children[1], shape.children[2];
    LeafLacks(nonVisual.children[0], tag);
    LeafLacks(nonVisual.children[1], tag);
    LeafLacks(nonVisual.children[2], tag);
    LacksElement(nonVisual, tag);
    LeafLacks(properties.children[0].children[0], tag);
    LeafLacks(properties.children[0].children[1], tag);
    LacksElement(properties.children[0], tag);
    LeafLacks(properties.children[1].children[0], tag);
    LacksElement(properties.children[1], tag);
    LeafLacks(properties.children[2], tag);
    LacksElement(properties, tag);
    LeafLacks(body.children[0], tag);
    LeafLacks(body.children[1], tag);
    ParagraphsLack(TextLines(text, []), tag);
    LacksElement(body, tag);
    LacksElement(shape, tag);
  }

  lemma GroupShapesLack(tag: string)
    requires tag !in SHAPE_TAGS
    ensures AllLack(GROUP_SHAPES, tag)
  {
    hide Lacks;
    var nonVisual, properties := GROUP_SHAPES[0], GROUP_SHAPES[1];
    LeafLacks(nonVisual.children[0], tag);
    LeafLacks(nonVisual.children[1], tag);
    LeafLacks(nonVisual.children[2], tag);
    LacksElement(nonVisual, tag);
    var frame := properties.children[0];
    LeafLacks(frame.children[0], tag);
    LeafLacks(frame.children[1], tag);
    LeafLacks(frame.children[2], tag);
    LeafLacks(frame.children[3], tag);
    LacksElement(frame, tag);
    LacksElement(properties, tag);
  }

  lemma {:induction false} BlockShapesLack(blocks: seq<Block>, id: nat, tag: string, build: Build)
    requires id > 0 && tag !in SHAPE_TAGS
    ensures BlockShapes(blocks, id, build).Some? ==> AllLack(BlockShapes(blocks, id, build).value, tag)
  {
    hide Lacks, TextShape, DisplayText, PlacedAt;
    if blocks != [] && PlacedAt(id, build).Some? {
      TextShapeLacks(id % WIDTH_32, "Content", DisplayText(blocks[0]), PlacedAt(id, build).value, tag);
      BlockShapesLack(blocks[1..], id + 1, tag, build);
    }
  }

  /** In a checked build the shapes fit exactly while the last position does; otherwise always. */
  lemma {:induction false} BlockShapesFitIff(blocks: seq<Block>, id: nat, build: Build)
    requires id > 0
    ensures BlockShapes(blocks, id, build).Some? <==>
              build.Wrapping? || blocks == [] || ShapeTop(id + |blocks| - 1) <= U32_MAX
  {
    hide BlockShape;
    if blocks != [] {
      BlockShapesFitIff(blocks[1..], id + 1, build);
    }
  }

  lemma SlideFitsIff(index: nat, slide: Slide, build: Build)
    ensures SlideNode(index, slide, build).Some? <==> Fits(slide, build)
    ensures BlockShapes(slide.blocks, 3, build).Some? <==> Fits(slide, build)
  {
    hide BlockShapes, SlideElement;
    BlockShapesFitIff(slide.blocks, 3, build);
  }

  // ---------------------------------------------------------------- blocks inside

  lemma {:induction false} ItemsLack(items: seq<string>, tag: string)
    requires tag != "item"
    ensures AllLack(ItemNodes(items), tag)
  {
    hide Lacks;
    if items != [] {
      CharsLack(items[0], tag);
      LacksElement(Sim("item", CharData(items[0])), tag);
      ItemsLack(items[1..], tag);
    }
  }

  lemma {:induction false} RowsLack(rows: seq<seq<string>>, tag: string)
    requires tag != "item" && tag != "row"
    ensures AllLack(RowNodes(rows), tag)
  {
    hide Lacks, ItemNodes;
    if rows != [] {
      ItemsLack(rows[0], tag);
      LacksElement(Sim("row", ItemNodes(rows[0])), tag);
      RowsLack(rows[1..], tag);
    }
  }

  /** Inside a block there is nothing but values, items, columns and rows. */
  lemma BlockInsideLacks(block: Block, tag: string)
    requires tag !in {"value", "item", "columns", "rows", "row"}
    ensures AllLack(BlockNode(block).children, tag)
  {
    hide Lacks, ItemNodes, RowNodes;
    match block {
      case Heading(text) =>
        CharsLack(text, tag);
        LacksElement(Sim("value", CharData(text)), tag);
      case BulletList(items) => ItemsLack(items, tag);
      case Table(columns, rows) =>
        ItemsLack(columns, tag);
        RowsLack(rows, tag);
        LacksElement(Sim("columns", ItemNodes(columns)), tag);
        LacksElement(Sim("rows", RowNodes(rows)), tag);
      case Image(_) =>
    }
  }

  lemma BlockIsTagged(block: Block)
    ensures HasTag(BlockNode(block), "block")
  {
  }

  lemma {:induction false} BlocksAreFlat(blocks: seq<Block>)
    ensures |BlockNodes(blocks)| == |blocks|
    ensures forall i :: 0 <= i < |blocks| ==>
              HasTag(BlockNodes(blocks)[i], "block") && AllLack(ChildrenOf(BlockNodes(blocks)[i]), "block")
  {
    hide HasTag, AllLack, BlockNode;
    if blocks != [] {
      BlockIsTagged(blocks[0]);
      BlockInsideLacks(blocks[0], "block");
      BlocksAreFlat(blocks[1..]);
      BlockIsElement(blocks[0]);
    }
  }

  lemma BlockIsElement(block: Block)
    ensures BlockNode(block).Element? && ChildrenOf(BlockNode(block)) == BlockNode(block).children
    ensures BlockNode(block).name.local == "block"
  {
  }

  lemma {:induction false} BlocksLack(blocks: seq<Block>, tag: string)
    requires tag !in BLOCK_TAGS
    ensures AllLack(BlockNodes(blocks), tag)
  {
    hide Lacks, BlockNode;
    if blocks != [] {
      BlockInsideLacks(blocks[0], tag);
      BlockIsElement(blocks[0]);
      LacksElement(BlockNode(blocks[0]), tag);
      BlocksLack(blocks[1..], tag);
    }
  }

  // ---------------------------------------------------------------- searching a slide

  /** Searching a slide finds the shapes' hits, then the metadata's. */
  lemma TaggedSlide(index: nat, slide: Slide, shapes: seq<Node>, metadata: seq<Node>, tag: string)
    requires tag !in FRAME_TAGS
    ensures Tagged(SlideElement(index, slide, shapes, metadata), tag) ==
            TaggedAll(shapes, tag) + TaggedAll(metadata, tag)
  {
    FrameTagsMean(tag);
    hide Tagged, FRAME_TAGS, ContentNode, MAPPING, ExtensionsNode;
    var root := SlideElement(index, slide, shapes, metadata);
    TaggedElement(root, tag);
    ThreeTagged(ContentNode(slide.title, shapes), MAPPING, ExtensionsNode(index, metadata), tag);
    ContentTagged(slide.title, shapes, tag);
    MappingTagged(tag);
    ExtensionsTagged(index, metadata, tag);
  }

  lemma FrameTagsMean(tag: string)
    requires tag !in FRAME_TAGS
    ensures tag != "sld" && tag != "cSld" && tag != "spTree" && tag != "clrMapOvr" && tag != "masterClrMapping"
    ensures tag != "extLst" && tag != "ext" && tag != "blocks" && tag != "index"
  {
  }

  lemma ContentTagged(title: string, shapes: seq<Node>, tag: string)
    requires tag != "cSld" && tag != "spTree"
    ensures Tagged(ContentNode(title, shapes), tag) == TaggedAll(shapes, tag)
  {
    hide Tagged;
    var content := ContentNode(title, shapes);
    TaggedElement(content, tag);
    OneTagged(content.children[0], tag);
    TaggedElement(content.children[0], tag);
  }

  lemma MappingTagged(tag: string)
    requires tag != "clrMapOvr" && tag != "masterClrMapping"
    ensures Tagged(MAPPING, tag) == []
  {
    hide Tagged, Lacks;
    LeafLacks(MAPPING.children[0], tag);
    LacksElement(MAPPING, tag);
    LacksFindsNothing(MAPPING, tag);
  }

  lemma ExtensionsTagged(index: nat, metadata: seq<Node>, tag: string)
    requires tag != "extLst" && tag != "ext" && tag != "blocks" && tag != "index"
    ensures Tagged(ExtensionsNode(index, metadata), tag) == TaggedAll(metadata, tag)
  {
    hide Tagged;
    var extensions := ExtensionsNode(index, metadata);
    TaggedElement(extensions, tag);
    OneTagged(extensions.children[0], tag);
    ExtensionTagged(index, metadata, extensions.children[0], tag);
  }

  lemma ExtensionTagged(index: nat, metadata: seq<Node>, extension: Node, tag: string)
    requires extension.Element? && extension.name.local != tag && tag != "blocks" && tag != "index"
    requires extension.children == [Sim("blocks", metadata), Sim("index", CharData(NatText(index)))]
    ensures Tagged(extension, tag) == TaggedAll(metadata, tag)
  {
    hide Tagged, Lacks, NatText;
    var blocks, number := extension.children[0], extension.children[1];
    TaggedElement(extension, tag);
    TwoTagged(blocks, number, tag);
    TaggedElement(blocks, tag);
    CharsLack(NatText(index), tag);
    LacksElement(number, tag);
    LacksFindsNothing(number, tag);
  }

  lemma OneTagged(a: Node, tag: string)
    ensures TaggedAll([a], tag) == Tagged(a, tag)
  {
    hide Tagged;
    assert [a][1..] == [] && TaggedAll([], tag) == [];
  }

  lemma TwoTagged(a: Node, b: Node, tag: string)
    ensures TaggedAll([a, b], tag) == Tagged(a, tag) + Tagged(b, tag)
  {
    hide Tagged;
    OneTagged(b, tag);
    assert [a, b][1..] == [b];
  }

  lemma ThreeTagged(a: Node, b: Node, c: Node, tag: string)
    ensures TaggedAll([a, b, c], tag) == Tagged(a, tag) + Tagged(b, tag) + Tagged(c, tag)
  {
    hide Tagged;
    TwoTagged(b, c, tag);
    assert [a, b, c][1..] == [b, c];
    assert Tagged(a, tag) + (Tagged(b, tag) + Tagged(c, tag)) == Tagged(a, tag) + Tagged(b, tag) + Tagged(c, tag);
  }

  function AllShapes(slide: Slide, shapes: seq<Node>): seq<Node> {
    GROUP_SHAPES + [TitleShape(slide)] + shapes
  }

  lemma AllShapesLack(slide: Slide, tag: string, build: Build)
    requires tag !in SHAPE_TAGS && Fits(slide, build)
    ensures BlockShapes(slide.blocks, 3, build).Some?
    ensures AllLack(AllShapes(slide, BlockShapes(slide.blocks, 3, build).value), tag)
  {
    hide Lacks, TextShape;
    SlideFitsIff(1, slide, build);
    GroupShapesLack(tag);
    TextShapeLacks(2, "Title", slide.title, 340_000, tag);
    BlockShapesLack(slide.blocks, 3, tag, build);
  }

  /** The blocks found in an encoded slide are its own, in order. */
  lemma SlideBlocksFound(index: nat, slide: Slide, build: Build)
    requires Fits(slide, build)
    ensures SlideNode(index, slide, build).Some?
    ensures Tagged(SlideNode(index, slide, build).value, "block") == BlockNodes(slide.blocks)
  {
    hide Tagged, Lacks, AllLack, HasTag, SlideElement;
    SlideFitsIff(index, slide, build);
    BlockTagOutside();
    AllShapesLack(slide, "block", build);
    var shapes := AllShapes(slide, BlockShapes(slide.blocks, 3, build).value);
    TaggedSlide(index, slide, shapes, BlockNodes(slide.blocks), "block");
    AllLackFindsNothing(shapes, "block");
    BlocksAreFlat(slide.blocks);
    TaggedFlat(BlockNodes(slide.blocks), "block");
  }

  lemma BlockTagOutside()
    ensures "block" !in SHAPE_TAGS && "block" !in FRAME_TAGS
  {
    assert "block"[0] != "chOff"[0] && "block"[0] != "chExt"[0] && "block"[0] != "avLst"[0] && "block"[0] != "index"[0];
  }

  /** A tag used neither by shapes, frame nor blocks is not found in an encoded slide. */
  lemma SlideLacks(index: nat, slide: Slide, tag: string, build: Build)
    requires Fits(slide, build)
    requires tag !in SHAPE_TAGS && tag !in FRAME_TAGS && tag !in BLOCK_TAGS
    ensures SlideNode(index, slide, build).Some?
    ensures Tagged(SlideNode(index, slide, build).value, tag) == []
  {
    hide Tagged, Lacks, AllLack, SlideElement;
    SlideFitsIff(index, slide, build);
    AllShapesLack(slide, tag, build);
    var shapes := AllShapes(slide, BlockShapes(slide.blocks, 3, build).value);
    TaggedSlide(index, slide, shapes, BlockNodes(slide.blocks), tag);
    AllLackFindsNothing(shapes, tag);
    BlocksLack(slide.blocks, tag);
    AllLackFindsNothing(BlockNodes(slide.blocks), tag);
  }

  /** The title is always a shape. */
  lemma SlideHasShape(index: nat, slide: Slide, build: Build)
    requires Fits(slide, build)
    ensures SlideNode(index, slide, build).Some?
    ensures Tagged(SlideNode(index, slide, build).value, "sp") != []
  {
    hide Tagged, SlideElement, TextShape, FRAME_TAGS, GROUP_SHAPES;
    SlideFitsIff(index, slide, build);
    ShapeTagOutside();
    var more := BlockShapes(slide.blocks, 3, build).value;
    TaggedSlide(index, slide, AllShapes(slide, more), BlockNodes(slide.blocks), "sp");
    TaggedAllConcat(GROUP_SHAPES + [TitleShape(slide)], more, "sp");
    TaggedAllConcat(GROUP_SHAPES, [TitleShape(slide)], "sp");
    OneTagged(TitleShape(slide), "sp");
    ShapeIsShape(2, "Title", slide.title, 340_000);
  }

  lemma ShapeTagOutside()
    ensures "sp" !in FRAME_TAGS
  {
    assert |"sp"| == 2;
  }

  lemma ShapeIsShape(id: nat, name: string, text: string, y: nat)
    ensures Tagged(TextShape(id, name, text, y), "sp") != []
  {
    hide Tagged;
    TaggedElement(TextShape(id, name, text, y), "sp");
  }

  lemma LossTagForeign(tag: string)
    requires tag in {"transition", "pic", "audio", "video"}
    ensures tag !in SHAPE_TAGS && tag !in FRAME_TAGS && tag !in BLOCK_TAGS
  {
    assert "audio"[1] != "avLst"[1];
    assert "value"[1] != "video"[1];
    assert "pic"[0] != 'o' && "pic"[0] != 'e' && "pic"[0] != 's' && "pic"[0] != 'r';
    assert |"transition"| == 10;
  }

  /** An encoded slide loses something exactly when it has no block, and then only its shapes. */
  lemma SlideLosses(index: nat, slide: Slide, part: string, build: Build)
    requires Fits(slide, build)
    ensures SlideNode(index, slide, build).Some?
    ensures Unsupported(part, SlideNode(index, slide, build).value) ==
            if slide.blocks == [] then {Loss.Shapes(part)} else {}
  {
    hide Tagged, SlideNode, BlockNodes;
    SlideBlocksFound(index, slide, build);
    BlocksAreFlat(slide.blocks);
    SlideHasShape(index, slide, build);
    SlideLossTags(index, slide, build);
  }

  lemma SlideLossTags(index: nat, slide: Slide, build: Build)
    requires Fits(slide, build)
    ensures SlideNode(index, slide, build).Some?
    ensures Tagged(SlideNode(index, slide, build).value, "transition") == []
    ensures Tagged(SlideNode(index, slide, build).value, "pic") == []
    ensures Tagged(SlideNode(index, slide, build).value, "audio") == []
    ensures Tagged(SlideNode(index, slide, build).value, "video") == []
  {
    hide Tagged, SlideNode, SHAPE_TAGS, FRAME_TAGS, BLOCK_TAGS;
    LossTagForeign("transition");
    SlideLacks(index, slide, "transition", build);
    LossTagForeign("pic");
    SlideLacks(index, slide, "pic", build);
    LossTagForeign("audio");
    SlideLacks(index, slide, "audio", build);
    LossTagForeign("video");
    SlideLacks(index, slide, "video", build);
  }
}
