/** Writing a deck to a package and reading it back, through the relationship indirection. */
module DeckRoundTrip {
  import opened Wrappers
  import opened Text
  import opened Xml
  import opened XmlSearch
  import opened DeckPackages
  import opened DeckShapes

  // ---------------------------------------------------------------- what is kept

  function NonEmpty(texts: seq<string>): seq<string> {
    if texts == [] then [] else (if texts[0] == [] then [] else [texts[0]]) + NonEmpty(texts[1..])
  }

  function NonEmptyRows(rows: seq<seq<string>>): seq<seq<string>> {
    if rows == [] then [] else [NonEmpty(rows[0])] + NonEmptyRows(rows[1..])
  }

  /** A block as it comes back: empty strings drop out of lists and tables. */
  function KeptBlock(block: Block): Block {
    match block
    case BulletList(items) => BulletList(NonEmpty(items))
    case Table(columns, rows) => Table(NonEmpty(columns), NonEmptyRows(rows))
    case _ => block
  }

  function KeptBlocks(blocks: seq<Block>): seq<Block> {
    if blocks == [] then [] else [KeptBlock(blocks[0])] + KeptBlocks(blocks[1..])
  }

  function KeptSlide(slide: Slide): Slide {
    slide.(blocks := KeptBlocks(slide.blocks))
  }

  function KeptSlides(slides: seq<Slide>): seq<Slide> {
    if slides == [] then [] else [KeptSlide(slides[0])] + KeptSlides(slides[1..])
  }

  predicate NoEmpty(texts: seq<string>) {
    forall i :: 0 <= i < |texts| ==> texts[i] != []
  }

  /** No list item, column or cell of the block is the empty string. */
  predicate FullBlock(block: Block) {
    match block
    case BulletList(items) => NoEmpty(items)
    case Table(columns, rows) => NoEmpty(columns) && forall i :: 0 <= i < |rows| ==> NoEmpty(rows[i])
    case _ => true
  }

  predicate FullSlide(slide: Slide) {
    forall i :: 0 <= i < |slide.blocks| ==> FullBlock(slide.blocks[i])
  }

  predicate FullDeck(deck: Deck) {
    forall i :: 0 <= i < |deck.slides| ==> FullSlide(deck.slides[i])
  }

  lemma {:induction false} NonEmptyIff(texts: seq<string>)
    ensures |NonEmpty(texts)| <= |texts|
    ensures NonEmpty(texts) == texts <==> NoEmpty(texts)
  {
    if texts != [] {
      NonEmptyIff(texts[1..]);
      var rest := NonEmpty(texts[1..]);
      assert texts == [texts[0]] + texts[1..];
      if texts[0] == [] {
        assert |NonEmpty(texts)| < |texts|;
      } else {
        assert NonEmpty(texts) == [texts[0]] + rest;
        assert NonEmpty(texts)[1..] == rest;
      }
    }
  }

  lemma {:induction false} NonEmptyRowsIff(rows: seq<seq<string>>)
    ensures NonEmptyRows(rows) == rows <==> forall i :: 0 <= i < |rows| ==> NoEmpty(rows[i])
  {
    hide NonEmpty, NoEmpty;
    if rows != [] {
      NonEmptyIff(rows[0]);
      NonEmptyRowsIff(rows[1..]);
      assert rows == [rows[0]] + rows[1..];
      assert NonEmptyRows(rows)[1..] == NonEmptyRows(rows[1..]);
    }
  }

  lemma KeptBlockIff(block: Block)
    ensures KeptBlock(block) == block <==> FullBlock(block)
  {
    hide NonEmpty, NonEmptyRows, NoEmpty;
    match block {
      case BulletList(items) => NonEmptyIff(items);
      case Table(columns, rows) =>
        NonEmptyIff(columns);
        NonEmptyRowsIff(rows);
      case _ =>
    }
  }

  lemma {:induction false} KeptBlocksIff(blocks: seq<Block>)
    ensures |KeptBlocks(blocks)| == |blocks|
    ensures KeptBlocks(blocks) == blocks <==> forall i :: 0 <= i < |blocks| ==> FullBlock(blocks[i])
  {
    hide KeptBlock, FullBlock;
    if blocks != [] {
      KeptBlockIff(blocks[0]);
      KeptBlocksIff(blocks[1..]);
      assert blocks == [blocks[0]] + blocks[1..];
      assert KeptBlocks(blocks)[1..] == KeptBlocks(blocks[1..]);
    }
  }

  lemma {:induction false} KeptSlidesIff(slides: seq<Slide>)
    ensures |KeptSlides(slides)| == |slides|
    ensures KeptSlides(slides) == slides <==> forall i :: 0 <= i < |slides| ==> FullSlide(slides[i])
  {
    hide KeptBlocks, FullBlock;
    if slides != [] {
      KeptBlocksIff(slides[0].blocks);
      KeptSlidesIff(slides[1..]);
      assert slides == [slides[0]] + slides[1..];
      assert KeptSlides(slides)[1..] == KeptSlides(slides[1..]);
    }
  }

  // ---------------------------------------------------------------- one block

  lemma {:induction false} ItemsRead(items: seq<string>)
    ensures Having(ItemNodes(items), "item") == ItemNodes(items)
    ensures TextsOf(ItemNodes(items)) == NonEmpty(items)
  {
    if items != [] {
      var node := Sim("item", CharData(items[0]));
      ItemsRead(items[1..]);
      assert ItemNodes(items)[1..] == ItemNodes(items[1..]);
      assert HasTag(node, "item");
      assert TextOf(node) == if items[0] == [] then None else Some(items[0]);
    }
  }

  lemma ItemListRead(node: Node, items: seq<string>)
    requires ChildrenOf(node) == ItemNodes(items)
    ensures ChildTexts(node, "item") == NonEmpty(items)
  {
    ItemsRead(items);
  }

  lemma {:induction false} RowsRead(rows: seq<seq<string>>)
    ensures Having(RowNodes(rows), "row") == RowNodes(rows)
    ensures RowsFrom(RowNodes(rows)) == NonEmptyRows(rows)
  {
    hide ItemNodes, ChildTexts, NonEmpty;
    if rows != [] {
      var node := Sim("row", ItemNodes(rows[0]));
      ItemListRead(node, rows[0]);
      RowsRead(rows[1..]);
      assert RowNodes(rows)[1..] == RowNodes(rows[1..]);
      assert HasTag(node, "row");
    }
  }

  lemma TableRead(node: Node, columns: seq<string>, rows: seq<seq<string>>)
    requires ChildrenOf(node) == [Sim("columns", ItemNodes(columns)), Sim("rows", RowNodes(rows))]
    ensures TableFrom(node) == Table(NonEmpty(columns), NonEmptyRows(rows))
  {
    hide ItemNodes, RowNodes, ChildTexts, RowsFrom, NonEmpty, NonEmptyRows, Having;
    var first, second := Sim("columns", ItemNodes(columns)), Sim("rows", RowNodes(rows));
    assert |"columns"| != |"rows"|;
    assert ChildrenOf(node)[1..] == [second];
    assert FirstHaving(ChildrenOf(node), "columns") == Some(first);
    assert FirstHaving([second], "rows") == Some(second);
    assert FirstHaving(ChildrenOf(node), "rows") == Some(second);
    ItemListRead(first, columns);
    RowsRead(rows);
  }

  lemma KindRead(kind: string, rest: seq<Attribute>, children: seq<Node>)
    ensures Attr(BlockElement([Plain("kind", kind)] + rest, children), "kind") == Some(kind)
  {
    AttrAnyAt([Plain("kind", kind)] + rest, 0, "kind");
  }

  lemma ImageAttributesRead(reference: ImageReference)
    ensures var node := BlockNode(Image(reference));
            && Attr(node, "kind") == Some("image-ref")
            && Attr(node, "backend") == Some(reference.backend)
            && Attr(node, "external-id") == Some(reference.externalId)
            && Attr(node, "version") == reference.version
            && Attr(node, "web-url") == reference.webUrl
  {
    hide AttrAny;
    var version, url := Optional("version", reference.version), Optional("web-url", reference.webUrl);
    var attributes := BlockNode(Image(reference)).attributes;
    assert |"kind"| == 4 && |"backend"| == 7 && |"external-id"| == 11 && |"version"| == 7 && |"web-url"| == 7;
    assert "version"[0] == 'v' && "backend"[0] == 'b' && "web-url"[0] == 'w';
    assert attributes[0] == Plain("kind", "image-ref") && attributes[1] == Plain("backend", reference.backend);
    assert attributes[2] == Plain("external-id", reference.externalId);
    AttrAnyAt(attributes, 0, "kind");
    AttrAnyAt(attributes, 1, "backend");
    AttrAnyAt(attributes, 2, "external-id");
    if reference.version.Some? {
      assert attributes[3] == Plain("version", reference.version.value);
      AttrAnyAt(attributes, 3, "version");
    } else {
      AttrAnyNone(attributes, "", "version");
    }
    if reference.webUrl.Some? {
      assert attributes[3 + |version|] == Plain("web-url", reference.webUrl.value);
      AttrAnyAt(attributes, 3 + |version|, "web-url");
    } else {
      AttrAnyNone(attributes, "", "web-url");
    }
  }

  lemma ValueRead(node: Node, text: string)
    requires ChildrenOf(node) == [Sim("value", CharData(text))]
    ensures ChildText(node, "value") == text
  {
  }

  /** A block's metadata reads back as the block, without its empty list and table strings. */
  lemma BlockRoundTrip(block: Block)
    ensures BlockFrom(BlockNode(block)) == Success(KeptBlock(block))
  {
    hide Attr, TableFrom, ChildText, ChildTexts, ItemNodes, RowNodes, NonEmpty, NonEmptyRows;
    var node := BlockNode(block);
    match block {
      case Heading(text) =>
        assert [Plain("kind", "heading")] == [Plain("kind", "heading")] + [];
        KindRead("heading", [], node.children);
        ValueRead(node, text);
      case BulletList(items) =>
        assert [Plain("kind", "bullet-list")] == [Plain("kind", "bullet-list")] + [];
        KindRead("bullet-list", [], node.children);
        ItemListRead(node, items);
      case Table(columns, rows) =>
        assert [Plain("kind", "table")] == [Plain("kind", "table")] + [];
        KindRead("table", [], node.children);
        TableRead(node, columns, rows);
      case Image(reference) => ImageAttributesRead(reference);
    }
  }

  lemma {:induction false} BlocksRoundTrip(blocks: seq<Block>)
    ensures BlocksFrom(BlockNodes(blocks)) == Success(KeptBlocks(blocks))
  {
    hide BlockFrom, BlockNode, KeptBlock;
    if blocks != [] {
      BlockRoundTrip(blocks[0]);
      BlocksRoundTrip(blocks[1..]);
      assert BlockNodes(blocks)[1..] == BlockNodes(blocks[1..]);
    }
  }

  /** An encoded slide reads back with its id, title and kept blocks, at whatever position it is read. */
  lemma SlideRoundTrip(index: nat, slide: Slide, position: nat, build: Build)
    requires Fits(slide, build)
    ensures SlideNode(index, slide, build).Some?
    ensures SlideFrom(position, SlideNode(index, slide, build).value) == Success(KeptSlide(slide))
  {
    hide Tagged, BlocksFrom, BlockShapes, GROUP_SHAPES, ContentNode, MAPPING, ExtensionsNode, KeptBlocks;
    SlideFitsIff(index, slide, build);
    SlideBlocksFound(index, slide, build);
    BlocksRoundTrip(slide.blocks);
    SlideAttributes(index, slide, SlideNode(index, slide, build).value);
  }

  lemma SlideAttributes(index: nat, slide: Slide, node: Node)
    requires node.Element?
    requires node.attributes == [Attribute(Name(SIM_NS, "id"), slide.id), Attribute(Name(SIM_NS, "title"), slide.title)]
    ensures Attr(node, "id") == Some(slide.id) && Attr(node, "title") == Some(slide.title)
  {
    assert |"id"| != |"title"|;
    AttrAnyAt(node.attributes, 0, "id");
    AttrAnyAt(node.attributes, 1, "title");
  }

  // ---------------------------------------------------------------- names

  lemma SlidePathInjective(i: nat, j: nat)
    ensures SlidePath(i) == SlidePath(j) ==> i == j
    ensures RelId(i) == RelId(j) ==> i == j
  {
    hide NatText;
    if SlidePath(i) == SlidePath(j) {
      Peel("ppt/slides/slide", NatText(i), NatText(j), ".xml");
      NatTextInjective(i, j);
    }
    if RelId(i) == RelId(j) {
      Peel("rId", NatText(i + 1), NatText(j + 1), "");
      NatTextInjective(i + 1, j + 1);
    }
  }

  lemma Peel(before: string, a: string, b: string, after: string)
    requires before + a + after == before + b + after || (after == "" && before + a == before + b)
    ensures a == b
  {
    var s, t := before + a + after, before + b + after;
    assert s == t;
    assert |a| == |b|;
    assert s[|before|..|before| + |a|] == a && t[|before|..|before| + |b|] == b;
  }

  /** Slide parts, their relationship parts and all other parts have different names. */
  lemma NamesApart(i: nat, j: nat)
    ensures SlidePath(i) != SlideRelsPath(j)
    ensures PRESENTATION != SlidePath(i) && PRESENTATION_RELS != SlidePath(i)
    ensures PRESENTATION != SlideRelsPath(i) && PRESENTATION_RELS != SlideRelsPath(i)
    ensures PRESENTATION != PRESENTATION_RELS
  {
    hide NatText;
    assert SlidePath(i)[11] == 's' && SlideRelsPath(j)[11] == '_';
    assert SlidePath(i)[4] == 's' && SlideRelsPath(i)[4] == 's';
    assert PRESENTATION[4] == 'p' && PRESENTATION_RELS[4] == '_';
  }

  lemma TargetResolves(index: nat)
    ensures ResolveTarget(Target(index)) == SlidePath(index)
  {
    hide NatText, Replace;
    var target := Target(index);
    ReplaceAbsent(target, '\\', "/");
    assert target[0] == 's' && "ppt/"[0] == 'p';
    assert "ppt/" + "slides/slide" == "ppt/slides/slide";
    assert "ppt/" + ("slides/slide" + NatText(index) + ".xml") == "ppt/" + "slides/slide" + NatText(index) + ".xml";
  }

  // ---------------------------------------------------------------- the slide list

  function RelIds(from: nat, count: nat): seq<string>
    decreases count + 1 - from
  {
    if from > count then [] else [RelId(from)] + RelIds(from + 1, count)
  }

  function SlidePaths(from: nat, count: nat): seq<string>
    decreases count + 1 - from
  {
    if from > count then [] else [SlidePath(from)] + SlidePaths(from + 1, count)
  }

  lemma {:induction false} SlideIdsFlat(from: nat, count: nat)
    ensures TaggedAll(SlideIds(from, count), "sldId") == SlideIds(from, count)
    decreases count + 1 - from
  {
    hide Tagged, NatText;
    if from <= count {
      SlideIdsFlat(from + 1, count);
      assert SlideIds(from, count)[1..] == SlideIds(from + 1, count);
      TaggedElement(SlideId(from), "sldId");
      assert TaggedAll([], "sldId") == [];
    }
  }

  lemma {:induction false} SlideIdsRead(from: nat, count: nat)
    ensures RelIdsOf(SlideIds(from, count)) == RelIds(from, count)
    decreases count + 1 - from
  {
    hide NatText;
    if from <= count {
      SlideIdsRead(from + 1, count);
      assert SlideIds(from, count)[1..] == SlideIds(from + 1, count);
      var attributes := SlideId(from).attributes;
      assert |R_NS| > 0;
      assert attributes[0].name != Name(R_NS, "id");
      assert attributes[1..][0] == attributes[1];
      assert AttrNs(attributes, R_NS, "id") == Some(RelId(from));
    }
  }

  /** The slide list of the presentation is exactly its `sldId` elements. */
  lemma SlideListFound(title: string, count: nat)
    ensures RelIdsOf(Tagged(PresentationNode(title, SlideIds(1, count)), "sldId")) == RelIds(1, count)
  {
    hide Tagged, Lacks, SlideIds, NatText;
    var root := PresentationNode(title, SlideIds(1, count));
    var masters, list, size, notes := root.children[0], root.children[1], root.children[2], root.children[3];
    LeafLacks(masters.children[0], "sldId");
    LacksElement(masters, "sldId");
    LacksFindsNothing(masters, "sldId");
    LeafLacks(size, "sldId");
    LacksFindsNothing(size, "sldId");
    LeafLacks(notes, "sldId");
    LacksFindsNothing(notes, "sldId");
    TaggedElement(root, "sldId");
    TaggedElement(list, "sldId");
    SlideIdsFlat(1, count);
    ThreeTagged(list, size, notes, "sldId");
    assert root.children[1..] == [list, size, notes];
    assert TaggedAll(root.children, "sldId") == SlideIds(1, count);
    assert Tagged(root, "sldId") == SlideIds(1, count);
    SlideIdsRead(1, count);
  }

  // ---------------------------------------------------------------- relationships

  /** The map holds the targets of slides `1..=count`. */
  ghost predicate Leads(relationships: map<string, string>, count: nat) {
    forall i :: 1 <= i <= count ==> RelId(i) in relationships && relationships[RelId(i)] == Target(i)
  }

  lemma RelationshipRead(id: string, kind: string, target: string)
    ensures var node := Relationship(id, kind, target);
            Attr(node, "Type") == Some(kind) && Attr(node, "Id") == Some(id) && Attr(node, "Target") == Some(target)
  {
    var attributes := Relationship(id, kind, target).attributes;
    assert |"Id"| == 2 && |"Type"| == 4 && |"Target"| == 6;
    AttrAnyAt(attributes, 0, "Id");
    AttrAnyAt(attributes, 1, "Type");
    AttrAnyAt(attributes, 2, "Target");
  }

  lemma {:induction false} RelationshipsFlat(from: nat, count: nat)
    ensures TaggedAll(SlideRelationships(from, count), "Relationship") == SlideRelationships(from, count)
    decreases count + 1 - from
  {
    hide Tagged, RelId, Target;
    if from <= count {
      RelationshipsFlat(from + 1, count);
      assert SlideRelationships(from, count)[1..] == SlideRelationships(from + 1, count);
      RelationshipAlone(RelId(from), REL_SLIDE, Target(from));
    }
  }

  lemma RelationshipAlone(id: string, kind: string, target: string)
    ensures Tagged(Relationship(id, kind, target), "Relationship") == [Relationship(id, kind, target)]
  {
    hide Tagged;
    TaggedElement(Relationship(id, kind, target), "Relationship");
    assert TaggedAll([], "Relationship") == [];
  }

  lemma RelationshipsFound(count: nat)
    ensures Tagged(RelationshipsNode([MASTER_RELATIONSHIP] + SlideRelationships(1, count)), "Relationship") ==
            [MASTER_RELATIONSHIP] + SlideRelationships(1, count)
  {
    hide Tagged, SlideRelationships;
    var relationships := [MASTER_RELATIONSHIP] + SlideRelationships(1, count);
    assert |"Relationships"| != |"Relationship"|;
    TaggedElement(RelationshipsNode(relationships), "Relationship");
    TaggedAllConcat([MASTER_RELATIONSHIP], SlideRelationships(1, count), "Relationship");
    OneTagged(MASTER_RELATIONSHIP, "Relationship");
    RelationshipAlone("rId1", REL_SLIDE_MASTER, "slideMasters/slideMaster1.xml");
    RelationshipsFlat(1, count);
  }

  lemma {:induction false} RelationshipsRead(from: nat, count: nat, found: map<string, string>)
    requires 1 <= from && Leads(found, if from <= count then from - 1 else count)
    ensures RelationshipMap(SlideRelationships(from, count), found).Success?
    ensures Leads(RelationshipMap(SlideRelationships(from, count), found).value, count)
    decreases count + 1 - from
  {
    hide Attr, RelId, Target;
    if from <= count {
      var node := Relationship(RelId(from), REL_SLIDE, Target(from));
      RelationshipRead(RelId(from), REL_SLIDE, Target(from));
      var next := found[RelId(from) := Target(from)];
      forall i | 1 <= i <= from
        ensures RelId(i) in next && next[RelId(i)] == Target(i)
      {
        SlidePathInjective(i, from);
      }
      RelationshipsRead(from + 1, count, next);
      assert SlideRelationships(from, count)[1..] == SlideRelationships(from + 1, count);
    }
  }

  lemma MasterSkipped(rest: seq<Node>, found: map<string, string>)
    ensures RelationshipMap([MASTER_RELATIONSHIP] + rest, found) == RelationshipMap(rest, found)
  {
    hide Attr;
    RelationshipRead("rId1", REL_SLIDE_MASTER, "slideMasters/slideMaster1.xml");
    assert |REL_SLIDE| != |REL_SLIDE_MASTER|;
    assert ([MASTER_RELATIONSHIP] + rest)[1..] == rest;
  }

  lemma {:induction false} ResolvesAll(from: nat, count: nat, relationships: map<string, string>)
    requires 1 <= from && Leads(relationships, count)
    ensures ResolveAll(RelIds(from, count), relationships) == Success(SlidePaths(from, count))
    decreases count + 1 - from
  {
    hide RelId, Target, ResolveTarget, SlidePath;
    if from <= count {
      TargetResolves(from);
      ResolvesAll(from + 1, count, relationships);
      assert RelIds(from, count)[1..] == RelIds(from + 1, count);
    }
  }

  /** Slide list, relationship ids and targets lead to the slide parts in order. */
  lemma PathsFound(package: Package, title: string, count: nat)
    requires PRESENTATION_RELS in package
    requires package[PRESENTATION_RELS] == RelationshipsNode([MASTER_RELATIONSHIP] + SlideRelationships(1, count))
    ensures PathsOf(package, PresentationNode(title, SlideIds(1, count))) == Success(SlidePaths(1, count))
  {
    hide Tagged, RelationshipMap, SlideRelationships, SlideIds, PresentationNode, RelationshipsNode;
    RelationshipsFound(count);
    MasterSkipped(SlideRelationships(1, count), map[]);
    RelationshipsRead(1, count, map[]);
    SlideListFound(title, count);
    ResolvesAll(1, count, RelationshipMap(SlideRelationships(1, count), map[]).value);
  }

  // ---------------------------------------------------------------- the package

  lemma {:induction false} AddSlidesIff(package: Package, slides: seq<Slide>, k: nat, build: Build)
    requires k <= |slides|
    ensures AddSlides(package, slides, k, build).Some? <==> forall i :: k <= i < |slides| ==> Fits(slides[i], build)
    decreases |slides| - k
  {
    hide SlideNode, WithSlide, Fits;
    if k < |slides| {
      SlideFitsIff(k + 1, slides[k], build);
      if SlideNode(k + 1, slides[k], build).Some? {
        AddSlidesIff(WithSlide(package, k + 1, SlideNode(k + 1, slides[k], build).value), slides, k + 1, build);
      }
    }
  }

  lemma SlidesAdded(package: Package, slides: seq<Slide>, build: Build)
    requires AllFit(slides, build)
    ensures AddSlides(package, slides, 0, build).Some?
  {
    AddSlidesIff(package, slides, 0, build);
  }

  /** A checked build writes a deck exactly when no slide has more than 8257 blocks, any other writes every deck. */
  lemma DeckFitsIff(deck: Deck, fixed: Package, build: Build)
    ensures PackageOf(deck, fixed, build).Some? <==> AllFit(deck.slides, build)
  {
    hide AddSlides;
    AddSlidesIff(Base(deck, fixed), deck.slides, 0, build);
  }

  /** A part of slide `k+1..=n`. */
  ghost predicate Named(part: string, k: nat, n: nat) {
    exists i :: k < i <= n && NamedBy(part, i)
  }

  predicate NamedBy(part: string, i: nat) {
    part == SlidePath(i) || part == SlideRelsPath(i)
  }

  /** What the package holds of slide `i`. */
  ghost predicate HoldsSlide(package: Package, slides: seq<Slide>, i: nat, build: Build) {
    && 0 < i <= |slides|
    && SlideNode(i, slides[i - 1], build).Some?
    && SlidePath(i) in package
    && package[SlidePath(i)] == SlideNode(i, slides[i - 1], build).value
  }

  /** Adding slide `k+1` keeps the slides before it and holds the new one. */
  lemma NextSlideHeld(package: Package, slides: seq<Slide>, k: nat, i: nat, build: Build)
    requires k < |slides| && Fits(slides[k], build) && 1 <= i <= k + 1
    ensures SlideNode(k + 1, slides[k], build).Some?
    ensures i == k + 1 || HoldsSlide(package, slides, i, build) ==>
              HoldsSlide(WithSlide(package, k + 1, SlideNode(k + 1, slides[k], build).value), slides, i, build)
  {
    hide SlideNode, SlidePath, SlideRelsPath;
    SlideFitsIff(k + 1, slides[k], build);
    NamesApart(i, k + 1);
    SlidePathInjective(i, k + 1);
  }

  lemma {:induction false} PackageHoldsSlides(package: Package, slides: seq<Slide>, k: nat, build: Build)
    requires k <= |slides| && AllFit(slides, build)
    requires forall i :: 1 <= i <= k ==> HoldsSlide(package, slides, i, build)
    ensures AddSlides(package, slides, k, build).Some?
    ensures forall i :: 1 <= i <= |slides| ==> HoldsSlide(AddSlides(package, slides, k, build).value, slides, i, build)
    decreases |slides| - k
  {
    hide SlideNode, WithSlide, HoldsSlide, Fits;
    AddSlidesIff(package, slides, k, build);
    if k < |slides| {
      SlideFitsIff(k + 1, slides[k], build);
      var next := WithSlide(package, k + 1, SlideNode(k + 1, slides[k], build).value);
      forall i | 1 <= i <= k + 1
        ensures HoldsSlide(next, slides, i, build)
      {
        assert Fits(slides[k], build);
        NextSlideHeld(package, slides, k, i, build);
      }
      PackageHoldsSlides(next, slides, k + 1, build);
    }
  }

  lemma {:induction false} OtherPartsKept(package: Package, slides: seq<Slide>, k: nat, part: string, build: Build)
    requires k <= |slides| && AllFit(slides, build)
    ensures AddSlides(package, slides, k, build).Some?
    ensures var all := AddSlides(package, slides, k, build).value;
            && (!Named(part, k, |slides|) ==>
                  (part in all <==> part in package) && (part in package ==> all[part] == package[part]))
    decreases |slides| - k
  {
    hide SlideNode, SlidePath, SlideRelsPath, Fits;
    AddSlidesIff(package, slides, k, build);
    if k < |slides| && !Named(part, k, |slides|) {
      assert !NamedBy(part, k + 1);
      SlideFitsIff(k + 1, slides[k], build);
      var next := WithSlide(package, k + 1, SlideNode(k + 1, slides[k], build).value);
      OtherPartsKept(next, slides, k + 1, part, build);
    }
  }

  lemma {:induction false} PathsAre(from: nat, count: nat)
    requires from <= count + 1
    ensures |SlidePaths(from, count)| == count + 1 - from
    ensures forall i :: 0 <= i < |SlidePaths(from, count)| ==> SlidePaths(from, count)[i] == SlidePath(from + i)
    decreases count + 1 - from
  {
    hide SlidePath;
    if from <= count {
      PathsAre(from + 1, count);
    }
  }

  /** No fixed part looks like a slide part. */
  lemma FixedAreNotSlides(part: string)
    requires part in FIXED_PARTS || part == PRESENTATION || part == PRESENTATION_RELS
    ensures !IsSlidePart(part)
  {
    hide EndsWith, Contains, StartsWith;
    var prefix := "ppt/slides/slide";
    assert prefix[0] == 'p' && prefix[4] == 's' && prefix[9] == 's';
    PrefixAt(part, prefix, 0);
    PrefixAt(part, prefix, 4);
    PrefixAt(part, prefix, 9);
  }

  lemma PrefixAt(s: string, prefix: string, k: nat)
    requires k < |prefix|
    ensures StartsWith(s, prefix) ==> k < |s| && s[k] == prefix[k]
  {
  }

  lemma RelsAreNotSlides(i: nat)
    ensures !IsSlidePart(SlideRelsPath(i))
  {
    hide EndsWith, Contains, NatText, StartsWith;
    assert SlideRelsPath(i)[11] == '_' && "ppt/slides/slide"[11] == 's';
    PrefixAt(SlideRelsPath(i), "ppt/slides/slide", 11);
  }

  lemma NoOrphans(base: Package, slides: seq<Slide>, build: Build)
    requires base.Keys <= FIXED_PARTS + {PRESENTATION, PRESENTATION_RELS}
    requires AllFit(slides, build)
    ensures AddSlides(base, slides, 0, build).Some?
    ensures Orphans(AddSlides(base, slides, 0, build).value, SlidePaths(1, |slides|)) == {}
  {
    hide IsSlidePart, SlidePath, SlideRelsPath, AddSlides, FIXED_PARTS, AllFit;
    SlidesAdded(base, slides, build);
    var all, paths := AddSlides(base, slides, 0, build).value, SlidePaths(1, |slides|);
    PathsAre(1, |slides|);
    forall part | part in all && IsSlidePart(part)
      ensures part in paths
    {
      OtherPartsKept(base, slides, 0, part, build);
      if part in base {
        FixedAreNotSlides(part);
      }
      var i :| 0 < i <= |slides| && NamedBy(part, i);
      RelsAreNotSlides(i);
      assert paths[i - 1] == SlidePath(i);
    }
  }

  // ---------------------------------------------------------------- the deck

  /** The losses of slides `k..`: one for each slide without a block. */
  function Bare(slides: seq<Slide>, k: nat): set<Loss>
    requires k <= |slides|
    decreases |slides| - k
  {
    if k == |slides| then {}
    else (if slides[k].blocks == [] then {Loss.Shapes(SlidePath(k + 1))} else {}) + Bare(slides, k + 1)
  }

  lemma {:induction false} BareIff(slides: seq<Slide>, k: nat)
    requires k <= |slides|
    ensures Bare(slides, k) == {} <==> forall i :: k <= i < |slides| ==> slides[i].blocks != []
    decreases |slides| - k
  {
    hide SlidePath;
    if k < |slides| {
      BareIff(slides, k + 1);
      if slides[k].blocks == [] {
        assert Loss.Shapes(SlidePath(k + 1)) in Bare(slides, k);
      }
    }
  }

  lemma {:induction false} SlidesRead(
    package: Package, slides: seq<Slide>, k: nat, read: seq<Slide>, losses: set<Loss>, build: Build)
    requires k <= |slides| && forall i :: 1 <= i <= |slides| ==> HoldsSlide(package, slides, i, build)
    requires |SlidePaths(1, |slides|)| == |slides| && AllFit(slides, build)
    ensures SlidesFrom(package, SlidePaths(1, |slides|), k, read, losses) ==
            Success((read + KeptSlides(slides[k..]), losses + Bare(slides, k)))
    decreases |slides| - k
  {
    hide SlideNode, SlidePath, SlideFrom, KeptSlide, Unsupported, SlidePaths;
    var paths := SlidePaths(1, |slides|);
    if k == |slides| {
      assert slides[k..] == [] && read + [] == read && losses + {} == losses;
    } else {
      PathsAre(1, |slides|);
      assert HoldsSlide(package, slides, k + 1, build);
      assert Fits(slides[k], build);
      SlideRoundTrip(k + 1, slides[k], k + 1, build);
      SlideLosses(k + 1, slides[k], paths[k], build);
      var kept := KeptSlide(slides[k]);
      var more := losses + Unsupported(paths[k], package[paths[k]]);
      SlidesRead(package, slides, k + 1, read + [kept], more, build);
      assert slides[k..][1..] == slides[k + 1..];
      assert read + [kept] + KeptSlides(slides[k + 1..]) == read + KeptSlides(slides[k..]);
      assert more + Bare(slides, k + 1) == losses + Bare(slides, k);
    }
  }

  function Base(deck: Deck, fixed: Package): Package {
    fixed[PRESENTATION := PresentationNode(deck.title, SlideIds(1, |deck.slides|))]
         [PRESENTATION_RELS := RelationshipsNode([MASTER_RELATIONSHIP] + SlideRelationships(1, |deck.slides|))]
  }

  lemma TitleRead(title: string, slideIds: seq<Node>)
    ensures Attr(PresentationNode(title, slideIds), "title") == Some(title)
  {
  }

  lemma OthersNotNamed(n: nat)
    ensures !Named(PRESENTATION, 0, n) && !Named(PRESENTATION_RELS, 0, n)
  {
    hide SlidePath, SlideRelsPath;
    forall i: nat
      ensures !NamedBy(PRESENTATION, i) && !NamedBy(PRESENTATION_RELS, i)
    {
      NamesApart(i, i);
    }
  }

  /**
   Every deck that the build writes comes back: title, slide order, slide ids and all kept blocks,
   with no orphaned slide, and one loss for each slide without a block.
   */
  lemma DeckRoundTrip(deck: Deck, fixed: Package, build: Build)
    requires fixed.Keys <= FIXED_PARTS && AllFit(deck.slides, build)
    ensures PackageOf(deck, fixed, build).Some?
    ensures DeckOf(PackageOf(deck, fixed, build).value) ==
            Success((Deck(deck.title, KeptSlides(deck.slides)), Bare(deck.slides, 0)))
  {
    hide AddSlides, PresentationNode, RelationshipsNode, SlideRelationships, SlideIds, SlidesFrom, PathsOf,
         Orphans, FIXED_PARTS, SlidePaths, Attr, HoldsSlide, AllFit;
    var base, n := Base(deck, fixed), |deck.slides|;
    SlidesAdded(base, deck.slides, build);
    var package := AddSlides(base, deck.slides, 0, build).value;
    NamesApart(0, 0);
    OthersNotNamed(n);
    OtherPartsKept(base, deck.slides, 0, PRESENTATION, build);
    OtherPartsKept(base, deck.slides, 0, PRESENTATION_RELS, build);
    PathsFound(package, deck.title, n);
    PackageHoldsSlides(base, deck.slides, 0, build);
    NoOrphans(base, deck.slides, build);
    PathsAre(1, n);
    SlidesRead(package, deck.slides, 0, [], {}, build);
    assert deck.slides[0..] == deck.slides && [] + KeptSlides(deck.slides) == KeptSlides(deck.slides);
    assert {} + Bare(deck.slides, 0) == Bare(deck.slides, 0);
    TitleRead(deck.title, SlideIds(1, n));
  }

  /** The very same deck comes back exactly when no list or table holds an empty string. */
  lemma DeckExactIff(deck: Deck, fixed: Package, build: Build)
    requires fixed.Keys <= FIXED_PARTS && AllFit(deck.slides, build)
    ensures PackageOf(deck, fixed, build).Some?
    ensures DeckOf(PackageOf(deck, fixed, build).value).Success?
    ensures DeckOf(PackageOf(deck, fixed, build).value).value.0 == deck <==> FullDeck(deck)
  {
    hide PackageOf, DeckOf, FullSlide;
    DeckRoundTrip(deck, fixed, build);
    KeptSlidesIff(deck.slides);
  }

  /** The report is lossless exactly when every slide has a block. */
  lemma LosslessIff(deck: Deck, fixed: Package, build: Build)
    requires fixed.Keys <= FIXED_PARTS && AllFit(deck.slides, build)
    ensures PackageOf(deck, fixed, build).Some?
    ensures DeckOf(PackageOf(deck, fixed, build).value).Success?
    ensures DeckOf(PackageOf(deck, fixed, build).value).value.1 == {} <==>
              forall i :: 0 <= i < |deck.slides| ==> deck.slides[i].blocks != []
  {
    hide PackageOf, DeckOf;
    DeckRoundTrip(deck, fixed, build);
    BareIff(deck.slides, 0);
  }
}
