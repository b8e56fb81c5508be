/** Presentation packages as maps from part name to element tree: writing and reading decks. */
module DeckPackages {
  import opened Wrappers
  import opened Text
  import opened Xml
  import opened XmlSearch

  const CODEC_ID := "codec/ooxml-pptx"

  const REL_SLIDE := "http://schemas.openxmlformats.org/officeDocument/2006/relationships/slide"
  const REL_SLIDE_MASTER := "http://schemas.openxmlformats.org/officeDocument/2006/relationships/slideMaster"
  const REL_SLIDE_LAYOUT := "http://schemas.openxmlformats.org/officeDocument/2006/relationships/slideLayout"

  const A_NS := "http://schemas.openxmlformats.org/drawingml/2006/main"
  const P_NS := "http://schemas.openxmlformats.org/presentationml/2006/main"
  const R_NS := "http://schemas.openxmlformats.org/officeDocument/2006/relationships"
  const RELS_NS := "http://schemas.openxmlformats.org/package/2006/relationships"
  const SIM_NS := "https://sim.nest/office/ooxml"

  const PRESENTATION := "ppt/presentation.xml"
  const PRESENTATION_RELS := "ppt/_rels/presentation.xml.rels"

  /** The parts whose content does not depend on the slides' blocks and is never read back. */
  const FIXED_PARTS: set<string> := {
    "[Content_Types].xml", "_rels/.rels", "docProps/app.xml", "docProps/core.xml",
    "ppt/slideMasters/slideMaster1.xml", "ppt/slideMasters/_rels/slideMaster1.xml.rels",
    "ppt/slideLayouts/slideLayout1.xml", "ppt/slideLayouts/_rels/slideLayout1.xml.rels",
    "ppt/theme/theme1.xml"
  }

  datatype ImageReference = ImageReference(
    backend: string, externalId: string, version: Option<string>, webUrl: Option<string>)

  datatype Block =
    | Heading(text: string)
    | BulletList(items: seq<string>)
    | Table(columns: seq<string>, rows: seq<seq<string>>)
    | Image(reference: ImageReference)

  datatype Slide = Slide(id: string, title: string, blocks: seq<Block>)

  datatype Deck = Deck(title: string, slides: seq<Slide>)

  type Package = map<string, Node>

  // ---------------------------------------------------------------- writing

  function P(local: string, children: seq<Node>): Node {
    Element(Name(P_NS, local), [], children)
  }

  function A(local: string, children: seq<Node>): Node {
    Element(Name(A_NS, local), [], children)
  }

  function Sim(local: string, children: seq<Node>): Node {
    Element(Name(SIM_NS, local), [], children)
  }

  function Plain(local: string, value: string): Attribute {
    Attribute(Name("", local), value)
  }

  function SlidePath(index: nat): string {
    "ppt/slides/slide" + NatText(index) + ".xml"
  }

  function SlideRelsPath(index: nat): string {
    "ppt/slides/_rels/slide" + NatText(index) + ".xml.rels"
  }

  function RelId(index: nat): string {
    "rId" + NatText(index + 1)
  }

  function Target(index: nat): string {
    "slides/slide" + NatText(index) + ".xml"
  }

  function Relationship(id: string, kind: string, target: string): Node {
    Element(Name(RELS_NS, "Relationship"), [Plain("Id", id), Plain("Type", kind), Plain("Target", target)], [])
  }

  function SlideId(index: nat): Node {
    Element(Name(P_NS, "sldId"), [Plain("id", NatText(255 + index)), Attribute(Name(R_NS, "id"), RelId(index))], [])
  }

  /** Entries `from..=count` of the slide list. */
  function SlideIds(from: nat, count: nat): seq<Node>
    decreases count + 1 - from
  {
    if from > count then [] else [SlideId(from)] + SlideIds(from + 1, count)
  }

  function SlideRelationships(from: nat, count: nat): seq<Node>
    decreases count + 1 - from
  {
    if from > count then []
    else [Relationship(RelId(from), REL_SLIDE, Target(from))] + SlideRelationships(from + 1, count)
  }

  function PresentationNode(title: string, slideIds: seq<Node>): Node {
    Element(Name(P_NS, "presentation"), [Attribute(Name(SIM_NS, "title"), title)],
            [ P("sldMasterIdLst",
                [Element(Name(P_NS, "sldMasterId"),
                         [Plain("id", "2147483648"), Attribute(Name(R_NS, "id"), "rId1")], [])]),
              P("sldIdLst", slideIds),
              Element(Name(P_NS, "sldSz"),
                      [Plain("cx", "9144000"), Plain("cy", "5143500"), Plain("type", "screen16x9")], []),
              Element(Name(P_NS, "notesSz"), [Plain("cx", "6858000"), Plain("cy", "9144000")], []) ])
  }

  const MASTER_RELATIONSHIP := Relationship("rId1", REL_SLIDE_MASTER, "slideMasters/slideMaster1.xml")

  function RelationshipsNode(relationships: seq<Node>): Node {
    Element(Name(RELS_NS, "Relationships"), [], relationships)
  }

  const SLIDE_RELS := RelationshipsNode([Relationship("rId1", REL_SLIDE_LAYOUT, "../slideLayouts/slideLayout1.xml")])

  // ---------------------------------------------------------------- blocks as metadata

  function ItemNodes(items: seq<string>): seq<Node> {
    if items == [] then [] else [Sim("item", CharData(items[0]))] + ItemNodes(items[1..])
  }

  function RowNodes(rows: seq<seq<string>>): seq<Node> {
    if rows == [] then [] else [Sim("row", ItemNodes(rows[0]))] + RowNodes(rows[1..])
  }

  function Optional(local: string, value: Option<string>): seq<Attribute> {
    match value case None => [] case Some(text) => [Plain(local, text)]
  }

  function BlockElement(attributes: seq<Attribute>, children: seq<Node>): Node {
    Element(Name(SIM_NS, "block"), attributes, children)
  }

  function BlockNode(block: Block): Node {
    match block
    case Heading(text) => BlockElement([Plain("kind", "heading")], [Sim("value", CharData(text))])
    case BulletList(items) => BlockElement([Plain("kind", "bullet-list")], ItemNodes(items))
    case Table(columns, rows) =>
      BlockElement([Plain("kind", "table")], [Sim("columns", ItemNodes(columns)), Sim("rows", RowNodes(rows))])
    case Image(reference) =>
      BlockElement([Plain("kind", "image-ref"), Plain("backend", reference.backend),
                    Plain("external-id", reference.externalId)]
                   + Optional("version", reference.version) + Optional("web-url", reference.webUrl), [])
  }

  function BlockNodes(blocks: seq<Block>): seq<Node> {
    if blocks == [] then [] else [BlockNode(blocks[0])] + BlockNodes(blocks[1..])
  }

  // ---------------------------------------------------------------- shapes for display

  function Join(texts: seq<string>, separator: string): string {
    if texts == [] then "" else if |texts| == 1 then texts[0] else texts[0] + separator + Join(texts[1..], separator)
  }

  function Bullets(items: seq<string>): seq<string> {
    if items == [] then [] else ["- " + items[0]] + Bullets(items[1..])
  }

  function RowTexts(rows: seq<seq<string>>): seq<string> {
    if rows == [] then [] else [Join(rows[0], " | ")] + RowTexts(rows[1..])
  }

  function DisplayText(block: Block): string {
    match block
    case Heading(text) => text
    case BulletList(items) => Join(Bullets(items), "\n")
    case Table(columns, rows) => Join([Join(columns, " | ")] + RowTexts(rows), "\n")
    case Image(reference) => "[image: " + reference.externalId + "]"
  }

  /** `str::lines`: split at line feeds, with or without a carriage return before. */
  function TextLines(text: string, line: string): seq<string>
    decreases |text|
  {
    if text == [] then (if line == [] then [] else [line])
    else if text[0] == '\n' then
      [if line != [] && line[|line| - 1] == '\r' then line[..|line| - 1] else line] + TextLines(text[1..], [])
    else TextLines(text[1..], line + [text[0]])
  }

  function Paragraphs(lines: seq<string>): seq<Node> {
    if lines == [] then []
    else [A("p", [A("r", [A("t", CharData(lines[0]))])])] + Paragraphs(lines[1..])
  }

  function TextShape(id: nat, name: string, text: string, y: nat): Node {
    P("sp",
      [ P("nvSpPr",
          [ Element(Name(P_NS, "cNvPr"), [Plain("id", NatText(id)), Plain("name", name + " " + NatText(id))], []),
            Element(Name(P_NS, "cNvSpPr"), [Plain("txBox", "1")], []),
            P("nvPr", []) ]),
        P("spPr",
          [ A("xfrm",
              [ Element(Name(A_NS, "off"), [Plain("x", "620000"), Plain("y", NatText(y))], []),
                Element(Name(A_NS, "ext"), [Plain("cx", "7900000"), Plain("cy", "420000")], []) ]),
            Element(Name(A_NS, "prstGeom"), [Plain("prst", "rect")], [A("avLst", [])]),
            A("noFill", []) ]),
        P("txBody", [A("bodyPr", []), A("lstStyle", [])] + Paragraphs(TextLines(text, []))) ])
  }

  const GROUP_SHAPES: seq<Node> :=
    [ P("nvGrpSpPr",
        [ Element(Name(P_NS, "cNvPr"), [Plain("id", "1"), Plain("name", "")], []),
          P("cNvGrpSpPr", []), P("nvPr", []) ]),
      P("grpSpPr",
        [ A("xfrm",
            [ Element(Name(A_NS, "off"), [Plain("x", "0"), Plain("y", "0")], []),
              Element(Name(A_NS, "ext"), [Plain("cx", "0"), Plain("cy", "0")], []),
              Element(Name(A_NS, "chOff"), [Plain("x", "0"), Plain("y", "0")], []),
              Element(Name(A_NS, "chExt"), [Plain("cx", "0"), Plain("cy", "0")], []) ]) ]) ]

  /** The vertical position of a shape. */
  function ShapeTop(id: nat): int {
    340_000 + (id - 1) * 520_000
  }

  /** The position as a u32. */
  function PlacedAt(id: nat, build: Build): Option<u32>
    requires id > 0
  {
    if ShapeTop(id) <= U32_MAX then Some(ShapeTop(id))
    else if build.Checked? then None
    else Some(ShapeTop(id) % WIDTH_32)
  }

  /** The shape of one block; its number is a u32 too. */
  function BlockShape(block: Block, id: nat, top: u32): Node {
    TextShape(id % WIDTH_32, "Content", DisplayText(block), top)
  }

  /** Shapes for the blocks, numbered from `id`; a checked build stops when a position leaves u32. */
  function BlockShapes(blocks: seq<Block>, id: nat, build: Build): Option<seq<Node>>
    requires id > 0
  {
    if blocks == [] then Some([])
    else
      match PlacedAt(id, build)
      case None => None
      case Some(top) =>
        match BlockShapes(blocks[1..], id + 1, build)
        case None => None
        case Some(rest) => Some([BlockShape(blocks[0], id, top)] + rest)
  }

  function ContentNode(title: string, shapes: seq<Node>): Node {
    Element(Name(P_NS, "cSld"), [Plain("name", title)], [P("spTree", shapes)])
  }

  const MAPPING := P("clrMapOvr", [A("masterClrMapping", [])])

  function ExtensionsNode(index: nat, metadata: seq<Node>): Node {
    P("extLst",
      [Element(Name(P_NS, "ext"), [Plain("uri", "{7A0DA402-A8FA-46A2-B652-91C2BB718A5D}")],
               [Sim("blocks", metadata), Sim("index", CharData(NatText(index)))])])
  }

  function SlideElement(index: nat, slide: Slide, shapes: seq<Node>, metadata: seq<Node>): Node {
    Element(Name(P_NS, "sld"), [Attribute(Name(SIM_NS, "id"), slide.id), Attribute(Name(SIM_NS, "title"), slide.title)],
            [ContentNode(slide.title, shapes), MAPPING, ExtensionsNode(index, metadata)])
  }

  function TitleShape(slide: Slide): Node {
    TextShape(2, "Title", slide.title, 340_000)
  }

  function SlideNode(index: nat, slide: Slide, build: Build): Option<Node> {
    match BlockShapes(slide.blocks, 3, build)
    case None => None
    case Some(shapes) =>
      Some(SlideElement(index, slide, GROUP_SHAPES + [TitleShape(slide)] + shapes, BlockNodes(slide.blocks)))
  }

  /** The most blocks whose shapes keep a u32 position without wrapping. */
  const MAX_BLOCKS: nat := 8257

  predicate Fits(slide: Slide, build: Build) {
    build.Wrapping? || |slide.blocks| <= MAX_BLOCKS
  }

  predicate AllFit(slides: seq<Slide>, build: Build) {
    forall i :: 0 <= i < |slides| ==> Fits(slides[i], build)
  }

  function WithSlide(package: Package, index: nat, node: Node): Package {
    package[SlidePath(index) := node][SlideRelsPath(index) := SLIDE_RELS]
  }

  /** Slides `k..` added to the package, each with its relationships part. */
  function AddSlides(package: Package, slides: seq<Slide>, k: nat, build: Build): Option<Package>
    requires k <= |slides|
    decreases |slides| - k
  {
    if k == |slides| then Some(package)
    else
      match SlideNode(k + 1, slides[k], build)
      case None => None
      case Some(node) => AddSlides(WithSlide(package, k + 1, node), slides, k + 1, build)
  }

  /** The package of a deck; `fixed` holds the parts that are never read back. */
  function PackageOf(deck: Deck, fixed: Package, build: Build): Option<Package> {
    var presentation := PresentationNode(deck.title, SlideIds(1, |deck.slides|));
    var rels := RelationshipsNode([MASTER_RELATIONSHIP] + SlideRelationships(1, |deck.slides|));
    AddSlides(fixed[PRESENTATION := presentation][PRESENTATION_RELS := rels], deck.slides, 0, build)
  }

  // ---------------------------------------------------------------- reading

  datatype DeckError =
    | MissingPart(part: string)
    | UnresolvedRelationship(id: string)
    | MissingId
    | MissingTarget(id: string)
    | UnsupportedBlock(kind: string)

  datatype Loss = OrphanSlide(part: string) | Transition(part: string) | Media(part: string) | Shapes(part: string)

  function Attr(node: Node, local: string): Option<string> {
    AttrAny(AttributesOf(node), local)
  }

  function PartOf(package: Package, part: string): Result<Node, DeckError> {
    if part in package then Success(package[part]) else Failure(MissingPart(part))
  }

  /** The `r:id` attributes of the slide list entries. */
  function RelIdsOf(nodes: seq<Node>): seq<string> {
    if nodes == [] then []
    else
      var id := AttrNs(AttributesOf(nodes[0]), R_NS, "id");
      (if id.Some? then [id.value] else []) + RelIdsOf(nodes[1..])
  }

  /** Slide relationships by id; the last of several with one id wins. */
  function RelationshipMap(nodes: seq<Node>, found: map<string, string>): Result<map<string, string>, DeckError>
    decreases |nodes|
  {
    if nodes == [] then Success(found)
    else if Attr(nodes[0], "Type") != Some(REL_SLIDE) then RelationshipMap(nodes[1..], found)
    else
      var id, target := Attr(nodes[0], "Id"), Attr(nodes[0], "Target");
      if id.None? then Failure(MissingId)
      else if target.None? then Failure(MissingTarget(id.value))
      else RelationshipMap(nodes[1..], found[id.value := target.value])
  }

  function ResolveTarget(target: string): string {
    var slashed := Replace(target, '\\', "/");
    if slashed != [] && slashed[0] == '/' then slashed[1..]
    else if StartsWith(slashed, "ppt/") then slashed
    else "ppt/" + slashed
  }

  function ResolveAll(ids: seq<string>, relationships: map<string, string>): Result<seq<string>, DeckError> {
    if ids == [] then Success([])
    else if ids[0] !in relationships then Failure(UnresolvedRelationship(ids[0]))
    else
      match ResolveAll(ids[1..], relationships)
      case Failure(e) => Failure(e)
      case Success(rest) => Success([ResolveTarget(relationships[ids[0]])] + rest)
  }

  predicate EndsWith(s: string, suffix: string) {
    |suffix| <= |s| && s[|s| - |suffix|..] == suffix
  }

  predicate Contains(s: string, piece: string) {
    exists i :: 0 <= i <= |s| && StartsWith(s[i..], piece)
  }

  predicate IsSlidePart(part: string) {
    StartsWith(part, "ppt/slides/slide") && EndsWith(part, ".xml") && !Contains(part, "/_rels/")
  }

  /** Slide parts that no relationship of the presentation leads to. */
  function Orphans(package: Package, paths: seq<string>): set<Loss> {
    set part | part in package && IsSlidePart(part) && part !in paths :: OrphanSlide(part)
  }

  function Unsupported(part: string, root: Node): set<Loss> {
    (if Tagged(root, "transition") != [] then {Transition(part)} else {})
    + (if Tagged(root, "pic") != [] || Tagged(root, "audio") != [] || Tagged(root, "video") != []
       then {Media(part)} else {})
    + (if Tagged(root, "block") == [] && (Tagged(root, "sp") != [] || Tagged(root, "graphicFrame") != [])
       then {Shapes(part)} else {})
  }

  function ChildText(node: Node, tag: string): string {
    match FirstHaving(ChildrenOf(node), tag)
    case None => ""
    case Some(child) => GetOr(TextOf(child), "")
  }

  function TextsOf(nodes: seq<Node>): seq<string> {
    if nodes == [] then []
    else (if TextOf(nodes[0]).Some? then [TextOf(nodes[0]).value] else []) + TextsOf(nodes[1..])
  }

  function ChildTexts(node: Node, tag: string): seq<string> {
    TextsOf(Having(ChildrenOf(node), tag))
  }

  function RowsFrom(rows: seq<Node>): seq<seq<string>> {
    if rows == [] then [] else [ChildTexts(rows[0], "item")] + RowsFrom(rows[1..])
  }

  function TableFrom(node: Node): Block {
    var columns, rows := FirstHaving(ChildrenOf(node), "columns"), FirstHaving(ChildrenOf(node), "rows");
    Table(if columns.Some? then ChildTexts(columns.value, "item") else [],
          if rows.Some? then RowsFrom(Having(ChildrenOf(rows.value), "row")) else [])
  }

  function BlockFrom(node: Node): Result<Block, DeckError> {
    var kind := GetOr(Attr(node, "kind"), "");
    if kind == "heading" then Success(Heading(ChildText(node, "value")))
    else if kind == "bullet-list" then Success(BulletList(ChildTexts(node, "item")))
    else if kind == "table" then Success(TableFrom(node))
    else if kind == "image-ref" then
      Success(Image(ImageReference(GetOr(Attr(node, "backend"), CODEC_ID), GetOr(Attr(node, "external-id"), ""),
                                   Attr(node, "version"), Attr(node, "web-url"))))
    else Failure(UnsupportedBlock(kind))
  }

  function BlocksFrom(nodes: seq<Node>): Result<seq<Block>, DeckError> {
    if nodes == [] then Success([])
    else
      match BlockFrom(nodes[0])
      case Failure(e) => Failure(e)
      case Success(block) =>
        match BlocksFrom(nodes[1..])
        case Failure(e) => Failure(e)
        case Success(rest) => Success([block] + rest)
  }

  function SlideFrom(index: nat, root: Node): Result<Slide, DeckError> {
    match BlocksFrom(Tagged(root, "block"))
    case Failure(e) => Failure(e)
    case Success(blocks) =>
      var name := if Attr(root, "title").Some? then Attr(root, "title") else Attr(root, "name");
      Success(Slide(GetOr(Attr(root, "id"), "slide-" + NatText(index)), GetOr(name, "Slide " + NatText(index)), blocks))
  }

  type Decoded = Result<(seq<Slide>, set<Loss>), DeckError>

  /** Slides `k..` read after those already read. */
  function SlidesFrom(package: Package, paths: seq<string>, k: nat, slides: seq<Slide>, losses: set<Loss>): Decoded
    requires k <= |paths|
    decreases |paths| - k
  {
    if k == |paths| then Success((slides, losses))
    else
      match PartOf(package, paths[k])
      case Failure(e) => Failure(e)
      case Success(root) =>
        match SlideFrom(k + 1, root)
        case Failure(e) => Failure(e)
        case Success(slide) =>
          SlidesFrom(package, paths, k + 1, slides + [slide], losses + Unsupported(paths[k], root))
  }

  function PathsOf(package: Package, presentation: Node): Result<seq<string>, DeckError> {
    match PartOf(package, PRESENTATION_RELS)
    case Failure(e) => Failure(e)
    case Success(rels) =>
      match RelationshipMap(Tagged(rels, "Relationship"), map[])
      case Failure(e) => Failure(e)
      case Success(relationships) => ResolveAll(RelIdsOf(Tagged(presentation, "sldId")), relationships)
  }

  /** The deck of a package, with what could not be kept. */
  function DeckOf(package: Package): Result<(Deck, set<Loss>), DeckError> {
    match PartOf(package, PRESENTATION)
    case Failure(e) => Failure(e)
    case Success(presentation) =>
      match PathsOf(package, presentation)
      case Failure(e) => Failure(e)
      case Success(paths) =>
        match SlidesFrom(package, paths, 0, [], Orphans(package, paths))
        case Failure(e) => Failure(e)
        case Success((slides, losses)) =>
          Success((Deck(GetOr(Attr(presentation, "title"), "Presentation"), slides), losses))
  }
}
