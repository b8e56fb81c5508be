/** The loops that write a presentation package and read it back. */
module DeckCodec {
  import opened Wrappers
  import opened Text
  import opened Xml
  import opened XmlSearch
  import opened DeckPackages

  // ---------------------------------------------------------------- writing

  /** The slide list, numbered from 256, with relationship ids from `rId2`. */
  method WriteSlideIds(count: nat) returns (nodes: seq<Node>)
    ensures nodes == SlideIds(1, count)
  {
    hide SlideId;
    nodes := [];
    for index := 1 to count + 1
      invariant SlideIds(1, count) == nodes + SlideIds(index, count)
    {
      assert SlideIds(index, count) == [SlideId(index)] + SlideIds(index + 1, count);
      nodes := nodes + [SlideId(index)];
    }
  }

  /** The relationships part: the master first, then one entry for every slide. */
  method WriteRelationships(count: nat) returns (nodes: seq<Node>)
    ensures nodes == [MASTER_RELATIONSHIP] + SlideRelationships(1, count)
  {
    hide Relationship, RelId, Target;
    nodes := [MASTER_RELATIONSHIP];
    for index := 1 to count + 1
      invariant [MASTER_RELATIONSHIP] + SlideRelationships(1, count) == nodes + SlideRelationships(index, count)
    {
      var node := Relationship(RelId(index), REL_SLIDE, Target(index));
      assert SlideRelationships(index, count) == [node] + SlideRelationships(index + 1, count);
      nodes := nodes + [node];
    }
  }

  function Prepended(nodes: seq<Node>, rest: Option<seq<Node>>): Option<seq<Node>> {
    match rest case None => None case Some(more) => Some(nodes + more)
  }

  /** One slide: the title shape, then a shape and a metadata element for every block. */
  method WriteSlide(index: nat, slide: Slide, build: Build) returns (r: Option<Node>)
    ensures r == SlideNode(index, slide, build)
  {
    hide BlockShape, BlockShapes, BlockNodes, PlacedAt, BlockNode, SlideElement, GROUP_SHAPES, Prepended;
    var shapes: seq<Node> := [];
    var metadata: seq<Node> := [];
    var shapeId: nat := 3;
    var blocks := slide.blocks;
    assert blocks[0..] == blocks;
    PrependedEnds(shapes, BlockShapes(blocks, 3, build));
    for i := 0 to |blocks|
      invariant shapeId == 3 + i
      invariant BlockNodes(blocks) == metadata + BlockNodes(blocks[i..])
      invariant BlockShapes(blocks, 3, build) == Prepended(shapes, BlockShapes(blocks[i..], shapeId, build))
    {
      BlockShapesFirst(blocks, i, shapeId, build);
      metadata := metadata + [BlockNode(blocks[i])];
      var top := PlacedAt(shapeId, build);
      PrependedEnds(shapes, None);
      if top.None? {
        return None;
      }
      var shape := BlockShape(blocks[i], shapeId, top.value);
      PrependedTwice(shapes, [shape], BlockShapes(blocks[i + 1..], shapeId + 1, build));
      shapes := shapes + [shape];
      shapeId := shapeId + 1;
    }
    assert blocks[|blocks|..] == [];
    PrependedEnds(shapes, Some([]));
    NoBlockShapes(shapeId, build);
    assert metadata + [] == metadata;
    assert BlockShapes(blocks, 3, build) == Some(shapes) && BlockNodes(blocks) == metadata;
    return Some(SlideElement(index, slide, GROUP_SHAPES + [TitleShape(slide)] + shapes, metadata));
  }

  lemma PrependedEnds(nodes: seq<Node>, rest: Option<seq<Node>>)
    ensures Prepended([], rest) == rest
    ensures rest == None ==> Prepended(nodes, rest) == None
    ensures rest == Some([]) ==> Prepended(nodes, rest) == Some(nodes)
  {
    if rest.Some? {
      assert [] + rest.value == rest.value;
    }
    assert nodes + [] == nodes;
  }

  lemma NoBlockShapes(id: nat, build: Build)
    requires id > 0
    ensures BlockShapes([], id, build) == Some([]) && BlockNodes([]) == []
  {
  }

  lemma BlockShapesFirst(blocks: seq<Block>, i: nat, id: nat, build: Build)
    requires i < |blocks| && 0 < id
    ensures BlockNodes(blocks[i..]) == [BlockNode(blocks[i])] + BlockNodes(blocks[i + 1..])
    ensures BlockShapes(blocks[i..], id, build) ==
            match PlacedAt(id, build)
            case None => None
            case Some(top) => Prepended([BlockShape(blocks[i], id, top)], BlockShapes(blocks[i + 1..], id + 1, build))
  {
    hide BlockShape, PlacedAt, BlockNode;
    assert blocks[i..][1..] == blocks[i + 1..];
  }

  lemma PrependedTwice(a: seq<Node>, b: seq<Node>, rest: Option<seq<Node>>)
    ensures Prepended(a, Prepended(b, rest)) == Prepended(a + b, rest)
  {
    if rest.Some? {
      assert a + (b + rest.value) == a + b + rest.value;
    }
  }

  /** `package_entries`: parts are inserted one by one; slide `k` goes to `slide{k}.xml`. */
  method WritePackage(deck: Deck, fixed: Package, build: Build) returns (r: Option<Package>)
    ensures r == PackageOf(deck, fixed, build)
  {
    hide PresentationNode, RelationshipsNode, SlideIds, SlideRelationships, SlideNode, SlidePath, SlideRelsPath;
    var entries := fixed;
    var ids := WriteSlideIds(|deck.slides|);
    entries := entries[PRESENTATION := PresentationNode(deck.title, ids)];
    var relationships := WriteRelationships(|deck.slides|);
    entries := entries[PRESENTATION_RELS := RelationshipsNode(relationships)];
    for index := 0 to |deck.slides|
      invariant PackageOf(deck, fixed, build) == AddSlides(entries, deck.slides, index, build)
    {
      var number := index + 1;
      var node := WriteSlide(number, deck.slides[index], build);
      if node.None? {
        return None;
      }
      entries := entries[SlidePath(number) := node.value];
      entries := entries[SlideRelsPath(number) := SLIDE_RELS];
    }
    return Some(entries);
  }

  // ---------------------------------------------------------------- reading

  /** `slide_relationships`: other relationship types are skipped, later ids overwrite earlier ones. */
  method ReadRelationships(nodes: seq<Node>) returns (r: Result<map<string, string>, DeckError>)
    ensures r == RelationshipMap(nodes, map[])
  {
    hide Attr;
    var relationships: map<string, string> := map[];
    for i := 0 to |nodes|
      invariant RelationshipMap(nodes, map[]) == RelationshipMap(nodes[i..], relationships)
    {
      assert nodes[i..][0] == nodes[i] && nodes[i..][1..] == nodes[i + 1..];
      if Attr(nodes[i], "Type") == Some(REL_SLIDE) {
        var id := Attr(nodes[i], "Id");
        if id.None? {
          return Failure(MissingId);
        }
        var target := Attr(nodes[i], "Target");
        if target.None? {
          return Failure(MissingTarget(id.value));
        }
        relationships := relationships[id.value := target.value];
      }
    }
    assert nodes[|nodes|..] == [];
    return Success(relationships);
  }

  function PathsAfter(paths: seq<string>, rest: Result<seq<string>, DeckError>): Result<seq<string>, DeckError> {
    match rest case Failure(e) => Failure(e) case Success(more) => Success(paths + more)
  }

  /** `slide_paths`: every id of the slide list must lead to a slide. */
  method ReadPaths(package: Package, presentation: Node) returns (r: Result<seq<string>, DeckError>)
    ensures r == PathsOf(package, presentation)
  {
    hide Tagged, RelationshipMap, RelIdsOf, ResolveTarget;
    if PRESENTATION_RELS !in package {
      return Failure(MissingPart(PRESENTATION_RELS));
    }
    var relationships := ReadRelationships(Tagged(package[PRESENTATION_RELS], "Relationship"));
    if relationships.Failure? {
      return Failure(relationships.error);
    }
    var ids := RelIdsOf(Tagged(presentation, "sldId"));
    var paths: seq<string> := [];
    NoPathsAfter(ResolveAll(ids, relationships.value));
    assert ids[0..] == ids;
    for i := 0 to |ids|
      invariant ResolveAll(ids, relationships.value) == PathsAfter(paths, ResolveAll(ids[i..], relationships.value))
    {
      assert ids[i..][0] == ids[i] && ids[i..][1..] == ids[i + 1..];
      if ids[i] !in relationships.value {
        return Failure(UnresolvedRelationship(ids[i]));
      }
      var path := ResolveTarget(relationships.value[ids[i]]);
      PathsAfterOne(paths, path, ResolveAll(ids[i + 1..], relationships.value));
      paths := paths + [path];
    }
    assert ids[|ids|..] == [] && paths + [] == paths;
    return Success(paths);
  }

  lemma NoPathsAfter(rest: Result<seq<string>, DeckError>)
    ensures PathsAfter([], rest) == rest
  {
    if rest.Success? {
      assert [] + rest.value == rest.value;
    }
  }

  lemma PathsAfterOne(paths: seq<string>, path: string, rest: Result<seq<string>, DeckError>)
    ensures PathsAfter(paths, PathsAfter([path], rest)) == PathsAfter(paths + [path], rest)
  {
    if rest.Success? {
      assert paths + ([path] + rest.value) == paths + [path] + rest.value;
    }
  }

  /** `decode_deck`: slides are read in list order, and every loss is added to the report. */
  method ReadDeck(package: Package) returns (r: Result<(Deck, set<Loss>), DeckError>)
    ensures r == DeckOf(package)
  {
    hide PathsOf, Orphans, SlideFrom, Unsupported, Attr;
    if PRESENTATION !in package {
      return Failure(MissingPart(PRESENTATION));
    }
    var presentation := package[PRESENTATION];
    var title := GetOr(Attr(presentation, "title"), "Presentation");
    var paths := ReadPaths(package, presentation);
    if paths.Failure? {
      return Failure(paths.error);
    }
    var losses := Orphans(package, paths.value);
    var slides: seq<Slide> := [];
    for index := 0 to |paths.value|
      invariant SlidesFrom(package, paths.value, 0, [], Orphans(package, paths.value)) ==
                SlidesFrom(package, paths.value, index, slides, losses)
    {
      var path := paths.value[index];
      if path !in package {
        return Failure(MissingPart(path));
      }
      var slide := SlideFrom(index + 1, package[path]);
      if slide.Failure? {
        return Failure(slide.error);
      }
      losses := losses + Unsupported(path, package[path]);
      slides := slides + [slide.value];
    }
    return Success((Deck(title, slides), losses));
  }
}
