/** Presentations written by any program: what is read, what is refused and what is reported as lost. */
module DeckReadings {
  import opened Wrappers
  import opened Text
  import opened Xml
  import opened XmlNames
  import opened XmlSearch
  import opened DeckPackages

  // ---------------------------------------------------------------- what a tree holds

  /** The node itself or something at any depth below it. */
  ghost predicate Within(x: Node, node: Node) {
    x == node || (node.Element? && exists i :: 0 <= i < |node.children| && Within(x, node.children[i]))
  }

  lemma {:induction false} DescendantsAre(node: Node, x: Node)
    ensures x in Descendants(node) <==> Within(x, node)
    decreases node, 1, 0
  {
    if node.Element? {
      BelowAre(node, 0, x);
    }
  }

  lemma {:induction false} BelowAre(node: Node, k: nat, x: Node)
    requires node.Element? && k <= |node.children|
    ensures x in BelowFrom(node, k) <==> exists i :: k <= i < |node.children| && Within(x, node.children[i])
    decreases node, 0, |node.children| - k
  {
    hide Within, Descendants;
    if k < |node.children| {
      DescendantsAre(node.children[k], x);
      BelowAre(node, k + 1, x);
    }
  }

  lemma {:induction false} HavingMembers(nodes: seq<Node>, tag: string, x: Node)
    ensures x in Having(nodes, tag) <==> x in nodes && HasTag(x, tag)
  {
    if nodes != [] {
      HavingMembers(nodes[1..], tag, x);
    }
  }

  /** Some element of the tree has this tag. */
  ghost predicate Holds(root: Node, tag: string) {
    exists x :: Within(x, root) && HasTag(x, tag)
  }

  lemma TaggedMembers(root: Node, tag: string, x: Node)
    ensures x in Tagged(root, tag) <==> Within(x, root) && HasTag(x, tag)
  {
    DescendantsAre(root, x);
    HavingMembers(Descendants(root), tag, x);
  }

  lemma HoldsIff(root: Node, tag: string)
    ensures Holds(root, tag) <==> Tagged(root, tag) != []
  {
    forall x
      ensures x in Tagged(root, tag) <==> Within(x, root) && HasTag(x, tag)
    {
      TaggedMembers(root, tag, x);
    }
    hide Tagged, Within, HasTag;
    if Tagged(root, tag) != [] {
      assert Tagged(root, tag)[0] in Tagged(root, tag);
    }
  }

  // ---------------------------------------------------------------- slides in order

  lemma {:induction false} SlidesRead(
    package: Package, paths: seq<string>, k: nat, slides: seq<Slide>, losses: set<Loss>)
    requires k <= |paths| && |slides| == k
    ensures var r := SlidesFrom(package, paths, k, slides, losses);
            && (r.Success? <==> forall i :: k <= i < |paths| ==>
                  paths[i] in package && SlideFrom(i + 1, package[paths[i]]).Success?)
            && (r.Success? ==>
                  && |r.value.0| == |paths| && r.value.0[..k] == slides
                  && forall i :: k <= i < |paths| ==> SlideFrom(i + 1, package[paths[i]]) == Success(r.value.0[i]))
    decreases |paths| - k
  {
    hide SlideFrom, Unsupported;
    if k < |paths| && paths[k] in package && SlideFrom(k + 1, package[paths[k]]).Success? {
      var slide := SlideFrom(k + 1, package[paths[k]]).value;
      SlidesRead(package, paths, k + 1, slides + [slide], losses + Unsupported(paths[k], package[paths[k]]));
    }
  }

  lemma {:induction false} LossesCollected(
    package: Package, paths: seq<string>, k: nat, slides: seq<Slide>, losses: set<Loss>, loss: Loss)
    requires k <= |paths|
    ensures var r := SlidesFrom(package, paths, k, slides, losses);
            r.Success? ==>
              (loss in r.value.1 <==>
                 loss in losses
                 || exists i :: k <= i < |paths| && paths[i] in package
                                && loss in Unsupported(paths[i], package[paths[i]]))
    decreases |paths| - k
  {
    hide SlideFrom, Unsupported;
    if k < |paths| && paths[k] in package && SlideFrom(k + 1, package[paths[k]]).Success? {
      var slide := SlideFrom(k + 1, package[paths[k]]).value;
      LossesCollected(package, paths, k + 1, slides + [slide],
                      losses + Unsupported(paths[k], package[paths[k]]), loss);
    }
  }

  // ---------------------------------------------------------------- losses

  /** A slide part by its name: no relationships part, and of the kind slides have. */
  ghost predicate SlideName(part: string) {
    && (exists rest :: part == "ppt/slides/slide" + rest)
    && (exists stem :: part == stem + ".xml")
    && !exists a, b :: part == a + "/_rels/" + b
  }

  lemma StartsIff(s: string, prefix: string)
    ensures StartsWith(s, prefix) <==> exists rest :: s == prefix + rest
  {
    if StartsWith(s, prefix) {
      assert s == prefix + s[|prefix|..];
    }
  }

  lemma EndsIff(s: string, suffix: string)
    ensures EndsWith(s, suffix) <==> exists stem :: s == stem + suffix
  {
    if EndsWith(s, suffix) {
      assert s == s[..|s| - |suffix|] + suffix;
    }
  }

  lemma ContainsIff(s: string, piece: string)
    ensures Contains(s, piece) <==> exists a, b :: s == a + piece + b
  {
    if Contains(s, piece) {
      var i :| 0 <= i <= |s| && StartsWith(s[i..], piece);
      assert s == s[..i] + piece + s[i..][|piece|..];
    }
    forall a, b | s == a + piece + b
      ensures Contains(s, piece)
    {
      assert s[|a|..] == piece + b && StartsWith(s[|a|..], piece);
    }
  }

  lemma SlideNameIff(part: string)
    ensures SlideName(part) <==> IsSlidePart(part)
  {
    hide StartsWith, EndsWith, Contains;
    StartsIff(part, "ppt/slides/slide");
    EndsIff(part, ".xml");
    ContainsIff(part, "/_rels/");
  }

  /** The slide parts of a presentation, in order. */
  function Paths(package: Package): seq<string> {
    if PRESENTATION in package && PathsOf(package, package[PRESENTATION]).Success?
    then PathsOf(package, package[PRESENTATION]).value
    else []
  }

  /** Exactly what the report of a reading says of one part. */
  ghost predicate ReportsOn(package: Package, losses: set<Loss>, part: string) {
    var read := part in Paths(package) && part in package;
    && (Transition(part) in losses <==> read && Holds(package[part], "transition"))
    && (Media(part) in losses <==>
          read && (Holds(package[part], "pic") || Holds(package[part], "audio") || Holds(package[part], "video")))
    && (Shapes(part) in losses <==>
          read && !Holds(package[part], "block")
          && (Holds(package[part], "sp") || Holds(package[part], "graphicFrame")))
    && (OrphanSlide(part) in losses <==> part in package && part !in Paths(package) && SlideName(part))
  }

  lemma UnsupportedIs(part: string, root: Node, named: string)
    ensures Transition(named) in Unsupported(part, root) <==> named == part && Holds(root, "transition")
    ensures Media(named) in Unsupported(part, root) <==>
              named == part && (Holds(root, "pic") || Holds(root, "audio") || Holds(root, "video"))
    ensures Shapes(named) in Unsupported(part, root) <==>
              named == part && !Holds(root, "block") && (Holds(root, "sp") || Holds(root, "graphicFrame"))
    ensures OrphanSlide(named) !in Unsupported(part, root)
  {
    hide Holds, Tagged;
    HoldsIff(root, "transition");
    HoldsIff(root, "pic");
    HoldsIff(root, "audio");
    HoldsIff(root, "video");
    HoldsIff(root, "block");
    HoldsIff(root, "sp");
    HoldsIff(root, "graphicFrame");
  }

  /** A loss is an orphan or comes from the part it names. */
  lemma LossFrom(package: Package, deck: Deck, losses: set<Loss>, loss: Loss)
    requires DeckOf(package) == Success((deck, losses))
    ensures loss in losses <==>
              loss in Orphans(package, Paths(package))
              || exists path :: path in Paths(package) && path in package && loss in Unsupported(path, package[path])
  {
    var paths := Paths(package);
    hide PathsOf, Unsupported, Orphans;
    LossesCollected(package, paths, 0, [], Orphans(package, paths), loss);
  }

  lemma OrphanIff(package: Package, paths: seq<string>, loss: Loss)
    ensures loss in Orphans(package, paths) <==>
              loss.OrphanSlide? && loss.part in package && loss.part !in paths && SlideName(loss.part)
  {
    SlideNameIff(loss.part);
    hide SlideName, IsSlidePart;
  }

  lemma LossOf(package: Package, deck: Deck, losses: set<Loss>, loss: Loss)
    requires DeckOf(package) == Success((deck, losses))
    ensures loss in losses <==>
              if loss.OrphanSlide? then loss.part in package && loss.part !in Paths(package) && SlideName(loss.part)
              else loss.part in Paths(package) && loss.part in package
                   && loss in Unsupported(loss.part, package[loss.part])
  {
    LossFrom(package, deck, losses, loss);
    OrphanIff(package, Paths(package), loss);
    forall path | path in package
      ensures loss in Unsupported(path, package[path]) ==> loss.part == path && !loss.OrphanSlide?
    {
      UnsupportedIs(path, package[path], loss.part);
    }
    hide DeckOf, Paths, Unsupported, Orphans, SlideName;
  }

  /** Whoever wrote the presentation, an accepted reading reports exactly its losses. */
  lemma LossesIff(package: Package, deck: Deck, losses: set<Loss>, part: string)
    requires DeckOf(package) == Success((deck, losses))
    ensures ReportsOn(package, losses, part)
  {
    LossOf(package, deck, losses, Transition(part));
    LossOf(package, deck, losses, Media(part));
    LossOf(package, deck, losses, Shapes(part));
    LossOf(package, deck, losses, OrphanSlide(part));
    if part in package {
      UnsupportedIs(part, package[part], part);
    }
    hide DeckOf, Paths, Unsupported, SlideName, Holds;
  }

  // ---------------------------------------------------------------- slides

  ghost predicate LocalOr(node: Node, local: string, otherwise: string, value: string) {
    HasLocal(node, local, value) || (WithoutLocal(node, local) && value == otherwise)
  }

  ghost predicate LocalIf(node: Node, local: string, value: Option<string>) {
    if value.Some? then HasLocal(node, local, value.value) else WithoutLocal(node, local)
  }

  lemma LocalIfIs(node: Node, local: string)
    ensures LocalIf(node, local, Attr(node, local))
  {
    HasLocalIff(node, local);
    hide HasLocal, WithoutLocal, AttrAny;
  }

  lemma LocalOrIs(node: Node, local: string, otherwise: string)
    ensures LocalOr(node, local, otherwise, GetOr(Attr(node, local), otherwise))
  {
    HasLocalIff(node, local);
    hide HasLocal, WithoutLocal, AttrAny;
  }

  /** The text of the first child with this tag, or nothing when there is no such child or it has no text. */
  ghost predicate Worded(node: Node, tag: string, text: string) {
    var children := ChildrenOf(node);
    || (exists i :: 0 <= i < |children| && HasTag(children[i], tag) && text == GetOr(TextOf(children[i]), "")
                    && forall j :: 0 <= j < i ==> !HasTag(children[j], tag))
    || (text == "" && forall i :: 0 <= i < |children| ==> !HasTag(children[i], tag))
  }

  lemma {:induction false} FirstHavingIs(nodes: seq<Node>, tag: string) returns (i: nat)
    ensures i <= |nodes| && forall j :: 0 <= j < i ==> !HasTag(nodes[j], tag)
    ensures i < |nodes| ==> HasTag(nodes[i], tag)
    ensures FirstHaving(nodes, tag) == if i < |nodes| then Some(nodes[i]) else None
  {
    i := 0;
    if nodes != [] && !HasTag(nodes[0], tag) {
      var rest := FirstHavingIs(nodes[1..], tag);
      i := rest + 1;
    }
  }

  lemma WordedIs(node: Node, tag: string)
    ensures Worded(node, tag, ChildText(node, tag))
  {
    var i := FirstHavingIs(ChildrenOf(node), tag);
    hide FirstHaving, HasTag, TextOf;
  }

  /** A block is of the kind its element names, and an image without a backend belongs to this codec. */
  ghost predicate BlockReads(node: Node, block: Block) {
    match block
    case Heading(text) => HasLocal(node, "kind", "heading") && Worded(node, "value", text)
    case BulletList(items) => HasLocal(node, "kind", "bullet-list") && items == ChildTexts(node, "item")
    case Table(_, _) => HasLocal(node, "kind", "table") && block == TableFrom(node)
    case Image(reference) =>
      && HasLocal(node, "kind", "image-ref")
      && LocalOr(node, "backend", CODEC_ID, reference.backend)
      && LocalOr(node, "external-id", "", reference.externalId)
      && LocalIf(node, "version", reference.version)
      && LocalIf(node, "web-url", reference.webUrl)
  }

  ghost predicate KindSupported(node: Node) {
    exists kind :: kind in ["heading", "bullet-list", "table", "image-ref"] && HasLocal(node, "kind", kind)
  }

  lemma BlockIs(node: Node)
    ensures BlockFrom(node).Success? <==> KindSupported(node)
    ensures BlockFrom(node).Success? ==> BlockReads(node, BlockFrom(node).value)
  {
    HasLocalIff(node, "kind");
    LocalOrIs(node, "backend", CODEC_ID);
    LocalOrIs(node, "external-id", "");
    LocalIfIs(node, "version");
    LocalIfIs(node, "web-url");
    WordedIs(node, "value");
    hide Worded, HasLocal, WithoutLocal, LocalOr, LocalIf, AttrAny, ChildText, ChildTexts, RowsFrom;
    var kinds := ["heading", "bullet-list", "table", "image-ref"];
    assert kinds[0] in kinds && kinds[1] in kinds && kinds[2] in kinds && kinds[3] in kinds;
    var kind := Attr(node, "kind");
    if kind.Some? {
      assert BlockFrom(node).Success? <==> kind.value in kinds;
    }
  }

  lemma {:induction false} BlocksAre(nodes: seq<Node>)
    ensures BlocksFrom(nodes).Success? <==> forall i :: 0 <= i < |nodes| ==> KindSupported(nodes[i])
    ensures var r := BlocksFrom(nodes);
            r.Success? ==>
              |r.value| == |nodes| && forall i :: 0 <= i < |nodes| ==> BlockReads(nodes[i], r.value[i])
  {
    if nodes != [] {
      BlockIs(nodes[0]);
      BlocksAre(nodes[1..]);
      hide BlockFrom, KindSupported, BlockReads;
    }
  }

  /** A slide without an id or a title is named by its number. */
  ghost predicate SlideReads(root: Node, number: nat, slide: Slide) {
    && LocalOr(root, "id", "slide-" + NatText(number), slide.id)
    && (HasLocal(root, "title", slide.title)
        || (WithoutLocal(root, "title") && LocalOr(root, "name", "Slide " + NatText(number), slide.title)))
    && var found := Tagged(root, "block");
       |slide.blocks| == |found| && forall i :: 0 <= i < |found| ==> BlockReads(found[i], slide.blocks[i])
  }

  lemma SlideIs(number: nat, root: Node)
    ensures SlideFrom(number, root).Success? <==>
              forall x :: Within(x, root) && HasTag(x, "block") ==> KindSupported(x)
    ensures SlideFrom(number, root).Success? ==> SlideReads(root, number, SlideFrom(number, root).value)
  {
    var found := Tagged(root, "block");
    BlocksAre(found);
    forall x
      ensures x in found <==> Within(x, root) && HasTag(x, "block")
    {
      TaggedMembers(root, "block", x);
    }
    SlideNamed(number, root);
    hide Tagged, Within, HasTag, KindSupported, BlockReads, LocalOr, HasLocal, WithoutLocal, Attr;
    assert BlocksFrom(found).Success? <==> forall x :: x in found ==> KindSupported(x);
  }

  lemma SlideNamed(number: nat, root: Node)
    ensures LocalOr(root, "id", "slide-" + NatText(number), GetOr(Attr(root, "id"), "slide-" + NatText(number)))
    ensures var name := if Attr(root, "title").Some? then Attr(root, "title") else Attr(root, "name");
            var title := GetOr(name, "Slide " + NatText(number));
            || HasLocal(root, "title", title)
            || (WithoutLocal(root, "title") && LocalOr(root, "name", "Slide " + NatText(number), title))
  {
    LocalOrIs(root, "id", "slide-" + NatText(number));
    LocalOrIs(root, "name", "Slide " + NatText(number));
    HasLocalIff(root, "title");
    hide LocalOr, HasLocal, WithoutLocal, AttrAny, NatText;
  }

  // ---------------------------------------------------------------- relationships

  ghost predicate SlideRelationship(node: Node, id: string) {
    HasLocal(node, "Type", REL_SLIDE) && HasLocal(node, "Id", id)
  }

  /** The last slide relationship with this id has this target. */
  ghost predicate LeadsTo(nodes: seq<Node>, id: string, target: string) {
    exists i :: 0 <= i < |nodes| && SlideRelationship(nodes[i], id) && HasLocal(nodes[i], "Target", target)
                && forall j :: i < j < |nodes| ==> !SlideRelationship(nodes[j], id)
  }

  ghost predicate Known(nodes: seq<Node>, id: string) {
    exists i :: 0 <= i < |nodes| && SlideRelationship(nodes[i], id)
  }

  /** A slide relationship needs an id and a target. */
  ghost predicate Complete(node: Node) {
    HasLocal(node, "Type", REL_SLIDE) ==> !WithoutLocal(node, "Id") && !WithoutLocal(node, "Target")
  }

  lemma RelationshipIs(node: Node, id: string)
    ensures SlideRelationship(node, id) <==> Attr(node, "Type") == Some(REL_SLIDE) && Attr(node, "Id") == Some(id)
    ensures forall target :: HasLocal(node, "Target", target) <==> Attr(node, "Target") == Some(target)
    ensures Complete(node) <==>
              (Attr(node, "Type") == Some(REL_SLIDE) ==> Attr(node, "Id").Some? && Attr(node, "Target").Some?)
  {
    HasLocalIff(node, "Type");
    HasLocalIff(node, "Id");
    HasLocalIff(node, "Target");
    hide HasLocal, WithoutLocal, AttrAny;
  }

  lemma {:induction false} RelationshipsAre(nodes: seq<Node>, found: map<string, string>, id: string)
    ensures var r := RelationshipMap(nodes, found);
            && (r.Success? <==> forall i :: 0 <= i < |nodes| ==> Complete(nodes[i]))
            && (r.Success? ==>
                  if Known(nodes, id)
                  then id in r.value && LeadsTo(nodes, id, r.value[id])
                  else (id in r.value <==> id in found) && (id in r.value ==> r.value[id] == found[id]))
    decreases |nodes|
  {
    hide Attr, SlideRelationship, Complete;
    if nodes != [] {
      var node, rest := nodes[0], nodes[1..];
      RelationshipIs(node, id);
      if Attr(node, "Type") != Some(REL_SLIDE) {
        RelationshipsAre(rest, found, id);
        LeadsLater(nodes, id);
      } else if Complete(node) {
        RelationshipsAre(rest, found[Attr(node, "Id").value := Attr(node, "Target").value], id);
        LeadsLater(nodes, id);
      }
    }
  }

  lemma LeadsLater(nodes: seq<Node>, id: string)
    requires nodes != []
    ensures forall target :: LeadsTo(nodes[1..], id, target) ==> LeadsTo(nodes, id, target)
    ensures !Known(nodes[1..], id) && SlideRelationship(nodes[0], id) ==>
              forall target :: HasLocal(nodes[0], "Target", target) ==> LeadsTo(nodes, id, target)
    ensures Known(nodes, id) <==> SlideRelationship(nodes[0], id) || Known(nodes[1..], id)
  {
    hide SlideRelationship, HasLocal;
    var rest := nodes[1..];
    assert forall i :: 0 <= i < |rest| ==> rest[i] == nodes[i + 1];
    assert forall i :: 1 <= i < |nodes| ==> nodes[i] == rest[i - 1];
    forall target | LeadsTo(rest, id, target)
      ensures LeadsTo(nodes, id, target)
    {
      var i :| 0 <= i < |rest| && SlideRelationship(rest[i], id) && HasLocal(rest[i], "Target", target)
               && forall j :: i < j < |rest| ==> !SlideRelationship(rest[j], id);
      assert nodes[i + 1] == rest[i];
    }
  }

  lemma {:induction false} RelIdsAre(nodes: seq<Node>, id: string)
    ensures id in RelIdsOf(nodes) <==> exists i :: 0 <= i < |nodes| && Has(nodes[i], R_NS, "id", id)
  {
    if nodes != [] {
      RelIdsAre(nodes[1..], id);
      HasIff(nodes[0], R_NS, "id");
      hide Has, AttrNs;
      assert forall i :: 1 <= i < |nodes| ==> nodes[i] == nodes[1..][i - 1];
      assert forall i :: 0 <= i < |nodes[1..]| ==> nodes[1..][i] == nodes[i + 1];
    }
  }

  lemma {:induction false} ResolvedAre(ids: seq<string>, relationships: map<string, string>)
    ensures var r := ResolveAll(ids, relationships);
            && (r.Success? <==> forall id :: id in ids ==> id in relationships)
            && (r.Success? ==>
                  && |r.value| == |ids|
                  && forall i :: 0 <= i < |ids| ==> r.value[i] == ResolveTarget(relationships[ids[i]]))
  {
    hide ResolveTarget;
    if ids != [] {
      ResolvedAre(ids[1..], relationships);
    }
  }

  /** The text with every backslash turned into a slash. */
  ghost predicate Slashed(text: string, plain: string) {
    |plain| == |text| && forall i :: 0 <= i < |text| ==> plain[i] == if text[i] == '\\' then '/' else text[i]
  }

  lemma {:induction false} ReplaceSlashes(text: string)
    ensures Slashed(text, Replace(text, '\\', "/"))
  {
    if text != [] {
      ReplaceSlashes(text[1..]);
    }
  }

  lemma SlashedOnce(text: string, a: string, b: string)
    requires Slashed(text, a) && Slashed(text, b)
    ensures a == b
  {
  }

  /** A target is absolute, already below `ppt/`, or relative to it; backslashes count as slashes. */
  lemma TargetCases(target: string, plain: string)
    requires Slashed(target, plain)
    ensures forall rest :: plain == "/" + rest ==> ResolveTarget(target) == rest
    ensures forall rest :: plain == "ppt/" + rest ==> ResolveTarget(target) == plain
    ensures (forall rest :: plain != "/" + rest && plain != "ppt/" + rest) ==> ResolveTarget(target) == "ppt/" + plain
  {
    ReplaceSlashes(target);
    SlashedOnce(target, plain, Replace(target, '\\', "/"));
    StartsIff(plain, "ppt/");
    hide Slashed, Replace, StartsWith;
    if plain != [] && plain[0] == '/' {
      assert plain == "/" + plain[1..];
    }
  }

  /** The entry with this id leads to this part. */
  ghost predicate LeadsToPart(nodes: seq<Node>, id: string, path: string) {
    exists target :: LeadsTo(nodes, id, target) && path == ResolveTarget(target)
  }

  lemma RelationshipsFound(nodes: seq<Node>)
    ensures var r := RelationshipMap(nodes, map[]);
            && (r.Success? <==> forall i :: 0 <= i < |nodes| ==> Complete(nodes[i]))
            && (r.Success? ==>
                  && (forall id :: id in r.value <==> Known(nodes, id))
                  && (forall id :: id in r.value ==> LeadsTo(nodes, id, r.value[id])))
  {
    RelationshipsAre(nodes, map[], "");
    forall id {
      RelationshipsAre(nodes, map[], id);
    }
    hide Complete, Known, RelationshipMap, LeadsTo;
  }

  lemma ResolvedLead(nodes: seq<Node>, ids: seq<string>)
    requires RelationshipMap(nodes, map[]).Success?
    ensures var r := ResolveAll(ids, RelationshipMap(nodes, map[]).value);
            && (r.Success? <==> forall id :: id in ids ==> Known(nodes, id))
            && (r.Success? ==>
                  |r.value| == |ids| && forall i :: 0 <= i < |ids| ==> LeadsToPart(nodes, ids[i], r.value[i]))
  {
    RelationshipsFound(nodes);
    var found := RelationshipMap(nodes, map[]).value;
    ResolvedAre(ids, found);
    hide Complete, Known, RelationshipMap, LeadsTo, ResolveTarget, ResolveAll;
    var r := ResolveAll(ids, found);
    if r.Success? {
      forall i | 0 <= i < |ids|
        ensures LeadsToPart(nodes, ids[i], r.value[i])
      {
        assert ids[i] in found;
      }
    }
  }

  /** The slide list, the relationships and the targets give the slide parts in order. */
  lemma PathsAre(package: Package, presentation: Node)
    requires PRESENTATION_RELS in package
    ensures var ids := RelIdsOf(Tagged(presentation, "sldId"));
            var nodes := Tagged(package[PRESENTATION_RELS], "Relationship");
            var r := PathsOf(package, presentation);
            && (r.Success? <==>
                  && (forall i :: 0 <= i < |nodes| ==> Complete(nodes[i]))
                  && (forall id :: id in ids ==> Known(nodes, id)))
            && (r.Success? ==>
                  |r.value| == |ids| && forall i :: 0 <= i < |ids| ==> LeadsToPart(nodes, ids[i], r.value[i]))
  {
    var ids := RelIdsOf(Tagged(presentation, "sldId"));
    var nodes := Tagged(package[PRESENTATION_RELS], "Relationship");
    RelationshipsFound(nodes);
    if RelationshipMap(nodes, map[]).Success? {
      ResolvedLead(nodes, ids);
    }
    hide Complete, Known, Tagged, RelIdsOf, RelationshipMap, LeadsToPart, ResolveAll;
  }

  // ---------------------------------------------------------------- whole presentations

  /** All the blocks of a slide part are of a known kind. */
  ghost predicate Decodable(package: Package, path: string) {
    path in package && forall x :: Within(x, package[path]) && HasTag(x, "block") ==> KindSupported(x)
  }

  /** A presentation is read exactly when its parts are there, its relationships lead and its blocks are known. */
  lemma AcceptedIff(package: Package)
    ensures DeckOf(package).Success? <==>
              && PRESENTATION in package && PRESENTATION_RELS in package
              && PathsOf(package, package[PRESENTATION]).Success?
              && forall i :: 0 <= i < |Paths(package)| ==> Decodable(package, Paths(package)[i])
  {
    if PRESENTATION in package && PathsOf(package, package[PRESENTATION]).Success? {
      var paths := Paths(package);
      assert PRESENTATION_RELS in package;
      SlidesRead(package, paths, 0, [], Orphans(package, paths));
      forall i | 0 <= i < |paths|
        ensures Decodable(package, paths[i]) <==>
                  paths[i] in package && SlideFrom(i + 1, package[paths[i]]).Success?
      {
        if paths[i] in package {
          SlideIs(i + 1, package[paths[i]]);
        }
      }
      hide Decodable, SlideFrom, PathsOf, SlidesFrom, Orphans;
    }
  }

  lemma DeckTitle(package: Package)
    ensures DeckOf(package).Success? ==>
              PRESENTATION in package
              && LocalOr(package[PRESENTATION], "title", "Presentation", DeckOf(package).value.0.title)
  {
    if PRESENTATION in package {
      LocalOrIs(package[PRESENTATION], "title", "Presentation");
    }
    hide LocalOr, PathsOf, SlidesFrom, Orphans, Attr;
  }

  /** Every slide is read from its part, in order, and the title from the presentation. */
  lemma DeckReads(package: Package)
    ensures var r := DeckOf(package);
            r.Success? ==>
              && |r.value.0.slides| == |Paths(package)|
              && (forall i :: 0 <= i < |Paths(package)| ==>
                    && Paths(package)[i] in package
                    && SlideReads(package[Paths(package)[i]], i + 1, r.value.0.slides[i]))
              && PRESENTATION in package
              && LocalOr(package[PRESENTATION], "title", "Presentation", r.value.0.title)
  {
    DeckTitle(package);
    hide LocalOr, SlideReads, SlideFrom;
    if DeckOf(package).Success? {
      var paths, slides := Paths(package), DeckOf(package).value.0.slides;
      SlidesRead(package, paths, 0, [], Orphans(package, paths));
      hide PathsOf, SlidesFrom, Orphans, DeckOf, Paths;
      forall i | 0 <= i < |paths|
        ensures SlideReads(package[paths[i]], i + 1, slides[i])
      {
        SlideIs(i + 1, package[paths[i]]);
      }
    }
  }

  // ---------------------------------------------------------------- refusals

  /** A refusal means what it says of the presentation. */
  ghost predicate RefusalMeans(package: Package, error: DeckError) {
    match error
    case MissingPart(part) =>
      part !in package && (part == PRESENTATION || part == PRESENTATION_RELS || part in Paths(package))
    case MissingId => exists node :: AmongRelationships(package, node) && WithoutLocal(node, "Id")
    case MissingTarget(id) =>
      exists node :: AmongRelationships(package, node) && HasLocal(node, "Id", id) && WithoutLocal(node, "Target")
    case UnresolvedRelationship(id) =>
      && PRESENTATION in package && PRESENTATION_RELS in package
      && id in RelIdsOf(Tagged(package[PRESENTATION], "sldId"))
      && !Known(Tagged(package[PRESENTATION_RELS], "Relationship"), id)
    case UnsupportedBlock(kind) =>
      exists path, x ::
        && path in Paths(package) && path in package && Within(x, package[path]) && HasTag(x, "block")
        && !KindSupported(x) && LocalOr(x, "kind", "", kind)
  }

  ghost predicate AmongRelationships(package: Package, node: Node) {
    && PRESENTATION_RELS in package
    && node in Tagged(package[PRESENTATION_RELS], "Relationship") && HasLocal(node, "Type", REL_SLIDE)
  }

  lemma {:induction false} RelationshipRefusal(nodes: seq<Node>, found: map<string, string>)
    ensures var r := RelationshipMap(nodes, found);
            r.Failure? ==>
              exists node :: node in nodes && HasLocal(node, "Type", REL_SLIDE)
                             && (if r.error == MissingId then WithoutLocal(node, "Id")
                                 else r.error.MissingTarget? && HasLocal(node, "Id", r.error.id)
                                      && WithoutLocal(node, "Target"))
    decreases |nodes|
  {
    if nodes != [] {
      var node := nodes[0];
      HasLocalIff(node, "Type");
      HasLocalIff(node, "Id");
      HasLocalIff(node, "Target");
      hide HasLocal, WithoutLocal, AttrAny;
      var id, target := Attr(node, "Id"), Attr(node, "Target");
      if Attr(node, "Type") != Some(REL_SLIDE) {
        RelationshipRefusal(nodes[1..], found);
      } else if id.Some? && target.Some? {
        RelationshipRefusal(nodes[1..], found[id.value := target.value]);
      }
    }
  }

  lemma {:induction false} ResolveRefusal(ids: seq<string>, relationships: map<string, string>)
    ensures var r := ResolveAll(ids, relationships);
            r.Failure? ==> r.error.UnresolvedRelationship? && r.error.id in ids && r.error.id !in relationships
  {
    if ids != [] {
      ResolveRefusal(ids[1..], relationships);
    }
  }

  lemma {:induction false} BlocksRefusal(nodes: seq<Node>)
    ensures var r := BlocksFrom(nodes);
            r.Failure? ==>
              r.error.UnsupportedBlock?
              && exists x :: x in nodes && !KindSupported(x) && LocalOr(x, "kind", "", r.error.kind)
  {
    if nodes != [] {
      BlockIs(nodes[0]);
      LocalOrIs(nodes[0], "kind", "");
      hide KindSupported, LocalOr, Attr;
      if BlockFrom(nodes[0]).Success? {
        BlocksRefusal(nodes[1..]);
      }
    }
  }

  lemma {:induction false} SlidesRefusal(
    package: Package, paths: seq<string>, k: nat, slides: seq<Slide>, losses: set<Loss>)
    requires k <= |paths|
    ensures var r := SlidesFrom(package, paths, k, slides, losses);
            r.Failure? ==>
              exists i :: k <= i < |paths|
                          && (if paths[i] in package then SlideFrom(i + 1, package[paths[i]]) == Failure(r.error)
                              else r.error == MissingPart(paths[i]))
    decreases |paths| - k
  {
    hide SlideFrom, Unsupported;
    if k < |paths| && paths[k] in package && SlideFrom(k + 1, package[paths[k]]).Success? {
      var slide := SlideFrom(k + 1, package[paths[k]]).value;
      SlidesRefusal(package, paths, k + 1, slides + [slide], losses + Unsupported(paths[k], package[paths[k]]));
    }
  }

  lemma PathsRefusal(package: Package, error: DeckError)
    requires PRESENTATION in package && PathsOf(package, package[PRESENTATION]) == Failure(error)
    ensures RefusalMeans(package, error)
  {
    if PRESENTATION_RELS in package {
      var nodes := Tagged(package[PRESENTATION_RELS], "Relationship");
      var ids := RelIdsOf(Tagged(package[PRESENTATION], "sldId"));
      RelationshipRefusal(nodes, map[]);
      RelationshipsFound(nodes);
      hide RelationshipMap, Known, Tagged, RelIdsOf, HasLocal, WithoutLocal, Complete, LeadsTo;
      if RelationshipMap(nodes, map[]).Success? {
        ResolveRefusal(ids, RelationshipMap(nodes, map[]).value);
      }
      hide ResolveAll;
    }
  }

  lemma SlideRefusal(package: Package, path: string, number: nat, error: DeckError)
    requires path in Paths(package) && path in package && SlideFrom(number, package[path]) == Failure(error)
    ensures RefusalMeans(package, error)
  {
    var found := Tagged(package[path], "block");
    BlocksRefusal(found);
    hide BlocksFrom, KindSupported, LocalOr, Paths;
    var x :| x in found && !KindSupported(x) && LocalOr(x, "kind", "", error.kind);
    TaggedMembers(package[path], "block", x);
  }

  /** Every refused presentation is refused for something that is wrong with it. */
  lemma DeckRefusalMeans(package: Package)
    ensures DeckOf(package).Failure? ==> RefusalMeans(package, DeckOf(package).error)
  {
    if PRESENTATION in package && DeckOf(package).Failure? {
      var error := DeckOf(package).error;
      var read := PathsOf(package, package[PRESENTATION]);
      if read.Failure? {
        PathsRefusal(package, error);
      } else {
        var paths := Paths(package);
        SlidesRefusal(package, paths, 0, [], Orphans(package, paths));
        hide PathsOf, SlidesFrom, Orphans, SlideFrom;
        var i :| 0 <= i < |paths|
                 && (if paths[i] in package then SlideFrom(i + 1, package[paths[i]]) == Failure(error)
                     else error == MissingPart(paths[i]));
        if paths[i] in package {
          SlideRefusal(package, paths[i], i + 1, error);
        }
      }
    }
  }
}
