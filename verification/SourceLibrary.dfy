/** The offline source library: four maps changed in place, and quotation under ceilings. */
module SourceLibraries {
  import opened Wrappers
  import opened Text
  import opened LibraryStates

  // ---------------------------------------------------------------- the order of ordered maps

  lemma {:induction false} BeforeTotal(a: string, b: string)
    ensures a == b || TextBefore(a, b) || TextBefore(b, a)
    ensures !(TextBefore(a, b) && TextBefore(b, a))
    ensures TextBefore(a, b) ==> a != b
  {
    if a != [] && b != [] && a[0] == b[0] {
      BeforeTotal(a[1..], b[1..]);
      assert a == [a[0]] + a[1..] && b == [b[0]] + b[1..];
    }
  }

  lemma {:induction false} BeforeTransitive(a: string, b: string, c: string)
    requires TextBefore(a, b) && TextBefore(b, c)
    ensures TextBefore(a, c)
  {
    if a != [] && a[0] == b[0] && b[0] == c[0] {
      BeforeTransitive(a[1..], b[1..], c[1..]);
    }
  }

  predicate IsLeast(k: string, keys: set<string>) {
    k in keys && forall x :: x in keys && x != k ==> TextBefore(k, x)
  }

  lemma {:induction false} LeastExists(keys: set<string>)
    requires keys != {}
    ensures exists k :: IsLeast(k, keys)
    decreases |keys|
  {
    var x :| x in keys;
    var rest := keys - {x};
    assert forall y :: y in keys && y != x ==> y in rest;
    if rest == {} {
      assert IsLeast(x, keys);
    } else {
      LeastExists(rest);
      var k :| IsLeast(k, rest);
      BeforeTotal(k, x);
      if TextBefore(k, x) {
        assert IsLeast(k, keys);
      } else {
        assert TextBefore(x, k);
        forall y | y in keys && y != x
          ensures TextBefore(x, y)
        {
          assert y in rest;
          if y != k {
            BeforeTransitive(x, k, y);
          }
        }
        assert IsLeast(x, keys);
      }
    }
  }

  // ---------------------------------------------------------------- the orphan report

  ghost predicate Ascending(out: seq<Annotation>) {
    forall i, j :: 0 <= i < j < |out| ==> TextBefore(out[i].id, out[j].id)
  }

  /** The report lists annotation `id`, with its record. */
  ghost predicate Lists(lib: Library, out: seq<Annotation>, id: string) {
    id in lib.annotations && lib.annotations[id] in out
  }

  /** Exactly the orphans, once each, in identity order. */
  ghost predicate OrphanReport(lib: Library, out: seq<Annotation>) {
    && Ascending(out)
    && (forall i :: 0 <= i < |out| ==> Orphan(lib, out[i].id) && out[i] == lib.annotations[out[i].id])
    && (forall id :: Orphan(lib, id) ==> Lists(lib, out, id))
  }

  /** The answer a command gives its caller. */
  function Outcome(refusal: Option<LibraryError>): Result<(), LibraryError> {
    match refusal
    case None => Success(())
    case Some(e) => Failure(e)
  }

  class SourceLibrary {
    var editions: map<EditionId, Edition>
    var spans: map<SpanId, Span>
    var annotations: map<string, Annotation>
    var spansByEdition: map<EditionId, set<SpanId>>

    function View(): Library
      reads this
    {
      Library(editions, spans, annotations, spansByEdition)
    }

    constructor ()
      ensures View() == EMPTY && Valid(View())
    {
      editions, spans, annotations, spansByEdition := map[], map[], map[], map[];
      new;
      EmptyIsValid();
    }

    /** Imports an already supplied edition; the same material twice is accepted and changes nothing. */
    method Import(
      id: EditionId, locator: Locator, representation: Representation, licence: Licence,
      checkedAt: string, expiresAt: Option<string>)
      returns (r: Result<(), LibraryError>)
      modifies this
      ensures var c := Command.Import(Edition(id, locator, representation.contentId, representation.text,
                                              licence, checkedAt, expiresAt));
              r == Outcome(Refusal(old(View()), c)) && View() == Apply(old(View()), c)
      ensures old(Valid(View())) ==> Valid(View())
    {
      hide Grouping, Verifies, SpanOk;
      var edition := Edition(id, locator, representation.contentId, representation.text,
                             licence, checkedAt, expiresAt);
      ghost var c := Command.Import(edition);
      if Valid(View()) {
        ApplyKeepsValid(View(), c);
      }
      if licence.maxQuoteChars == 0 || licence.maxExportChars < licence.maxQuoteChars {
        return Failure(InvalidCeilings);
      }
      if id in editions {
        return if editions[id] == edition then Success(()) else Failure(DifferentMaterial);
      }
      editions := editions[id := edition];
      RebuildIndexes();
      return Success(());
    }

    /** Admits a span only when its selector verifies against the edition's own text. */
    method AdmitSpan(editionId: EditionId, id: SpanId, selector: Selector, representation: Representation)
      returns (r: Result<(), LibraryError>)
      modifies this
      ensures var c := Command.Admit(editionId, id, selector, representation);
              r == Outcome(Refusal(old(View()), c)) && View() == Apply(old(View()), c)
      ensures old(Valid(View())) ==> Valid(View())
    {
      hide Grouping, Verifies, SpanOk;
      ghost var c := Command.Admit(editionId, id, selector, representation);
      if Valid(View()) {
        ApplyKeepsValid(View(), c);
      }
      if editionId !in editions {
        return Failure(MissingEdition);
      }
      var edition := editions[editionId];
      if edition.representationId != representation.contentId || edition.text != representation.text {
        return Failure(RepresentationMismatch);
      }
      if !Verifies(selector, representation) {
        return Failure(SelectorMismatch);
      }
      if id in spans {
        return Failure(SpanAdmitted);
      }
      spans := spans[id := Span(id, editionId, selector)];
      RebuildIndexes();
      return Success(());
    }

    method Annotate(annotation: Annotation) returns (r: Result<(), LibraryError>)
      modifies this
      ensures var c := Command.Annotate(annotation);
              r == Outcome(Refusal(old(View()), c)) && View() == Apply(old(View()), c)
      ensures old(Valid(View())) ==> Valid(View())
    {
      hide Grouping, Verifies, SpanOk;
      if Valid(View()) {
        ApplyKeepsValid(View(), Command.Annotate(annotation));
      }
      if annotation.spanId !in spans {
        return Failure(TargetNotAdmitted);
      }
      if annotation.id in annotations {
        return Failure(AnnotationExists);
      }
      annotations := annotations[annotation.id := annotation];
      return Success(());
    }

    /** Removes an edition with its spans; every annotation stays. */
    method Remove(editionId: EditionId) returns (removed: bool)
      modifies this
      ensures removed == (editionId in old(editions))
      ensures View() == Apply(old(View()), Command.Remove(editionId))
      ensures old(Valid(View())) ==> Valid(View())
    {
      hide Grouping, Verifies, SpanOk;
      if Valid(View()) {
        ApplyKeepsValid(View(), Command.Remove(editionId));
      }
      removed := editionId in editions;
      editions := editions - {editionId};
      spans := map s | s in spans && spans[s].editionId != editionId :: spans[s];
      RebuildIndexes();
    }

    /** Whatever the index held, it becomes the grouping of the spans. */
    method RebuildIndexes()
      modifies this`spansByEdition
      ensures spansByEdition == Grouping(editions, spans)
    {
      hide Grouping;
      spansByEdition := map[];
      var todo := spans.Keys;
      NoGroups(editions);
      ghost var done: map<SpanId, Span> := map[];
      while todo != {}
        invariant todo <= spans.Keys
        invariant done.Keys == spans.Keys - todo
        invariant forall s :: s in done ==> done[s] == spans[s]
        invariant spansByEdition == Grouping(editions, done)
        decreases |todo|
      {
        var id :| id in todo;
        var edition := spans[id].editionId;
        todo := todo - {id};
        GroupOne(editions, done, id, spans[id]);
        done := done[id := spans[id]];
        if edition in editions {
          var group := if edition in spansByEdition then spansByEdition[edition] else {};
          spansByEdition := spansByEdition[edition := group + {id}];
        }
      }
      assert done == spans;
    }

    /** Annotations whose target span is not admitted, in identity order. */
    method OrphanedAnnotations() returns (out: seq<Annotation>)
      requires Valid(View())
      ensures OrphanReport(View(), out)
    {
      assert forall a :: a in annotations ==> annotations[a].id == a;
      hide TextBefore, Valid;
      out := [];
      var todo := annotations.Keys;
      while todo != {}
        invariant todo <= annotations.Keys
        invariant Ascending(out)
        invariant forall i :: 0 <= i < |out| ==>
                    && Orphan(View(), out[i].id) && out[i] == annotations[out[i].id]
                    && forall k :: k in todo ==> TextBefore(out[i].id, k)
        invariant forall id :: Orphan(View(), id) && id !in todo ==> Lists(View(), out, id)
        decreases |todo|
      {
        LeastExists(todo);
        var id :| IsLeast(id, todo);
        todo := todo - {id};
        if annotations[id].spanId !in spans {
          ghost var before := out;
          out := out + [annotations[id]];
          assert forall x :: Lists(View(), before, x) ==> Lists(View(), out, x);
          assert out[|before|] == annotations[id];
        }
      }
    }

    /**
     Resolves the spans in request order. The request succeeds exactly when it is quotable; it
     fails with the refusal of the first span refused.
     */
    method Quote(ids: seq<SpanId>, checkedAt: string, forExport: bool)
      returns (r: Result<seq<Quotation>, LibraryError>)
      ensures r.Success? <==> Quotable(View(), ids, checkedAt, forExport)
      ensures r.Success? ==> Answers(View(), ids, r.value)
      ensures r.Failure? ==>
                exists i: nat :: FirstRefused(View(), ids, i, checkedAt, forExport, r.error)
    {
      hide IsStale, TextBefore, Requested, Quotable;
      var used: map<EditionId, u32> := map[];
      var out := [];
      NothingYet(View(), ids);
      for i := 0 to |ids|
        invariant Answers(View(), ids[..i], out)
        invariant forall k :: 0 <= k < i ==> RefusalAt(View(), ids, k, checkedAt, forExport).None?
        invariant forall e :: UsedSoFar(used, e) == Requested(View(), ids[..i], e)
        invariant forall k :: 0 <= k < i ==>
                    ids[k] in spans && spans[ids[k]].editionId in editions
                    && WithinTotal(View(), ids[..i], spans[ids[k]].editionId)
      {
        ghost var lib := View();
        var id := ids[i];
        if id !in spans {
          NotQuotable(lib, ids, i, checkedAt, forExport);
          return Failure(SpanNotAdmitted);
        }
        var span := spans[id];
        if span.editionId !in editions {
          NotQuotable(lib, ids, i, checkedAt, forExport);
          return Failure(SourceRemoved);
        }
        var edition := editions[span.editionId];
        if edition.expiresAt.Some? && !TextBefore(checkedAt, edition.expiresAt.value) {
          StaleMeans(edition, checkedAt);
          NotQuotable(lib, ids, i, checkedAt, forExport);
          return Failure(Stale);
        }
        StaleMeans(edition, checkedAt);
        if forExport && !edition.licence.permitsExport {
          NotQuotable(lib, ids, i, checkedAt, forExport);
          return Failure(ExportRefused);
        }
        var chars := |span.selector.exact|;
        if chars > U32_MAX {
          NotQuotable(lib, ids, i, checkedAt, forExport);
          return Failure(SizeOverflow);
        }
        if chars > edition.licence.maxQuoteChars {
          NotQuotable(lib, ids, i, checkedAt, forExport);
          return Failure(QuoteTooLong);
        }
        RequestedStep(lib, ids, i);
        var total := UsedSoFar(used, span.editionId) + chars;
        assert total == Requested(lib, ids[..i + 1], span.editionId);
        if total > U32_MAX {
          NotQuotable(lib, ids, i, checkedAt, forExport);
          return Failure(SizeOverflow);
        }
        ghost var before := used;
        used := used[span.editionId := total];
        if total > edition.licence.maxExportChars {
          NotQuotable(lib, ids, i, checkedAt, forExport);
          return Failure(ExportTooLong);
        }
        assert ids[..i + 1][..i] == ids[..i];
        forall e
          ensures UsedSoFar(used, e) == Requested(lib, ids[..i + 1], e)
        {
          assert UsedSoFar(before, e) == Requested(lib, ids[..i], e);
        }
        out := out + [Quotation(span.editionId, span.id, span.selector.exact)];
      }
      assert ids[..|ids|] == ids;
      AllAccepted(View(), ids, checkedAt, forExport);
      return Success(out);
    }
  }

  function UsedSoFar(used: map<EditionId, u32>, e: EditionId): nat {
    if e in used then used[e] else 0
  }

  lemma StaleMeans(edition: Edition, checkedAt: string)
    ensures IsStale(edition, checkedAt) <==>
              edition.expiresAt.Some? && !TextBefore(checkedAt, edition.expiresAt.value)
  {
  }

  lemma NothingYet(lib: Library, ids: seq<SpanId>)
    ensures forall e :: Requested(lib, ids[..0], e) == 0
  {
  }

  lemma RequestedStep(lib: Library, ids: seq<SpanId>, i: nat)
    requires i < |ids| && ids[i] in lib.spans
    ensures forall e :: Requested(lib, ids[..i + 1], e) == Requested(lib, ids[..i], e)
              + if lib.spans[ids[i]].editionId == e then |lib.spans[ids[i]].selector.exact| else 0
  {
    forall e {
      RequestedSnoc(lib, ids, i, e);
    }
  }

  /** A refusal at any span refuses the whole request: totals only grow. */
  lemma NotQuotable(lib: Library, ids: seq<SpanId>, i: nat, checkedAt: string, forExport: bool)
    requires i < |ids|
    requires forall k :: 0 <= k < i ==> RefusalAt(lib, ids, k, checkedAt, forExport).None?
    ensures RefusalAt(lib, ids, i, checkedAt, forExport).Some? ==>
              && !Quotable(lib, ids, checkedAt, forExport)
              && FirstRefused(lib, ids, i, checkedAt, forExport, RefusalAt(lib, ids, i, checkedAt, forExport).value)
  {
    if SpanRefusal(lib, ids[i], checkedAt, forExport).None? {
      RequestedGrows(lib, ids, i + 1, lib.spans[ids[i]].editionId);
    }
  }

  lemma AllAccepted(lib: Library, ids: seq<SpanId>, checkedAt: string, forExport: bool)
    requires forall k :: 0 <= k < |ids| ==> RefusalAt(lib, ids, k, checkedAt, forExport).None?
    requires forall k :: 0 <= k < |ids| ==>
               ids[k] in lib.spans && lib.spans[ids[k]].editionId in lib.editions
               && WithinTotal(lib, ids, lib.spans[ids[k]].editionId)
    ensures Quotable(lib, ids, checkedAt, forExport)
  {
    forall k | 0 <= k < |ids|
      ensures SpanRefusal(lib, ids[k], checkedAt, forExport).None?
    {
      assert RefusalAt(lib, ids, k, checkedAt, forExport).None?;
    }
  }

  lemma NoGroups(editions: map<EditionId, Edition>)
    ensures Grouping(editions, map[]) == map[]
  {
  }

  lemma UsedWithOne(editions: map<EditionId, Edition>, done: map<SpanId, Span>, id: SpanId, span: Span)
    requires id !in done
    ensures UsedEditions(editions, done[id := span]) ==
            UsedEditions(editions, done) + if span.editionId in editions then {span.editionId} else {}
  {
    var next := done[id := span];
    forall e | e in UsedEditions(editions, done)
      ensures e in UsedEditions(editions, next)
    {
      var s :| s in done && done[s].editionId in editions && done[s].editionId == e;
      assert next[s] == done[s];
    }
    assert next[id] == span;
  }

  lemma SpansWithOne(done: map<SpanId, Span>, id: SpanId, span: Span, e: EditionId)
    requires id !in done
    ensures SpansOf(done[id := span], e) == SpansOf(done, e) + if e == span.editionId then {id} else {}
  {
  }

  lemma UnusedIsEmpty(editions: map<EditionId, Edition>, spans: map<SpanId, Span>, e: EditionId)
    requires e in editions && e !in UsedEditions(editions, spans)
    ensures SpansOf(spans, e) == {}
  {
  }

  /** Adding one span to the grouping. */
  lemma GroupOne(editions: map<EditionId, Edition>, done: map<SpanId, Span>, id: SpanId, span: Span)
    requires id !in done
    ensures var before := Grouping(editions, done);
            var after := Grouping(editions, done[id := span]);
            after == if span.editionId in editions
                     then before[span.editionId :=
                                 (if span.editionId in before then before[span.editionId] else {}) + {id}]
                     else before
  {
    hide UsedEditions, SpansOf;
    var before, after := Grouping(editions, done), Grouping(editions, done[id := span]);
    UsedWithOne(editions, done, id, span);
    if span.editionId in editions && span.editionId !in before {
      UnusedIsEmpty(editions, done, span.editionId);
    }
    var group := (if span.editionId in before then before[span.editionId] else {}) + {id};
    var expected := if span.editionId in editions then before[span.editionId := group] else before;
    forall e | e in after
      ensures e in expected && after[e] == expected[e]
    {
      SpansWithOne(done, id, span, e);
      UsedAreAdmitted(editions, done, e);
    }
    assert after.Keys == expected.Keys;
  }

  lemma UsedAreAdmitted(editions: map<EditionId, Edition>, spans: map<SpanId, Span>, e: EditionId)
    ensures e in UsedEditions(editions, spans) ==> e in editions
  {
  }
}
