/** The source library as a value: what may be in it, and what each command does to it. */
module LibraryStates {
  import opened Text
  import opened Wrappers

  type EditionId = string
  type SpanId = string

  datatype Locator = PublicId(scheme: string, value: string) | PrivateCollection(collection: string, item: string)

  datatype Licence = Licence(name: string, maxQuoteChars: u32, maxExportChars: u32, permitsExport: bool)

  /** An immutable normalized text with its content identity. */
  datatype Representation = Representation(contentId: string, text: string)

  datatype Edition = Edition(
    id: EditionId,
    locator: Locator,
    representationId: string,
    text: string,
    licence: Licence,
    checkedAt: string,
    expiresAt: Option<string>)

  datatype Selector = Selector(representationId: string, start: nat, end: nat, exact: string)

  datatype Span = Span(id: SpanId, editionId: EditionId, selector: Selector)

  datatype Layer = Witness | Context | Interpretation | Reflection | Response

  datatype Author = Human(name: string) | ModelProposal(name: string)

  datatype Annotation = Annotation(id: string, spanId: SpanId, layer: Layer, author: Author, text: string)

  datatype Quotation = Quotation(editionId: EditionId, spanId: SpanId, text: string)

  datatype LibraryError =
    | InvalidCeilings
    | DifferentMaterial
    | MissingEdition
    | RepresentationMismatch
    | SelectorMismatch
    | SpanAdmitted
    | TargetNotAdmitted
    | AnnotationExists
    | SpanNotAdmitted
    | SourceRemoved
    | Stale
    | ExportRefused
    | QuoteTooLong
    | SizeOverflow
    | ExportTooLong

  datatype Library = Library(
    editions: map<EditionId, Edition>,
    spans: map<SpanId, Span>,
    annotations: map<string, Annotation>,
    spansByEdition: map<EditionId, set<SpanId>>)

  const EMPTY := Library(map[], map[], map[], map[])

  /** The delivered selector picks exactly its text out of this very representation. */
  predicate Verifies(selector: Selector, representation: Representation) {
    && selector.representationId == representation.contentId
    && selector.start <= selector.end <= |representation.text|
    && representation.text[selector.start..selector.end] == selector.exact
  }

  function UsedEditions(editions: map<EditionId, Edition>, spans: map<SpanId, Span>): set<EditionId> {
    set s | s in spans && spans[s].editionId in editions :: spans[s].editionId
  }

  function SpansOf(spans: map<SpanId, Span>, e: EditionId): set<SpanId> {
    set s | s in spans && spans[s].editionId == e
  }

  /** Span ids grouped by the admitted edition they belong to. */
  function Grouping(editions: map<EditionId, Edition>, spans: map<SpanId, Span>): map<EditionId, set<SpanId>> {
    map e | e in UsedEditions(editions, spans) :: SpansOf(spans, e)
  }

  ghost predicate EditionOk(id: EditionId, edition: Edition) {
    && edition.id == id
    && 0 < edition.licence.maxQuoteChars <= edition.licence.maxExportChars
  }

  ghost predicate SpanOk(lib: Library, id: SpanId, span: Span) {
    && span.id == id
    && span.editionId in lib.editions
    && var edition := lib.editions[span.editionId];
       Verifies(span.selector, Representation(edition.representationId, edition.text))
  }

  /**
   Every span's edition is present and holds the span's exact text, keys match their records, and
   the index is the grouping of the spans.
   */
  ghost predicate Valid(lib: Library) {
    && (forall e :: e in lib.editions ==> EditionOk(e, lib.editions[e]))
    && (forall s :: s in lib.spans ==> SpanOk(lib, s, lib.spans[s]))
    && (forall a :: a in lib.annotations ==> lib.annotations[a].id == a)
    && lib.spansByEdition == Grouping(lib.editions, lib.spans)
  }

  // ---------------------------------------------------------------- commands

  datatype Command =
    | Import(edition: Edition)
    | Admit(editionId: EditionId, spanId: SpanId, selector: Selector, representation: Representation)
    | Annotate(annotation: Annotation)
    | Remove(removed: EditionId)

  predicate CeilingsOk(licence: Licence) {
    licence.maxQuoteChars != 0 && licence.maxExportChars >= licence.maxQuoteChars
  }

  function Reindexed(lib: Library): Library {
    lib.(spansByEdition := Grouping(lib.editions, lib.spans))
  }

  /** Why a command is refused, in the order the checks are made. */
  function Refusal(lib: Library, c: Command): Option<LibraryError> {
    match c
    case Import(edition) =>
      if !CeilingsOk(edition.licence) then Some(InvalidCeilings)
      else if edition.id in lib.editions && lib.editions[edition.id] != edition then Some(DifferentMaterial)
      else None
    case Admit(editionId, spanId, selector, representation) =>
      if editionId !in lib.editions then Some(MissingEdition)
      else
        var edition := lib.editions[editionId];
        if edition.representationId != representation.contentId || edition.text != representation.text
        then Some(RepresentationMismatch)
        else if !Verifies(selector, representation) then Some(SelectorMismatch)
        else if spanId in lib.spans then Some(SpanAdmitted)
        else None
    case Annotate(annotation) =>
      if annotation.spanId !in lib.spans then Some(TargetNotAdmitted)
      else if annotation.id in lib.annotations then Some(AnnotationExists)
      else None
    case Remove(_) => None
  }

  /** A refused command changes nothing. */
  function Apply(lib: Library, c: Command): Library {
    if Refusal(lib, c).Some? then lib
    else
      match c
      case Import(edition) =>
        if edition.id in lib.editions then lib
        else Reindexed(lib.(editions := lib.editions[edition.id := edition]))
      case Admit(editionId, spanId, selector, _) =>
        Reindexed(lib.(spans := lib.spans[spanId := Span(spanId, editionId, selector)]))
      case Annotate(annotation) =>
        lib.(annotations := lib.annotations[annotation.id := annotation])
      case Remove(removed) =>
        Reindexed(lib.(editions := lib.editions - {removed},
                       spans := map s | s in lib.spans && lib.spans[s].editionId != removed :: lib.spans[s]))
  }

  function ApplyAll(lib: Library, cs: seq<Command>): Library
    decreases |cs|
  {
    if cs == [] then lib else ApplyAll(Apply(lib, cs[0]), cs[1..])
  }

  lemma ApplyKeepsValid(lib: Library, c: Command)
    requires Valid(lib)
    ensures Valid(Apply(lib, c))
  {
    hide Verifies, Grouping;
    var next := Apply(lib, c);
    forall s | s in next.spans
      ensures SpanOk(next, s, next.spans[s])
    {
      if s in lib.spans && next.spans[s] == lib.spans[s] {
        assert SpanOk(lib, s, lib.spans[s]);
      } else {
        assert c.Admit? && s == c.spanId;
        var edition := lib.editions[c.editionId];
        assert c.representation == Representation(edition.representationId, edition.text);
      }
    }
  }

  /** Every reachable library is valid. */
  lemma {:induction false} ReachableIsValid(lib: Library, cs: seq<Command>)
    requires Valid(lib)
    ensures Valid(ApplyAll(lib, cs))
    decreases |cs|
  {
    if cs != [] {
      ApplyKeepsValid(lib, cs[0]);
      ReachableIsValid(Apply(lib, cs[0]), cs[1..]);
    }
  }

  lemma EmptyIsValid()
    ensures Valid(EMPTY)
  {
  }

  /** An edition is never rewritten: each command leaves it as it is or removes it. */
  lemma EditionsNeverChange(lib: Library, c: Command, id: EditionId)
    requires id in lib.editions
    ensures id in Apply(lib, c).editions ==> Apply(lib, c).editions[id] == lib.editions[id]
    ensures id !in Apply(lib, c).editions <==> c == Remove(id)
  {
  }

  // ---------------------------------------------------------------- annotations and orphans

  /** An annotation whose exact target span is not admitted now. */
  predicate Orphan(lib: Library, id: string) {
    id in lib.annotations && lib.annotations[id].spanId !in lib.spans
  }

  /** The command admits this span id now. */
  predicate AdmitsSpan(lib: Library, c: Command, id: SpanId) {
    c.Admit? && c.spanId == id && Refusal(lib, c).None?
  }

  /** Annotations are kept for ever, target and all. */
  lemma {:induction false} AnnotationsKept(lib: Library, cs: seq<Command>, id: string)
    requires id in lib.annotations
    ensures id in ApplyAll(lib, cs).annotations && ApplyAll(lib, cs).annotations[id] == lib.annotations[id]
    decreases |cs|
  {
    if cs != [] {
      AnnotationsKept(Apply(lib, cs[0]), cs[1..], id);
    }
  }

  /** An orphan stops being one exactly when its span id is admitted again. */
  lemma OrphanStepIff(lib: Library, c: Command, id: string)
    requires Orphan(lib, id)
    ensures Orphan(Apply(lib, c), id) <==> !AdmitsSpan(lib, c, lib.annotations[id].spanId)
  {
  }

  /** No command of the run admits the span id at its turn. */
  predicate NeverAdmitted(lib: Library, cs: seq<Command>, id: SpanId)
    decreases |cs|
  {
    cs == [] || (!AdmitsSpan(lib, cs[0], id) && NeverAdmitted(Apply(lib, cs[0]), cs[1..], id))
  }

  /** Over whole runs: orphaned until the same span id is admitted again. */
  lemma {:induction false} OrphanUntilReadmitted(lib: Library, cs: seq<Command>, id: string)
    requires Orphan(lib, id) && NeverAdmitted(lib, cs, lib.annotations[id].spanId)
    ensures Orphan(ApplyAll(lib, cs), id)
    ensures ApplyAll(lib, cs).annotations[id] == lib.annotations[id]
    decreases |cs|
  {
    if cs != [] {
      OrphanStepIff(lib, cs[0], id);
      OrphanUntilReadmitted(Apply(lib, cs[0]), cs[1..], id);
    }
  }

  /** Removing an edition orphans exactly the annotations on its spans, besides the old orphans. */
  lemma RemovalOrphans(lib: Library, edition: EditionId, id: string)
    requires Valid(lib) && id in lib.annotations
    ensures Orphan(Apply(lib, Remove(edition)), id) <==>
              Orphan(lib, id) || lib.spans[lib.annotations[id].spanId].editionId == edition
  {
  }

  /** A removed span id may be admitted again for another text; its annotations then stop being orphans. */
  lemma ReadmissionAdoptsAnnotation(lib: Library, c: Command, id: string)
    requires Orphan(lib, id) && AdmitsSpan(lib, c, lib.annotations[id].spanId)
    ensures var next := Apply(lib, c);
            !Orphan(next, id) && next.spans[next.annotations[id].spanId].selector == c.selector
  {
  }

  const FREE := Licence("free", 1, 1, true)

  function WholeText(contentId: string, text: string): Selector {
    Selector(contentId, 0, |text|, text)
  }

  function EditionOf(id: EditionId, text: string): Edition {
    Edition(id, PublicId("isbn", id), id, text, FREE, "2026-01-01T00:00:00Z", None)
  }

  const NOTE := Annotation("n", "s", Interpretation, Human("reader"), "note")

  /** Annotate a span of one text, remove that text, and admit the same span id in another text. */
  function AdoptionRun(first: string, second: string): seq<Command> {
    [ Import(EditionOf("a", first)),
      Admit("a", "s", WholeText("a", first), Representation("a", first)),
      Annotate(NOTE),
      Remove("a"),
      Import(EditionOf("b", second)),
      Admit("b", "s", WholeText("b", second), Representation("b", second)) ]
  }

  /**
   A reachable library where an annotation written on one text is attached to another: from the empty
   library, for any two texts, the run above leaves the note on the second text.
   */
  lemma AdoptedByOtherText(first: string, second: string)
    ensures var run := AdoptionRun(first, second);
            var written, final := ApplyAll(EMPTY, run[..3]), ApplyAll(EMPTY, run);
            && Valid(final)
            && written.annotations == map["n" := NOTE] && final.annotations == map["n" := NOTE]
            && "s" in written.spans && written.spans["s"].selector.exact == first
            && "s" in final.spans && final.spans["s"].selector.exact == second
            && !Orphan(final, "n")
  {
    hide Grouping, Valid;
    var run := AdoptionRun(first, second);
    EmptyIsValid();
    ReachableIsValid(EMPTY, run);
    AdoptionStart(first);
    var written := AfterNote(first);
    RunThree(EMPTY, run[0], run[1], run[2]);
    assert run[..3] == [run[0], run[1], run[2]];
    RunThree(written, run[3], run[4], run[5]);
    assert run == run[..3] + [run[3], run[4], run[5]];
    ApplyAllConcat(EMPTY, run[..3], [run[3], run[4], run[5]]);
    AdoptionEnd(first, second);
  }

  function AfterNote(text: string): Library {
    Apply(Apply(Apply(EMPTY, Import(EditionOf("a", text))),
                Admit("a", "s", WholeText("a", text), Representation("a", text))), Annotate(NOTE))
  }

  lemma AdoptionStart(text: string)
    ensures var written := AfterNote(text);
            && written.editions == map["a" := EditionOf("a", text)]
            && written.spans == map["s" := Span("s", "a", WholeText("a", text))]
            && written.annotations == map["n" := NOTE]
  {
    hide Grouping;
    var imported := Apply(EMPTY, Import(EditionOf("a", text)));
    assert imported.editions == map["a" := EditionOf("a", text)] && imported.spans == map[];
    assert text[0..|text|] == text;
    var admitted := Apply(imported, Admit("a", "s", WholeText("a", text), Representation("a", text)));
    assert admitted.spans == map["s" := Span("s", "a", WholeText("a", text))] && admitted.annotations == map[];
  }

  lemma AdoptionEnd(first: string, second: string)
    ensures var removed := Apply(AfterNote(first), Remove("a"));
            var imported := Apply(removed, Import(EditionOf("b", second)));
            var final := Apply(imported, Admit("b", "s", WholeText("b", second), Representation("b", second)));
            && final.annotations == map["n" := NOTE]
            && "s" in final.spans && final.spans["s"].selector.exact == second
            && !Orphan(final, "n")
  {
    hide Grouping, AfterNote;
    AdoptionStart(first);
    var removed := Apply(AfterNote(first), Remove("a"));
    assert removed.editions == map[] && removed.spans == map[];
    var imported := Apply(removed, Import(EditionOf("b", second)));
    assert imported.editions == map["b" := EditionOf("b", second)] && imported.spans == map[];
    assert second[0..|second|] == second;
    assert Orphan(imported, "n");
    ReadmissionAdoptsAnnotation(imported, Admit("b", "s", WholeText("b", second), Representation("b", second)), "n");
  }

  lemma RunThree(lib: Library, a: Command, b: Command, c: Command)
    ensures ApplyAll(lib, [a, b, c]) == Apply(Apply(Apply(lib, a), b), c)
  {
    hide Apply;
    assert [a, b, c][1..] == [b, c] && [b, c][1..] == [c] && [c][1..] == [];
    assert ApplyAll(Apply(Apply(lib, a), b), [c]) == ApplyAll(Apply(Apply(Apply(lib, a), b), c), []);
  }

  lemma {:induction false} ApplyAllConcat(lib: Library, a: seq<Command>, b: seq<Command>)
    ensures ApplyAll(lib, a + b) == ApplyAll(ApplyAll(lib, a), b)
    decreases |a|
  {
    hide Apply;
    if a == [] {
      assert a + b == b;
    } else {
      assert (a + b)[1..] == a[1..] + b;
      ApplyAllConcat(Apply(lib, a[0]), a[1..], b);
    }
  }

  // ---------------------------------------------------------------- quotations

  /** `checked_at >= expiry` on RFC 3339 text, compared character by character. */
  predicate TextBefore(a: string, b: string) {
    if b == [] then false
    else if a == [] then true
    else if a[0] != b[0] then a[0] < b[0]
    else TextBefore(a[1..], b[1..])
  }

  predicate IsStale(edition: Edition, checkedAt: string) {
    edition.expiresAt.Some? && !TextBefore(checkedAt, edition.expiresAt.value)
  }

  /** Why one span cannot be quoted on its own. */
  function SpanRefusal(lib: Library, id: SpanId, checkedAt: string, forExport: bool): Option<LibraryError> {
    if id !in lib.spans then Some(SpanNotAdmitted)
    else if lib.spans[id].editionId !in lib.editions then Some(SourceRemoved)
    else
      var edition := lib.editions[lib.spans[id].editionId];
      if IsStale(edition, checkedAt) then Some(Stale)
      else if forExport && !edition.licence.permitsExport then Some(ExportRefused)
      else if |lib.spans[id].selector.exact| > U32_MAX then Some(SizeOverflow)
      else if |lib.spans[id].selector.exact| > edition.licence.maxQuoteChars then Some(QuoteTooLong)
      else None
  }

  /** Characters requested from one edition, repetitions counted. */
  function Requested(lib: Library, ids: seq<SpanId>, edition: EditionId): nat {
    if ids == [] then 0
    else
      var last := ids[|ids| - 1];
      Requested(lib, ids[..|ids| - 1], edition)
      + if last in lib.spans && lib.spans[last].editionId == edition then |lib.spans[last].selector.exact| else 0
  }

  /** The request may be quoted: each span alone, and each edition's total. */
  ghost predicate Quotable(lib: Library, ids: seq<SpanId>, checkedAt: string, forExport: bool) {
    forall i :: 0 <= i < |ids| ==>
      && SpanRefusal(lib, ids[i], checkedAt, forExport).None?
      && WithinTotal(lib, ids, lib.spans[ids[i]].editionId)
  }

  predicate WithinTotal(lib: Library, ids: seq<SpanId>, edition: EditionId)
    requires edition in lib.editions
  {
    Requested(lib, ids, edition) <= lib.editions[edition].licence.maxExportChars
  }

  /** Why the request is refused at its `i`-th span, the spans before it having been accepted. */
  function RefusalAt(lib: Library, ids: seq<SpanId>, i: nat, checkedAt: string, forExport: bool): Option<LibraryError>
    requires i < |ids|
  {
    var alone := SpanRefusal(lib, ids[i], checkedAt, forExport);
    if alone.Some? then alone
    else
      var edition := lib.spans[ids[i]].editionId;
      var total := Requested(lib, ids[..i + 1], edition);
      if total > U32_MAX then Some(SizeOverflow)
      else if total > lib.editions[edition].licence.maxExportChars then Some(ExportTooLong)
      else None
  }

  /** The `i`-th span is the first one at which the request is refused, with this error. */
  ghost predicate FirstRefused(
    lib: Library, ids: seq<SpanId>, i: nat, checkedAt: string, forExport: bool, error: LibraryError)
  {
    && i < |ids|
    && RefusalAt(lib, ids, i, checkedAt, forExport) == Some(error)
    && forall k :: 0 <= k < i ==> RefusalAt(lib, ids, k, checkedAt, forExport).None?
  }

  /** In a valid library no span outlives its edition, so no quotation meets a removed source. */
  lemma SourceNeverRemoved(lib: Library, ids: seq<SpanId>, i: nat, checkedAt: string, forExport: bool)
    requires Valid(lib) && i < |ids|
    ensures RefusalAt(lib, ids, i, checkedAt, forExport) != Some(SourceRemoved)
  {
    if ids[i] in lib.spans {
      assert SpanOk(lib, ids[i], lib.spans[ids[i]]);
    }
  }

  lemma {:induction false} RequestedGrows(lib: Library, ids: seq<SpanId>, k: nat, edition: EditionId)
    requires k <= |ids|
    ensures Requested(lib, ids[..k], edition) <= Requested(lib, ids, edition)
    decreases |ids|
  {
    if k < |ids| {
      RequestedGrows(lib, ids[..|ids| - 1], k, edition);
      assert ids[..|ids| - 1][..k] == ids[..k];
    } else {
      assert ids[..k] == ids;
    }
  }

  lemma RequestedSnoc(lib: Library, ids: seq<SpanId>, i: nat, edition: EditionId)
    requires i < |ids|
    ensures Requested(lib, ids[..i + 1], edition) == Requested(lib, ids[..i], edition)
            + if ids[i] in lib.spans && lib.spans[ids[i]].editionId == edition
              then |lib.spans[ids[i]].selector.exact| else 0
  {
    assert ids[..i + 1][..i] == ids[..i];
  }

  /** The quotation of an admitted span. */
  function QuotationOf(lib: Library, id: SpanId): Quotation
    requires id in lib.spans
  {
    Quotation(lib.spans[id].editionId, lib.spans[id].id, lib.spans[id].selector.exact)
  }

  /** Characters quoted from one edition in a reply. */
  function Quoted(out: seq<Quotation>, edition: EditionId): nat {
    if out == [] then 0
    else
      var last := out[|out| - 1];
      Quoted(out[..|out| - 1], edition) + if last.editionId == edition then |last.text| else 0
  }

  /** One quotation per requested span, in request order. */
  ghost predicate Answers(lib: Library, ids: seq<SpanId>, out: seq<Quotation>) {
    |out| == |ids| && forall i :: 0 <= i < |ids| ==> ids[i] in lib.spans && out[i] == QuotationOf(lib, ids[i])
  }

  lemma {:induction false} QuotedIsRequested(lib: Library, ids: seq<SpanId>, out: seq<Quotation>, edition: EditionId)
    requires Answers(lib, ids, out)
    ensures Quoted(out, edition) == Requested(lib, ids, edition)
  {
    if ids != [] {
      QuotedIsRequested(lib, ids[..|ids| - 1], out[..|out| - 1], edition);
    }
  }

  /**
   Ceilings of a reply, for every mix and repetition of spans: no quotation exceeds its edition's
   quote ceiling, no edition's total exceeds its export ceiling, and each text is the edition's own.
   */
  lemma QuoteCeilings(lib: Library, ids: seq<SpanId>, checkedAt: string, forExport: bool, out: seq<Quotation>)
    requires Valid(lib) && Quotable(lib, ids, checkedAt, forExport) && Answers(lib, ids, out)
    ensures forall i :: 0 <= i < |out| ==>
              && out[i].editionId in lib.editions
              && out[i].spanId == ids[i]
              && |out[i].text| <= lib.editions[out[i].editionId].licence.maxQuoteChars
              && (forExport ==> lib.editions[out[i].editionId].licence.permitsExport)
    ensures forall e :: e in lib.editions ==> Quoted(out, e) <= lib.editions[e].licence.maxExportChars
    ensures forall i :: 0 <= i < |out| ==> IsPieceOf(out[i].text, lib.editions[out[i].editionId].text)
  {
    forall i | 0 <= i < |out|
      ensures out[i].editionId in lib.editions && out[i].spanId == ids[i]
      ensures |out[i].text| <= lib.editions[out[i].editionId].licence.maxQuoteChars
      ensures forExport ==> lib.editions[out[i].editionId].licence.permitsExport
      ensures IsPieceOf(out[i].text, lib.editions[out[i].editionId].text)
    {
      assert SpanRefusal(lib, ids[i], checkedAt, forExport).None?;
      assert ids[i] in lib.spans && out[i] == QuotationOf(lib, ids[i]);
      OneQuotation(lib, ids[i], checkedAt, forExport);
    }
    hide IsPieceOf, SpanRefusal, Quoted, Requested;
    forall e | e in lib.editions
      ensures Quoted(out, e) <= lib.editions[e].licence.maxExportChars
    {
      QuotedIsRequested(lib, ids, out, e);
      TotalWithin(lib, ids, checkedAt, forExport, e);
    }
  }

  lemma OneQuotation(lib: Library, id: SpanId, checkedAt: string, forExport: bool)
    requires Valid(lib) && id in lib.spans && SpanRefusal(lib, id, checkedAt, forExport).None?
    ensures var quotation := QuotationOf(lib, id);
            && quotation.editionId in lib.editions && quotation.spanId == id
            && var edition := lib.editions[quotation.editionId];
               && |quotation.text| <= edition.licence.maxQuoteChars
               && (forExport ==> edition.licence.permitsExport)
               && IsPieceOf(quotation.text, edition.text)
  {
    hide IsStale;
    var span := lib.spans[id];
    assert SpanOk(lib, id, span);
    hide Valid;
    assert PieceAt(span.selector.exact, lib.editions[span.editionId].text, span.selector.start);
  }

  ghost predicate PieceAt(piece: string, text: string, start: nat) {
    start + |piece| <= |text| && text[start..start + |piece|] == piece
  }

  ghost predicate IsPieceOf(piece: string, text: string) {
    exists start: nat :: PieceAt(piece, text, start)
  }

  lemma TotalWithin(lib: Library, ids: seq<SpanId>, checkedAt: string, forExport: bool, edition: EditionId)
    requires Valid(lib) && Quotable(lib, ids, checkedAt, forExport) && edition in lib.editions
    ensures Requested(lib, ids, edition) <= lib.editions[edition].licence.maxExportChars
  {
    if i :| 0 <= i < |ids| && ids[i] in lib.spans && lib.spans[ids[i]].editionId == edition {
      assert WithinTotal(lib, ids, edition);
    } else {
      NothingRequested(lib, ids, edition);
    }
  }

  lemma {:induction false} NothingRequested(lib: Library, ids: seq<SpanId>, edition: EditionId)
    requires forall i :: 0 <= i < |ids| && ids[i] in lib.spans ==> lib.spans[ids[i]].editionId != edition
    ensures Requested(lib, ids, edition) == 0
  {
    if ids != [] {
      NothingRequested(lib, ids[..|ids| - 1], edition);
    }
  }
}
