/** The rules of the source library in plain words: when sources go stale, what is quoted, what is refused. */
module LibraryRules {
  import opened LibraryStates
  import opened Text
  import opened Wrappers

  // ---------------------------------------------------------------- freshness

  /** After a common start, `a` ends or goes on with a smaller character. */
  ghost predicate PrecedesAt(a: string, b: string, k: nat) {
    k <= |a| && k < |b| && a[..k] == b[..k] && (k == |a| || a[k] < b[k])
  }

  ghost predicate Precedes(a: string, b: string) {
    exists k: nat :: PrecedesAt(a, b, k)
  }

  lemma {:induction false} TextBeforeIff(a: string, b: string)
    ensures TextBefore(a, b) <==> Precedes(a, b)
  {
    if b == [] {
    } else if a == [] {
      assert PrecedesAt(a, b, 0);
    } else if a[0] != b[0] {
      if a[0] < b[0] {
        assert PrecedesAt(a, b, 0);
      }
      if Precedes(a, b) {
        var k: nat :| PrecedesAt(a, b, k);
        assert k > 0 ==> a[..k][0] == b[..k][0];
      }
    } else {
      TextBeforeIff(a[1..], b[1..]);
      PrecedesTail(a, b);
    }
  }

  lemma PrecedesTail(a: string, b: string)
    requires a != [] && b != [] && a[0] == b[0]
    ensures Precedes(a, b) <==> Precedes(a[1..], b[1..])
  {
    if Precedes(a, b) {
      var k: nat :| PrecedesAt(a, b, k);
      assert k > 0;
      assert a[1..][..k - 1] == a[..k][1..] && b[1..][..k - 1] == b[..k][1..];
      assert PrecedesAt(a[1..], b[1..], k - 1);
    }
    if Precedes(a[1..], b[1..]) {
      var k: nat :| PrecedesAt(a[1..], b[1..], k);
      assert a[..k + 1] == [a[0]] + a[1..][..k] && b[..k + 1] == [b[0]] + b[1..][..k];
      assert PrecedesAt(a, b, k + 1);
    }
  }

  /** The admission has no expiry, or is checked before it. */
  ghost predicate Fresh(edition: Edition, checkedAt: string) {
    edition.expiresAt == None || Precedes(checkedAt, edition.expiresAt.value)
  }

  lemma FreshIff(edition: Edition, checkedAt: string)
    ensures Fresh(edition, checkedAt) <==> !IsStale(edition, checkedAt)
  {
    if edition.expiresAt.Some? {
      TextBeforeIff(checkedAt, edition.expiresAt.value);
    }
  }

  // ---------------------------------------------------------------- what may be quoted

  /** A span that may be quoted by itself. */
  ghost predicate MayQuote(lib: Library, id: SpanId, checkedAt: string, forExport: bool) {
    && id in lib.spans && lib.spans[id].editionId in lib.editions
    && var edition, length := lib.editions[lib.spans[id].editionId], |lib.spans[id].selector.exact|;
       && Fresh(edition, checkedAt)
       && (forExport ==> edition.licence.permitsExport)
       && length <= edition.licence.maxQuoteChars
  }

  /**
   A request is quotable exactly when each span is admitted, its source present, unexpired, open to
   export if that is asked and long enough to quote, and no source gives more than it may in all.
   */
  lemma QuotableIff(lib: Library, ids: seq<SpanId>, checkedAt: string, forExport: bool)
    ensures Quotable(lib, ids, checkedAt, forExport) <==>
              && (forall i :: 0 <= i < |ids| ==> MayQuote(lib, ids[i], checkedAt, forExport))
              && (forall i :: 0 <= i < |ids| ==>
                    Requested(lib, ids, lib.spans[ids[i]].editionId)
                    <= lib.editions[lib.spans[ids[i]].editionId].licence.maxExportChars)
  {
    hide IsStale, Fresh, Requested;
    forall i | 0 <= i < |ids|
      ensures MayQuote(lib, ids[i], checkedAt, forExport) <==> SpanRefusal(lib, ids[i], checkedAt, forExport).None?
    {
      SpanAcceptedIff(lib, ids[i], checkedAt, forExport);
    }
    hide MayQuote, SpanRefusal;
  }

  lemma SpanAcceptedIff(lib: Library, id: SpanId, checkedAt: string, forExport: bool)
    ensures MayQuote(lib, id, checkedAt, forExport) <==> SpanRefusal(lib, id, checkedAt, forExport).None?
    ensures MayQuote(lib, id, checkedAt, forExport) ==> id in lib.spans && lib.spans[id].editionId in lib.editions
  {
    hide IsStale, Fresh;
    if id in lib.spans && lib.spans[id].editionId in lib.editions {
      FreshIff(lib.editions[lib.spans[id].editionId], checkedAt);
    }
  }

  /** Every quoted source is fresh, and open to export when the request is for export. */
  lemma QuotedIsFresh(lib: Library, ids: seq<SpanId>, checkedAt: string, forExport: bool, out: seq<Quotation>)
    requires Valid(lib) && Quotable(lib, ids, checkedAt, forExport) && Answers(lib, ids, out)
    ensures forall i :: 0 <= i < |out| ==>
              && out[i].editionId in lib.editions
              && var edition := lib.editions[out[i].editionId];
                 && (edition.expiresAt == None || Precedes(checkedAt, edition.expiresAt.value))
                 && (forExport ==> edition.licence.permitsExport)
  {
    hide Precedes, Requested, IsStale;
    QuotableIff(lib, ids, checkedAt, forExport);
    forall i | 0 <= i < |out|
      ensures MayQuote(lib, ids[i], checkedAt, forExport) && out[i] == QuotationOf(lib, ids[i])
    {
    }
  }

  /** The first expired span refuses the request as stale, when nothing before it is refused. */
  lemma StaleIsRefused(lib: Library, ids: seq<SpanId>, i: nat, checkedAt: string, forExport: bool)
    requires i < |ids| && ids[i] in lib.spans && lib.spans[ids[i]].editionId in lib.editions
    requires var expiry := lib.editions[lib.spans[ids[i]].editionId].expiresAt;
             expiry.Some? && !Precedes(checkedAt, expiry.value)
    requires forall k :: 0 <= k < i ==> RefusalAt(lib, ids, k, checkedAt, forExport).None?
    ensures FirstRefused(lib, ids, i, checkedAt, forExport, Stale)
    ensures !Quotable(lib, ids, checkedAt, forExport)
  {
    FreshIff(lib.editions[lib.spans[ids[i]].editionId], checkedAt);
    hide IsStale;
    assert SpanRefusal(lib, ids[i], checkedAt, forExport) == Some(Stale);
  }

  /** A refusal means what it says of the first span refused. */
  ghost predicate Says(
    lib: Library, ids: seq<SpanId>, i: nat, checkedAt: string, forExport: bool, error: LibraryError)
    requires i < |ids|
  {
    var id := ids[i];
    if error == SpanNotAdmitted then id !in lib.spans
    else
      && id in lib.spans && lib.spans[id].editionId in lib.editions
      && var edition, length := lib.editions[lib.spans[id].editionId], |lib.spans[id].selector.exact|;
         match error
         case Stale => edition.expiresAt.Some? && !Precedes(checkedAt, edition.expiresAt.value)
         case ExportRefused => forExport && !edition.licence.permitsExport
         case QuoteTooLong => length > edition.licence.maxQuoteChars
         case SizeOverflow => Requested(lib, ids[..i + 1], lib.spans[id].editionId) > U32_MAX
         case ExportTooLong =>
           Requested(lib, ids[..i + 1], lib.spans[id].editionId) > edition.licence.maxExportChars
         case _ => false
  }

  lemma SpanSays(lib: Library, ids: seq<SpanId>, i: nat, checkedAt: string, forExport: bool, error: LibraryError)
    requires i < |ids| && (ids[i] in lib.spans ==> lib.spans[ids[i]].editionId in lib.editions)
    requires SpanRefusal(lib, ids[i], checkedAt, forExport) == Some(error)
    requires ids[i] in lib.spans ==>
               Requested(lib, ids[..i + 1], lib.spans[ids[i]].editionId) >= |lib.spans[ids[i]].selector.exact|
    ensures Says(lib, ids, i, checkedAt, forExport, error)
  {
    hide IsStale, Precedes, Requested;
    if ids[i] in lib.spans {
      var edition := lib.editions[lib.spans[ids[i]].editionId];
      FreshIff(edition, checkedAt);
      assert error == Stale ==> edition.expiresAt.Some? && !Precedes(checkedAt, edition.expiresAt.value);
    }
  }

  /** In a valid library every refusal of a quotation is true of the span it stopped at. */
  lemma RefusalSays(lib: Library, ids: seq<SpanId>, i: nat, checkedAt: string, forExport: bool, error: LibraryError)
    requires Valid(lib) && FirstRefused(lib, ids, i, checkedAt, forExport, error)
    ensures Says(lib, ids, i, checkedAt, forExport, error)
  {
    hide IsStale, Precedes, Requested, SpanRefusal;
    var id := ids[i];
    if id in lib.spans {
      assert SpanOk(lib, id, lib.spans[id]);
      RequestedSnoc(lib, ids, i, lib.spans[id].editionId);
    }
    hide Valid, SpanOk, FirstRefused;
    if SpanRefusal(lib, id, checkedAt, forExport).Some? {
      SpanSays(lib, ids, i, checkedAt, forExport, error);
    } else {
      SpanAcceptedIff(lib, id, checkedAt, forExport);
    }
  }

  // ---------------------------------------------------------------- what is accepted

  /** What is demanded of a command, in plain words. */
  ghost predicate Demanded(lib: Library, c: Command) {
    match c
    case Import(edition) =>
      && 0 < edition.licence.maxQuoteChars <= edition.licence.maxExportChars
      && (edition.id in lib.editions ==> lib.editions[edition.id] == edition)
    case Admit(editionId, spanId, selector, representation) =>
      && editionId in lib.editions && spanId !in lib.spans
      && var edition := lib.editions[editionId];
         && edition.representationId == representation.contentId == selector.representationId
         && edition.text == representation.text
         && IsSlice(edition.text, selector.start, selector.end, selector.exact)
    case Annotate(annotation) => annotation.spanId in lib.spans && annotation.id !in lib.annotations
    case Remove(_) => true
  }

  /** The piece of the text between two places, character by character. */
  ghost predicate IsSlice(text: string, start: nat, end: nat, piece: string) {
    && start <= end <= |text| && |piece| == end - start
    && forall i :: 0 <= i < |piece| ==> piece[i] == text[start + i]
  }

  /** A command is accepted exactly when what is demanded of it holds; a refused one changes nothing. */
  lemma AcceptedIff(lib: Library, c: Command)
    ensures Refusal(lib, c).None? <==> Demanded(lib, c)
    ensures !Demanded(lib, c) ==> Apply(lib, c) == lib
  {
    if c.Admit? {
      SliceIff(c.representation.text, c.selector);
    }
  }

  /** A refusal means what it says of the command. */
  ghost predicate CommandSays(lib: Library, c: Command, error: LibraryError) {
    match error
    case InvalidCeilings =>
      c.Import? && !(0 < c.edition.licence.maxQuoteChars <= c.edition.licence.maxExportChars)
    case DifferentMaterial =>
      c.Import? && c.edition.id in lib.editions && lib.editions[c.edition.id] != c.edition
    case MissingEdition => c.Admit? && c.editionId !in lib.editions
    case RepresentationMismatch =>
      && c.Admit? && c.editionId in lib.editions
      && var edition := lib.editions[c.editionId];
         edition.representationId != c.representation.contentId || edition.text != c.representation.text
    case SelectorMismatch =>
      && c.Admit?
      && (c.selector.representationId != c.representation.contentId
          || !IsSlice(c.representation.text, c.selector.start, c.selector.end, c.selector.exact))
    case SpanAdmitted => c.Admit? && c.spanId in lib.spans
    case TargetNotAdmitted => c.Annotate? && c.annotation.spanId !in lib.spans
    case AnnotationExists => c.Annotate? && c.annotation.id in lib.annotations
    case _ => false
  }

  /** Every refused command is refused for something that is wrong with it. */
  lemma CommandRefusalSays(lib: Library, c: Command)
    ensures Refusal(lib, c).Some? ==> CommandSays(lib, c, Refusal(lib, c).value)
  {
    if c.Admit? {
      SliceIff(c.representation.text, c.selector);
    }
    hide IsSlice;
  }

  lemma SliceIff(text: string, selector: Selector)
    ensures (selector.start <= selector.end <= |text| && text[selector.start..selector.end] == selector.exact)
            <==> IsSlice(text, selector.start, selector.end, selector.exact)
  {
  }

  /** An accepted command does exactly this. */
  lemma AcceptedDoes(lib: Library, c: Command)
    requires Demanded(lib, c)
    ensures var next := Apply(lib, c);
            match c
            case Import(edition) =>
              next.editions == lib.editions[edition.id := edition] && next.spans == lib.spans
              && next.annotations == lib.annotations
            case Admit(editionId, spanId, selector, _) =>
              next.spans == lib.spans[spanId := Span(spanId, editionId, selector)] && next.editions == lib.editions
              && next.annotations == lib.annotations
            case Annotate(annotation) =>
              next.annotations == lib.annotations[annotation.id := annotation] && next.editions == lib.editions
              && next.spans == lib.spans
            case Remove(removed) =>
              && next.annotations == lib.annotations
              && (forall e :: e in next.editions <==> e in lib.editions && e != removed)
              && (forall s :: s in next.spans <==> s in lib.spans && lib.spans[s].editionId != removed)
              && (forall s :: s in next.spans ==> next.spans[s] == lib.spans[s])
  {
    AcceptedIff(lib, c);
    hide Grouping, Verifies;
  }

  /** The index lists, under each admitted edition with spans, exactly its spans. */
  lemma IndexLists(lib: Library, e: EditionId)
    requires Valid(lib)
    ensures e in lib.spansByEdition <==> exists s :: s in lib.spans && lib.spans[s].editionId == e
    ensures e in lib.spansByEdition ==>
              forall s :: s in lib.spansByEdition[e] <==> s in lib.spans && lib.spans[s].editionId == e
  {
    forall s | s in lib.spans
      ensures lib.spans[s].editionId in lib.editions
    {
      assert SpanOk(lib, s, lib.spans[s]);
    }
  }
}
