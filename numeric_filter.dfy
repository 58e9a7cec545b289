/**
 * NumericDocumentFilter: lets an insertion or replacement through only when its text
 * matches `\d+` (one or more ASCII digits: Java's `\d` without the Unicode flag).
 * Removal is not overridden, so it is `TextDocument.DefaultRemove`.
 */
module NumericDocumentFilter {
  import opened Wrappers
  import opened TextDocument

  predicate IsDigit(c: char) {
    '0' <= c <= '9'
  }

  /** Every character of `s` is a digit (the empty text included). */
  predicate AllDigits(s: string) {
    forall i :: 0 <= i < |s| ==> IsDigit(s[i])
  }

  /** The guard `text != null && text.matches("\\d+")`. */
  predicate Accepts(text: Option<string>) {
    text.Some? && |text.value| > 0 && AllDigits(text.value)
  }

  /** `insertString`: a digit run is spliced in at `offset`; anything else leaves the document alone. */
  function InsertString(doc: string, offset: int, text: Option<string>): (o: Outcome)
    ensures o.Filtered? <==> !Accepts(text)
    ensures o.BadLocation? <==> Accepts(text) && !(0 <= offset <= |doc|)
    ensures o.Applied? ==> o.doc == doc[..offset] + text.value + doc[offset..]
  {
    if Accepts(text) then Bypass(doc, offset, 0, text.value) else Filtered
  }

  /** `replace`: a digit run replaces `[offset, offset + length)`; anything else, the empty text included, is dropped. */
  function Replace(doc: string, offset: int, length: int, text: Option<string>): (o: Outcome)
    ensures o.Filtered? <==> !Accepts(text)
    ensures o.BadLocation? <==> Accepts(text) && !InRange(doc, offset, length)
    ensures o.Applied? ==> o.doc == doc[..offset] + text.value + doc[offset + length..]
  {
    if Accepts(text) then Bypass(doc, offset, length, text.value) else Filtered
  }

  /** The filter applied to one edit. */
  function Filter(doc: string, e: Edit): Outcome {
    match e
    case InsertString(offset, text) => InsertString(doc, offset, text)
    case Replace(offset, length, text) => Replace(doc, offset, length, text)
    case Remove(offset, length) => DefaultRemove(doc, offset, length)
  }

  /** A document of digits only stays one after any single edit, accepted or not. */
  lemma {:induction false} FilterKeepsAllDigits(doc: string, e: Edit)
    requires AllDigits(doc)
    ensures AllDigits(After(doc, Filter(doc, e)))
  {
  }

  /** Keystroke invariant: a document of digits only stays one through any sequence of edits. */
  lemma {:induction false} EditsKeepAllDigits(doc: string, edits: seq<Edit>)
    requires AllDigits(doc)
    ensures AllDigits(ApplyAll(doc, edits, Filter))
  {
    forall d, e | AllDigits(d) ensures AllDigits(After(d, Filter(d, e))) {
      FilterKeepsAllDigits(d, e);
    }
    ApplyAllPreserves(doc, edits, Filter, AllDigits);
  }

  /** `\d+` needs a digit: replacing a selection by the empty text is dropped, so it never clears it. */
  lemma {:induction false} EmptyReplacementDropped(doc: string, offset: int, length: int)
    ensures Replace(doc, offset, length, Some("")) == Filtered
    ensures InsertString(doc, offset, Some("")) == Filtered
  {
  }
}
