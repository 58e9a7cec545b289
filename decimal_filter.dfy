/**
 * DecimalDocumentFilter: lets an insertion or replacement through only when its text
 * matches `[0-9.]*` (digits and dots, any number of each, the empty text included).
 * Removal is not overridden, so it is `TextDocument.DefaultRemove`.
 */
module DecimalDocumentFilter {
  import opened Wrappers
  import opened TextDocument

  predicate IsDecimalChar(c: char) {
    '0' <= c <= '9' || c == '.'
  }

  /** Every character of `s` is a digit or a dot: `s.matches("[0-9.]*")`. */
  predicate AllDecimalChars(s: string) {
    forall i :: 0 <= i < |s| ==> IsDecimalChar(s[i])
  }

  /** The guard `text != null && text.matches("[0-9.]*")`. */
  predicate Accepts(text: Option<string>) {
    text.Some? && AllDecimalChars(text.value)
  }

  /** `insertString`: digits and dots are spliced in at `offset`; anything else leaves the document alone. */
  function InsertString(doc: string, offset: int, text: Option<string>): (o: Outcome)
    ensures o.Filtered? <==> !Accepts(text)
    ensures o.BadLocation? <==> Accepts(text) && !(0 <= offset <= |doc|)
    ensures o.Applied? ==> o.doc == doc[..offset] + text.value + doc[offset..]
  {
    if Accepts(text) then Bypass(doc, offset, 0, text.value) else Filtered
  }

  /** `replace`: digits and dots (possibly none) replace `[offset, offset + length)`; anything else is dropped. */
  function Replace(doc: string, offset: int, length: int, text: Option<string>): (o: Outcome)
    ensures o.Filtered? <==> !Accepts(text)
    ensures o.BadLocation? <==> Accepts(text) && !InRange(doc, offset, length)
    ensures o.Applied? ==> o.doc == doc[..offset] + text.value + doc[offset + length..]
  {
    if Accepts(text) then Bypass(doc, offset, length, text.value) else Filtered
  }

  /** The filter applied to one edit. */
  function Filter(doc: string, e: Edit): Outcome {
    match e
    case InsertString(offset, text) => InsertString(doc, offset, text)
    case Replace(offset, length, text) => Replace(doc, offset, length, text)
    case Remove(offset, length) => DefaultRemove(doc, offset, length)
  }

  /** A document of digits and dots stays one after any single edit, accepted or not. */
  lemma {:induction false} FilterKeepsDecimalChars(doc: string, e: Edit)
    requires AllDecimalChars(doc)
    ensures AllDecimalChars(After(doc, Filter(doc, e)))
  {
  }

  /** Keystroke invariant: a document of digits and dots stays one through any sequence of edits. */
  lemma {:induction false} EditsKeepDecimalChars(doc: string, edits: seq<Edit>)
    requires AllDecimalChars(doc)
    ensures AllDecimalChars(ApplyAll(doc, edits, Filter))
  {
    forall d, e | AllDecimalChars(d) ensures AllDecimalChars(After(d, Filter(d, e))) {
      FilterKeepsDecimalChars(d, e);
    }
    ApplyAllPreserves(doc, edits, Filter, AllDecimalChars);
  }

  /** The empty text is accepted and changes nothing. */
  lemma {:induction false} EmptyInsertAccepted(doc: string, offset: int)
    requires 0 <= offset <= |doc|
    ensures InsertString(doc, offset, Some("")) == Applied(doc)
  {
  }

  /** The filter does not limit the number of dots: typing 1, ., ., 2 into an empty field gives "1..2". */
  lemma {:induction false} SeveralDotsReachable()
    ensures ApplyAll("", [Edit.InsertString(0, Some("1")), Edit.InsertString(1, Some(".")),
                          Edit.InsertString(2, Some(".")), Edit.InsertString(3, Some("2"))], Filter) == "1..2"
  {
  }
}
