/**
 * The text of a Swing document and the edits a DocumentFilter sees. A filter either
 * hands an edit on to its FilterBypass (the `super.insertString` / `super.replace` call),
 * which splices the text, or drops it. The bypass fails with a BadLocationException,
 * leaving the text as it was, when the location lies outside the document.
 */
module TextDocument {
  import opened Wrappers

  /** One edit: `insertString(offset, text)`, `replace(offset, length, text)` or `remove(offset, length)`; `None` is a null text. */
  datatype Edit =
    | InsertString(offset: int, text: Option<string>)
    | Replace(offset: int, length: int, text: Option<string>)
    | Remove(offset: int, length: int)

  /** What a filter did with an edit: spliced it in, dropped it, or let the bypass throw BadLocationException. */
  datatype Outcome = Applied(doc: string) | Filtered | BadLocation

  /** The document text after an edit with outcome `o`: a dropped or failed edit leaves it unchanged. */
  function After(doc: string, o: Outcome): string {
    if o.Applied? then o.doc else doc
  }

  /** `[offset, offset + length)` lies inside the document. */
  predicate InRange(doc: string, offset: int, length: int) {
    0 <= offset && 0 <= length && offset + length <= |doc|
  }

  /** The document with `[offset, offset + length)` replaced by `s`. */
  function Splice(doc: string, offset: nat, length: nat, s: string): (r: string)
    requires offset + length <= |doc|
    ensures |r| == |doc| - length + |s|
    ensures r[..offset] == doc[..offset]
    ensures r[offset..offset + |s|] == s
    ensures r[offset + |s|..] == doc[offset + length..]
  {
    doc[..offset] + s + doc[offset + length..]
  }

  /** The FilterBypass performing an edit it was handed. */
  function Bypass(doc: string, offset: int, length: int, s: string): (o: Outcome)
    ensures o.BadLocation? <==> !InRange(doc, offset, length)
    ensures o.Filtered? == false
    ensures o.Applied? ==> o.doc == doc[..offset] + s + doc[offset + length..]
  {
    if InRange(doc, offset, length) then Applied(Splice(doc, offset, length, s)) else BadLocation
  }

  /** `remove` as every DocumentFilter inherits it: never filtered, the range is cut when it lies inside the document. */
  function DefaultRemove(doc: string, offset: int, length: int): (o: Outcome)
    ensures !o.Filtered?
    ensures o.Applied? <==> InRange(doc, offset, length)
    ensures o.Applied? ==> o.doc == doc[..offset] + doc[offset + length..]
  {
    Bypass(doc, offset, length, "")
  }

  /** Runs a sequence of edits through a filter, one after the other. */
  function ApplyAll(doc: string, edits: seq<Edit>, filter: (string, Edit) -> Outcome): string
    decreases |edits|
  {
    if edits == [] then doc else ApplyAll(After(doc, filter(doc, edits[0])), edits[1..], filter)
  }

  /** A property of the text that survives every single edit survives any sequence of edits. */
  lemma {:induction false} ApplyAllPreserves(doc: string, edits: seq<Edit>, filter: (string, Edit) -> Outcome,
                                             inv: string -> bool)
    requires inv(doc)
    requires forall d, e :: inv(d) ==> inv(After(d, filter(d, e)))
    ensures inv(ApplyAll(doc, edits, filter))
    decreases |edits|
  {
    if edits != [] {
      ApplyAllPreserves(After(doc, filter(doc, edits[0])), edits[1..], filter, inv);
    }
  }
}
