/** `getCurrentPDFPage` (content.js): the page label shown for a PDF
    selection, read from whichever page widget the viewer has. */
module PdfPage {
  import opened Options

  /** The sentinel returned when no page widget exists. */
  const UnknownPage: string := "未知页码"

  /** The page widgets found in the document. `pageNumber` is the value of
      `#pageNumber`, `pageLabel` the text of `#pageLabel`; `viewer` is
      `None` without a `#viewer` element, `Some(None)` when it has no
      `.page[data-page-number]` child and `Some(Some(n))` when the first
      such child's attribute is `n`. A widget that exists counts even when
      its text is empty. */
  datatype Widgets = Widgets(
    pageNumber: Option<string>,
    pageLabel: Option<string>,
    viewer: Option<Option<string>>)

  /** The chain of element checks in `getCurrentPDFPage`. */
  function CurrentPage(w: Widgets): (r: string)
    ensures w.pageNumber.Some? ==> r == w.pageNumber.value
    ensures w.pageNumber.None? && w.pageLabel.Some? ==> r == w.pageLabel.value
    ensures w.pageNumber.None? && w.pageLabel.None? && w.viewer.Some?
            ==> r == w.viewer.value.GetOr("1")
    ensures w.pageNumber.None? && w.pageLabel.None? && w.viewer.None? ==> r == UnknownPage
  {
    if w.pageNumber.Some? then w.pageNumber.value
    else if w.pageLabel.Some? then w.pageLabel.value
    else if w.viewer.Some? then
      match w.viewer.value
      case Some(n) => n
      case None => "1"
    else UnknownPage
  }

  /** The first present candidate, or `fallback` when none is. */
  function FirstPresent(candidates: seq<Option<string>>, fallback: string): (r: string)
    ensures (forall i :: 0 <= i < |candidates| ==> candidates[i].None?) ==> r == fallback
    ensures forall i :: 0 <= i < |candidates| && candidates[i].Some?
              && (forall j :: 0 <= j < i ==> candidates[j].None?)
              ==> r == candidates[i].value
  {
    if candidates == [] then fallback
    else if candidates[0].Some? then candidates[0].value
    else FirstPresent(candidates[1..], fallback)
  }

  /** The widgets as a priority list; a viewer without a numbered page
      offers `'1'`. */
  function Candidates(w: Widgets): (r: seq<Option<string>>)
    ensures |r| == 3
  {
    [w.pageNumber, w.pageLabel,
     if w.viewer.Some? then Some(w.viewer.value.GetOr("1")) else None]
  }

  /** `getCurrentPDFPage` is "first widget present, else the sentinel". */
  lemma {:induction false} CurrentPageIsFirstPresent(w: Widgets)
    ensures CurrentPage(w) == FirstPresent(Candidates(w), UnknownPage)
  {
    var c := Candidates(w);
    if c[0].None? {
      assert c[1..][0] == c[1];
      if c[1].None? {
        assert c[1..][1..] == [c[2]];
        assert c[1..][1..][1..] == [];
      }
    }
  }

  /** The sentinel is returned only when no widget is present, unless a
      widget happens to read `'未知页码'` itself. */
  lemma {:induction false} UnknownOnlyWithoutWidgets(w: Widgets)
    requires w.pageNumber != Some(UnknownPage) && w.pageLabel != Some(UnknownPage)
    requires w.viewer != Some(Some(UnknownPage))
    ensures CurrentPage(w) == UnknownPage <==> w.pageNumber.None? && w.pageLabel.None? && w.viewer.None?
  {
  }
}
