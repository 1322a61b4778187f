/** The save dialog of content.js: the PDF source line it shows, the
    snippet record its save button builds, and the metadata the PDF
    quick-save button hands to it. */
module SaveDialog {
  import opened Options
  import opened Text
  import opened Tags
  import opened Snippets
  import Store

  /** The optional `metadata` argument of `createSaveDialog`:
      `{type, title, page}`. */
  datatype Metadata = Metadata(kind: string, title: string, page: string)

  /** The line shown under the selected text: the PDF title and page when
      the dialog was opened with PDF metadata, and nothing otherwise. */
  function SourceInfo(md: Option<Metadata>): (r: string)
    ensures r != [] <==> md.Some? && md.value.kind == "pdf"
    ensures r != [] ==> "PDF文档：" <= r
  {
    if md.Some? && md.value.kind == "pdf" then
      "PDF文档：" + md.value.title + "，第 " + md.value.page + " 页"
    else
      ""
  }

  /** The record the save button pushes. `text` is the selection,
      `tagsField` and `notesField` the raw field values, `url` and
      `docTitle` the page's address and title, `now` the capture time as
      an ISO string. The title is `metadata?.title || document.title`, so
      an empty metadata title falls back to the page title; the source is
      written whenever metadata was passed, with type `'pdf'`. */
  function NewSnippet(text: string, tagsField: string, notesField: string, url: string,
                      docTitle: string, now: string, md: Option<Metadata>): (r: Snippet)
    ensures r.text == text && r.url == url && r.date == now
    ensures IsBlank(tagsField) ==> r.tags == []
    ensures forall i :: 0 <= i < |r.tags| ==> IsTag(r.tags[i])
    ensures IsTrimmed(r.notes)
    ensures r.notes == [] <==> IsBlank(notesField)
    ensures md.Some? && md.value.title != [] ==> r.title == md.value.title
    ensures md.None? || md.value.title == [] ==> r.title == docTitle
    ensures r.source.Some? <==> md.Some?
    ensures md.Some? ==> r.source.value == Source("pdf", md.value.title, md.value.page)
    ensures IsPdf(r) <==> md.Some?
    ensures exists a, b :: IsBlank(a) && IsBlank(b) && notesField == a + r.notes + b
    ensures r.tags == CleanTokens(Split(tagsField, ','))
  {
    assert exists a, b :: IsBlank(a) && IsBlank(b) && notesField == a + Trim(notesField) + b by {
      var a, b := TrimParts(notesField);
    }
    ParseTagsPieces(tagsField);
    TrimIsTrimmed(notesField);
    TrimEmptyIffBlank(notesField);
    var title := if md.Some? && md.value.title != [] then md.value.title else docTitle;
    var source := if md.Some? then Some(Source("pdf", md.value.title, md.value.page)) else None;
    Snippet(text, ParseTags(tagsField), Trim(notesField), url, title, now, source)
  }

  /** Tags typed as a comma-separated list, with any padding, come back as
      that list. */
  lemma {:induction false} SavedTagsAreTyped(text: string, ts: seq<string>, notesField: string, url: string,
                                             docTitle: string, now: string, md: Option<Metadata>)
    requires |ts| >= 1
    requires forall i :: 0 <= i < |ts| ==> IsTag(ts[i]) && ',' !in ts[i]
    ensures NewSnippet(text, Join(ts, ","), notesField, url, docTitle, now, md).tags == ts
  {
    ParseTagsOfJoined(ts);
  }

  /** The save button's effect on storage: the new record goes to the end
      of the stored list, which reads as empty when it was never written. */
  function Save(st: Store.Stored, text: string, tagsField: string, notesField: string, url: string,
                docTitle: string, now: string, md: Option<Metadata>): (r: Store.Stored)
    ensures r.Some? && |r.value| == |Store.Load(st)| + 1
    ensures r.value[..|Store.Load(st)|] == Store.Load(st)
    ensures r.value[|r.value| - 1] == NewSnippet(text, tagsField, notesField, url, docTitle, now, md)
  {
    Store.Append(st, NewSnippet(text, tagsField, notesField, url, docTitle, now, md))
  }

  /** The first save on a fresh profile stores a one-element list. */
  lemma {:induction false} FirstSave(text: string, tagsField: string, notesField: string, url: string,
                                     docTitle: string, now: string, md: Option<Metadata>)
    ensures Save(None, text, tagsField, notesField, url, docTitle, now, md)
         == Some([NewSnippet(text, tagsField, notesField, url, docTitle, now, md)])
  {
  }

  /** The marker the PDF handler strips from the page title. */
  const PdfMarker: string := " [PDF]"

  /** The page title with the first `" [PDF]"` removed and trimmed, or
      `'PDF文档'` when that leaves nothing. */
  function PdfTitle(docTitle: string): (r: string)
    ensures r != []
    ensures IsBlank(ReplaceFirst(docTitle, PdfMarker, "")) ==> r == "PDF文档"
    ensures !IsBlank(ReplaceFirst(docTitle, PdfMarker, "")) ==> r == Trim(ReplaceFirst(docTitle, PdfMarker, ""))
    ensures !Occurs(docTitle, PdfMarker) && !IsBlank(docTitle) ==> r == Trim(docTitle)
  {
    var t := Trim(ReplaceFirst(docTitle, PdfMarker, ""));
    TrimEmptyIffBlank(ReplaceFirst(docTitle, PdfMarker, ""));
    TrimEmptyIffBlank(docTitle);
    if t == [] then "PDF文档" else t
  }

  /** In `a + " [PDF]" + b` with no marker inside `a`, the marker right
      after `a` is the first one: it cannot start inside `a` and run into
      the marker, since no character after its leading space is a space. */
  lemma {:induction false} MarkerFirstAt(a: string, b: string)
    requires !Occurs(a, PdfMarker)
    ensures FirstOccurrence(a + PdfMarker + b, PdfMarker, |a|)
  {
    var s := a + PdfMarker + b;
    assert s[|a|..] == PdfMarker + b;
    forall j | 0 <= j < |a|
      ensures !(PdfMarker <= s[j..])
    {
      if j + |PdfMarker| <= |a| {
        assert !(PdfMarker <= a[j..]);
        assert a[j..][..|PdfMarker|] == s[j..][..|PdfMarker|];
      } else {
        var d := |a| - j;
        assert s[j..][d] == ' ' != PdfMarker[d];
      }
    }
  }

  /** A title `a + " [PDF]" + b` whose first marker follows `a` becomes
      `a + b` trimmed, or `'PDF文档'` when that is blank. */
  lemma {:induction false} PdfTitleOfMarked(a: string, b: string)
    requires !Occurs(a, PdfMarker)
    ensures PdfTitle(a + PdfMarker + b) == if IsBlank(a + b) then "PDF文档" else Trim(a + b)
  {
    var s := a + PdfMarker + b;
    MarkerFirstAt(a, b);
    ReplaceFirstAt(s, PdfMarker, "", |a|);
    assert s[..|a|] == a;
    assert s[|a| + |PdfMarker|..] == b;
    assert ReplaceFirst(s, PdfMarker, "") == a + b;
  }

  /** The metadata the PDF quick-save button passes to the dialog. */
  function PdfMetadata(docTitle: string, page: string): (r: Metadata)
    ensures r.kind == "pdf" && r.title != [] && r.page == page
    ensures r.title == PdfTitle(docTitle)
  {
    Metadata("pdf", PdfTitle(docTitle), page)
  }

  /** A snippet saved from the PDF button carries the cleaned PDF title
      both as its title and in its source, and shows the source line. */
  lemma {:induction false} PdfSaveKeepsMetadata(text: string, tagsField: string, notesField: string,
                                                url: string, docTitle: string, now: string, page: string)
    ensures var md := PdfMetadata(docTitle, page);
            var s := NewSnippet(text, tagsField, notesField, url, docTitle, now, Some(md));
            s.title == PdfTitle(docTitle) && s.source == Some(Source("pdf", PdfTitle(docTitle), page))
            && IsPdf(s) && SourceInfo(Some(md)) != []
  {
  }
}
