/** The saved-snippet record and the locale services that the extension
    takes from the browser's date library. */
module Snippets {
  import opened Options

  /** Where a snippet came from when it was captured in a PDF viewer:
      `{type, title, page}`. The capture code always writes `type: 'pdf'`;
      the export code still tests it, so it is kept as data. */
  datatype Source = Source(kind: string, title: string, page: string)

  /** One stored snippet: the selected text, its tags and notes, the page's
      address and title, the capture time as an ISO 8601 string, and the
      optional PDF source (`null` when absent). */
  datatype Snippet = Snippet(
    text: string,
    tags: seq<string>,
    notes: string,
    url: string,
    title: string,
    date: string,
    source: Option<Source>)

  /** The `zh-CN` locale functions, left uninterpreted:
      `dateKey(iso)` is `new Date(iso).toLocaleDateString('zh-CN')`,
      `dateOrd(key)` is the timestamp of `new Date(key)` used to order keys,
      `dateTime(iso)` is `new Date(iso).toLocaleString('zh-CN')`. */
  datatype Locale = Locale(
    dateKey: string -> string,
    dateOrd: string -> int,
    dateTime: string -> string)

  /** The calendar-date key a snippet is grouped and deleted by. */
  function DateKey(loc: Locale, s: Snippet): string {
    loc.dateKey(s.date)
  }

  /** `snippet.source && snippet.source.type === 'pdf'`. */
  predicate IsPdf(s: Snippet) {
    s.source.Some? && s.source.value.kind == "pdf"
  }
}
