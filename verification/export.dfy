/** The two text exports of popup/popup.js: `formatExportData` (Markdown,
    sectioned by date, newest date first) and the plain-text export (one
    block per snippet in list order). Each snippet becomes a list of
    lines, rendered by one of two renderers; the Markdown document is a
    list of date headings and snippet entries. */
module Export {
  import opened Options
  import opened Text
  import opened Snippets
  import opened Grouping
  import opened DateOrder

  /** The parts of one exported snippet. */
  datatype Line =
    | Content(text: string)
    | From(title: string)
    | Link(url: string)
    | Time(when: string)
    | PdfPageLine(page: string)
    | TagsLine(tags: seq<string>)
    | NotesLine(notes: string)
    | Rule

  /** `tags.join(', ')`; the empty array joins to the empty string. */
  function JoinTags(tags: seq<string>): string {
    if tags == [] then "" else Join(tags, ", ")
  }

  /** `[line]` when `present`, nothing otherwise. */
  function Optional(present: bool, line: Line): (r: seq<Line>)
    ensures |r| <= 1
  {
    if present then [line] else []
  }

  /** A snippet's Markdown lines: content, source title, link and time
      always; the PDF page when the source is a PDF; the tags when there
      are any; the notes when they are non-empty; then one rule. */
  function MdLines(loc: Locale, s: Snippet): (r: seq<Line>)
    ensures 5 <= |r| <= 8
    ensures r[..4] == [Content(s.text), From(s.title), Link(s.url), Time(loc.dateTime(s.date))]
    ensures r[|r| - 1] == Rule
  {
    [Content(s.text), From(s.title), Link(s.url), Time(loc.dateTime(s.date))]
    + Optional(IsPdf(s), PdfPageLine(if IsPdf(s) then s.source.value.page else ""))
    + Optional(|s.tags| > 0, TagsLine(s.tags))
    + Optional(s.notes != [], NotesLine(s.notes))
    + [Rule]
  }

  /** The four always-present lines, the optional ones, and the rule. */
  lemma {:induction false} MdLinesParts(loc: Locale, s: Snippet)
    returns (pdf: seq<Line>, tags: seq<Line>, notes: seq<Line>)
    ensures pdf == Optional(IsPdf(s), PdfPageLine(if IsPdf(s) then s.source.value.page else ""))
    ensures tags == Optional(|s.tags| > 0, TagsLine(s.tags))
    ensures notes == Optional(s.notes != [], NotesLine(s.notes))
    ensures MdLines(loc, s)[4..] == pdf + tags + notes + [Rule]
  {
    pdf := Optional(IsPdf(s), PdfPageLine(if IsPdf(s) then s.source.value.page else ""));
    tags := Optional(|s.tags| > 0, TagsLine(s.tags));
    notes := Optional(s.notes != [], NotesLine(s.notes));
    var fixed := [Content(s.text), From(s.title), Link(s.url), Time(loc.dateTime(s.date))];
    assert MdLines(loc, s) == fixed + (pdf + tags + notes + [Rule]);
  }

  /** Exactly one rule per snippet, and it is the last line. */
  lemma {:induction false} MdLinesOneRule(loc: Locale, s: Snippet)
    ensures forall i :: 0 <= i < |MdLines(loc, s)| ==> (MdLines(loc, s)[i].Rule? <==> i == |MdLines(loc, s)| - 1)
  {
    var r := MdLines(loc, s);
    var pdf, tags, notes := MdLinesParts(loc, s);
    var tail := pdf + tags + notes + [Rule];
    forall i | 4 <= i < |r| - 1
      ensures !r[i].Rule?
    {
      assert r[i] == tail[i - 4];
    }
  }

  /** Which lines a snippet's Markdown block holds. */
  lemma {:induction false} MdLinesMember(loc: Locale, s: Snippet, l: Line)
    ensures l in MdLines(loc, s) <==>
              l in [Content(s.text), From(s.title), Link(s.url), Time(loc.dateTime(s.date))]
              || (IsPdf(s) && l == PdfPageLine(s.source.value.page))
              || (|s.tags| > 0 && l == TagsLine(s.tags))
              || (s.notes != [] && l == NotesLine(s.notes))
              || l == Rule
  {
    var pdf, tags, notes := MdLinesParts(loc, s);
    var r := MdLines(loc, s);
    assert r == r[..4] + (pdf + tags + notes + [Rule]);
  }

  /** The page line is there exactly for a PDF source, and shows its page. */
  lemma {:induction false} MdLinesPdfPage(loc: Locale, s: Snippet)
    ensures IsPdf(s) ==> PdfPageLine(s.source.value.page) in MdLines(loc, s)
    ensures forall l :: l in MdLines(loc, s) && l.PdfPageLine? ==> IsPdf(s) && l.page == s.source.value.page
  {
    if IsPdf(s) {
      MdLinesMember(loc, s, PdfPageLine(s.source.value.page));
    }
    forall l | l in MdLines(loc, s) && l.PdfPageLine?
      ensures IsPdf(s) && l.page == s.source.value.page
    {
      MdLinesMember(loc, s, l);
    }
  }

  /** The tags line is there exactly when there are tags, and lists them. */
  lemma {:induction false} MdLinesTags(loc: Locale, s: Snippet)
    ensures |s.tags| > 0 ==> TagsLine(s.tags) in MdLines(loc, s)
    ensures forall l :: l in MdLines(loc, s) && l.TagsLine? ==> |s.tags| > 0 && l.tags == s.tags
  {
    MdLinesMember(loc, s, TagsLine(s.tags));
    forall l | l in MdLines(loc, s) && l.TagsLine?
      ensures |s.tags| > 0 && l.tags == s.tags
    {
      MdLinesMember(loc, s, l);
    }
  }

  /** The notes block is there exactly when the notes are non-empty. */
  lemma {:induction false} MdLinesNotes(loc: Locale, s: Snippet)
    ensures s.notes != [] ==> NotesLine(s.notes) in MdLines(loc, s)
    ensures forall l :: l in MdLines(loc, s) && l.NotesLine? ==> s.notes != [] && l.notes == s.notes
  {
    MdLinesMember(loc, s, NotesLine(s.notes));
    forall l | l in MdLines(loc, s) && l.NotesLine?
      ensures s.notes != [] && l.notes == s.notes
    {
      MdLinesMember(loc, s, l);
    }
  }

  /** A snippet's plain-text lines: content and source title, the notes
      when they are non-empty, the time, then one rule. */
  function TxtLines(loc: Locale, s: Snippet): (r: seq<Line>)
    ensures |r| == if s.notes != [] then 5 else 4
    ensures r[..2] == [Content(s.text), From(s.title)]
    ensures r[|r| - 2..] == [Time(loc.dateTime(s.date)), Rule]
    ensures forall i :: 0 <= i < |r| - 1 ==> !r[i].Rule?
    ensures s.notes != [] <==> NotesLine(s.notes) in r
    ensures forall i :: 0 <= i < |r| && r[i].NotesLine? ==> r[i].notes == s.notes
  {
    var notes := if s.notes != [] then [NotesLine(s.notes)] else [];
    var r := [Content(s.text), From(s.title)] + notes + [Time(loc.dateTime(s.date)), Rule];
    assert s.notes != [] ==> r[2] == NotesLine(s.notes);
    r
  }

  /** The Markdown text of one line. */
  function RenderMd(line: Line): string {
    match line
    case Content(text) => "### 收藏内容\n" + text + "\n\n"
    case From(title) => "**来源：** " + title + "\n"
    case Link(url) => "**链接：** " + url + "\n"
    case Time(when) => "**时间：** " + when + "\n"
    case PdfPageLine(page) => "**PDF页码：** 第" + page + "页\n"
    case TagsLine(tags) => "**标签：** " + JoinTags(tags) + "\n"
    case NotesLine(notes) => "\n**笔记：**\n" + notes + "\n"
    case Rule => "\n---\n\n"
  }

  /** The plain-text form of one line; the plain-text export has no link,
      page or tags lines. */
  function RenderTxt(line: Line): string {
    match line
    case Content(text) => "内容：" + text + "\n"
    case From(title) => "来源：" + title + "\n"
    case NotesLine(notes) => "笔记：" + notes + "\n"
    case Time(when) => "时间：" + when + "\n"
    case Rule => "------------------------\n\n"
    case _ => ""
  }

  /** The lines rendered one after the other. */
  function RenderAll(lines: seq<Line>, render: Line -> string): string {
    if lines == [] then "" else render(lines[0]) + RenderAll(lines[1..], render)
  }

  /** Rendering distributes over concatenation of line lists. */
  lemma {:induction false} RenderAllAppend(a: seq<Line>, b: seq<Line>, render: Line -> string)
    ensures RenderAll(a + b, render) == RenderAll(a, render) + RenderAll(b, render)
    decreases |a|
  {
    if a == [] {
      assert a + b == b;
    } else {
      assert (a + b)[1..] == a[1..] + b;
      RenderAllAppend(a[1..], b, render);
    }
  }

  // ---------------------------------------------------------------------
  // Markdown

  /** The title line every Markdown export starts with. */
  const Header: string := "# 我的灵感收藏\n\n"

  /** An element of the Markdown document: a date heading or a snippet. */
  datatype Item = Heading(key: string) | Entry(snippet: Snippet)

  /** The entries for a list of snippets, in list order. */
  function Entries(xs: seq<Snippet>): (r: seq<Item>)
    ensures |r| == |xs|
    ensures forall i :: 0 <= i < |xs| ==> r[i] == Entry(xs[i])
  {
    seq(|xs|, i requires 0 <= i < |xs| => Entry(xs[i]))
  }

  /** For each key in turn, its heading followed by its group's entries. */
  function Sections(ks: seq<string>, g: map<string, seq<Snippet>>): seq<Item>
    requires forall i :: 0 <= i < |ks| ==> ks[i] in g
  {
    if ks == [] then [] else [Heading(ks[0])] + Entries(g[ks[0]]) + Sections(ks[1..], g)
  }

  /** `formatExportData`'s walk: the date keys newest first, each with its
      group in list order. */
  function Doc(loc: Locale, xs: seq<Snippet>): seq<Item> {
    SectionKeysInGroups(loc, xs);
    Sections(SectionKeys(loc, xs), GroupByDate(loc, xs))
  }

  /** Every section key has a group. */
  lemma {:induction false} SectionKeysInGroups(loc: Locale, xs: seq<Snippet>)
    ensures forall i :: 0 <= i < |SectionKeys(loc, xs)| ==> SectionKeys(loc, xs)[i] in GroupByDate(loc, xs)
  {
    var ks := SectionKeys(loc, xs);
    forall i | 0 <= i < |ks|
      ensures ks[i] in KeySet(loc, xs)
    {
      assert ks[i] in ks;
    }
  }

  /** The Markdown text of one document element. */
  function RenderItem(loc: Locale, item: Item): string {
    match item
    case Heading(key) => "## " + key + "\n\n"
    case Entry(s) => RenderAll(MdLines(loc, s), RenderMd)
  }

  function RenderItems(loc: Locale, items: seq<Item>): string {
    if items == [] then "" else RenderItem(loc, items[0]) + RenderItems(loc, items[1..])
  }

  /** `formatExportData`: the header, then the document. */
  function MarkdownExport(loc: Locale, xs: seq<Snippet>): (r: string)
    ensures Header <= r
    ensures xs == [] ==> r == Header
  {
    Header + RenderItems(loc, Doc(loc, xs))
  }

  /** The keys of the headings, in document order. */
  function Headings(items: seq<Item>): seq<string> {
    if items == [] then []
    else (if items[0].Heading? then [items[0].key] else []) + Headings(items[1..])
  }

  /** The snippets of the entries, in document order. */
  function Visited(items: seq<Item>): seq<Snippet> {
    if items == [] then []
    else (if items[0].Entry? then [items[0].snippet] else []) + Visited(items[1..])
  }

  lemma {:induction false} HeadingsAppend(a: seq<Item>, b: seq<Item>)
    ensures Headings(a + b) == Headings(a) + Headings(b)
    decreases |a|
  {
    if a == [] {
      assert a + b == b;
    } else {
      var h := if a[0].Heading? then [a[0].key] else [];
      assert (a + b)[0] == a[0];
      assert (a + b)[1..] == a[1..] + b;
      assert Headings(a + b) == h + Headings(a[1..] + b);
      HeadingsAppend(a[1..], b);
      assert h + (Headings(a[1..]) + Headings(b)) == (h + Headings(a[1..])) + Headings(b);
    }
  }

  lemma {:induction false} VisitedAppend(a: seq<Item>, b: seq<Item>)
    ensures Visited(a + b) == Visited(a) + Visited(b)
    decreases |a|
  {
    if a == [] {
      assert a + b == b;
    } else {
      var v := if a[0].Entry? then [a[0].snippet] else [];
      assert (a + b)[0] == a[0];
      assert (a + b)[1..] == a[1..] + b;
      assert Visited(a + b) == v + Visited(a[1..] + b);
      VisitedAppend(a[1..], b);
      assert v + (Visited(a[1..]) + Visited(b)) == (v + Visited(a[1..])) + Visited(b);
    }
  }

  /** Entries carry no headings, and visit their snippets in order. */
  lemma {:induction false} EntriesParts(xs: seq<Snippet>)
    ensures Headings(Entries(xs)) == []
    ensures Visited(Entries(xs)) == xs
    decreases |xs|
  {
    if xs != [] {
      var e := Entries(xs);
      assert e[1..] == Entries(xs[1..]);
      EntriesParts(xs[1..]);
      assert [xs[0]] + xs[1..] == xs;
    }
  }

  /** The headings of the sections are the keys ... */
  lemma {:induction false} SectionsHeadings(ks: seq<string>, g: map<string, seq<Snippet>>)
    requires forall i :: 0 <= i < |ks| ==> ks[i] in g
    ensures Headings(Sections(ks, g)) == ks
    decreases |ks|
  {
    if ks != [] {
      var head := [Heading(ks[0])];
      var body := Entries(g[ks[0]]);
      var rest := Sections(ks[1..], g);
      assert Sections(ks, g) == (head + body) + rest;
      SectionsHeadings(ks[1..], g);
      EntriesParts(g[ks[0]]);
      HeadingsAppend(head + body, rest);
      HeadingsAppend(head, body);
      assert Headings(head) == [ks[0]] by { assert head[1..] == []; }
      assert [ks[0]] + [] == [ks[0]];
      assert [ks[0]] + ks[1..] == ks;
    }
  }

  /** ... and the entries are the groups, concatenated in key order. */
  lemma {:induction false} SectionsVisited(ks: seq<string>, g: map<string, seq<Snippet>>)
    requires forall i :: 0 <= i < |ks| ==> ks[i] in g
    ensures Visited(Sections(ks, g)) == Flatten(ks, g)
    decreases |ks|
  {
    if ks != [] {
      var head := [Heading(ks[0])];
      var body := Entries(g[ks[0]]);
      var rest := Sections(ks[1..], g);
      assert Sections(ks, g) == (head + body) + rest;
      SectionsVisited(ks[1..], g);
      EntriesParts(g[ks[0]]);
      VisitedAppend(head + body, rest);
      VisitedAppend(head, body);
      assert Visited(head) == [] by { assert head[1..] == []; }
      assert [] + g[ks[0]] == g[ks[0]];
    }
  }

  /** The Markdown export has one heading per date of the list, no date
      twice, newest date first. */
  lemma {:induction false} DocHeadings(loc: Locale, xs: seq<Snippet>)
    ensures NewestFirst(loc, Headings(Doc(loc, xs)))
    ensures Distinct(Headings(Doc(loc, xs)))
    ensures forall k :: k in Headings(Doc(loc, xs)) <==> k in KeySet(loc, xs)
  {
    var ks := SectionKeys(loc, xs);
    var g := GroupByDate(loc, xs);
    SectionKeysInGroups(loc, xs);
    SectionsHeadings(ks, g);
  }

  /** The Markdown export shows every snippet of the list exactly as often
      as it occurs there, and nothing else. */
  lemma {:induction false} DocVisitsEachSnippetOnce(loc: Locale, xs: seq<Snippet>)
    ensures multiset(Visited(Doc(loc, xs))) == multiset(xs)
    ensures |Visited(Doc(loc, xs))| == |xs|
  {
    var ks := SectionKeys(loc, xs);
    var g := GroupByDate(loc, xs);
    SectionKeysInGroups(loc, xs);
    SectionsVisited(ks, g);
    GroupsCoverList(loc, xs, ks);
  }

  /** Every entry comes after a heading, and the nearest heading above it
      is its own date. `current` is the heading in force. */
  predicate UnderOwnHeading(loc: Locale, items: seq<Item>, current: Option<string>)
    decreases |items|
  {
    items == []
    || match items[0]
       case Heading(k) => UnderOwnHeading(loc, items[1..], Some(k))
       case Entry(s) => current == Some(DateKey(loc, s)) && UnderOwnHeading(loc, items[1..], current)
  }

  lemma {:induction false} EntriesUnder(loc: Locale, xs: seq<Snippet>, k: string, rest: seq<Item>)
    requires forall i :: 0 <= i < |xs| ==> DateKey(loc, xs[i]) == k
    requires UnderOwnHeading(loc, rest, Some(k))
    ensures UnderOwnHeading(loc, Entries(xs) + rest, Some(k))
    decreases |xs|
  {
    var e := Entries(xs) + rest;
    if xs == [] {
      assert e == rest;
    } else {
      assert e[0] == Entry(xs[0]);
      assert e[1..] == Entries(xs[1..]) + rest;
      EntriesUnder(loc, xs[1..], k, rest);
    }
  }

  /** Every group holds only snippets of its own key. */
  predicate KeyedGroups(loc: Locale, g: map<string, seq<Snippet>>) {
    forall k, i :: k in g && 0 <= i < |g[k]| ==> DateKey(loc, g[k][i]) == k
  }

  /** Each section opens with its heading and holds only its own date's
      snippets, whatever heading came before. */
  lemma {:induction false} SectionsUnder(loc: Locale, g: map<string, seq<Snippet>>, ks: seq<string>,
                                         current: Option<string>)
    requires KeyedGroups(loc, g)
    requires forall i :: 0 <= i < |ks| ==> ks[i] in g
    ensures UnderOwnHeading(loc, Sections(ks, g), current)
    decreases |ks|
  {
    if ks != [] {
      var k := ks[0];
      var rest := Sections(ks[1..], g);
      var body := Entries(g[k]) + rest;
      SectionsUnder(loc, g, ks[1..], Some(k));
      EntriesUnder(loc, g[k], k, rest);
      var doc := [Heading(k)] + body;
      assert Sections(ks, g) == doc;
      assert doc[0] == Heading(k) && doc[1..] == body;
    }
  }

  /** In the Markdown export every snippet sits under the heading of its
      own date. */
  lemma {:induction false} DocEntriesUnderOwnDate(loc: Locale, xs: seq<Snippet>)
    ensures UnderOwnHeading(loc, Doc(loc, xs), None)
  {
    var ks := SectionKeys(loc, xs);
    SectionKeysInGroups(loc, xs);
    var g := GroupByDate(loc, xs);
    forall k, i | k in g && 0 <= i < |g[k]|
      ensures DateKey(loc, g[k][i]) == k
    {
      assert g[k] == OnDate(loc, xs, k);
    }
    SectionsUnder(loc, g, ks, None);
  }

  /** The document with the section of `k` cut out: its heading and the
      entries up to the next heading. `skipping` says whether the items
      are inside that section. */
  function DropSection(items: seq<Item>, k: string, skipping: bool): seq<Item>
    decreases |items|
  {
    if items == [] then []
    else match items[0]
      case Heading(h) => (if h == k then [] else [items[0]]) + DropSection(items[1..], k, h == k)
      case Entry(_) => (if skipping then [] else [items[0]]) + DropSection(items[1..], k, skipping)
  }

  lemma {:induction false} DropSectionEntries(xs: seq<Snippet>, rest: seq<Item>, k: string, skipping: bool)
    ensures DropSection(Entries(xs) + rest, k, skipping)
         == (if skipping then [] else Entries(xs)) + DropSection(rest, k, skipping)
    decreases |xs|
  {
    var e := Entries(xs) + rest;
    if xs == [] {
      assert e == rest;
    } else {
      assert e[0] == Entry(xs[0]);
      assert e[1..] == Entries(xs[1..]) + rest;
      DropSectionEntries(xs[1..], rest, k, skipping);
      assert Entries(xs) == [Entry(xs[0])] + Entries(xs[1..]);
    }
  }

  /** Cutting a section out of the sections of `ks` gives the sections of
      `ks` without that key. */
  lemma {:induction false} DropSectionOfSections(ks: seq<string>, g: map<string, seq<Snippet>>, k: string,
                                                 skipping: bool)
    requires forall i :: 0 <= i < |ks| ==> ks[i] in g
    ensures forall i :: 0 <= i < |RemoveKey(ks, k)| ==> RemoveKey(ks, k)[i] in g
    ensures DropSection(Sections(ks, g), k, skipping) == Sections(RemoveKey(ks, k), g)
    decreases |ks|
  {
    forall i | 0 <= i < |RemoveKey(ks, k)|
      ensures RemoveKey(ks, k)[i] in g
    {
      RemoveKeyMembers(ks, k, RemoveKey(ks, k)[i]);
    }
    if ks != [] {
      var h := ks[0];
      var body := Entries(g[h]);
      var rest := Sections(ks[1..], g);
      DropSectionOfSections(ks[1..], g, k, h == k);
      DropSectionEntries(g[h], rest, k, h == k);
      var doc := [Heading(h)] + body + rest;
      assert doc[0] == Heading(h) && doc[1..] == body + rest;
      if h != k {
        assert RemoveKey(ks, k) == [h] + RemoveKey(ks[1..], k);
        assert ([h] + RemoveKey(ks[1..], k))[1..] == RemoveKey(ks[1..], k);
      } else {
        assert RemoveKey(ks, k) == [] + RemoveKey(ks[1..], k);
        assert [] + RemoveKey(ks[1..], k) == RemoveKey(ks[1..], k);
      }
    }
  }

  /** Sections read only the groups of their own keys. */
  lemma {:induction false} SectionsSameGroups(ks: seq<string>, g: map<string, seq<Snippet>>,
                                              g': map<string, seq<Snippet>>)
    requires forall i :: 0 <= i < |ks| ==> ks[i] in g && ks[i] in g' && g[ks[i]] == g'[ks[i]]
    ensures Sections(ks, g) == Sections(ks, g')
    decreases |ks|
  {
    if ks != [] {
      SectionsSameGroups(ks[1..], g, g');
    }
  }

  /** The Markdown export after `deleteSnippetsByDate(k)` is the export
      before it with the section of `k` cut out; every other section,
      and the order of the sections, is unchanged. */
  lemma {:induction false} DocAfterDelete(loc: Locale, xs: seq<Snippet>, k: string)
    ensures Doc(loc, WithoutDate(loc, xs, k)) == DropSection(Doc(loc, xs), k, false)
  {
    var ks := SectionKeys(loc, xs);
    var g := GroupByDate(loc, xs);
    var w := WithoutDate(loc, xs, k);
    var g' := GroupByDate(loc, w);
    SectionKeysInGroups(loc, xs);
    SectionKeysWithout(loc, xs, k);
    RegroupAfterDelete(loc, xs, k);
    DropSectionOfSections(ks, g, k, false);
    var rk := RemoveKey(ks, k);
    forall i | 0 <= i < |rk|
      ensures rk[i] in g && rk[i] in g' && g[rk[i]] == g'[rk[i]]
    {
      RemoveKeyMembers(ks, k, rk[i]);
    }
    SectionsSameGroups(rk, g, g');
  }

  // ---------------------------------------------------------------------
  // Plain text

  /** The plain-text export: every snippet's block, in list order, with no
      grouping. */
  function TxtExport(loc: Locale, xs: seq<Snippet>): (r: string)
    ensures xs == [] ==> r == ""
  {
    if xs == [] then "" else RenderAll(TxtLines(loc, xs[0]), RenderTxt) + TxtExport(loc, xs[1..])
  }

  /** The plain-text export of two lists one after the other is the
      export of the first followed by the export of the second: snippets
      appear in list order, each as its own block. */
  lemma {:induction false} TxtExportAppend(loc: Locale, xs: seq<Snippet>, ys: seq<Snippet>)
    ensures TxtExport(loc, xs + ys) == TxtExport(loc, xs) + TxtExport(loc, ys)
    decreases |xs|
  {
    if xs == [] {
      assert xs + ys == ys;
    } else {
      assert (xs + ys)[1..] == xs[1..] + ys;
      TxtExportAppend(loc, xs[1..], ys);
    }
  }

  /** A snippet with notes exports to five plain-text lines. */
  lemma {:induction false} TxtExportOne(loc: Locale, s: Snippet)
    requires s.notes != []
    ensures TxtExport(loc, [s])
         == "内容：" + s.text + "\n" + "来源：" + s.title + "\n" + "笔记：" + s.notes + "\n"
            + "时间：" + loc.dateTime(s.date) + "\n" + "------------------------\n\n"
  {
    var lines := TxtLines(loc, s);
    TxtLinesWithNotes(loc, s);
    RenderAllCons(lines, RenderTxt);
    assert RenderTxt(lines[0]) == "内容：" + s.text + "\n";
    assert RenderTxt(lines[1]) == "来源：" + s.title + "\n";
    assert RenderTxt(lines[2]) == "笔记：" + s.notes + "\n";
    assert RenderTxt(lines[3]) == "时间：" + loc.dateTime(s.date) + "\n";
    assert RenderTxt(lines[4]) == "------------------------\n\n";
    assert [s][1..] == [];
    assert TxtExport(loc, [s]) == RenderAll(lines, RenderTxt) + "";
  }

  /** Five lines render as their five renderings in order. */
  lemma {:induction false} RenderAllCons(lines: seq<Line>, render: Line -> string)
    requires |lines| == 5
    ensures RenderAll(lines, render)
         == render(lines[0]) + render(lines[1]) + render(lines[2]) + render(lines[3]) + render(lines[4])
  {
    var l1, l2, l3, l4 := lines[1..], lines[2..], lines[3..], lines[4..];
    assert l4[1..] == [];
    assert l3[1..] == l4 && l2[1..] == l3 && l1[1..] == l2;
    assert RenderAll(l4, render) == render(lines[4]);
    assert RenderAll(l3, render) == render(lines[3]) + render(lines[4]);
    assert RenderAll(l2, render) == render(lines[2]) + (render(lines[3]) + render(lines[4]));
    assert RenderAll(l1, render) == render(lines[1]) + (render(lines[2]) + render(lines[3]) + render(lines[4]));
  }

  /** With notes, the plain-text block has all five lines. */
  lemma {:induction false} TxtLinesWithNotes(loc: Locale, s: Snippet)
    requires s.notes != []
    ensures TxtLines(loc, s) == [Content(s.text), From(s.title), NotesLine(s.notes), Time(loc.dateTime(s.date)), Rule]
  {
  }

  /** Rendering a document split in two renders the halves one after the
      other. */
  lemma {:induction false} RenderItemsAppend(loc: Locale, a: seq<Item>, b: seq<Item>)
    ensures RenderItems(loc, a + b) == RenderItems(loc, a) + RenderItems(loc, b)
    decreases |a|
  {
    if a == [] {
      assert a + b == b;
    } else {
      assert (a + b)[0] == a[0];
      assert (a + b)[1..] == a[1..] + b;
      RenderItemsAppend(loc, a[1..], b);
    }
  }

  /** One snippet makes one section: its date heading and its entry. */
  lemma {:induction false} DocOne(loc: Locale, s: Snippet)
    ensures Doc(loc, [s]) == [Heading(DateKey(loc, s)), Entry(s)]
  {
    var k := DateKey(loc, s);
    var xs := [s];
    assert xs[..0] == [];
    assert DateKeys(loc, xs) == [k];
    assert [k][1..] == [];
    assert SortNewestFirst(loc, [k]) == [k];
    assert SectionKeys(loc, xs) == [k];
    var g := GroupByDate(loc, xs);
    assert OnDate(loc, xs, k) == [s];
    assert g[k] == [s];
    assert Entries([s]) == [Entry(s)];
    assert Sections([k], g) == [Heading(k)] + Entries([s]) + Sections([], g);
  }

  /** The Markdown export of one snippet is the header, its date heading
      and its block. */
  lemma {:induction false} MarkdownExportOne(loc: Locale, s: Snippet)
    ensures MarkdownExport(loc, [s])
         == Header + RenderItem(loc, Heading(DateKey(loc, s))) + RenderAll(MdLines(loc, s), RenderMd)
  {
    var items := [Heading(DateKey(loc, s)), Entry(s)];
    DocOne(loc, s);
    assert items[1..] == [Entry(s)];
    assert items[1..][1..] == [];
    var e := RenderItem(loc, items[1]);
    assert RenderItems(loc, items[1..]) == e + RenderItems(loc, []) == e + "";
    assert e + "" == e;
    assert RenderItems(loc, items) == RenderItem(loc, items[0]) + e;
  }
}
