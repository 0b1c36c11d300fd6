/** The two lighter strategies, `whats_new` and `latest_versions`, on pages
    whose content has already been extracted. */
module Strategies {
  import opened Common
  import TextHelpers
  import VersionPattern

  // ---------------------------------------------------------------- whats_new

  /** What a changelog page yields: the text of its `<h1>` and of its `<dl>`. */
  datatype ChangelogPage = ChangelogPage(heading: string, description: string)

  /** One entry of the table of contents: the resolved link of the changelog
      page and the page, or `None` when its fetch failed. */
  datatype ChangelogEntry = ChangelogEntry(link: string, page: Option<ChangelogPage>)

  const WhatsNewHeader: Row := [Str("Ссылка на статью"), Str("Заголовок"), Str("Редактор, Автор")]

  /** Lines 37-40: link, heading and the description on one line. */
  function ChangelogRow(link: string, page: ChangelogPage): Row
  {
    [Str(link), Str(page.heading), Str(TextHelpers.FlattenNewlines(page.description))]
  }

  /** The rows of the fetched entries, in table-of-contents order. */
  ghost function ChangelogRows(entries: seq<ChangelogEntry>): seq<Row>
    decreases |entries|
  {
    if entries == [] then []
    else
      var last := entries[|entries| - 1];
      ChangelogRows(entries[..|entries| - 1]) +
      (if last.page.Some? then [ChangelogRow(last.link, last.page.value)] else [])
  }

  /** The number of entries whose page was fetched. */
  ghost function FetchedPages(entries: seq<ChangelogEntry>): nat
    decreases |entries|
  {
    if entries == [] then 0
    else FetchedPages(entries[..|entries| - 1]) + (if entries[|entries| - 1].page.Some? then 1 else 0)
  }

  /** One row per fetched page, each a triple whose third cell is a single line. */
  lemma {:induction false} ChangelogRowsShape(entries: seq<ChangelogEntry>)
    ensures |ChangelogRows(entries)| == FetchedPages(entries)
    ensures HasArity(ChangelogRows(entries), 3)
    ensures forall i :: 0 <= i < |ChangelogRows(entries)| ==>
      ChangelogRows(entries)[i][2].Str? && '\n' !in ChangelogRows(entries)[i][2].text
    decreases |entries|
  {
    if entries != [] {
      ChangelogRowsShape(entries[..|entries| - 1]);
    }
  }

  /** The `whats_new` strategy (lines 16-41): `None` when the index page could
      not be fetched, otherwise the header and one row per changelog page that
      could be fetched; the others are skipped. */
  method WhatsNew(index: Option<seq<ChangelogEntry>>) returns (out: Option<seq<Row>>)
    ensures index.None? ==> out.None?
    ensures index.Some? ==> out == Some([WhatsNewHeader] + ChangelogRows(index.value))
  {
    if index.None? {
      return None;
    }
    var entries := index.value;
    var results := [WhatsNewHeader];
    var i := 0;
    while i < |entries|
      invariant 0 <= i <= |entries|
      invariant results == [WhatsNewHeader] + ChangelogRows(entries[..i])
    {
      var entry := entries[i];
      assert entries[..i + 1][..i] == entries[..i];
      if entry.page.Some? {
        results := results + [ChangelogRow(entry.link, entry.page.value)];
      }
      i := i + 1;
    }
    assert entries[..i] == entries;
    return Some(results);
  }

  // ---------------------------------------------------------- latest_versions

  /** A link of the sidebar: its target and its text. */
  datatype Link = Link(href: string, text: string)

  /** A `<ul>` of the sidebar: its whole text and its links in document order. */
  datatype ListTag = ListTag(text: string, links: seq<Link>)

  /** The main documentation page: the lists of its sidebar, or `None` when the
      page has no sidebar. */
  datatype MainPage = MainPage(sidebar: Option<seq<ListTag>>)

  /** What `latest_versions` ends with: nothing when the page could not be
      fetched, the error of the sidebar lookup, the exception raised when no list
      qualifies, or the table. */
  datatype VersionsOutcome = NoMainPage | SidebarMissing | NothingFound | Versions(table: seq<Row>)

  const Marker: string := "All versions"

  const VersionsHeader: Row := [Str("Ссылка на документацию"), Str("Версия"), Str("Статус")]

  predicate OccursAt(text: string, pattern: string, k: nat)
  {
    k + |pattern| <= |text| && text[k..k + |pattern|] == pattern
  }

  /** Python's `pattern in text`. */
  predicate Contains(text: string, pattern: string)
  {
    exists k: nat :: k <= |text| && OccursAt(text, pattern, k)
  }

  /** List `i` is the first whose text contains the marker. */
  ghost predicate IsFirstMarked(lists: seq<ListTag>, i: nat)
  {
    i < |lists| && Contains(lists[i].text, Marker) &&
    forall j :: 0 <= j < i ==> !Contains(lists[j].text, Marker)
  }

  /** Lines 51-56: the first list whose text contains the marker, found by a
      loop that breaks on it; `None` stands for the `else` branch that raises. */
  method SelectVersionList(lists: seq<ListTag>) returns (found: Option<nat>)
    ensures found.Some? ==> IsFirstMarked(lists, found.value)
    ensures found.None? ==> forall j :: 0 <= j < |lists| ==> !Contains(lists[j].text, Marker)
  {
    var i := 0;
    while i < |lists|
      invariant 0 <= i <= |lists|
      invariant forall j :: 0 <= j < i ==> !Contains(lists[j].text, Marker)
    {
      if Contains(lists[i].text, Marker) {
        return Some(i);
      }
      i := i + 1;
    }
    return None;
  }

  /** Lines 61-68: the row of one link, with the version and status the
      pattern extracts from its text. */
  function LinkRow(link: Link): Row
  {
    var (version, status) := VersionPattern.VersionAndStatus(link.text);
    [Str(link.href), Str(version), Str(status)]
  }

  /** The row of a link: its target, then the groups of the leftmost match
      (with the longest status) when the pattern matches its text, otherwise
      the text itself and an empty status. */
  lemma LinkRowMeaning(link: Link)
    ensures |LinkRow(link)| == 3 && LinkRow(link)[0] == Str(link.href)
    ensures VersionPattern.NoMatch(link.text) ==> LinkRow(link) == [Str(link.href), Str(link.text), Str("")]
    ensures !VersionPattern.NoMatch(link.text) ==>
      exists p: nat :: VersionPattern.IsLeftmostLongest(link.text, p, LinkRow(link)[1].text, LinkRow(link)[2].text)
  {
    VersionPattern.VersionAndStatusMeaning(link.text);
    var (version, status) := VersionPattern.VersionAndStatus(link.text);
    assert LinkRow(link)[1].text == version && LinkRow(link)[2].text == status;
  }

  /** A table of the header and one row per link, in document order. */
  ghost predicate IsVersionTable(table: seq<Row>, links: seq<Link>)
  {
    |table| == |links| + 1 && table[0] == VersionsHeader &&
    forall k :: 0 <= k < |links| ==> table[k + 1] == LinkRow(links[k])
  }

  /** Every row of a version table is a triple. */
  lemma VersionTableArity(table: seq<Row>, links: seq<Link>)
    requires IsVersionTable(table, links)
    ensures HasArity(table, 3)
  {
    forall i | 0 <= i < |table|
      ensures |table[i]| == 3
    {
      if i > 0 {
        LinkRowMeaning(links[i - 1]);
      }
    }
  }

  /** The `latest_versions` strategy (lines 44-70). */
  method LatestVersions(page: Option<MainPage>) returns (out: VersionsOutcome)
    ensures out.NoMainPage? <==> page.None?
    ensures out.SidebarMissing? <==> page.Some? && page.value.sidebar.None?
    ensures out.NothingFound? <==>
      (page.Some? && page.value.sidebar.Some? &&
       forall j :: 0 <= j < |page.value.sidebar.value| ==> !Contains(page.value.sidebar.value[j].text, Marker))
    ensures out.Versions? ==>
      (page.Some? && page.value.sidebar.Some? &&
       exists i: nat :: IsFirstMarked(page.value.sidebar.value, i) &&
         IsVersionTable(out.table, page.value.sidebar.value[i].links))
  {
    if page.None? {
      return NoMainPage;
    }
    if page.value.sidebar.None? {
      return SidebarMissing;
    }
    var lists := page.value.sidebar.value;
    var found := SelectVersionList(lists);
    if found.None? {
      return NothingFound;
    }
    var links := lists[found.value].links;
    var results := [VersionsHeader];
    var k := 0;
    while k < |links|
      invariant 0 <= k <= |links|
      invariant |results| == k + 1 && results[0] == VersionsHeader
      invariant forall m :: 0 <= m < k ==> results[m + 1] == LinkRow(links[m])
    {
      var (version, status) := VersionPattern.VersionAndStatus(links[k].text);
      results := results + [[Str(links[k].href), Str(version), Str(status)]];
      k := k + 1;
    }
    out := Versions(results);
    assert IsFirstMarked(lists, found.value) && IsVersionTable(results, lists[found.value].links);
  }
}
