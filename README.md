# bs4_parser_pep — a verified model of the extraction logic

`src/main.py` is a command-line scraper of the Python documentation and of the
PEP index. This project models the sequential logic inside it once page access
is taken away. Pages arrive as values that have already been extracted: a
failed fetch is `None`, and a page is the handful of strings the scraper reads
from it. The model covers the following:

- **`pep`** (`pep.dfy`): the numerical index is a sequence of `IndexRow`s. Each
  row has a code cell, the resolved link of its detail page, and the status that
  page shows (`None` when the fetch failed).
  - `Pep.CrawlIndex` is the loop of lines 108-127. It fills a `Counter` object
    (`Counting.StatusCounter`, mutated in place) and the mismatch list.
  - `Pep.VisitRow` is one pass of that loop's body.
  - `Pep.BuildTable` is the table of lines 107 and 134-136.
  - `Pep.Pep` puts the three together.
  - Each method is proved equal to a functional specification: `Crawl`, a fold
    of `Step` over the rows, and `ResultTable`.
  - The lemmas relate that specification to reference definitions stated on
    the rows alone: `FetchedCount`, `Occurrences`, `FirstSeenAt`,
    `FirstUnknownAt` and `Mismatches`.
  - The `EXPECTED_STATUS` table is a parameter, `map<string, set<string>>`. A
    code missing from it ends the strategy with the `KeyError` of that code
    (`UnknownCode`).
- **`Counter`** (`counting.dfy`): a `Counts` value holds the keys in the order
  they were first counted, plus their counts, as Python's insertion-ordered
  `Counter` does. `StatusCounter` is the object that `counter[key] += 1` updates.
- **`latest_versions`** (`strategies.dfy`, `version_pattern.dfy`):
  - The `for ... else` loop selects the first sidebar list whose text contains
    `All versions`.
  - `re.search(r'Python (?P<version>\d\.\d+) \((?P<status>.*)\)', text)` is a
    hand-written matcher:
    - `VersionEnd` and `MatchAt` match at one position; `Search` scans from the
      left.
    - It is proved against a declarative `IsMatch`: the result is the leftmost
      match, and the greedy status runs to the last `)` of the line.
  - The row falls back to `(link, text, '')` when nothing matches.
- **`whats_new`** (`strategies.dfy`): the loop that builds one row per
  changelog page that could be fetched.
- **String helpers** (`text_helpers.dfy`):
  - `text[1:]` (line 113);
  - `text.replace('\n', ' ')` (line 37);
  - `url.split('/')[-1]` (line 87), with a model of `str.split` proved
    loss-free against `str.join`.

The table headers are the source's own strings. The first header of `pep` is
`Cтатус`, whose first letter is a Latin `C`, and the model keeps that character.

## Model

| member | source | states |
|---|---|---|
| Pep.Pep | src/main.py:97-137 | The outcome is `PepSpec`: nothing when the index page is missing, the `KeyError` of an unknown code, or the table and the mismatches; a table ends with `('Total', n)`, where n is the number of fetched rows |
| Pep.CrawlIndex | src/main.py:108-127 | The loop over the index rows, with the counter object mutated in place, yields exactly the fold `Crawl` of the loop body over the rows, including stopping at an unknown code |
| Pep.VisitRow | src/main.py:112-127 | One pass of the body, as `Step`: a failed fetch changes nothing; an unknown code stops before anything is counted and leaves the counter as it was; otherwise the mismatch, if any, is appended and the counter gains one for the observed status |
| Pep.BuildTable | src/main.py:134-136 | The table built by appending one `(status, count)` per counter item, in counter order, then `('Total', sum)`, after the header, is `ResultTable` of the counter |
| Pep.CrawlMeaning | src/main.py:111-127 | The fold stops exactly when some fetched row has a code outside `EXPECTED_STATUS`, naming the first such row's code; otherwise the total is the number of fetched rows, each status is counted as often as it occurs, keys are in first-seen order and the mismatches are those of the rows in index order |
| Pep.StepKeepsDescription | src/main.py:112-127 | One pass of the loop body keeps the accumulators describing the rows processed so far (counter total, per-status counts, first-seen order, mismatch list) |
| Pep.CountKeepsDescription | src/main.py:123-127 | Counting a fetched row with a known code, whether or not it is a mismatch, and appending its mismatch keeps that description |
| Pep.SkipKeepsDescription | src/main.py:116-118 | A failed fetch keeps that description without touching either accumulator |
| Pep.SkippedRowIsInvisible | src/main.py:116-118 | Inserting a row whose detail fetch failed anywhere in the index leaves the whole outcome unchanged |
| Pep.KeyErrorIsFinal | src/main.py:123 | Once the loop has raised on a prefix of the rows, the rest of the rows cannot change the outcome |
| Pep.PepAbortsOnUnknownCode | src/main.py:123 | The strategy aborts with `UnknownCode` exactly when some fetched row carries a code missing from `EXPECTED_STATUS`, and it names the code of the first such row; failed fetches never raise |
| Pep.PepMismatchesInIndexOrder | src/main.py:123-126 | The logged mismatches are the rows' mismatches in index order |
| Pep.MismatchMembership | src/main.py:123-126 | A tuple is logged exactly when some fetched row with a known code shows a status outside its allowed set, and it is `(link, observed, EXPECTED_STATUS[code])` of that row |
| Pep.MismatchesSound | src/main.py:123-126 | Every logged tuple comes from a row that disagrees with `EXPECTED_STATUS` |
| Pep.MismatchesComplete | src/main.py:123-126 | Every row that disagrees with `EXPECTED_STATUS` has its tuple logged |
| Pep.PepTableTotal | src/main.py:134-136 | Every row of the table is a pair and the first is the header `('Cтатус', 'Количество')`; the last is `('Total', n)`, where n equals both the sum of the counts above it and the number of rows whose detail fetch succeeded |
| Pep.ResultTableShape | src/main.py:134-136 | For any counter: pairs only, header first, `('Total', total)` last, and the status counts sum to the total |
| Pep.PepTableStatusRows | src/main.py:134-135 | The status rows are one per observed status, none missing, in first-seen order, each with the number of rows showing that status |
| Pep.TableRowsCountOccurrences | src/main.py:134-135 | Each status row shows a status that occurs and its number of occurrences |
| Pep.TableRowsInFirstSeenOrder | src/main.py:134-135 | Status rows follow the order in which statuses were first seen |
| Pep.TableRowsCoverStatuses | src/main.py:134-135 | Every status that occurs has a status row |
| Pep.AddKeepsFirstSeenOrder | src/main.py:127 | `+= 1` on a status keeps the counter keys in first-seen order, appending a status seen for the first time |
| Pep.AddCountsOccurrences | src/main.py:127 | `+= 1` on the observed status keeps every count equal to that status's occurrences |
| Pep.StepOnKnownCode | src/main.py:123-127 | On a fetched row with a known code, the body counts the status and logs the mismatch exactly when the status is not allowed |
| Pep.SeenIffOccurs | src/main.py:127 | A status has a first-seen row exactly when it occurs |
| Pep.FirstSeenAt | src/main.py:127 | The first row showing a status: that row shows it and no earlier row does |
| Pep.FirstUnknownAt | src/main.py:123 | The first fetched row with an unknown code: that row has one and no earlier fetched row does |
| Pep.TwoProposalsExample | src/main.py:97-137 | Two proposals with codes `A` and `W` whose pages show `Active` and `Accepted`: the second is logged as a mismatch, both are counted, and the table ends with `('Total', 2)` |
| Counting.AddMeaning | src/main.py:127 | `counter[key] += 1` adds one to `key` (a missing key reads as 0) and changes no other count; a new key joins the end of the order, and the counter stays well formed |
| Counting.AddIncreasesTotal | src/main.py:127 | Each `+= 1` adds exactly one to `sum(counter.values())` |
| Counting.StatusCounter.constructor | src/main.py:109 | `Counter()` starts empty |
| Counting.StatusCounter.Increment | src/main.py:127 | The object's new value is the old value with `key` bumped, and its total grows by one |
| TextHelpers.StripFirst | src/main.py:113 | The code is the cell text minus its first character, one shorter; an empty cell gives an empty code |
| TextHelpers.FlattenNewlines | src/main.py:37 | Same length; each line feed becomes a space, every other character stays, and no line feed remains |
| TextHelpers.FlattenIdempotent | src/main.py:37 | Flattening twice is flattening once |
| TextHelpers.SplitPiecesAvoidSeparator | src/main.py:87 | No piece of `split('/')` contains `/` |
| TextHelpers.SplitLastIsSuffix | src/main.py:87 | The last piece of a split ends the text and is either all of it or preceded by the separator |
| TextHelpers.JoinSplit | src/main.py:87 | `sep.join(text.split(sep)) == text` |
| TextHelpers.ArchiveFilename | src/main.py:87 | The file name contains no `/` and is the suffix of the archive URL after its last `/`, or the whole URL when there is none |
| VersionPattern.VersionEnd | src/main.py:59 | When it succeeds, the text at `p` reads `Python `, a version `\d\.\d+` and ` (` |
| VersionPattern.MatchAtSound | src/main.py:59-62 | What the matcher reports at a position is a match of the pattern there |
| VersionPattern.MatchAtComplete | src/main.py:59-62 | Every match at a position is found there, with the same version and a status at least as long (greedy `.*`) |
| VersionPattern.SearchIsLeftmost | src/main.py:62 | `re.search` returns the match at the first position where the pattern matches, and finds nothing exactly when no position matches |
| VersionPattern.FallbackWithoutMatch | src/main.py:65-66 | With no match anywhere the row takes the whole text as version and an empty status |
| VersionPattern.GroupsOfLeftmostLongest | src/main.py:62-64 | With a match anywhere, the groups are those of the leftmost match with the longest status |
| VersionPattern.VersionAndStatusMeaning | src/main.py:62-66 | `(version, status)` is the leftmost longest match's groups when the text matches, and `(text, '')` otherwise |
| VersionPattern.StableReleaseExample | src/main.py:59-64 | `"Python 3.9 (stable)"` gives `("3.9", "stable")` |
| VersionPattern.VersionDotFollowsDigit | src/main.py:59 | Every match has `.` right after the first digit of the version |
| VersionPattern.MajorOnlyFallsBack | src/main.py:59-66 | `"Python 2 (EOL)"` has no `\d\.\d+` version and falls back to `("Python 2 (EOL)", "")` |
| Strategies.SelectVersionList | src/main.py:51-56 | The `for`/`break`/`else` selection returns the first list whose text contains `All versions`, and reports none (the raising `else`) only when no list does |
| Strategies.LatestVersions | src/main.py:44-70 | Nothing when the page is missing, the lookup error when the sidebar is missing, the exception exactly when no list qualifies; otherwise the header and one row per link of the first qualifying list, in document order |
| Strategies.LinkRowMeaning | src/main.py:60-68 | A link's row is a triple that starts with its href, then holds the leftmost longest match's groups, or the text and `''` when nothing matches |
| Strategies.VersionTableArity | src/main.py:58-69 | Every row of the versions table is a triple |
| Strategies.WhatsNew | src/main.py:16-41 | Nothing when the index page is missing; otherwise the header and one row per changelog page that could be fetched, in order, skipping the others |
| Strategies.ChangelogRowsShape | src/main.py:27-40 | One row per fetched page, each a triple whose third cell has no line feed |

## Left out

- The HTTP session with its cache, and `get_response` and `find_tag` from `utils`. The `utils` module is not part of this model. A fetch is an `Option` input: `None` when the request failed.
- BeautifulSoup parsing and navigation (lines 21-24, 34-36, 48-50, 101-122). The model receives the strings the scraper reads. Structural lookups in `pep` and `whats_new` are taken to succeed: the section, the table, `<dl>`, `<h1>` and the `Status` tag. Only the sidebar lookup of `latest_versions` can fail in the model (`SidebarMissing`).
- `urljoin` (lines 17, 30, 86, 115). Links arrive already resolved.
- The `None` that `.string` can yield at line 122. The detail status is a plain string.
- `tqdm` progress bars, and all `logging`, including the mismatch report at lines 128-133.
- In `download`:
  - the lookup of the archive link by its `pdf-a4.zip` regex (lines 79-86) is left out;
  - so are the directory creation, the request and the file write (lines 88-94).
  - Only the file-name expression of line 87 is modelled.
- `main`, argument parsing, the `MODE_TO_FUNCTION` dispatch and `control_output` (lines 140-161). This is plumbing with no logic of its own.
- `EXPECTED_STATUS` is defined in `constants`, which is not part of this model. It is a parameter of `Pep.Pep` that maps each code to a set of allowed statuses. The strategy only tests membership in it.
- Exceptions are outcomes, not unwinding: the `KeyError` of line 123 becomes `UnknownCode` and the exception of line 56 becomes `NothingFound`.
- VersionPattern.IsDigit: `\d` is restricted to the ASCII digits `0`-`9`. Python's `re` on `str` also matches other Unicode decimal digits.
- VersionPattern.MatchAt: only this one pattern is modelled, by a hand-written matcher, not a general regular-expression engine.
