/** The `pep` strategy: every row of the numerical index is checked against its
    detail page, mismatches between the index code and the detail status are
    collected, and the detail statuses are counted.

    Page access is abstracted: each index row arrives with its code cell, the
    resolved link of its detail page and the status that page shows, or `None`
    when the detail fetch failed. `Crawl` is the loop of lines 111-127 as a
    fold; `Pep` is the strategy itself, proved equal to `PepSpec`. */
module Pep {
  import opened Common
  import opened Counting
  import TextHelpers

  /** One row of the numerical index, as far as the strategy uses it. */
  datatype IndexRow = IndexRow(codeCell: string, link: string, detail: Option<string>)

  /** `EXPECTED_STATUS`: index status code to the detail statuses it allows. */
  type ExpectedTable = map<string, set<string>>

  /** A logged disagreement: link, status on the detail page, allowed statuses. */
  datatype Mismatch = Mismatch(link: string, observed: string, expected: set<string>)

  /** The two accumulators of the loop. */
  datatype Tally = Tally(counter: Counts, mismatches: seq<Mismatch>)

  /** The loop either runs on or stops with the `KeyError` of an unknown code. */
  datatype Crawled = Ok(tally: Tally) | KeyError(code: string)

  /** What the strategy returns: nothing when the index page could not be
      fetched, the error of an unknown code, or the table with the mismatches
      it logged. */
  datatype PepOutcome =
    | NoIndexPage
    | UnknownCode(code: string)
    | Done(table: seq<Row>, mismatches: seq<Mismatch>)

  const Header: Row := [Str("Cтатус"), Str("Количество")]

  function TotalRow(n: int): Row
  {
    [Str("Total"), Int(n)]
  }

  /** Line 113: the index code is the code cell without its first character. */
  function IndexCode(row: IndexRow): string
  {
    TextHelpers.StripFirst(row.codeCell)
  }

  /** A fetched row whose code `EXPECTED_STATUS` does not know. */
  predicate Unknown(row: IndexRow, expected: ExpectedTable)
  {
    row.detail.Some? && IndexCode(row) !in expected
  }

  /** One pass of the loop body (lines 112-127). */
  function Step(t: Tally, row: IndexRow, expected: ExpectedTable): Crawled
  {
    match row.detail
    case None => Ok(t)
    case Some(observed) =>
      var code := IndexCode(row);
      if code !in expected then KeyError(code)
      else
        var found := if observed in expected[code] then [] else [Mismatch(row.link, observed, expected[code])];
        Ok(Tally(t.counter.Add(observed), t.mismatches + found))
  }

  /** The loop over the index rows, as a fold over its prefixes. */
  function Crawl(rows: seq<IndexRow>, expected: ExpectedTable): Crawled
    decreases |rows|
  {
    if rows == [] then Ok(Tally(Empty, []))
    else
      match Crawl(rows[..|rows| - 1], expected)
      case KeyError(code) => KeyError(code)
      case Ok(t) => Step(t, rows[|rows| - 1], expected)
  }

  /** One `(status, count)` row per counted status, in first-counted order. */
  function StatusRows(c: Counts): seq<Row>
  {
    seq(|c.keys|, i requires 0 <= i < |c.keys| => [Str(c.keys[i]), Int(c.Get(c.keys[i]))])
  }

  /** Lines 107 and 134-136: header, status rows and the total. */
  function ResultTable(c: Counts): seq<Row>
  {
    [Header] + StatusRows(c) + [TotalRow(c.Total())]
  }

  /** The whole strategy on abstract pages. */
  function PepSpec(index: Option<seq<IndexRow>>, expected: ExpectedTable): PepOutcome
  {
    match index
    case None => NoIndexPage
    case Some(rows) =>
      match Crawl(rows, expected)
      case KeyError(code) => UnknownCode(code)
      case Ok(t) => Done(ResultTable(t.counter), t.mismatches)
  }

  // Reference definitions, each stated on the rows alone.

  /** The number of rows whose detail fetch succeeded. */
  ghost function FetchedCount(rows: seq<IndexRow>): nat
    decreases |rows|
  {
    if rows == [] then 0
    else FetchedCount(rows[..|rows| - 1]) + (if rows[|rows| - 1].detail.Some? then 1 else 0)
  }

  /** The number of rows whose detail page shows `status`. */
  ghost function Occurrences(rows: seq<IndexRow>, status: string): nat
    decreases |rows|
  {
    if rows == [] then 0
    else Occurrences(rows[..|rows| - 1], status) + (if rows[|rows| - 1].detail == Some(status) then 1 else 0)
  }

  /** The index of the first row whose detail page shows `status`, or `|rows|`. */
  ghost function FirstSeenAt(rows: seq<IndexRow>, status: string): (at: nat)
    ensures at <= |rows|
    ensures at < |rows| ==> rows[at].detail == Some(status)
    ensures forall k :: 0 <= k < at && k < |rows| ==> rows[k].detail != Some(status)
    decreases |rows|
  {
    if rows == [] then 0
    else
      var front := rows[..|rows| - 1];
      var at := FirstSeenAt(front, status);
      if at < |front| then at
      else if rows[|rows| - 1].detail == Some(status) then |front|
      else |rows|
  }

  /** The index of the first fetched row with an unknown code, or `|rows|`. */
  ghost function FirstUnknownAt(rows: seq<IndexRow>, expected: ExpectedTable): (at: nat)
    ensures at <= |rows|
    ensures at < |rows| ==> Unknown(rows[at], expected)
    ensures forall k :: 0 <= k < at && k < |rows| ==> !Unknown(rows[k], expected)
    decreases |rows|
  {
    if rows == [] then 0
    else
      var front := rows[..|rows| - 1];
      var at := FirstUnknownAt(front, expected);
      if at < |front| then at
      else if Unknown(rows[|rows| - 1], expected) then |front|
      else |rows|
  }

  /** The mismatch of one row: present exactly when the row was fetched, its
      code is known and its detail status is not among the allowed ones. */
  ghost function RowMismatch(row: IndexRow, expected: ExpectedTable): seq<Mismatch>
  {
    if row.detail.Some? && IndexCode(row) in expected && row.detail.value !in expected[IndexCode(row)]
    then [Mismatch(row.link, row.detail.value, expected[IndexCode(row)])]
    else []
  }

  /** `m` is the tuple logged for `row`: the row was fetched, its code is
      known, its detail status is not allowed, and `m` records its link, that
      status and the allowed set. */
  ghost predicate LogsMismatch(row: IndexRow, expected: ExpectedTable, m: Mismatch)
  {
    row.detail.Some? && IndexCode(row) in expected && row.detail.value !in expected[IndexCode(row)] &&
    m == Mismatch(row.link, row.detail.value, expected[IndexCode(row)])
  }

  /** The mismatches of all rows, in index order. */
  ghost function Mismatches(rows: seq<IndexRow>, expected: ExpectedTable): seq<Mismatch>
    decreases |rows|
  {
    if rows == [] then []
    else Mismatches(rows[..|rows| - 1], expected) + RowMismatch(rows[|rows| - 1], expected)
  }

  /** A status has been seen exactly when it occurs. */
  lemma {:induction false} SeenIffOccurs(rows: seq<IndexRow>, status: string)
    ensures Occurrences(rows, status) > 0 <==> FirstSeenAt(rows, status) < |rows|
    decreases |rows|
  {
    if rows != [] {
      SeenIffOccurs(rows[..|rows| - 1], status);
    }
  }

  /** Each status is counted as often as it occurs in the rows. */
  ghost predicate CountsOccurrences(rows: seq<IndexRow>, c: Counts)
  {
    forall s :: c.Get(s) == Occurrences(rows, s)
  }

  /** The statuses are in the order they were first seen. */
  ghost predicate InFirstSeenOrder(rows: seq<IndexRow>, keys: seq<string>)
  {
    forall i, j :: 0 <= i < j < |keys| ==> FirstSeenAt(rows, keys[i]) < FirstSeenAt(rows, keys[j])
  }

  /** Every one of the statuses occurs in the rows. */
  ghost predicate AllOccur(rows: seq<IndexRow>, keys: seq<string>)
  {
    forall k :: k in keys ==> Occurrences(rows, k) > 0
  }

  /** What the accumulators hold after the rows: the counter's total is the
      number of fetched rows, each status is counted as often as it occurs,
      the counter's keys are in the order the statuses were first seen, and the
      mismatches are those of the rows in index order. */
  ghost predicate Describes(rows: seq<IndexRow>, expected: ExpectedTable, t: Tally)
  {
    t.counter.Valid() &&
    t.counter.Total() == FetchedCount(rows) &&
    CountsOccurrences(rows, t.counter) &&
    InFirstSeenOrder(rows, t.counter.keys) &&
    t.mismatches == Mismatches(rows, expected)
  }

  /** The fold on a longer input is one more step. */
  lemma CrawlAppend(rows: seq<IndexRow>, row: IndexRow, expected: ExpectedTable)
    ensures Crawl(rows + [row], expected) ==
      if Crawl(rows, expected).KeyError? then Crawl(rows, expected)
      else Step(Crawl(rows, expected).tally, row, expected)
  {
    assert (rows + [row])[..|rows|] == rows;
  }

  /** The keys of a counter that counts occurrences all occur. */
  lemma KeysOccur(rows: seq<IndexRow>, c: Counts)
    requires c.Valid() && CountsOccurrences(rows, c)
    ensures AllOccur(rows, c.keys)
  {
    forall k | k in c.keys
      ensures Occurrences(rows, k) > 0
    {
      assert c.Get(k) > 0;
    }
  }

  /** A status that already occurs keeps the row where it was first seen. */
  lemma SeenKeepsFirstSeen(rows: seq<IndexRow>, k: string)
    requires |rows| > 0 && Occurrences(rows[..|rows| - 1], k) > 0
    ensures FirstSeenAt(rows, k) == FirstSeenAt(rows[..|rows| - 1], k) < |rows| - 1
  {
    SeenIffOccurs(rows[..|rows| - 1], k);
  }

  /** One more row keeps the order of statuses that already occur. */
  lemma FirstSeenOrderExtends(rows: seq<IndexRow>, keys: seq<string>)
    requires |rows| > 0 && AllOccur(rows[..|rows| - 1], keys)
    requires InFirstSeenOrder(rows[..|rows| - 1], keys)
    ensures InFirstSeenOrder(rows, keys)
  {
    forall k | k in keys
      ensures FirstSeenAt(rows, k) == FirstSeenAt(rows[..|rows| - 1], k)
    {
      SeenKeepsFirstSeen(rows, k);
    }
  }

  /** A status first seen in the last row comes after all that occur before it. */
  lemma FirstSeenOrderAppends(rows: seq<IndexRow>, keys: seq<string>, observed: string)
    requires |rows| > 0 && rows[|rows| - 1].detail == Some(observed)
    requires Occurrences(rows[..|rows| - 1], observed) == 0
    requires AllOccur(rows[..|rows| - 1], keys)
    requires InFirstSeenOrder(rows[..|rows| - 1], keys)
    ensures InFirstSeenOrder(rows, keys + [observed])
  {
    var front := rows[..|rows| - 1];
    var next := keys + [observed];
    SeenIffOccurs(front, observed);
    assert FirstSeenAt(rows, observed) == |front|;
    forall k | k in keys
      ensures FirstSeenAt(rows, k) == FirstSeenAt(front, k) < |front|
    {
      SeenKeepsFirstSeen(rows, k);
    }
    forall i, j | 0 <= i < j < |next|
      ensures FirstSeenAt(rows, next[i]) < FirstSeenAt(rows, next[j])
    {
      assert next[i] in keys;
      if j < |keys| {
        assert next[j] in keys;
      }
    }
  }

  /** Counting the status of one more fetched row keeps the first-seen order. */
  lemma AddKeepsFirstSeenOrder(rows: seq<IndexRow>, c: Counts, observed: string)
    requires |rows| > 0 && rows[|rows| - 1].detail == Some(observed)
    requires c.Valid() && CountsOccurrences(rows[..|rows| - 1], c)
    requires InFirstSeenOrder(rows[..|rows| - 1], c.keys)
    ensures InFirstSeenOrder(rows, c.Add(observed).keys)
  {
    KeysOccur(rows[..|rows| - 1], c);
    if observed in c.counts {
      FirstSeenOrderExtends(rows, c.keys);
    } else {
      assert c.Get(observed) == 0;
      FirstSeenOrderAppends(rows, c.keys, observed);
    }
  }

  /** A failed fetch keeps the first-seen order. */
  lemma SkipKeepsFirstSeenOrder(rows: seq<IndexRow>, c: Counts)
    requires |rows| > 0
    requires c.Valid() && CountsOccurrences(rows[..|rows| - 1], c)
    requires InFirstSeenOrder(rows[..|rows| - 1], c.keys)
    ensures InFirstSeenOrder(rows, c.keys)
  {
    KeysOccur(rows[..|rows| - 1], c);
    FirstSeenOrderExtends(rows, c.keys);
  }

  /** Counting the status of one more fetched row keeps the counts equal to
      the occurrences. */
  lemma AddCountsOccurrences(rows: seq<IndexRow>, c: Counts, observed: string)
    requires |rows| > 0 && rows[|rows| - 1].detail == Some(observed)
    requires CountsOccurrences(rows[..|rows| - 1], c)
    ensures CountsOccurrences(rows, c.Add(observed))
  {
    AddMeaning(c, observed);
  }

  /** A failed fetch leaves the accumulators describing the longer input. */
  lemma SkipKeepsDescription(rows: seq<IndexRow>, expected: ExpectedTable, t: Tally)
    requires |rows| > 0 && rows[|rows| - 1].detail.None?
    requires Describes(rows[..|rows| - 1], expected, t)
    ensures Describes(rows, expected, t)
  {
    SkipKeepsFirstSeenOrder(rows, t.counter);
  }

  /** Counting a fetched row with a known code, and logging its mismatch if
      any, leaves the accumulators describing the longer input. */
  lemma CountKeepsDescription(rows: seq<IndexRow>, expected: ExpectedTable, t: Tally, observed: string)
    requires |rows| > 0 && rows[|rows| - 1].detail == Some(observed)
    requires Describes(rows[..|rows| - 1], expected, t)
    ensures Describes(rows, expected,
      Tally(t.counter.Add(observed), t.mismatches + RowMismatch(rows[|rows| - 1], expected)))
  {
    AddMeaning(t.counter, observed);
    AddIncreasesTotal(t.counter, observed);
    AddKeepsFirstSeenOrder(rows, t.counter, observed);
    AddCountsOccurrences(rows, t.counter, observed);
  }

  /** One pass of the loop body keeps the accumulators describing the rows
      processed so far. */
  lemma StepKeepsDescription(rows: seq<IndexRow>, expected: ExpectedTable, t: Tally)
    requires |rows| > 0
    requires Describes(rows[..|rows| - 1], expected, t)
    requires Step(t, rows[|rows| - 1], expected).Ok?
    ensures Describes(rows, expected, Step(t, rows[|rows| - 1], expected).tally)
  {
    var row := rows[|rows| - 1];
    if row.detail.None? {
      SkipKeepsDescription(rows, expected, t);
    } else {
      CountKeepsDescription(rows, expected, t, row.detail.value);
      assert Step(t, row, expected).tally ==
        Tally(t.counter.Add(row.detail.value), t.mismatches + RowMismatch(row, expected));
    }
  }

  /** The fold stops with the code of the first fetched row that has an unknown
      code, and otherwise yields accumulators that `Describes` the rows. */
  lemma {:induction false} CrawlMeaning(rows: seq<IndexRow>, expected: ExpectedTable)
    ensures Crawl(rows, expected).KeyError? <==> FirstUnknownAt(rows, expected) < |rows|
    ensures Crawl(rows, expected).KeyError? ==>
      Crawl(rows, expected).code == IndexCode(rows[FirstUnknownAt(rows, expected)])
    ensures Crawl(rows, expected).Ok? ==> Describes(rows, expected, Crawl(rows, expected).tally)
    decreases |rows|
  {
    if rows != [] {
      CrawlMeaning(rows[..|rows| - 1], expected);
      if Crawl(rows[..|rows| - 1], expected).Ok? && Crawl(rows, expected).Ok? {
        StepKeepsDescription(rows, expected, Crawl(rows[..|rows| - 1], expected).tally);
      }
    }
  }

  /** Once the fold has stopped on a prefix, it stops there for the whole input. */
  lemma {:induction false} KeyErrorIsFinal(rows: seq<IndexRow>, n: nat, expected: ExpectedTable)
    requires n <= |rows|
    requires Crawl(rows[..n], expected).KeyError?
    ensures Crawl(rows, expected) == Crawl(rows[..n], expected)
    decreases |rows| - n
  {
    if n < |rows| {
      assert rows[..n + 1][..n] == rows[..n];
      KeyErrorIsFinal(rows, n + 1, expected);
    } else {
      assert rows[..n] == rows;
    }
  }

  /** A row whose detail fetch failed is skipped entirely: the outcome is the
      one the index would give without it. */
  lemma {:induction false} SkippedRowIsInvisible(before: seq<IndexRow>, row: IndexRow,
                                                 after: seq<IndexRow>, expected: ExpectedTable)
    requires row.detail.None?
    ensures Crawl(before + [row] + after, expected) == Crawl(before + after, expected)
    decreases |after|
  {
    if after == [] {
      CrawlAppend(before, row, expected);
      assert before + [row] + after == before + [row];
      assert before + after == before;
    } else {
      var shorter := after[..|after| - 1];
      var last := after[|after| - 1];
      SkippedRowIsInvisible(before, row, shorter, expected);
      CrawlAppend(before + [row] + shorter, last, expected);
      CrawlAppend(before + shorter, last, expected);
      assert before + [row] + after == before + [row] + shorter + [last];
      assert before + after == before + shorter + [last];
    }
  }

  /** The sum of the count column of status rows. */
  ghost function CountColumnSum(table: seq<Row>): int
    decreases |table|
  {
    if table == [] then 0
    else
      var row := table[|table| - 1];
      CountColumnSum(table[..|table| - 1]) + (if |row| == 2 && row[1].Int? then row[1].number else 0)
  }

  /** The counts shown in the status rows add up to the counter's total. */
  lemma {:induction false} StatusRowsSum(keys: seq<string>, counts: map<string, nat>)
    ensures CountColumnSum(StatusRows(Counts(keys, counts))) == SumOver(keys, counts)
    decreases |keys|
  {
    if keys != [] {
      var front := keys[..|keys| - 1];
      StatusRowsSum(front, counts);
      var table := StatusRows(Counts(keys, counts));
      assert table[..|table| - 1] == StatusRows(Counts(front, counts));
    }
  }

  /** The table built from a counter: pairs only, the header first, and the
      total of its counts last, equal to the sum of the status rows' counts. */
  lemma ResultTableShape(c: Counts)
    ensures var table := ResultTable(c);
      |table| >= 2 && HasArity(table, 2) && table[0] == Header &&
      table[|table| - 1] == TotalRow(c.Total()) &&
      CountColumnSum(table[1..|table| - 1]) == c.Total()
  {
    var table := ResultTable(c);
    StatusRowsSum(c.keys, c.counts);
    assert table[1..|table| - 1] == StatusRows(c);
  }

  /** Lines 107 and 134-136: every row is a pair, the first is the header, and
      the last is `('Total', n)` where n is both the sum of the status counts
      above it and the number of index rows whose detail fetch succeeded. */
  lemma PepTableTotal(rows: seq<IndexRow>, expected: ExpectedTable)
    requires PepSpec(Some(rows), expected).Done?
    ensures var table := PepSpec(Some(rows), expected).table;
      |table| >= 2 && HasArity(table, 2) && table[0] == Header &&
      table[|table| - 1] == TotalRow(FetchedCount(rows)) &&
      CountColumnSum(table[1..|table| - 1]) == FetchedCount(rows)
  {
    CrawlMeaning(rows, expected);
    var c := Crawl(rows, expected).tally.counter;
    assert PepSpec(Some(rows), expected).table == ResultTable(c);
    ResultTableShape(c);
  }

  /** Row `i` of the table built from a counter shows its `i`-th key. */
  lemma ResultTableRow(c: Counts, i: nat)
    requires 1 <= i <= |c.keys|
    ensures |ResultTable(c)| == |c.keys| + 2
    ensures ResultTable(c)[i] == [Str(c.keys[i - 1]), Int(c.Get(c.keys[i - 1]))]
  {
    assert ResultTable(c)[i] == StatusRows(c)[i - 1];
  }

  /** Each status row of a counter's table shows a status that occurs and the
      number of rows showing it. */
  lemma TableRowsCountOccurrences(rows: seq<IndexRow>, c: Counts)
    requires CountsOccurrences(rows, c) && AllOccur(rows, c.keys)
    ensures var table := ResultTable(c);
      forall i :: 1 <= i < |table| - 1 ==>
        |table[i]| == 2 && table[i][0].Str? && Occurrences(rows, table[i][0].text) > 0 &&
        table[i][1] == Int(Occurrences(rows, table[i][0].text))
  {
    var table: seq<Row> := ResultTable(c);
    forall i | 1 <= i < |table| - 1
      ensures |table[i]| == 2 && table[i][0].Str? && Occurrences(rows, table[i][0].text) > 0 &&
        table[i][1] == Int(Occurrences(rows, table[i][0].text))
    {
      ResultTableRow(c, i);
      assert c.keys[i - 1] in c.keys;
    }
  }

  /** The status rows of a counter's table follow the order of its keys. */
  lemma TableRowsInFirstSeenOrder(rows: seq<IndexRow>, c: Counts)
    requires InFirstSeenOrder(rows, c.keys)
    ensures var table := ResultTable(c);
      forall i, j :: 1 <= i < j < |table| - 1 ==>
        FirstSeenAt(rows, table[i][0].text) < FirstSeenAt(rows, table[j][0].text)
  {
    var table: seq<Row> := ResultTable(c);
    forall i, j | 1 <= i < j < |table| - 1
      ensures FirstSeenAt(rows, table[i][0].text) < FirstSeenAt(rows, table[j][0].text)
    {
      ResultTableRow(c, i);
      ResultTableRow(c, j);
    }
  }

  /** Every status that occurs has a row in a counter's table. */
  lemma TableRowsCoverStatuses(rows: seq<IndexRow>, c: Counts)
    requires c.Valid() && CountsOccurrences(rows, c)
    ensures var table := ResultTable(c);
      forall s :: Occurrences(rows, s) > 0 ==> exists i :: 1 <= i < |table| - 1 && table[i][0] == Str(s)
  {
    var table: seq<Row> := ResultTable(c);
    forall s | Occurrences(rows, s) > 0
      ensures exists i :: 1 <= i < |table| - 1 && table[i][0] == Str(s)
    {
      assert c.Get(s) > 0;
      var k :| 0 <= k < |c.keys| && c.keys[k] == s;
      ResultTableRow(c, k + 1);
    }
  }

  /** The status rows: one per status seen on a detail page, in the order the
      statuses were first seen, each with the number of rows showing it. */
  lemma PepTableStatusRows(rows: seq<IndexRow>, expected: ExpectedTable)
    requires PepSpec(Some(rows), expected).Done?
    ensures var table := PepSpec(Some(rows), expected).table;
      |table| >= 2 &&
      (forall i :: 1 <= i < |table| - 1 ==>
         |table[i]| == 2 && table[i][0].Str? && Occurrences(rows, table[i][0].text) > 0 &&
         table[i][1] == Int(Occurrences(rows, table[i][0].text))) &&
      (forall i, j :: 1 <= i < j < |table| - 1 ==>
         FirstSeenAt(rows, table[i][0].text) < FirstSeenAt(rows, table[j][0].text)) &&
      (forall s :: Occurrences(rows, s) > 0 ==> exists i :: 1 <= i < |table| - 1 && table[i][0] == Str(s))
  {
    CrawlMeaning(rows, expected);
    var c := Crawl(rows, expected).tally.counter;
    assert PepSpec(Some(rows), expected).table == ResultTable(c);
    KeysOccur(rows, c);
    TableRowsCountOccurrences(rows, c);
    TableRowsInFirstSeenOrder(rows, c);
    TableRowsCoverStatuses(rows, c);
  }

  /** Line 123: an index code missing from `EXPECTED_STATUS` aborts the whole
      strategy, exactly when some fetched row carries one, and the error names
      the code of the first such row. */
  lemma PepAbortsOnUnknownCode(rows: seq<IndexRow>, expected: ExpectedTable)
    ensures PepSpec(Some(rows), expected).UnknownCode? <==>
      exists i :: 0 <= i < |rows| && Unknown(rows[i], expected)
    ensures PepSpec(Some(rows), expected).UnknownCode? ==>
      PepSpec(Some(rows), expected).code == IndexCode(rows[FirstUnknownAt(rows, expected)])
  {
    CrawlMeaning(rows, expected);
  }

  /** The logged mismatches are those of the rows, in index order. */
  lemma PepMismatchesInIndexOrder(rows: seq<IndexRow>, expected: ExpectedTable)
    requires PepSpec(Some(rows), expected).Done?
    ensures PepSpec(Some(rows), expected).mismatches == Mismatches(rows, expected)
  {
    CrawlMeaning(rows, expected);
  }

  /** Every logged tuple is the mismatch of some row. */
  lemma {:induction false} MismatchesSound(rows: seq<IndexRow>, expected: ExpectedTable, m: Mismatch)
    requires m in Mismatches(rows, expected)
    ensures exists i :: 0 <= i < |rows| && LogsMismatch(rows[i], expected, m)
    decreases |rows|
  {
    var front := rows[..|rows| - 1];
    if m in Mismatches(front, expected) {
      MismatchesSound(front, expected, m);
      var i :| 0 <= i < |front| && LogsMismatch(front[i], expected, m);
      assert rows[i] == front[i];
    } else {
      assert LogsMismatch(rows[|rows| - 1], expected, m);
    }
  }

  /** The mismatch of every row is logged. */
  lemma {:induction false} MismatchesComplete(rows: seq<IndexRow>, expected: ExpectedTable, i: nat, m: Mismatch)
    requires i < |rows| && LogsMismatch(rows[i], expected, m)
    ensures m in Mismatches(rows, expected)
    decreases |rows|
  {
    var front := rows[..|rows| - 1];
    if i < |front| {
      assert front[i] == rows[i];
      MismatchesComplete(front, expected, i, m);
    } else {
      assert m in RowMismatch(rows[i], expected);
    }
  }

  /** Lines 123-126: a tuple is among the mismatches exactly when some fetched
      row with a known code shows a status outside the allowed set, and the
      tuple records that row's link, its status and the allowed set. */
  lemma MismatchMembership(rows: seq<IndexRow>, expected: ExpectedTable, m: Mismatch)
    ensures m in Mismatches(rows, expected) <==> exists i :: 0 <= i < |rows| && LogsMismatch(rows[i], expected, m)
  {
    if m in Mismatches(rows, expected) {
      MismatchesSound(rows, expected, m);
    } else if i :| 0 <= i < |rows| && LogsMismatch(rows[i], expected, m) {
      MismatchesComplete(rows, expected, i, m);
    }
  }

  /** The loop after the first proposal: counted, not a mismatch. */
  lemma TwoProposalsFirstRow()
    ensures Crawl([IndexRow("IA", "pep-0001", Some("Active"))], map["A" := {"Active"}, "W" := {"Withdrawn"}])
      == Ok(Tally(Counts(["Active"], map["Active" := 1]), []))
  {
    var first := IndexRow("IA", "pep-0001", Some("Active"));
    assert IndexCode(first) == "A";
    CrawlAppend([], first, map["A" := {"Active"}, "W" := {"Withdrawn"}]);
    assert [] + [first] == [first];
  }

  /** The loop body on the second proposal: a mismatch, and a new status. */
  lemma TwoProposalsSecondStep()
    ensures Step(Tally(Counts(["Active"], map["Active" := 1]), []),
                 IndexRow("SW", "pep-0002", Some("Accepted")), map["A" := {"Active"}, "W" := {"Withdrawn"}])
      == Ok(Tally(Counts(["Active", "Accepted"], map["Active" := 1, "Accepted" := 1]),
                  [Mismatch("pep-0002", "Accepted", {"Withdrawn"})]))
  {
    assert IndexCode(IndexRow("SW", "pep-0002", Some("Accepted"))) == "W";
    assert Counts(["Active"], map["Active" := 1]).Add("Accepted") ==
      Counts(["Active", "Accepted"], map["Active" := 1, "Accepted" := 1]);
  }

  /** The loop over the two-proposal index: the second row is a mismatch and
      both rows are counted. */
  lemma TwoProposalsCrawl()
    ensures Crawl([IndexRow("IA", "pep-0001", Some("Active")), IndexRow("SW", "pep-0002", Some("Accepted"))],
                  map["A" := {"Active"}, "W" := {"Withdrawn"}])
      == Ok(Tally(Counts(["Active", "Accepted"], map["Active" := 1, "Accepted" := 1]),
                  [Mismatch("pep-0002", "Accepted", {"Withdrawn"})]))
  {
    var first := IndexRow("IA", "pep-0001", Some("Active"));
    var second := IndexRow("SW", "pep-0002", Some("Accepted"));
    var expected := map["A" := {"Active"}, "W" := {"Withdrawn"}];
    TwoProposalsFirstRow();
    assert [first] + [second] == [first, second];
    CrawlAppend([first], second, expected);
    TwoProposalsSecondStep();
  }

  /** The table the two-proposal counter yields. */
  lemma TwoProposalsTable()
    ensures ResultTable(Counts(["Active", "Accepted"], map["Active" := 1, "Accepted" := 1])) ==
      [Header, [Str("Active"), Int(1)], [Str("Accepted"), Int(1)], TotalRow(2)]
  {
    assert ["Active", "Accepted"][..1] == ["Active"] && ["Active"][..0] == [];
    assert StatusRows(Counts(["Active", "Accepted"], map["Active" := 1, "Accepted" := 1])) ==
      [[Str("Active"), Int(1)], [Str("Accepted"), Int(1)]];
  }

  /** The two-proposal walk-through: codes `A` and `W`, detail statuses
      `Active` and `Accepted`; the second row is logged as a mismatch, both are
      counted, and the table ends with a total of 2. */
  lemma TwoProposalsExample()
    ensures
      var rows := [IndexRow("IA", "pep-0001", Some("Active")), IndexRow("SW", "pep-0002", Some("Accepted"))];
      var expected := map["A" := {"Active"}, "W" := {"Withdrawn"}];
      PepSpec(Some(rows), expected) ==
        Done([Header, [Str("Active"), Int(1)], [Str("Accepted"), Int(1)], TotalRow(2)],
             [Mismatch("pep-0002", "Accepted", {"Withdrawn"})])
  {
    TwoProposalsCrawl();
    TwoProposalsTable();
  }

  /** The fold over one more row of the input is one more step. */
  lemma CrawlOneMore(rows: seq<IndexRow>, i: nat, expected: ExpectedTable)
    requires i < |rows| && Crawl(rows[..i], expected).Ok?
    ensures Crawl(rows[..i + 1], expected) == Step(Crawl(rows[..i], expected).tally, rows[i], expected)
  {
    assert rows[..i + 1] == rows[..i] + [rows[i]];
    CrawlAppend(rows[..i], rows[i], expected);
  }

  /** The loop body on a fetched row with a known code counts its status and
      logs its mismatch, if any. */
  lemma StepOnKnownCode(t: Tally, row: IndexRow, expected: ExpectedTable)
    requires row.detail.Some? && IndexCode(row) in expected
    ensures Step(t, row, expected) ==
      Ok(Tally(t.counter.Add(row.detail.value), t.mismatches + RowMismatch(row, expected)))
  {
  }

  /** The `pep` strategy (lines 97-137) on abstract pages. */
  method Pep(index: Option<seq<IndexRow>>, expected: ExpectedTable) returns (out: PepOutcome)
    ensures out == PepSpec(index, expected)
    ensures out.Done? ==> |out.table| >= 2 && out.table[|out.table| - 1] == TotalRow(FetchedCount(index.value))
  {
    if index.None? {
      return NoIndexPage;
    }
    var crawled := CrawlIndex(index.value, expected);
    match crawled
    case KeyError(code) =>
      out := UnknownCode(code);
    case Ok(tally) =>
      var table := BuildTable(tally.counter);
      out := Done(table, tally.mismatches);
      PepTableTotal(index.value, expected);
  }

  /** Lines 112-127: one pass of the loop body. A failed fetch changes
      nothing; an unknown code stops with its `KeyError` before anything is
      counted; otherwise the mismatch, if any, is appended and the status is
      counted in place. */
  method VisitRow(row: IndexRow, expected: ExpectedTable, counter: StatusCounter, mismatched: seq<Mismatch>)
    returns (r: Crawled)
    requires counter.Valid()
    modifies counter
    ensures counter.Valid()
    ensures r == Step(Tally(old(counter.Value()), mismatched), row, expected)
    ensures r.Ok? ==> r.tally.counter == counter.Value()
    ensures r.KeyError? ==> counter.Value() == old(counter.Value())
  {
    ghost var before := Tally(counter.Value(), mismatched);
    if row.detail.None? {
      return Ok(Tally(counter.Value(), mismatched));
    }
    var observed := row.detail.value;
    var code := IndexCode(row);
    if code !in expected {
      return KeyError(code);
    }
    var logged := mismatched;
    if observed !in expected[code] {
      logged := logged + [Mismatch(row.link, observed, expected[code])];
    }
    assert logged == mismatched + RowMismatch(row, expected);
    counter.Increment(observed);
    StepOnKnownCode(before, row, expected);
    return Ok(Tally(counter.Value(), logged));
  }

  /** Lines 108-127: the loop over the index rows, filling a `Counter` object
      and the mismatch list, skipping rows whose detail fetch failed and
      stopping with the `KeyError` of an unknown code. */
  method CrawlIndex(rows: seq<IndexRow>, expected: ExpectedTable) returns (r: Crawled)
    ensures r == Crawl(rows, expected)
  {
    var mismatched: seq<Mismatch> := [];
    var counter := new StatusCounter();
    var i := 0;
    while i < |rows|
      invariant 0 <= i <= |rows|
      invariant counter.Valid()
      invariant Crawl(rows[..i], expected) == Ok(Tally(counter.Value(), mismatched))
      modifies counter
    {
      CrawlOneMore(rows, i, expected);
      var visited := VisitRow(rows[i], expected, counter, mismatched);
      if visited.KeyError? {
        KeyErrorIsFinal(rows, i + 1, expected);
        return visited;
      }
      mismatched := visited.tally.mismatches;
      i := i + 1;
    }
    assert rows[..i] == rows;
    return Ok(Tally(counter.Value(), mismatched));
  }

  /** Lines 107 and 134-136: the header, one row per item of the counter in
      its order, and the total of its values. */
  method BuildTable(entries: Counts) returns (table: seq<Row>)
    ensures table == ResultTable(entries)
  {
    table := [Header];
    var j := 0;
    while j < |entries.keys|
      invariant 0 <= j <= |entries.keys|
      invariant table == [Header] + StatusRows(entries)[..j]
    {
      var status := entries.keys[j];
      table := table + [[Str(status), Int(entries.Get(status))]];
      assert StatusRows(entries)[..j + 1] == StatusRows(entries)[..j] + [[Str(status), Int(entries.Get(status))]];
      j := j + 1;
    }
    assert StatusRows(entries)[..j] == StatusRows(entries);
    table := table + [TotalRow(entries.Total())];
  }
}
