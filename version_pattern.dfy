/** The search `re.search(r'Python (?P<version>\d\.\d+) \((?P<status>.*)\)', text)`
    of `latest_versions`, written out as a matcher: `Search` tries every start
    position from the left and `MatchAt` matches the pattern at one position.
    `IsMatch` states declaratively what it means for the pattern to match, and
    the lemmas prove that the matcher finds the leftmost match with the longest
    status, as Python's backtracking engine does for this pattern. */
module VersionPattern {
  import opened Common

  const Prefix: string := "Python "

  /** `\d`, restricted to the ASCII digits. */
  predicate IsDigit(c: char)
  {
    '0' <= c <= '9'
  }

  /** A string the group `\d\.\d+` matches in full. */
  predicate IsVersion(v: string)
  {
    |v| >= 3 && IsDigit(v[0]) && v[1] == '.' && forall i :: 2 <= i < |v| ==> IsDigit(v[i])
  }

  /** A string the group `.*` matches in full: `.` skips only the line feed. */
  predicate OnOneLine(s: string)
  {
    forall i :: 0 <= i < |s| ==> s[i] != '\n'
  }

  /** The pattern matches `text` from position `p`, with groups `version` and
      `status`: from `p` on the text reads `Python `, the version, ` (`, the
      status and `)`. */
  ghost predicate IsMatch(text: string, p: nat, version: string, status: string)
  {
    var q := p + |Prefix|;
    var o := q + |version| + 2;
    var c := o + |status|;
    IsVersion(version) && OnOneLine(status) && c < |text| &&
    text[p..q] == Prefix && text[q..o - 2] == version && text[o - 2..o] == " (" &&
    text[o..c] == status && text[c] == ')'
  }

  /** The groups `re.search` reports: those of a match that starts leftmost and,
      among the matches there, has the longest (greedy) status. */
  ghost predicate IsLeftmostLongest(text: string, p: nat, version: string, status: string)
  {
    IsMatch(text, p, version, status) &&
    forall p': nat, v': string, s': string :: IsMatch(text, p', v', s') ==>
      p <= p' && (p' == p ==> v' == version && |s'| <= |status|)
  }

  ghost predicate NoMatch(text: string)
  {
    forall p: nat, v: string, s: string :: !IsMatch(text, p, v, s)
  }

  datatype Match = Match(start: nat, version: string, status: string)

  /** The end of the run of digits that begins at `i`. */
  function DigitsEnd(text: string, i: nat): (e: nat)
    requires i <= |text|
    ensures i <= e <= |text|
    ensures forall k :: i <= k < e ==> IsDigit(text[k])
    ensures e < |text| ==> !IsDigit(text[e])
    decreases |text| - i
  {
    if i < |text| && IsDigit(text[i]) then DigitsEnd(text, i + 1) else i
  }

  /** The first line feed at or after `i`, or the end of the text. */
  function LineEnd(text: string, i: nat): (e: nat)
    requires i <= |text|
    ensures i <= e <= |text|
    ensures forall k :: i <= k < e ==> text[k] != '\n'
    ensures e < |text| ==> text[e] == '\n'
    decreases |text| - i
  {
    if i < |text| && text[i] != '\n' then LineEnd(text, i + 1) else i
  }

  /** The last `)` in `text[lo..hi]`. */
  function LastClose(text: string, lo: nat, hi: nat): (r: Option<nat>)
    requires lo <= hi <= |text|
    ensures r.Some? ==> lo <= r.value < hi && text[r.value] == ')'
    ensures r.Some? ==> forall k :: r.value < k < hi ==> text[k] != ')'
    ensures r.None? ==> forall k :: lo <= k < hi ==> text[k] != ')'
    decreases hi - lo
  {
    if lo == hi then None
    else if text[hi - 1] == ')' then Some(hi - 1)
    else LastClose(text, lo, hi - 1)
  }

  /** The part `Python \d\.\d+ \(` of the pattern anchored at `p`, giving the
      end of the version. `\d+` is followed by a space, which is not a digit,
      so it must take the whole run of digits. */
  function VersionEnd(text: string, p: nat): (e: Option<nat>)
    requires p <= |text|
    ensures e.Some? ==>
      var q := p + |Prefix|;
      q + 3 <= e.value && e.value + 2 <= |text| && text[p..q] == Prefix &&
      IsVersion(text[q..e.value]) && text[e.value] == ' ' && text[e.value + 1] == '('
  {
    var q := p + |Prefix|;
    if q + 2 > |text| || text[p..q] != Prefix || !IsDigit(text[q]) || text[q + 1] != '.' then None
    else
      var e := DigitsEnd(text, q + 2);
      if e == q + 2 || e + 2 > |text| || text[e] != ' ' || text[e + 1] != '(' then None
      else Some(e)
  }

  /** The pattern anchored at `p`: after the version and ` (`, `.*` takes
      everything up to the last `)` of the line. */
  function MatchAt(text: string, p: nat): Option<Match>
    requires p <= |text|
  {
    match VersionEnd(text, p)
    case None => None
    case Some(e) =>
      match LastClose(text, e + 2, LineEnd(text, e + 2))
      case None => None
      case Some(c) => Some(Match(p, text[p + |Prefix|..e], text[e + 2..c]))
  }

  /** `re.search`: the match at the leftmost position from `p` on. */
  function Search(text: string, p: nat): Option<Match>
    requires p <= |text|
    decreases |text| - p
  {
    match MatchAt(text, p)
    case Some(m) => Some(m)
    case None => if p == |text| then None else Search(text, p + 1)
  }

  /** Lines 62-66: the two groups when the text matches, otherwise the whole
      text as version and an empty status. */
  function VersionAndStatus(text: string): (string, string)
  {
    match Search(text, 0)
    case Some(m) => (m.version, m.status)
    case None => (text, "")
  }

  /** The pieces `MatchAt` checks make up a match. */
  lemma MatchFromPieces(text: string, p: nat, e: nat, c: nat)
    requires p + |Prefix| <= e && e + 2 <= c < |text|
    requires text[p..p + |Prefix|] == Prefix
    requires IsVersion(text[p + |Prefix|..e])
    requires text[e] == ' ' && text[e + 1] == '('
    requires (forall k :: e + 2 <= k < c ==> text[k] != '\n') && text[c] == ')'
    ensures IsMatch(text, p, text[p + |Prefix|..e], text[e + 2..c])
  {
    assert text[e..e + 2] == " (";
    var status := text[e + 2..c];
    forall i | 0 <= i < |status|
      ensures status[i] != '\n'
    {
      assert status[i] == text[e + 2 + i];
    }
  }

  /** `MatchAt` reports the position it was asked about. */
  lemma MatchAtStart(text: string, p: nat)
    requires p <= |text| && MatchAt(text, p).Some?
    ensures MatchAt(text, p).value.start == p
  {
  }

  /** What `MatchAt` reports is a match of the pattern at that position. */
  lemma MatchAtSound(text: string, p: nat)
    requires p <= |text|
    ensures MatchAt(text, p).Some? ==>
      (MatchAt(text, p).value.start == p &&
       IsMatch(text, p, MatchAt(text, p).value.version, MatchAt(text, p).value.status))
  {
    if MatchAt(text, p).Some? {
      var e := VersionEnd(text, p).value;
      var c := LastClose(text, e + 2, LineEnd(text, e + 2)).value;
      MatchFromPieces(text, p, e, c);
    }
  }

  /** The version group of a match ends where its run of digits ends. */
  lemma MatchVersionEnds(text: string, p: nat, version: string, status: string)
    requires IsMatch(text, p, version, status)
    ensures var q := p + |Prefix|;
      IsDigit(text[q]) && text[q + 1] == '.' && DigitsEnd(text, q + 2) == q + |version| &&
      text[q..q + |version|] == version
  {
    var q := p + |Prefix|;
    var e := q + |version|;
    assert text[e] == text[e..e + 2][0] == ' ';
    forall k | q <= k < e
      ensures text[k] == version[k - q]
    {
      assert text[k] == text[q..e][k - q];
    }
    DigitsRunEnds(text, q + 2, e);
  }

  /** The status group of a match ends at a `)` before the end of its line. */
  lemma MatchStatusOnLine(text: string, p: nat, version: string, status: string)
    requires IsMatch(text, p, version, status)
    ensures var o := p + |Prefix| + |version| + 2;
      o + |status| < LineEnd(text, o) && text[o + |status|] == ')'
  {
    var o := p + |Prefix| + |version| + 2;
    var c := o + |status|;
    forall k | o <= k < c
      ensures text[k] != '\n'
    {
      assert text[k] == text[o..c][k - o];
    }
    var line := LineEnd(text, o);
    assert c < line;
  }

  /** Every match of the pattern at `p` passes the first part of `MatchAt`,
      which ends the version where the match does. */
  lemma VersionEndOfMatch(text: string, p: nat, version: string, status: string)
    requires IsMatch(text, p, version, status)
    ensures VersionEnd(text, p) == Some(p + |Prefix| + |version|)
  {
    var e := p + |Prefix| + |version|;
    MatchVersionEnds(text, p, version, status);
    assert text[e..e + 2] == " (";
    assert text[e] == ' ' && text[e + 1] == '(';
  }

  /** Every match of the pattern at `p` is found by `MatchAt`, with the same
      version and a status at least as long. */
  lemma MatchAtComplete(text: string, p: nat, version: string, status: string)
    requires IsMatch(text, p, version, status)
    ensures MatchAt(text, p).Some?
    ensures MatchAt(text, p).value.version == version
    ensures |MatchAt(text, p).value.status| >= |status|
  {
    VersionEndOfMatch(text, p, version, status);
    MatchVersionEnds(text, p, version, status);
    MatchStatusOnLine(text, p, version, status);
  }

  /** A run of digits that ends before a non-digit ends exactly there. */
  lemma DigitsRunEnds(text: string, i: nat, e: nat)
    requires i <= e < |text|
    requires forall k :: i <= k < e ==> IsDigit(text[k])
    requires !IsDigit(text[e])
    ensures DigitsEnd(text, i) == e
  {
  }

  /** What `Search` finds from `p` is what `MatchAt` finds at some position
      from `p` on. */
  lemma {:induction false} SearchFindsMatchAt(text: string, p: nat)
    requires p <= |text|
    ensures Search(text, p).Some? ==>
      p <= Search(text, p).value.start <= |text| &&
      MatchAt(text, Search(text, p).value.start) == Search(text, p)
    decreases |text| - p
  {
    if MatchAt(text, p).None? && p < |text| {
      SearchFindsMatchAt(text, p + 1);
      assert Search(text, p) == Search(text, p + 1);
    } else if MatchAt(text, p).Some? {
      MatchAtStart(text, p);
    }
  }

  /** `MatchAt` fails at every position `Search` passes over. */
  lemma {:induction false} SearchSkipsFailures(text: string, p: nat)
    requires p <= |text|
    ensures Search(text, p).Some? ==>
      forall k :: p <= k < Search(text, p).value.start && k <= |text| ==> MatchAt(text, k).None?
    decreases |text| - p
  {
    if MatchAt(text, p).None? && p < |text| {
      SearchSkipsFailures(text, p + 1);
      assert Search(text, p) == Search(text, p + 1);
    } else if MatchAt(text, p).Some? {
      MatchAtStart(text, p);
    }
  }

  /** `Search` from `p` finds nothing only when `MatchAt` fails everywhere from `p` on. */
  lemma {:induction false} SearchNoneEverywhere(text: string, p: nat)
    requires p <= |text|
    ensures Search(text, p).None? ==> forall k :: p <= k <= |text| ==> MatchAt(text, k).None?
    decreases |text| - p
  {
    if MatchAt(text, p).None? && p < |text| {
      SearchNoneEverywhere(text, p + 1);
      assert Search(text, p) == Search(text, p + 1);
    }
  }

  /** `Search` from `p` stops at the first position where `MatchAt` succeeds,
      and finds nothing exactly when `MatchAt` fails everywhere from `p` on. */
  lemma SearchIsLeftmost(text: string, p: nat)
    requires p <= |text|
    ensures Search(text, p).Some? ==>
      var m := Search(text, p).value;
      p <= m.start <= |text| && MatchAt(text, m.start) == Some(m) &&
      forall k :: p <= k < m.start ==> MatchAt(text, k).None?
    ensures Search(text, p).None? <==> forall k :: p <= k <= |text| ==> MatchAt(text, k).None?
  {
    SearchFindsMatchAt(text, p);
    SearchSkipsFailures(text, p);
    SearchNoneEverywhere(text, p);
  }

  /** Without a match anywhere, the row carries the text and an empty status. */
  lemma FallbackWithoutMatch(text: string)
    requires NoMatch(text)
    ensures VersionAndStatus(text) == (text, "")
  {
    SearchIsLeftmost(text, 0);
    if Search(text, 0).Some? {
      var m := Search(text, 0).value;
      MatchAtSound(text, m.start);
    }
  }

  /** With a match somewhere, the row carries the groups of the leftmost match,
      with the longest status there. */
  lemma GroupsOfLeftmostLongest(text: string, p: nat, version: string, status: string)
    requires IsMatch(text, p, version, status)
    ensures Search(text, 0).Some?
    ensures var m := Search(text, 0).value;
      IsLeftmostLongest(text, m.start, m.version, m.status) &&
      VersionAndStatus(text) == (m.version, m.status)
  {
    SearchIsLeftmost(text, 0);
    MatchAtComplete(text, p, version, status);
    var m := Search(text, 0).value;
    MatchAtSound(text, m.start);
    forall p': nat, v': string, s': string | IsMatch(text, p', v', s')
      ensures m.start <= p' && (p' == m.start ==> v' == m.version && |s'| <= |m.status|)
    {
      MatchAtComplete(text, p', v', s');
    }
  }

  /** The groups `latest_versions` puts in a row: those of the leftmost match
      with the greedy status when the pattern matches anywhere in the text,
      otherwise the text itself and an empty status. */
  lemma VersionAndStatusMeaning(text: string)
    ensures NoMatch(text) ==> VersionAndStatus(text) == (text, "")
    ensures !NoMatch(text) ==>
      exists p: nat :: IsLeftmostLongest(text, p, VersionAndStatus(text).0, VersionAndStatus(text).1)
  {
    if NoMatch(text) {
      FallbackWithoutMatch(text);
    } else {
      var p: nat, v: string, s: string :| IsMatch(text, p, v, s);
      GroupsOfLeftmostLongest(text, p, v, s);
    }
  }

  /** The version part of a version list entry. */
  lemma StableReleaseVersion()
    ensures VersionEnd("Python 3.9 (stable)", 0) == Some(10)
    ensures "Python 3.9 (stable)"[7..10] == "3.9"
  {
    var text := "Python 3.9 (stable)";
    assert text[0..7] == Prefix;
    DigitsRunEnds(text, 9, 10);
  }

  /** The status part of a version list entry. */
  lemma StableReleaseStatus()
    ensures LineEnd("Python 3.9 (stable)", 12) == 19
    ensures LastClose("Python 3.9 (stable)", 12, 19) == Some(18)
    ensures "Python 3.9 (stable)"[12..18] == "stable"
  {
    var text := "Python 3.9 (stable)";
    assert LineEnd(text, 19) == 19;
  }

  /** The pattern at the start of a version list entry. */
  lemma StableReleaseMatchAt()
    ensures MatchAt("Python 3.9 (stable)", 0) == Some(Match(0, "3.9", "stable"))
  {
    StableReleaseVersion();
    StableReleaseStatus();
  }

  /** A version list entry of the documentation sidebar. */
  lemma StableReleaseExample()
    ensures VersionAndStatus("Python 3.9 (stable)") == ("3.9", "stable")
  {
    StableReleaseMatchAt();
  }

  /** Every match has a `.` right after the first digit of the version. */
  lemma VersionDotFollowsDigit(text: string, p: nat, version: string, status: string)
    requires IsMatch(text, p, version, status)
    ensures text[p + |Prefix| + 1] == '.'
  {
    var q := p + |Prefix|;
    assert text[q + 1] == text[q..q + |version|][1] == version[1];
  }

  /** A major version without a minor part does not match `\d\.\d+`. */
  lemma MajorOnlyFallsBack()
    ensures VersionAndStatus("Python 2 (EOL)") == ("Python 2 (EOL)", "")
  {
    var text := "Python 2 (EOL)";
    assert '.' !in text;
    forall p: nat, v: string, s: string | IsMatch(text, p, v, s)
      ensures false
    {
      VersionDotFollowsDigit(text, p, v, s);
    }
    FallbackWithoutMatch(text);
  }
}
