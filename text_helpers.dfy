/** The small string expressions of the scraper: dropping the first character of
    an index code cell, flattening the newlines of a description list and taking
    the last `/`-separated segment of an archive URL. */
module TextHelpers {

  /** `text[1:]`: the cell text without its first character; the empty string
      stays empty, as Python slicing does. */
  function StripFirst(text: string): (code: string)
    ensures |text| == 0 ==> code == ""
    ensures |text| > 0 ==> |code| == |text| - 1 && [text[0]] + code == text
  {
    if |text| == 0 then "" else text[1..]
  }

  /** `text.replace('\n', ' ')`: every line feed becomes a space, every other
      character stays where it is. */
  function FlattenNewlines(text: string): (flat: string)
    ensures |flat| == |text|
    ensures forall i :: 0 <= i < |text| ==> flat[i] == (if text[i] == '\n' then ' ' else text[i])
    ensures '\n' !in flat
    decreases |text|
  {
    if text == [] then ""
    else [if text[0] == '\n' then ' ' else text[0]] + FlattenNewlines(text[1..])
  }

  /** Flattening twice is flattening once. */
  lemma FlattenIdempotent(text: string)
    ensures FlattenNewlines(FlattenNewlines(text)) == FlattenNewlines(text)
  {
    var once := FlattenNewlines(text);
    var twice := FlattenNewlines(once);
    assert |twice| == |once|;
    forall i | 0 <= i < |once|
      ensures twice[i] == once[i]
    {
      assert once[i] == (if text[i] == '\n' then ' ' else text[i]);
    }
  }

  /** `text.split(sep)`: the pieces between the separators, with an empty piece
      before a leading, after a trailing and between two adjacent separators. */
  function Split(text: string, sep: char): (parts: seq<string>)
    ensures |parts| >= 1
    decreases |text|
  {
    if text == [] then [""]
    else
      var init := Split(text[..|text| - 1], sep);
      var c := text[|text| - 1];
      if c == sep then init + [""]
      else init[..|init| - 1] + [init[|init| - 1] + [c]]
  }

  /** `sep.join(parts)`. */
  function Join(parts: seq<string>, sep: char): string
    requires |parts| >= 1
    decreases |parts|
  {
    if |parts| == 1 then parts[0]
    else Join(parts[..|parts| - 1], sep) + [sep] + parts[|parts| - 1]
  }

  /** No piece of a split contains the separator. */
  lemma {:induction false} SplitPiecesAvoidSeparator(text: string, sep: char)
    ensures forall i :: 0 <= i < |Split(text, sep)| ==> sep !in Split(text, sep)[i]
    decreases |text|
  {
    if text != [] {
      var init := Split(text[..|text| - 1], sep);
      SplitPiecesAvoidSeparator(text[..|text| - 1], sep);
      var c := text[|text| - 1];
      if c != sep {
        var parts := Split(text, sep);
        forall i | 0 <= i < |parts|
          ensures sep !in parts[i]
        {
          if i < |parts| - 1 {
            assert parts[i] == init[i];
          } else {
            assert parts[i] == init[|init| - 1] + [c];
          }
        }
      }
    }
  }

  /** The last piece of a split grows by the last character of the text, or
      starts afresh after a separator. */
  lemma SplitLastStep(text: string, sep: char)
    requires text != []
    ensures var parts := Split(text, sep);
      var init := Split(text[..|text| - 1], sep);
      parts[|parts| - 1] ==
        if text[|text| - 1] == sep then "" else init[|init| - 1] + [text[|text| - 1]]
  {
  }

  /** `tail` ends `text` and is either all of it or preceded by `sep`. */
  ghost predicate IsTailAfter(text: string, tail: string, sep: char)
  {
    |tail| <= |text| && text[|text| - |tail|..] == tail &&
    (|tail| < |text| ==> text[|text| - |tail| - 1] == sep)
  }

  /** A tail grows with a character appended to the text. */
  lemma TailExtends(front: string, tail: string, sep: char, c: char)
    requires IsTailAfter(front, tail, sep)
    ensures IsTailAfter(front + [c], tail + [c], sep)
  {
    var text := front + [c];
    assert text[|text| - |tail| - 1..] == front[|front| - |tail|..] + [c];
    if |tail| < |front| {
      assert text[|text| - |tail| - 2] == front[|front| - |tail| - 1];
    }
  }

  /** The tail of all but the last character grows by that character. */
  lemma TailExtendsLast(text: string, tail: string, sep: char)
    requires text != [] && IsTailAfter(text[..|text| - 1], tail, sep)
    ensures IsTailAfter(text, tail + [text[|text| - 1]], sep)
  {
    TailExtends(text[..|text| - 1], tail, sep, text[|text| - 1]);
    assert text[..|text| - 1] + [text[|text| - 1]] == text;
  }

  /** After a trailing separator the tail is empty. */
  lemma TailAfterSeparator(text: string, sep: char)
    requires text != [] && text[|text| - 1] == sep
    ensures IsTailAfter(text, "", sep)
  {
  }

  /** The last piece of a split is the suffix of the text after its last
      separator, or the whole text when there is none. */
  lemma {:induction false} SplitLastIsSuffix(text: string, sep: char)
    ensures IsTailAfter(text, Split(text, sep)[|Split(text, sep)| - 1], sep)
    decreases |text|
  {
    if text != [] {
      var init := Split(text[..|text| - 1], sep);
      SplitLastIsSuffix(text[..|text| - 1], sep);
      SplitLastStep(text, sep);
      if text[|text| - 1] == sep {
        TailAfterSeparator(text, sep);
      } else {
        TailExtendsLast(text, init[|init| - 1], sep);
      }
    }
  }

  /** Appending a character to the last piece appends it to the joined text. */
  lemma JoinExtendLast(parts: seq<string>, sep: char, c: char)
    requires |parts| >= 1
    ensures Join(parts[..|parts| - 1] + [parts[|parts| - 1] + [c]], sep) == Join(parts, sep) + [c]
  {
    var longer := parts[..|parts| - 1] + [parts[|parts| - 1] + [c]];
    if |parts| > 1 {
      assert longer[..|longer| - 1] == parts[..|parts| - 1];
    }
  }

  /** Splitting loses nothing: joining the pieces gives the text back. */
  lemma {:induction false} JoinSplit(text: string, sep: char)
    ensures Join(Split(text, sep), sep) == text
    decreases |text|
  {
    if text != [] {
      var front := text[..|text| - 1];
      var c := text[|text| - 1];
      var init := Split(front, sep);
      JoinSplit(front, sep);
      assert front + [c] == text;
      if c == sep {
        var parts := init + [""];
        assert parts[..|parts| - 1] == init;
        assert Join(parts, sep) == Join(init, sep) + [sep] + "";
      } else {
        JoinExtendLast(init, sep, c);
      }
    }
  }

  /** `archive_link.split('/')[-1]`: the name the archive is saved under. */
  function ArchiveFilename(url: string): (name: string)
    ensures '/' !in name
    ensures |name| <= |url| && url[|url| - |name|..] == name
    ensures |name| < |url| ==> url[|url| - |name| - 1] == '/'
  {
    SplitPiecesAvoidSeparator(url, '/');
    SplitLastIsSuffix(url, '/');
    var parts := Split(url, '/');
    parts[|parts| - 1]
  }
}
