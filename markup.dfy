/** formatHTML: three global regular-expression replacements applied in turn
    to an element's markup, with JavaScript's matching rules (the leftmost
    match wins, the search resumes after it, quantifiers are greedy).

      1. `>\s+<`         becomes `>` newline, two spaces, `<`
      2. `<[^/][^>]*>`   is followed by a newline
      3. `<\/[^>]+>`     is preceded by a newline

    Characters are Unicode code points; every character these patterns name
    lies in the Basic Multilingual Plane, so matching on code points and on
    UTF-16 code units gives the same result. */
module Markup {
  import opened Wrappers

  /** JavaScript's `\s`: the ECMAScript WhiteSpace and LineTerminator code
      points (tab, line feed, vertical tab, form feed, carriage return, the
      space separators, the byte order mark, and the line and paragraph
      separators). */
  predicate IsSpace(c: char) {
    var n := c as int;
    (0x09 <= n <= 0x0D) || n == 0x20 || n == 0xA0 || n == 0x1680
    || (0x2000 <= n <= 0x200A) || n == 0x2028 || n == 0x2029 || n == 0x202F
    || n == 0x205F || n == 0x3000 || n == 0xFEFF
  }

  /** Length of the run of whitespace that starts `s`: how far a greedy `\s+`
      (or `\s*`) reaches. */
  function SpaceRun(s: string): (n: nat)
    ensures n <= |s|
    ensures forall i :: 0 <= i < n ==> IsSpace(s[i])
    ensures n < |s| ==> !IsSpace(s[n])
  {
    if s == [] || !IsSpace(s[0]) then 0 else 1 + SpaceRun(s[1..])
  }

  /** Position of the first `>` at or after `from`: where a greedy `[^>]*`
      starting at `from` stops and the closing `>` of a pattern matches. */
  function FindClose(s: string, from: nat): (r: Option<nat>)
    requires from <= |s|
    ensures r.Some? ==> from <= r.value < |s| && s[r.value] == '>'
    ensures r.Some? ==> forall k :: from <= k < r.value ==> s[k] != '>'
    ensures r.None? ==> forall k :: from <= k < |s| ==> s[k] != '>'
    decreases |s| - from
  {
    if from == |s| then None
    else if s[from] == '>' then Some(from)
    else FindClose(s, from + 1)
  }

  /** Pass 1, `/>\s+</g` to `'>\n  <'`. A match starts at a `>` followed by at
      least one whitespace character; greedy `\s+` takes the whole run, so the
      match exists exactly when the run ends at a `<`. */
  function CollapseGaps(s: string): string
    decreases |s|
  {
    if s == [] then []
    else
      var k := SpaceRun(s[1..]);
      if s[0] == '>' && 0 < k && k + 1 < |s| && s[k + 1] == '<' then
        ">\n  <" + CollapseGaps(s[k + 2..])
      else
        [s[0]] + CollapseGaps(s[1..])
  }

  /** Pass 2, `/(<[^/][^>]*>)/g` to `'$1\n'`. A match starts at a `<` whose
      next character is anything but `/` (a `>` included) and runs to the
      first `>` after that character. */
  function BreakAfterOpenTags(s: string): (r: string)
    ensures |r| >= |s|
    decreases |s|
  {
    if s == [] then []
    else if s[0] == '<' && 2 <= |s| && s[1] != '/' && FindClose(s, 2).Some? then
      var j := FindClose(s, 2).value;
      s[..j + 1] + "\n" + BreakAfterOpenTags(s[j + 1..])
    else
      [s[0]] + BreakAfterOpenTags(s[1..])
  }

  /** Pass 3, `/(<\/[^>]+>)/g` to `'\n$1'`. A match starts at `</` and runs to
      the first `>` after it, which must not come straight after the `/`. */
  function BreakBeforeCloseTags(s: string): (r: string)
    ensures |r| >= |s|
    decreases |s|
  {
    if s == [] then []
    else if s[0] == '<' && 2 <= |s| && s[1] == '/' && FindClose(s, 2).Some?
            && FindClose(s, 2).value > 2 then
      var j := FindClose(s, 2).value;
      "\n" + s[..j + 1] + BreakBeforeCloseTags(s[j + 1..])
    else
      [s[0]] + BreakBeforeCloseTags(s[1..])
  }

  /** formatHTML: the three passes, in the source's order. */
  function FormatHtml(html: string): string {
    BreakBeforeCloseTags(BreakAfterOpenTags(CollapseGaps(html)))
  }

  // ---------------------------------------------------------------------------
  // Whitespace is all that changes

  /** `s` with every whitespace character deleted. */
  function Text(s: string): string {
    if s == [] then []
    else (if IsSpace(s[0]) then [] else [s[0]]) + Text(s[1..])
  }

  lemma {:induction false} TextAppend(a: string, b: string)
    ensures Text(a + b) == Text(a) + Text(b)
    decreases |a|
  {
    if a == [] {
      assert a + b == b;
    } else {
      assert (a + b)[0] == a[0];
      assert (a + b)[1..] == a[1..] + b;
      TextAppend(a[1..], b);
    }
  }

  lemma {:induction false} TextOfSpaces(s: string)
    requires forall i :: 0 <= i < |s| ==> IsSpace(s[i])
    ensures Text(s) == []
  {
    if s != [] {
      TextOfSpaces(s[1..]);
    }
  }

  /** Text of a string split at `n`, for the recursive calls below. */
  lemma TextSplit(s: string, n: nat)
    requires n <= |s|
    ensures Text(s) == Text(s[..n]) + Text(s[n..])
  {
    assert s == s[..n] + s[n..];
    TextAppend(s[..n], s[n..]);
  }

  /** A matched gap `>`, whitespace, `<` and its replacement have the same text. */
  lemma GapText(s: string, k: nat)
    requires 0 < k && k + 1 < |s|
    requires forall i :: 1 <= i <= k ==> IsSpace(s[i])
    requires s[0] == '>' && s[k + 1] == '<'
    ensures Text(s[..k + 2]) == Text(">\n  <")
  {
    var gap := s[1..k + 1];
    assert s[..k + 2] == [s[0]] + (gap + [s[k + 1]]);
    TextOfSpaces(gap);
    TextAppend(gap, [s[k + 1]]);
    TextAppend([s[0]], gap + [s[k + 1]]);
    assert Text(s[..k + 2]) == "><";
    assert ">\n  <" == ['>'] + "\n  <";
    TextAppend(['>'], "\n  <");
    assert "\n  <" == "\n  " + ['<'];
    TextAppend("\n  ", ['<']);
    TextOfSpaces("\n  ");
  }

  lemma {:induction false} CollapseGapsKeepsText(s: string)
    ensures Text(CollapseGaps(s)) == Text(s)
    decreases |s|
  {
    if s != [] {
      var k := SpaceRun(s[1..]);
      if s[0] == '>' && 0 < k && k + 1 < |s| && s[k + 1] == '<' {
        CollapseGapsKeepsText(s[k + 2..]);
        TextAppend(">\n  <", CollapseGaps(s[k + 2..]));
        TextSplit(s, k + 2);
        GapText(s, k);
      } else {
        CollapseGapsKeepsText(s[1..]);
        TextAppend([s[0]], CollapseGaps(s[1..]));
        TextSplit(s, 1);
      }
    }
  }

  lemma {:induction false} BreakAfterOpenTagsKeepsText(s: string)
    ensures Text(BreakAfterOpenTags(s)) == Text(s)
    decreases |s|
  {
    if s != [] {
      if s[0] == '<' && 2 <= |s| && s[1] != '/' && FindClose(s, 2).Some? {
        var j := FindClose(s, 2).value;
        BreakAfterOpenTagsKeepsText(s[j + 1..]);
        TextAppend(s[..j + 1] + "\n", BreakAfterOpenTags(s[j + 1..]));
        TextAppend(s[..j + 1], "\n");
        TextSplit(s, j + 1);
      } else {
        BreakAfterOpenTagsKeepsText(s[1..]);
        TextAppend([s[0]], BreakAfterOpenTags(s[1..]));
        TextSplit(s, 1);
      }
    }
  }

  lemma {:induction false} BreakBeforeCloseTagsKeepsText(s: string)
    ensures Text(BreakBeforeCloseTags(s)) == Text(s)
    decreases |s|
  {
    if s != [] {
      if s[0] == '<' && 2 <= |s| && s[1] == '/' && FindClose(s, 2).Some?
         && FindClose(s, 2).value > 2 {
        var j := FindClose(s, 2).value;
        BreakBeforeCloseTagsKeepsText(s[j + 1..]);
        TextAppend("\n" + s[..j + 1], BreakBeforeCloseTags(s[j + 1..]));
        TextAppend("\n", s[..j + 1]);
        TextSplit(s, j + 1);
      } else {
        BreakBeforeCloseTagsKeepsText(s[1..]);
        TextAppend([s[0]], BreakBeforeCloseTags(s[1..]));
        TextSplit(s, 1);
      }
    }
  }

  /** formatHTML only inserts or replaces whitespace: deleting every whitespace
      character from its output gives the input with its whitespace deleted. */
  lemma FormatHtmlKeepsText(html: string)
    ensures Text(FormatHtml(html)) == Text(html)
  {
    CollapseGapsKeepsText(html);
    BreakAfterOpenTagsKeepsText(CollapseGaps(html));
    BreakBeforeCloseTagsKeepsText(BreakAfterOpenTags(CollapseGaps(html)));
  }

  // ---------------------------------------------------------------------------
  // Markup without tags is left alone

  lemma {:induction false} CollapseGapsWithoutTags(s: string)
    requires '<' !in s
    ensures CollapseGaps(s) == s
    decreases |s|
  {
    if s != [] {
      assert '<' !in s[1..];
      CollapseGapsWithoutTags(s[1..]);
    }
  }

  lemma {:induction false} BreakAfterOpenTagsWithoutTags(s: string)
    requires '<' !in s
    ensures BreakAfterOpenTags(s) == s
    decreases |s|
  {
    if s != [] {
      assert '<' !in s[1..];
      BreakAfterOpenTagsWithoutTags(s[1..]);
    }
  }

  lemma {:induction false} BreakBeforeCloseTagsWithoutTags(s: string)
    requires '<' !in s
    ensures BreakBeforeCloseTags(s) == s
    decreases |s|
  {
    if s != [] {
      assert '<' !in s[1..];
      BreakBeforeCloseTagsWithoutTags(s[1..]);
    }
  }

  /** Input containing no `<` comes back unchanged: every pattern needs one. */
  lemma FormatHtmlWithoutTags(html: string)
    requires '<' !in html
    ensures FormatHtml(html) == html
  {
    CollapseGapsWithoutTags(html);
    BreakAfterOpenTagsWithoutTags(html);
    BreakBeforeCloseTagsWithoutTags(html);
  }
}
