/** The line rejoiner of extract_links.py: `rejoin_wrapped_urls`,
    `_should_join_to_previous` and `_looks_like_url_continuation`. OCR breaks
    a long URL into two physical lines; a line that looks like the tail of a
    URL is glued back onto the previous line when that line holds a URL. */
module Rejoin {
  import opened Strings
  import opened UrlPattern

  /** `BULLET_PREFIXES`: `*`, `-`, U+2022 BULLET, U+25CF BLACK CIRCLE, `+`. */
  const BulletPrefixes: set<char> := {'*', '-', '\U{2022}', '\U{25CF}', '+'}

  /** `URL_CHARS` */
  const UrlChars: set<char> := {
    '/', '-', '_', '.', '~', ':', '?', '#', '[', ']', '@', '!', '$', '&', '\'',
    '(', ')', '*', '+', ',', ';', '=', '%'
  }

  /** The characters `_looks_like_url_continuation` strips from the end. */
  const TrailingPunctuation: set<char> := {'.', ',', ';', ':', '!', '?', ' '}

  /** `MIN_CONTINUATION_LENGTH` */
  const MinContinuationLength: nat := 5

  /** `str.isalnum()` on one character, restricted to ASCII letters and digits. */
  predicate IsAlnum(c: char) {
    ('a' <= c <= 'z') || ('A' <= c <= 'Z') || ('0' <= c <= '9')
  }

  predicate IsUrlChar(c: char) {
    IsAlnum(c) || c in UrlChars
  }

  /** `line.strip().rstrip(".,;:!? ")` */
  function Cleaned(line: string): (r: string)
    ensures |r| <= |line|
    ensures r == [] || r[|r| - 1] !in TrailingPunctuation
  {
    RStripChars(Strip(line), TrailingPunctuation)
  }

  /** `_looks_like_url_continuation`: the cleaned line is non-empty, holds no
      space, is at least `MIN_CONTINUATION_LENGTH` long and at least 85%
      (`URL_CHAR_RATIO_THRESHOLD`) of it are URL characters; the ratio test
      `count/len >= 0.85` is written exactly as `20 * count >= 17 * len`. */
  function LooksLikeUrlContinuation(line: string): bool
  {
    var cleaned := Cleaned(line);
    if cleaned == [] then false
    else if ' ' in cleaned then false
    else 20 * CountIf(cleaned, IsUrlChar) >= 17 * |cleaned| && |cleaned| >= MinContinuationLength
  }

  /** A space followed, later in the stripped line, by a character that the
      cleaning keeps rejects the line: prose is never a continuation. */
  lemma SpacedLineIsNotContinuation(line: string, i: nat, j: nat)
    requires i < j < |Strip(line)|
    requires Strip(line)[i] == ' ' && Strip(line)[j] !in TrailingPunctuation
    ensures !LooksLikeUrlContinuation(line)
  {
    var c := Cleaned(line);
    assert j < |c|;
    assert c[i] == ' ';
  }

  /** Punctuation after the last visible character of a line is cleaned away
      again. */
  lemma CleanedAppend(line: string, t: string)
    requires line == [] || line[|line| - 1] !in Whitespace
    requires forall k :: 0 <= k < |t| ==> t[k] in TrailingPunctuation
    ensures Cleaned(line + t) == Cleaned(line)
  {
    if line == [] {
      var st := Strip(t);
      StripInfix(t);
      assert forall k :: 0 <= k < |st| ==> st[k] == t[LeadingWhitespace(t) + k];
      assert forall k :: 0 <= k < |st| ==> st[k] in TrailingPunctuation;
      RStripCharsAppend([], st, TrailingPunctuation);
      assert line + t == t && [] + st == st;
    } else {
      StripAppend(line, t);
      var rest := RStrip(t);
      assert forall k :: 0 <= k < |rest| ==> rest[k] == t[k];
      RStripCharsAppend(Strip(line), rest, TrailingPunctuation);
    }
  }

  /** Punctuation after the last visible character of a line never changes
      whether the line is a continuation. The lines `_should_join_to_previous`
      tests are stripped, so they meet the requirement on the last
      character. */
  lemma TrailingPunctuationIgnored(line: string, t: string)
    requires line == [] || line[|line| - 1] !in Whitespace
    requires forall k :: 0 <= k < |t| ==> t[k] in TrailingPunctuation
    ensures LooksLikeUrlContinuation(line + t) == LooksLikeUrlContinuation(line)
  {
    CleanedAppend(line, t);
  }

  /** A line made only of URL characters that is at least five
      characters long after cleaning is always a continuation: hex hashes,
      path tails and query strings. */
  lemma UrlTailIsContinuation(line: string)
    requires forall k :: 0 <= k < |Cleaned(line)| ==> IsUrlChar(Cleaned(line)[k])
    requires |Cleaned(line)| >= MinContinuationLength
    ensures LooksLikeUrlContinuation(line)
  {
    var c := Cleaned(line);
    CountIfAll(c, IsUrlChar);
  }

  /** A line whose cleaned form has fewer than five characters, such as "hi",
      is never a continuation, and neither is a blank line. */
  lemma ShortLineIsNotContinuation(line: string)
    requires |Strip(line)| < MinContinuationLength
    ensures !LooksLikeUrlContinuation(line)
  {
  }

  /** `_should_join_to_previous(merged, stripped)` */
  function ShouldJoinToPrevious(merged: seq<string>, stripped: string): bool
  {
    && merged != []
    && Search(merged[|merged| - 1])
    && stripped != []
    && stripped[0] !in BulletPrefixes
    && LooksLikeUrlContinuation(stripped)
  }

  /** A line is joined exactly when the previous merged line contains a match
      of the URL pattern and the stripped line is non-empty, does not start
      with a bullet and looks like a URL continuation. */
  lemma ShouldJoinToPreviousIff(merged: seq<string>, stripped: string)
    ensures ShouldJoinToPrevious(merged, stripped) <==>
      && merged != []
      && ContainsMatch(merged[|merged| - 1])
      && stripped != []
      && stripped[0] !in BulletPrefixes
      && LooksLikeUrlContinuation(stripped)
  {
    if merged != [] {
      SearchIff(merged[|merged| - 1]);
    }
  }

  /** One step of the loop of `rejoin_wrapped_urls`: glue the stripped line
      onto the right-stripped last merged line, or append the line as is. */
  function RejoinStep(merged: seq<string>, line: string): seq<string>
  {
    var stripped := Strip(line);
    if ShouldJoinToPrevious(merged, stripped) then
      merged[..|merged| - 1] + [RStrip(merged[|merged| - 1]) + stripped]
    else
      merged + [line]
  }

  /** The list `merged` after the loop has seen all of `lines`. */
  function RejoinLines(lines: seq<string>): seq<string>
    decreases |lines|
  {
    if lines == [] then []
    else RejoinStep(RejoinLines(lines[..|lines| - 1]), lines[|lines| - 1])
  }

  /** One more line seen is one more step of the loop. */
  lemma RejoinLinesSnoc(lines: seq<string>, i: nat)
    requires i < |lines|
    ensures RejoinLines(lines[..i + 1]) == RejoinStep(RejoinLines(lines[..i]), lines[i])
  {
    assert lines[..i + 1][..i] == lines[..i];
  }

  /** `rejoin_wrapped_urls` as a value. */
  function Rejoined(text: string): string {
    Join(RejoinLines(Split(text, '\n')), '\n')
  }

  /** `rejoin_wrapped_urls`: walk the lines, overwriting the last merged line
      on a join and appending otherwise. */
  method RejoinWrappedUrls(text: string) returns (r: string)
    ensures r == Rejoined(text)
  {
    var lines := Split(text, '\n');
    var merged: seq<string> := [];
    for i := 0 to |lines|
      invariant merged == RejoinLines(lines[..i])
    {
      var line := lines[i];
      var stripped := Strip(line);
      RejoinLinesSnoc(lines, i);
      if ShouldJoinToPrevious(merged, stripped) {
        merged := merged[..|merged| - 1] + [RStrip(merged[|merged| - 1]) + stripped];
      } else {
        merged := merged + [line];
      }
    }
    assert lines[..|lines|] == lines;
    r := Join(merged, '\n');
  }

  /** For each line, whether the loop glues it onto the previous one. */
  function JoinDecisions(lines: seq<string>): (d: seq<bool>)
    ensures |d| == |lines|
    decreases |lines|
  {
    if lines == [] then []
    else
      var init := lines[..|lines| - 1];
      JoinDecisions(init) + [ShouldJoinToPrevious(RejoinLines(init), Strip(lines[|lines| - 1]))]
  }

  function CountTrue(bs: seq<bool>): nat
    decreases |bs|
  {
    if bs == [] then 0 else CountTrue(bs[..|bs| - 1]) + (if bs[|bs| - 1] then 1 else 0)
  }

  /** The first line is never glued onto anything. */
  lemma {:induction false} FirstLineNeverJoined(lines: seq<string>)
    requires lines != []
    ensures !JoinDecisions(lines)[0]
    decreases |lines|
  {
    if |lines| > 1 {
      var init := lines[..|lines| - 1];
      FirstLineNeverJoined(init);
      assert JoinDecisions(lines)[0] == JoinDecisions(init)[0];
    }
  }

  /** Each join removes one line: the output has as many lines as the input
      minus the number of joins. */
  lemma {:induction false} RejoinLinesCount(lines: seq<string>)
    ensures |RejoinLines(lines)| == |lines| - CountTrue(JoinDecisions(lines))
    decreases |lines|
  {
    if lines != [] {
      var init := lines[..|lines| - 1];
      RejoinLinesCount(init);
      var d := JoinDecisions(lines);
      assert d[..|lines| - 1] == JoinDecisions(init);
    }
  }

  /** A line that is not joined is appended as it is. */
  lemma LastLineNotJoined(lines: seq<string>)
    requires lines != [] && !JoinDecisions(lines)[|lines| - 1]
    ensures RejoinLines(lines) == RejoinLines(lines[..|lines| - 1]) + [lines[|lines| - 1]]
  {
  }

  /** When no line is joined, the lines come out exactly as they went in. */
  lemma {:induction false} RejoinLinesWithoutJoins(lines: seq<string>)
    requires forall i :: 0 <= i < |lines| ==> !JoinDecisions(lines)[i]
    ensures RejoinLines(lines) == lines
    decreases |lines|
  {
    if lines != [] {
      var init := lines[..|lines| - 1];
      forall i | 0 <= i < |init| ensures !JoinDecisions(init)[i] {
        JoinDecisionsPrefix(lines, i);
      }
      RejoinLinesWithoutJoins(init);
      LastLineNotJoined(lines);
      assert lines == init + [lines[|lines| - 1]];
    }
  }

  /** A decision about an earlier line does not depend on the lines after it. */
  lemma JoinDecisionsPrefix(lines: seq<string>, i: nat)
    requires i < |lines| - 1
    ensures JoinDecisions(lines)[i] == JoinDecisions(lines[..|lines| - 1])[i]
  {
  }

  /** The concatenation of a list of lines. */
  function Concat(lines: seq<string>): string
    decreases |lines|
  {
    if lines == [] then [] else Concat(lines[..|lines| - 1]) + lines[|lines| - 1]
  }

  lemma ConcatSnoc(lines: seq<string>, line: string)
    ensures Concat(lines + [line]) == Concat(lines) + line
  {
    assert (lines + [line])[..|lines|] == lines;
  }

  /** Gluing the stripped line onto the right-stripped last line loses no
      character other than whitespace. */
  lemma JoinKeepsText(front: seq<string>, last: string, line: string)
    ensures Without(Concat(front + [RStrip(last) + Strip(line)]), Whitespace)
         == Without(Concat(front + [last]) + line, Whitespace)
  {
    ConcatSnoc(front, RStrip(last) + Strip(line));
    ConcatSnoc(front, last);
    WithoutConcat(Concat(front), RStrip(last) + Strip(line), Whitespace);
    WithoutConcat(RStrip(last), Strip(line), Whitespace);
    WithoutConcat(Concat(front) + last, line, Whitespace);
    WithoutConcat(Concat(front), last, Whitespace);
    WithoutRStripChars(last, Whitespace);
    WithoutStrip(line);
  }

  lemma StepKeepsText(merged: seq<string>, line: string)
    ensures Without(Concat(RejoinStep(merged, line)), Whitespace) == Without(Concat(merged) + line, Whitespace)
  {
    if ShouldJoinToPrevious(merged, Strip(line)) {
      var front := merged[..|merged| - 1];
      assert merged == front + [merged[|merged| - 1]];
      JoinKeepsText(front, merged[|merged| - 1], line);
    } else {
      ConcatSnoc(merged, line);
    }
  }

  /** Rejoining never reorders, loses or invents text: apart from whitespace
      and line breaks, the output holds exactly the characters of the input,
      in the same order. */
  lemma {:induction false} RejoinLinesKeepsText(lines: seq<string>)
    ensures Without(Concat(RejoinLines(lines)), Whitespace) == Without(Concat(lines), Whitespace)
    decreases |lines|
  {
    if lines != [] {
      var init := lines[..|lines| - 1];
      var line := lines[|lines| - 1];
      var merged := RejoinLines(init);
      RejoinLinesKeepsText(init);
      StepKeepsText(merged, line);
      WithoutConcat(Concat(merged), line, Whitespace);
      WithoutConcat(Concat(init), line, Whitespace);
    }
  }

  /** One step of the loop adds no line break. */
  lemma StepNoNewline(merged: seq<string>, line: string)
    requires forall i :: 0 <= i < |merged| ==> '\n' !in merged[i]
    requires '\n' !in line
    ensures forall i :: 0 <= i < |RejoinStep(merged, line)| ==> '\n' !in RejoinStep(merged, line)[i]
  {
    if ShouldJoinToPrevious(merged, Strip(line)) {
      StripSubstring(line, '\n');
      StripSubstring(merged[|merged| - 1], '\n');
    }
  }

  /** No merged line contains a line break when no input line does. */
  lemma {:induction false} RejoinLinesNoNewline(lines: seq<string>)
    requires forall i :: 0 <= i < |lines| ==> '\n' !in lines[i]
    ensures forall i :: 0 <= i < |RejoinLines(lines)| ==> '\n' !in RejoinLines(lines)[i]
    decreases |lines|
  {
    if lines != [] {
      var init := lines[..|lines| - 1];
      var line := lines[|lines| - 1];
      forall i | 0 <= i < |init| ensures '\n' !in init[i] {
        assert init[i] == lines[i];
      }
      RejoinLinesNoNewline(init);
      StepNoNewline(RejoinLines(init), line);
      assert RejoinLines(lines) == RejoinStep(RejoinLines(init), line);
    }
  }

  /** `rejoin_wrapped_urls` returns as many lines as the text has, minus the
      number of joins. */
  lemma RejoinedLineCount(text: string)
    ensures |Split(Rejoined(text), '\n')| == |Split(text, '\n')| - CountTrue(JoinDecisions(Split(text, '\n')))
  {
    var lines := Split(text, '\n');
    RejoinLinesCount(lines);
    RejoinLinesNoNewline(lines);
    SplitJoin(RejoinLines(lines), '\n');
  }

  /** Without joins, `rejoin_wrapped_urls` returns its input unchanged,
      because `"\n".join(text.split("\n")) == text`. */
  lemma RejoinedWithoutJoins(text: string)
    requires forall i :: 0 <= i < |Split(text, '\n')| ==> !JoinDecisions(Split(text, '\n'))[i]
    ensures Rejoined(text) == text
  {
    RejoinLinesWithoutJoins(Split(text, '\n'));
    JoinSplit(text, '\n');
  }

  /** A line is never glued onto a predecessor that holds no URL. */
  lemma StepUrlFree(merged: seq<string>, line: string)
    requires merged == [] || !Search(merged[|merged| - 1])
    ensures RejoinStep(merged, line) == merged + [line]
  {
  }

  /** Lines without URLs come out of the loop unchanged. */
  lemma {:induction false} RejoinLinesUrlFree(lines: seq<string>)
    requires forall i :: 0 <= i < |lines| ==> !Search(lines[i])
    ensures RejoinLines(lines) == lines
    decreases |lines|
  {
    if lines != [] {
      var init := lines[..|lines| - 1];
      var last := lines[|lines| - 1];
      forall i | 0 <= i < |init| ensures !Search(init[i]) {
        assert init[i] == lines[i];
      }
      RejoinLinesUrlFree(init);
      StepUrlFree(init, last);
      assert RejoinLines(lines) == RejoinStep(init, last);
      assert lines == init + [last];
    }
  }

  /** Text in which the URL pattern matches nowhere passes through
      `rejoin_wrapped_urls` unchanged; so does the empty string. */
  lemma RejoinedUrlFree(text: string)
    requires forall p: nat, e: nat :: !RegexMatches(text, p, e)
    ensures Rejoined(text) == text
  {
    var lines := Split(text, '\n');
    JoinSplit(text, '\n');
    forall i | 0 <= i < |lines| ensures !Search(lines[i]) {
      var before, after := JoinContains(lines, '\n', i);
      SearchIff(lines[i]);
      if Search(lines[i]) {
        var p: nat, e: nat :| RegexMatches(lines[i], p, e);
        RegexMatchesLocal(lines[i], p, e, before, after);
      }
    }
    RejoinLinesUrlFree(lines);
  }

  lemma RejoinedEmpty()
    ensures Rejoined("") == ""
  {
    assert Split("", '\n') == [""];
    assert RejoinLines([""]) == RejoinStep([], "");
  }
}
