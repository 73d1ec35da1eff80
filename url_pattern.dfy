/** `URL_PATTERN` of extract_links.py as a hand-written left-to-right scanner.

    The pattern is
      (?:https?://|ftp://|www\.)   one of four literal prefixes,
      [^\s<>"')\]},;!]*            a greedy run of body characters,
      [^\s<>"')\]},;!.:]           and a last body character that is not `.` or `:`.
    `RegexMatches` states declaratively which ranges the pattern can match;
    `MatchAt`, `NextMatch` and `MatchSpans` are the scanner, and the lemmas
    below prove that the scanner returns exactly the leftmost, longest,
    non-overlapping matches that Python's `findall` and `search` return. */
module UrlPattern {
  import opened Strings

  datatype Option<T> = None | Some(value: T)

  /** A match as the half-open index range `[start, end)` of the scanned text. */
  datatype Span = Span(start: nat, end: nat)

  /** The prefixes in the order the regex alternation tries them. */
  const Prefixes: seq<string> := ["https://", "http://", "ftp://", "www."]

  /** Characters the URL body never contains: `\s` and `< > " ' ) ] } , ; !`. */
  predicate IsDelimiter(c: char) {
    c in Whitespace || c in {'<', '>', '"', '\'', ')', ']', '}', ',', ';', '!'}
  }

  /** Characters the body may contain but may not end with. */
  predicate IsTrailingPunct(c: char) {
    c == '.' || c == ':'
  }

  /** The body `[^D]*[^D.:]` matches exactly `s[i..e]`. */
  ghost predicate BodyMatches(s: string, i: nat, e: nat) {
    i < e <= |s|
    && (forall k :: i <= k < e ==> !IsDelimiter(s[k]))
    && !IsTrailingPunct(s[e - 1])
  }

  /** The literal `lit` starts at `p` and the body matches from its end to `e`. */
  ghost predicate PrefixThenBody(s: string, p: nat, lit: string, e: nat) {
    StartsAt(s, p, lit) && BodyMatches(s, p + |lit|, e)
  }

  /** The whole pattern matches exactly `s[p..e]`. */
  ghost predicate RegexMatches(s: string, p: nat, e: nat) {
    || PrefixThenBody(s, p, "https://", e)
    || PrefixThenBody(s, p, "http://", e)
    || PrefixThenBody(s, p, "ftp://", e)
    || PrefixThenBody(s, p, "www.", e)
  }

  /** Length of the literal prefix that starts at `p`, or 0 if none does; at
      most one of the four can start at any position. */
  function PrefixLen(s: string, p: nat): (n: nat)
    requires p <= |s|
    ensures n != 0 ==> p + n <= |s| && StartsAt(s, p, s[p..p + n]) && s[p..p + n] in Prefixes
    ensures StartsAt(s, p, "https://") ==> n == 8
    ensures StartsAt(s, p, "http://") ==> n == 7
    ensures StartsAt(s, p, "ftp://") ==> n == 6
    ensures StartsAt(s, p, "www.") ==> n == 4
  {
    if StartsAt(s, p, "https://") then
      assert s[p] == 'h' && s[p + 4] == 's';
      8
    else if StartsAt(s, p, "http://") then
      assert s[p] == 'h';
      7
    else if StartsAt(s, p, "ftp://") then
      assert s[p] == 'f';
      6
    else if StartsAt(s, p, "www.") then 4
    else 0
  }

  /** End of the maximal run of non-delimiters that starts at `i`. */
  function RunEnd(s: string, i: nat): (r: nat)
    requires i <= |s|
    ensures i <= r <= |s|
    ensures forall k :: i <= k < r ==> !IsDelimiter(s[k])
    ensures r == |s| || IsDelimiter(s[r])
    decreases |s| - i
  {
    if i == |s| || IsDelimiter(s[i]) then i else RunEnd(s, i + 1)
  }

  /** Backtracking of the greedy body: the end of the longest prefix of
      `s[i..j]` that does not end in `.` or `:`, or `i` if there is none. */
  function BackOff(s: string, i: nat, j: nat): (e: nat)
    requires i <= j <= |s|
    ensures i <= e <= j
    ensures forall k :: e <= k < j ==> IsTrailingPunct(s[k])
    ensures e == i || !IsTrailingPunct(s[e - 1])
    decreases j
  {
    if j == i || !IsTrailingPunct(s[j - 1]) then j else BackOff(s, i, j - 1)
  }

  /** The end of the match that starts at `p`, if the pattern matches there. */
  function MatchAt(s: string, p: nat): (m: Option<nat>)
    requires p <= |s|
    ensures m.Some? ==> p < m.value <= |s|
  {
    var n := PrefixLen(s, p);
    if n == 0 then None
    else
      var e := BackOff(s, p + n, RunEnd(s, p + n));
      if e == p + n then None else Some(e)
  }

  /** The scanner agrees with the pattern: where it reports a match, the
      pattern matches that range and no longer one; where it reports none,
      the pattern matches nothing starting at `p`. */
  lemma MatchAtIsLongestMatch(s: string, p: nat)
    requires p <= |s|
    ensures MatchAt(s, p).Some? ==> RegexMatches(s, p, MatchAt(s, p).value)
    ensures forall e: nat :: RegexMatches(s, p, e) ==> MatchAt(s, p).Some? && e <= MatchAt(s, p).value
  {
    var n := PrefixLen(s, p);
    if n != 0 {
      var r := RunEnd(s, p + n);
      var e := BackOff(s, p + n, r);
      if e != p + n {
        assert PrefixThenBody(s, p, s[p..p + n], e);
      }
    }
    forall e: nat | RegexMatches(s, p, e)
      ensures MatchAt(s, p).Some? && e <= MatchAt(s, p).value
    {
      assert n != 0 && BodyMatches(s, p + n, e);
      var r := RunEnd(s, p + n);
      var b := BackOff(s, p + n, r);
    }
  }

  /** No position in `[a, b)` starts a match. */
  ghost predicate NoMatchIn(s: string, a: nat, b: nat)
    requires b <= |s|
    decreases b - a
  {
    a >= b || (MatchAt(s, a).None? && NoMatchIn(s, a + 1, b))
  }

  /** Each position of a match-free range starts no match. */
  lemma {:induction false} NoMatchInAt(s: string, a: nat, b: nat, q: nat)
    requires b <= |s| && NoMatchIn(s, a, b) && a <= q < b
    ensures MatchAt(s, q).None?
    decreases q - a
  {
    if a < q {
      NoMatchInAt(s, a + 1, b, q);
    }
  }

  /** `URL_PATTERN.search(s, pos=p)`: the leftmost match at or after `p`. */
  function NextMatch(s: string, p: nat): (m: Option<Span>)
    requires p <= |s|
    ensures m.Some? ==> p <= m.value.start < m.value.end <= |s|
    ensures m.Some? ==> MatchAt(s, m.value.start) == Some(m.value.end)
    decreases |s| - p
  {
    if p == |s| then None
    else
      var here := MatchAt(s, p);
      if here.Some? then Some(Span(p, here.value))
      else NextMatch(s, p + 1)
  }

  /** The match `search` returns is the leftmost one: no position before it
      starts a match, and when it returns none, no position does. */
  lemma {:induction false} NextMatchLeftmost(s: string, p: nat)
    requires p <= |s|
    ensures NextMatch(s, p).Some? ==> NoMatchIn(s, p, NextMatch(s, p).value.start)
    ensures NextMatch(s, p).None? ==> NoMatchIn(s, p, |s|)
    decreases |s| - p
  {
    if p < |s| && MatchAt(s, p).None? {
      NextMatchLeftmost(s, p + 1);
    }
  }

  /** The spans `findall` reports, scanning from `p`: each is the leftmost
      match after the previous one ends. They lie in the text, in increasing
      order, without overlap. */
  function MatchSpans(s: string, p: nat): (spans: seq<Span>)
    requires p <= |s|
    ensures forall k :: 0 <= k < |spans| ==> p <= spans[k].start < spans[k].end <= |s|
    ensures forall i, j :: 0 <= i < j < |spans| ==> spans[i].end <= spans[j].start
    decreases |s| - p
  {
    var next := NextMatch(s, p);
    if next.None? then []
    else [next.value] + MatchSpans(s, next.value.end)
  }

  /** Every span `findall` reports is the scanner's match at its start. */
  lemma {:induction false} MatchSpansAreMatches(s: string, p: nat)
    requires p <= |s|
    ensures forall k :: 0 <= k < |MatchSpans(s, p)| ==>
      MatchAt(s, MatchSpans(s, p)[k].start) == Some(MatchSpans(s, p)[k].end)
    decreases |s| - p
  {
    var next := NextMatch(s, p);
    if next.Some? {
      var rest := MatchSpans(s, next.value.end);
      MatchSpansAreMatches(s, next.value.end);
      var spans := MatchSpans(s, p);
      assert spans == [next.value] + rest;
      forall k | 0 < k < |spans| ensures spans[k] == rest[k - 1] {
      }
    }
  }

  /** No match starts before the first span, and none at all when there is
      no span. */
  lemma MatchSpansFirst(s: string, p: nat)
    requires p <= |s|
    ensures var spans := MatchSpans(s, p);
      && (spans == [] ==> NoMatchIn(s, p, |s|))
      && (spans != [] ==> NoMatchIn(s, p, spans[0].start))
  {
    NextMatchLeftmost(s, p);
  }

  /** Each span after the first is the leftmost match that starts after the
      previous one ends. */
  lemma {:induction false} MatchSpansGapAt(s: string, p: nat, k: nat)
    requires p <= |s|
    ensures 0 < k < |MatchSpans(s, p)| ==>
      NoMatchIn(s, MatchSpans(s, p)[k - 1].end, MatchSpans(s, p)[k].start)
    decreases |s| - p
  {
    var next := NextMatch(s, p);
    if next.None? || k == 0 {
      return;
    }
    var rest := MatchSpans(s, next.value.end);
    assert MatchSpans(s, p) == [next.value] + rest;
    if k == 1 {
      MatchSpansFirst(s, next.value.end);
    } else {
      MatchSpansGapAt(s, next.value.end, k - 1);
    }
  }

  /** No match starts after the last span. */
  lemma {:induction false} MatchSpansLast(s: string, p: nat)
    requires p <= |s|
    ensures MatchSpans(s, p) != [] ==> NoMatchIn(s, MatchSpans(s, p)[|MatchSpans(s, p)| - 1].end, |s|)
    decreases |s| - p
  {
    var next := NextMatch(s, p);
    if next.None? {
      return;
    }
    var rest := MatchSpans(s, next.value.end);
    assert MatchSpans(s, p) == [next.value] + rest;
    if rest == [] {
      MatchSpansFirst(s, next.value.end);
    } else {
      MatchSpansLast(s, next.value.end);
    }
  }

  /** `URL_PATTERN.findall(s)` */
  function FindAll(s: string): (urls: seq<string>)
  {
    var spans := MatchSpans(s, 0);
    seq(|spans|, k requires 0 <= k < |spans| => s[spans[k].start..spans[k].end])
  }

  /** Some position at or after `p` starts a match. */
  predicate SearchFrom(s: string, p: nat)
    requires p <= |s|
    decreases |s| - p
  {
    p < |s| && (MatchAt(s, p).Some? || SearchFrom(s, p + 1))
  }

  /** `bool(URL_PATTERN.search(s))` */
  predicate Search(s: string) {
    SearchFrom(s, 0)
  }

  lemma {:induction false} SearchFromNextMatch(s: string, p: nat)
    requires p <= |s|
    ensures SearchFrom(s, p) <==> NextMatch(s, p).Some?
    decreases |s| - p
  {
    if p < |s| && MatchAt(s, p).None? {
      SearchFromNextMatch(s, p + 1);
    }
  }

  /** What every string the pattern matches looks like. */
  ghost predicate IsUrlShaped(u: string) {
    && (|| (StartsAt(u, 0, "https://") && |u| > 8)
        || (StartsAt(u, 0, "http://") && |u| > 7)
        || (StartsAt(u, 0, "ftp://") && |u| > 6)
        || (StartsAt(u, 0, "www.") && |u| > 4))
    && (forall k :: 0 <= k < |u| ==> !IsDelimiter(u[k]))
    && !IsTrailingPunct(u[|u| - 1])
  }

  /** The prefix literals contain no delimiter. */
  lemma PrefixesHaveNoDelimiter(lit: string)
    requires lit in Prefixes
    ensures forall k :: 0 <= k < |lit| ==> !IsDelimiter(lit[k])
  {
  }

  lemma PrefixThenBodyIsShaped(s: string, p: nat, lit: string, e: nat)
    requires lit in Prefixes && PrefixThenBody(s, p, lit, e)
    ensures p + |lit| < e <= |s|
    ensures StartsAt(s[p..e], 0, lit)
    ensures forall k :: p <= k < e ==> !IsDelimiter(s[k])
    ensures !IsTrailingPunct(s[e - 1])
  {
    PrefixesHaveNoDelimiter(lit);
    assert s[p..e][..|lit|] == s[p..p + |lit|];
    forall k | p <= k < p + |lit| ensures !IsDelimiter(s[k]) {
      assert s[k] == lit[k - p];
    }
  }

  lemma RegexMatchIsUrlShaped(s: string, p: nat, e: nat)
    requires RegexMatches(s, p, e)
    ensures IsUrlShaped(s[p..e])
  {
    var u := s[p..e];
    var lit :=
      if PrefixThenBody(s, p, "https://", e) then "https://"
      else if PrefixThenBody(s, p, "http://", e) then "http://"
      else if PrefixThenBody(s, p, "ftp://", e) then "ftp://"
      else "www.";
    PrefixThenBodyIsShaped(s, p, lit, e);
    assert forall k :: 0 <= k < |u| ==> u[k] == s[p + k];
  }

  /** Every result of `findall` starts with one of the four prefixes, has at
      least one character after it, contains no whitespace and none of
      `< > " ' ) ] } , ; !`, and does not end in `.` or `:`; the results are
      substrings of the text at non-overlapping, increasing positions. */
  lemma FindAllUrlShaped(s: string)
    ensures forall u :: u in FindAll(s) ==> IsUrlShaped(u)
  {
    var spans := MatchSpans(s, 0);
    MatchSpansAreMatches(s, 0);
    forall u | u in FindAll(s) ensures IsUrlShaped(u) {
      var k :| 0 <= k < |spans| && u == s[spans[k].start..spans[k].end];
      MatchAtIsLongestMatch(s, spans[k].start);
      RegexMatchIsUrlShaped(s, spans[k].start, spans[k].end);
    }
  }

  /** Some range of `s` matches the pattern. */
  ghost predicate ContainsMatch(s: string) {
    exists p: nat, e: nat :: RegexMatches(s, p, e)
  }

  /** `search` finds something exactly when some range of the text matches
      the pattern. */
  lemma SearchIff(s: string)
    ensures Search(s) <==> exists p: nat, e: nat :: RegexMatches(s, p, e)
  {
    SearchFromNextMatch(s, 0);
    NextMatchLeftmost(s, 0);
    match NextMatch(s, 0)
    case Some(sp) =>
      MatchAtIsLongestMatch(s, sp.start);
      assert RegexMatches(s, sp.start, sp.end);
    case None =>
      forall p: nat, e: nat | RegexMatches(s, p, e) ensures false {
        assert p < |s|;
        NoMatchInAt(s, 0, |s|, p);
        MatchAtIsLongestMatch(s, p);
      }
  }

  /** `findall` returns nothing exactly when no range of the text matches,
      e.g. for text without any of the four prefixes. */
  lemma FindAllEmptyIff(s: string)
    ensures FindAll(s) == [] <==> forall p: nat, e: nat :: !RegexMatches(s, p, e)
  {
    SearchIff(s);
    SearchFromNextMatch(s, 0);
    var spans := MatchSpans(s, 0);
    if spans != [] {
      assert FindAll(s)[0] == s[spans[0].start..spans[0].end];
    }
  }

  /** Text in which none of the four prefixes occurs, such as a bare domain
      `example.com/path` or the empty string, yields no match. */
  lemma NoPrefixNoMatch(s: string)
    requires forall p: nat, lit :: lit in Prefixes ==> !StartsAt(s, p, lit)
    ensures FindAll(s) == []
  {
    FindAllEmptyIff(s);
  }

  /** Whether a range matches depends only on the characters in it. */
  lemma RegexMatchesLocal(b: string, p: nat, e: nat, a: string, c: string)
    requires RegexMatches(b, p, e)
    ensures RegexMatches(a + b + c, |a| + p, |a| + e)
  {
    var s := a + b + c;
    var n := PrefixLen(b, p);
    var lit := b[p..p + n];
    assert PrefixThenBody(b, p, lit, e);
    assert forall k :: 0 <= k < |b| ==> s[|a| + k] == b[k];
    assert s[|a| + p..|a| + p + n] == lit;
    assert PrefixThenBody(s, |a| + p, lit, |a| + e);
  }
}
