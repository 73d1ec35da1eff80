/** The few Python `str` operations the text-recovery pipeline relies on:
    `split`/`join` on one separator, `strip`/`rstrip`, and counting the
    characters that satisfy a test. Strings are sequences of Unicode scalar
    values, as Python's are sequences of code points. */
module Strings {

  /** The characters for which Python's `str.isspace()` holds. CPython uses the
      same test for `str.strip()`/`str.rstrip()` with no argument and for the
      regular-expression class `\s` on `str` patterns. */
  const Whitespace: set<char> := {
    '\t', '\n', '\U{000B}', '\U{000C}', '\r',
    '\U{001C}', '\U{001D}', '\U{001E}', '\U{001F}', ' ',
    '\U{0085}', '\U{00A0}', '\U{1680}',
    '\U{2000}', '\U{2001}', '\U{2002}', '\U{2003}', '\U{2004}', '\U{2005}',
    '\U{2006}', '\U{2007}', '\U{2008}', '\U{2009}', '\U{200A}',
    '\U{2028}', '\U{2029}', '\U{202F}', '\U{205F}', '\U{3000}'
  }

  /** `s[p:].startswith(lit)` */
  predicate StartsAt(s: string, p: nat, lit: string) {
    p + |lit| <= |s| && s[p..p + |lit|] == lit
  }

  /** Number of characters of `s` that satisfy `f`: `sum(1 for c in s if f(c))`. */
  function CountIf(s: string, f: char -> bool): (n: nat)
    ensures n <= |s|
    decreases |s|
  {
    if s == [] then 0 else (if f(s[0]) then 1 else 0) + CountIf(s[1..], f)
  }

  /** Every character is counted exactly when every character satisfies `f`. */
  lemma {:induction false} CountIfAll(s: string, f: char -> bool)
    ensures CountIf(s, f) == |s| <==> forall k :: 0 <= k < |s| ==> f(s[k])
    decreases |s|
  {
    if s != [] {
      CountIfAll(s[1..], f);
      assert forall k :: 1 <= k < |s| ==> s[1..][k - 1] == s[k];
    }
  }

  /** If every character of `s` that satisfies `f` sits at a position where
      `t` has a character satisfying `f`, then `t` has at least as many. */
  lemma {:induction false} CountIfMonotone(s: string, t: string, f: char -> bool)
    requires |s| == |t|
    requires forall k :: 0 <= k < |s| && f(s[k]) ==> f(t[k])
    ensures CountIf(s, f) <= CountIf(t, f)
    decreases |s|
  {
    if s != [] {
      CountIfMonotone(s[1..], t[1..], f);
    }
  }

  /** `s.rstrip(chars)`: drop every trailing character that is in `chars`. */
  function RStripChars(s: string, chars: set<char>): (r: string)
    ensures |r| <= |s| && r == s[..|r|]
    ensures forall k :: |r| <= k < |s| ==> s[k] in chars
    ensures r == [] || r[|r| - 1] !in chars
    decreases |s|
  {
    if s != [] && s[|s| - 1] in chars then RStripChars(s[..|s| - 1], chars) else s
  }

  /** `s.rstrip()` */
  function RStrip(s: string): string {
    RStripChars(s, Whitespace)
  }

  /** `s.strip()`: the longest substring of `s` that neither starts nor ends
      with whitespace, obtained by cutting whitespace off both ends. */
  function Strip(s: string): (r: string)
    ensures |r| <= |s|
    ensures r == [] || (r[0] !in Whitespace && r[|r| - 1] !in Whitespace)
    decreases |s|
  {
    if s != [] && s[0] in Whitespace then Strip(s[1..])
    else if s != [] && s[|s| - 1] in Whitespace then Strip(s[..|s| - 1])
    else s
  }

  /** Number of whitespace characters at the start of `s`. */
  function LeadingWhitespace(s: string): (n: nat)
    ensures n <= |s|
    ensures forall k :: 0 <= k < n ==> s[k] in Whitespace
    ensures n == |s| || s[n] !in Whitespace
    decreases |s|
  {
    if s != [] && s[0] in Whitespace then 1 + LeadingWhitespace(s[1..]) else 0
  }

  /** `r` occurs in `s` starting at position `n`. */
  ghost predicate PieceAt(s: string, n: nat, r: string) {
    n + |r| <= |s| && forall k :: 0 <= k < |r| ==> r[k] == s[n + k]
  }

  lemma PieceAtDrop(s: string, n: nat, r: string)
    requires s != [] && PieceAt(s[1..], n, r)
    ensures PieceAt(s, n + 1, r)
  {
    forall k | 0 <= k < |r| ensures r[k] == s[n + 1 + k] {
      assert s[1..][n + k] == s[n + 1 + k];
    }
  }

  lemma PieceAtPrefix(s: string, m: nat, n: nat, r: string)
    requires m <= |s| && PieceAt(s[..m], n, r)
    ensures PieceAt(s, n, r)
  {
    forall k | 0 <= k < |r| ensures r[k] == s[n + k] {
      assert s[..m][n + k] == s[n + k];
    }
  }

  /** `strip()` cuts only at the ends: the result is the piece of the string
      that starts right after its leading whitespace. */
  lemma {:induction false} StripInfix(s: string)
    ensures PieceAt(s, LeadingWhitespace(s), Strip(s))
    decreases |s|
  {
    if s != [] && s[0] in Whitespace {
      var tail := s[1..];
      StripInfix(tail);
      PieceAtDrop(s, LeadingWhitespace(tail), Strip(tail));
      assert Strip(s) == Strip(tail) && LeadingWhitespace(s) == LeadingWhitespace(tail) + 1;
    } else if s != [] && s[|s| - 1] in Whitespace {
      var init := s[..|s| - 1];
      StripInfix(init);
      PieceAtPrefix(s, |s| - 1, 0, Strip(init));
      assert Strip(s) == Strip(init) && LeadingWhitespace(s) == 0 == LeadingWhitespace(init);
    }
  }

  /** Everything after the piece that `strip()` keeps is whitespace. */
  lemma {:induction false} StripTrailingWhitespace(s: string)
    ensures LeadingWhitespace(s) + |Strip(s)| <= |s|
    ensures forall k :: LeadingWhitespace(s) + |Strip(s)| <= k < |s| ==> s[k] in Whitespace
    decreases |s|
  {
    if s != [] && s[0] in Whitespace {
      var tail := s[1..];
      StripTrailingWhitespace(tail);
      assert Strip(s) == Strip(tail) && LeadingWhitespace(s) == LeadingWhitespace(tail) + 1;
      assert forall k :: 1 <= k < |s| ==> s[k] == tail[k - 1];
    } else if s != [] && s[|s| - 1] in Whitespace {
      var init := s[..|s| - 1];
      StripTrailingWhitespace(init);
      assert Strip(s) == Strip(init) && LeadingWhitespace(s) == 0 == LeadingWhitespace(init);
      assert forall k :: 0 <= k < |init| ==> s[k] == init[k];
    }
  }

  /** Stripping `s + t`, where `s` ends in a visible character, gives
      `s.strip()` followed by `t.rstrip()`. */
  lemma {:induction false} StripAppend(s: string, t: string)
    requires s != [] && s[|s| - 1] !in Whitespace
    ensures Strip(s + t) == Strip(s) + RStrip(t)
    decreases |s| + |t|
  {
    var x := s + t;
    assert x[0] == s[0];
    if s[0] in Whitespace {
      assert x[1..] == s[1..] + t;
      StripAppend(s[1..], t);
    } else if t != [] && t[|t| - 1] in Whitespace {
      var u := t[..|t| - 1];
      assert x[..|x| - 1] == s + u;
      StripAppend(s, u);
    } else {
      assert x[|x| - 1] !in Whitespace;
      assert t == [] || t[|t| - 1] !in Whitespace;
    }
  }

  /** Characters of `chars` appended to a string are all cut again by
      `rstrip(chars)`. */
  lemma {:induction false} RStripCharsAppend(s: string, t: string, chars: set<char>)
    requires forall k :: 0 <= k < |t| ==> t[k] in chars
    ensures RStripChars(s + t, chars) == RStripChars(s, chars)
    decreases |t|
  {
    if t == [] {
      assert s + t == s;
    } else {
      var u := t[..|t| - 1];
      assert (s + t)[..|s + t| - 1] == s + u;
      RStripCharsAppend(s, u, chars);
    }
  }

  /** The characters of `s` that are not in `chars`, in order. */
  function Without(s: string, chars: set<char>): (r: string)
    ensures forall k :: 0 <= k < |r| ==> r[k] !in chars
    decreases |s|
  {
    if s == [] then []
    else if s[0] in chars then Without(s[1..], chars)
    else [s[0]] + Without(s[1..], chars)
  }

  lemma {:induction false} WithoutConcat(a: string, b: string, chars: set<char>)
    ensures Without(a + b, chars) == Without(a, chars) + Without(b, chars)
    decreases |a|
  {
    if a != [] {
      var ab := a + b;
      assert ab[0] == a[0];
      assert ab[1..] == a[1..] + b;
      WithoutConcat(a[1..], b, chars);
      if a[0] in chars {
        assert Without(ab, chars) == Without(ab[1..], chars);
      } else {
        assert Without(ab, chars) == [a[0]] + Without(ab[1..], chars);
      }
    } else {
      assert a + b == b;
    }
  }

  /** Removing characters of `chars` from the ends of a string removes
      nothing that `Without` keeps. */
  lemma {:induction false} WithoutRStripChars(s: string, chars: set<char>)
    ensures Without(RStripChars(s, chars), chars) == Without(s, chars)
    decreases |s|
  {
    if s != [] && s[|s| - 1] in chars {
      var init := s[..|s| - 1];
      WithoutRStripChars(init, chars);
      assert s == init + [s[|s| - 1]];
      WithoutConcat(init, [s[|s| - 1]], chars);
      assert Without([s[|s| - 1]], chars) == [];
    }
  }

  /** `strip()` only ever removes whitespace. */
  lemma {:induction false} WithoutStrip(s: string)
    ensures Without(Strip(s), Whitespace) == Without(s, Whitespace)
    decreases |s|
  {
    if s != [] && s[0] in Whitespace {
      WithoutStrip(s[1..]);
    } else if s != [] && s[|s| - 1] in Whitespace {
      WithoutStrip(s[..|s| - 1]);
      WithoutRStripChars(s, Whitespace);
      assert RStripChars(s, Whitespace) == RStripChars(s[..|s| - 1], Whitespace);
      WithoutRStripChars(s[..|s| - 1], Whitespace);
    }
  }

  /** A stripped string is a substring of the original, so it adds no character. */
  lemma {:induction false} StripSubstring(s: string, c: char)
    requires c !in s
    ensures c !in Strip(s) && c !in RStrip(s)
    decreases |s|
  {
    var r := RStripChars(s, Whitespace);
    assert forall k :: 0 <= k < |r| ==> r[k] == s[k];
    if s != [] && s[0] in Whitespace {
      assert c !in s[1..];
      StripSubstring(s[1..], c);
    } else if s != [] && s[|s| - 1] in Whitespace {
      assert c !in s[..|s| - 1];
      StripSubstring(s[..|s| - 1], c);
    }
  }

  /** `s.split(sep)`: the pieces between occurrences of `sep`; always at least
      one piece, and an empty piece wherever two separators are adjacent or a
      separator is at either end. */
  function Split(s: string, sep: char): (parts: seq<string>)
    ensures |parts| >= 1
    ensures forall k :: 0 <= k < |parts| ==> sep !in parts[k]
    decreases |s|
  {
    if s == [] then [[]]
    else
      var rest := Split(s[1..], sep);
      if s[0] == sep then [[]] + rest
      else [[s[0]] + rest[0]] + rest[1..]
  }

  /** `sep.join(parts)` */
  function Join(parts: seq<string>, sep: char): string
    decreases |parts|
  {
    if parts == [] then []
    else if |parts| == 1 then parts[0]
    else parts[0] + [sep] + Join(parts[1..], sep)
  }

  /** Number of occurrences of `c` in `s`. */
  function Occurrences(s: string, c: char): nat
    decreases |s|
  {
    if s == [] then 0 else (if s[0] == c then 1 else 0) + Occurrences(s[1..], c)
  }

  /** `sep.join(s.split(sep)) == s` */
  lemma {:induction false} JoinSplit(s: string, sep: char)
    ensures Join(Split(s, sep), sep) == s
    decreases |s|
  {
    if s != [] {
      var rest := Split(s[1..], sep);
      JoinSplit(s[1..], sep);
      if s[0] == sep {
        assert Join([[]] + rest, sep) == [] + [sep] + Join(rest, sep);
      } else if |rest| == 1 {
        assert Join(rest, sep) == rest[0];
      } else {
        var parts := [[s[0]] + rest[0]] + rest[1..];
        assert parts[1..] == rest[1..];
        assert Join(rest, sep) == rest[0] + [sep] + Join(rest[1..], sep);
      }
    }
  }

  /** `s.split(sep)` has one more piece than `s` has separators. */
  lemma {:induction false} SplitLength(s: string, sep: char)
    ensures |Split(s, sep)| == Occurrences(s, sep) + 1
    decreases |s|
  {
    if s != [] {
      SplitLength(s[1..], sep);
    }
  }

  lemma {:induction false} SplitPrefix(p: string, t: string, sep: char)
    requires sep !in p
    ensures Split(p + t, sep) == [p + Split(t, sep)[0]] + Split(t, sep)[1..]
    decreases |p|
  {
    var st := Split(t, sep);
    if p != [] {
      var pt := p + t;
      assert pt[0] == p[0] && p[0] != sep;
      assert pt[1..] == p[1..] + t;
      SplitPrefix(p[1..], t, sep);
      var rest := Split(pt[1..], sep);
      assert rest == [p[1..] + st[0]] + st[1..];
      assert Split(pt, sep) == [[p[0]] + rest[0]] + rest[1..];
      assert [p[0]] + (p[1..] + st[0]) == p + st[0];
    } else {
      assert p + t == t;
      assert p + st[0] == st[0];
      assert st == [st[0]] + st[1..];
    }
  }

  /** `sep.join(parts).split(sep) == parts` when no piece holds `sep`. */
  lemma {:induction false} SplitJoin(parts: seq<string>, sep: char)
    requires |parts| >= 1
    requires forall k :: 0 <= k < |parts| ==> sep !in parts[k]
    ensures Split(Join(parts, sep), sep) == parts
    decreases |parts|
  {
    if |parts| == 1 {
      SplitPrefix(parts[0], [], sep);
      assert parts[0] + [] == parts[0];
    } else {
      var tail := Join(parts[1..], sep);
      SplitJoin(parts[1..], sep);
      assert parts[0] + [sep] + tail == parts[0] + ([sep] + tail);
      SplitPrefix(parts[0], [sep] + tail, sep);
      var st := [sep] + tail;
      assert st[0] == sep && st[1..] == tail;
      assert Split(st, sep) == [[]] + Split(tail, sep);
      assert parts[0] + [] == parts[0];
      assert parts == [parts[0]] + parts[1..];
    }
  }

  /** Every piece of `sep.join(parts)` sits in it between two (possibly empty)
      surrounding strings. */
  lemma {:induction false} JoinContains(parts: seq<string>, sep: char, k: nat) returns (before: string, after: string)
    requires k < |parts|
    ensures Join(parts, sep) == before + parts[k] + after
    decreases |parts|
  {
    if |parts| == 1 {
      before, after := [], [];
    } else if k == 0 {
      before, after := [], [sep] + Join(parts[1..], sep);
    } else {
      var b, a := JoinContains(parts[1..], sep, k - 1);
      before, after := parts[0] + [sep] + b, a;
    }
  }
}
