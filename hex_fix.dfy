/** The hex artifact corrector of extract_links.py: `_fix_hex_segment` and
    `_fix_ocr_artifacts`. Only path segments that are long and mostly hex
    digits are touched, and in them only the six glyphs OCR confuses with
    hex digits are replaced. */
module HexFix {
  import opened Strings

  /** `OCR_HEX_FIXES` */
  const OcrHexFixes: map<char, char> :=
    map['O' := '0', 'Q' := '0', 'l' := '1', 'I' := '1', 'S' := '5', 'G' := '6']

  /** `HEX_CHARS` */
  const HexChars: set<char> := {
    '0', '1', '2', '3', '4', '5', '6', '7', '8', '9',
    'a', 'b', 'c', 'd', 'e', 'f', 'A', 'B', 'C', 'D', 'E', 'F'
  }

  /** `MIN_HEX_SEGMENT_LENGTH` */
  const MinHexSegmentLength: nat := 8

  predicate IsHexChar(c: char) {
    c in HexChars
  }

  /** `OCR_HEX_FIXES.get(c, c)` */
  function FixChar(c: char): char {
    if c in OcrHexFixes then OcrHexFixes[c] else c
  }

  /** At least `MIN_HEX_SEGMENT_LENGTH` characters, of which at least 70%
      (`HEX_CHAR_RATIO_THRESHOLD`) are hex digits: `hex/len >= 0.7` is written
      exactly as `10 * hex >= 7 * len`. */
  predicate LooksLikeHex(segment: string) {
    |segment| >= MinHexSegmentLength && 10 * CountIf(segment, IsHexChar) >= 7 * |segment|
  }

  /** `b` is `a` with some of the OCR misreads replaced by their hex digit. */
  ghost predicate OnlyFixesApplied(a: string, b: string) {
    |a| == |b| && forall k :: 0 <= k < |a| ==> b[k] == a[k] || (a[k] in OcrHexFixes && b[k] == OcrHexFixes[a[k]])
  }

  /** `"".join(OCR_HEX_FIXES.get(c, c) for c in segment)` */
  function FixChars(segment: string): (r: string)
  {
    seq(|segment|, k requires 0 <= k < |segment| => FixChar(segment[k]))
  }

  /** `_fix_hex_segment` */
  function FixHexSegment(segment: string): (r: string)
    ensures |r| == |segment|
    ensures OnlyFixesApplied(segment, r)
    ensures !LooksLikeHex(segment) ==> r == segment
    ensures LooksLikeHex(segment) ==> forall k :: 0 <= k < |r| ==> r[k] == FixChar(segment[k])
  {
    if |segment| < MinHexSegmentLength then segment
    else if 10 * CountIf(segment, IsHexChar) >= 7 * |segment| then FixChars(segment)
    else segment
  }

  /** No map target is itself a key, and no key is a hex digit. */
  lemma FixCharFacts(c: char)
    ensures FixChar(FixChar(c)) == FixChar(c)
    ensures IsHexChar(c) ==> FixChar(c) == c
    ensures c in OcrHexFixes ==> IsHexChar(FixChar(c))
  {
  }

  /** Fixing a segment is idempotent: the fixed segment is still long and at
      least as hex-dense, and every replaced glyph maps to itself. */
  lemma FixHexSegmentIdempotent(segment: string)
    ensures FixHexSegment(FixHexSegment(segment)) == FixHexSegment(segment)
  {
    if LooksLikeHex(segment) {
      var r := FixHexSegment(segment);
      forall k | 0 <= k < |segment| ensures IsHexChar(segment[k]) ==> IsHexChar(r[k]) {
        FixCharFacts(segment[k]);
      }
      CountIfMonotone(segment, r, IsHexChar);
      assert LooksLikeHex(r);
      forall k | 0 <= k < |r| ensures FixChar(r[k]) == r[k] {
        FixCharFacts(segment[k]);
      }
    }
  }

  /** Length of the scheme `https?://` that starts `url`, or 0. */
  function SchemeLen(url: string): (n: nat)
    ensures n == 0 || n == 7 || n == 8
    ensures n == 8 <==> StartsAt(url, 0, "https://")
    ensures n == 7 <==> StartsAt(url, 0, "http://")
  {
    if StartsAt(url, 0, "https://") then
      assert url[4] == 's';
      8
    else if StartsAt(url, 0, "http://") then 7
    else 0
  }

  /** End of the maximal run of characters other than `c` from `i`: where
      `[^/]+` stops for `c == '/'`, and where `.*` stops for `c == '\n'`. */
  function RunUntil(s: string, i: nat, c: char): (r: nat)
    requires i <= |s|
    ensures i <= r <= |s|
    ensures forall k :: i <= k < r ==> s[k] != c
    ensures r == |s| || s[r] == c
    decreases |s| - i
  {
    if i == |s| || s[i] == c then i else RunUntil(s, i + 1, c)
  }

  /** Where group 1 of `(https?://[^/]+)(.*)` ends, or 0 when `re.match`
      fails: the scheme must be followed by at least one character other
      than `/` (newlines included). */
  function HostEnd(url: string): (h: nat)
    ensures h <= |url|
    ensures h != 0 ==> SchemeLen(url) != 0 && SchemeLen(url) < h
    ensures h != 0 ==> (forall k :: SchemeLen(url) <= k < h ==> url[k] != '/') && (h == |url| || url[h] == '/')
    ensures h == 0 <==> SchemeLen(url) == 0 || SchemeLen(url) == |url| || url[SchemeLen(url)] == '/'
  {
    var n := SchemeLen(url);
    if n == 0 then 0
    else
      var h := RunUntil(url, n, '/');
      if h == n then 0 else h
  }

  /** Fix every segment: `[_fix_hex_segment(s) for s in segments]`. Each
      fixed segment differs from its original only by OCR replacements, so a
      segment without `/` stays without `/`, and fixing it again changes
      nothing. */
  function FixSegments(segments: seq<string>): (r: seq<string>)
    ensures |r| == |segments|
    ensures forall k :: 0 <= k < |segments| ==> OnlyFixesApplied(segments[k], r[k])
    ensures forall k :: 0 <= k < |segments| && '/' !in segments[k] ==> '/' !in r[k]
    ensures forall k :: 0 <= k < |r| ==> FixHexSegment(r[k]) == r[k]
  {
    var r := seq(|segments|, k requires 0 <= k < |segments| => FixHexSegment(segments[k]));
    assert forall k :: 0 <= k < |segments| && '/' !in segments[k] ==> '/' !in r[k] by {
      forall k, j | 0 <= k < |segments| && '/' !in segments[k] && 0 <= j < |r[k]|
        ensures r[k][j] != '/'
      {
        assert segments[k][j] in segments[k];
      }
    }
    assert forall k :: 0 <= k < |r| ==> FixHexSegment(r[k]) == r[k] by {
      forall k | 0 <= k < |r| ensures FixHexSegment(r[k]) == r[k] {
        FixHexSegmentIdempotent(segments[k]);
      }
    }
    r
  }

  /** `_fix_ocr_artifacts`: the host (group 1) is kept; the path (group 2,
      which `.` ends at the first newline) is split on `/`, each segment is
      fixed, and the segments are joined again with `/`. */
  function FixOcrArtifacts(url: string): (r: string)
    ensures HostEnd(url) <= |r| && r[..HostEnd(url)] == url[..HostEnd(url)]
  {
    var h := HostEnd(url);
    if h == 0 then url
    else
      var path := url[h..RunUntil(url, h, '\n')];
      url[..h] + Join(FixSegments(Split(path, '/')), '/')
  }

  /** Joining pieces that are each fixed versions of the originals gives a
      fixed version of the joined original. */
  lemma {:induction false} JoinOnlyFixesApplied(a: seq<string>, b: seq<string>, sep: char)
    requires |a| == |b|
    requires forall k :: 0 <= k < |a| ==> OnlyFixesApplied(a[k], b[k])
    ensures OnlyFixesApplied(Join(a, sep), Join(b, sep))
    decreases |a|
  {
    if |a| > 1 {
      JoinOnlyFixesApplied(a[1..], b[1..], sep);
      var ja, jb := Join(a[1..], sep), Join(b[1..], sep);
      var x, y := a[0] + [sep] + ja, b[0] + [sep] + jb;
      forall k | 0 <= k < |x|
        ensures y[k] == x[k] || (x[k] in OcrHexFixes && y[k] == OcrHexFixes[x[k]])
      {
        if k < |a[0]| {
          assert x[k] == a[0][k] && y[k] == b[0][k];
        } else if k > |a[0]| {
          assert x[k] == ja[k - |a[0]| - 1] && y[k] == jb[k - |a[0]| - 1];
        }
      }
    }
  }

  /** The path part after fixing is a fixed version of the path part. */
  lemma PathOnlyFixesApplied(path: string)
    ensures OnlyFixesApplied(path, Join(FixSegments(Split(path, '/')), '/'))
  {
    var segs := Split(path, '/');
    JoinSplit(path, '/');
    JoinOnlyFixesApplied(segs, FixSegments(segs), '/');
  }

  /** URLs that do not start with `http://` or `https://` followed by a
      character other than `/` (`ftp://...`, `www....`) come back unchanged. */
  lemma NonHttpUnchanged(url: string)
    requires !(StartsAt(url, 0, "https://") && |url| > 8 && url[8] != '/')
    requires !(StartsAt(url, 0, "http://") && |url| > 7 && url[7] != '/')
    ensures FixOcrArtifacts(url) == url
  {
  }

  /** The host (scheme and everything up to the first `/` after it) is never
      changed, and neither is anything else except OCR misreads; a URL with no
      line break keeps its length and its `/` positions. */
  lemma FixOcrArtifactsShape(url: string)
    requires '\n' !in url
    ensures var r := FixOcrArtifacts(url);
      && r[..HostEnd(url)] == url[..HostEnd(url)]
      && OnlyFixesApplied(url, r)
      && |r| == |url|
      && forall k :: 0 <= k < |url| ==> (r[k] == '/' <==> url[k] == '/')
  {
    var h := HostEnd(url);
    var r := FixOcrArtifacts(url);
    if h != 0 {
      NoNewlineRunUntil(url, h);
      var path := url[h..];
      PathOnlyFixesApplied(path);
      var fixed := Join(FixSegments(Split(path, '/')), '/');
      assert url[h..RunUntil(url, h, '\n')] == path;
      assert r == url[..h] + fixed;
      forall k | 0 <= k < |url|
        ensures r[k] == url[k] || (url[k] in OcrHexFixes && r[k] == OcrHexFixes[url[k]])
      {
        if k >= h {
          assert r[k] == fixed[k - h] && url[k] == path[k - h];
        }
      }
    }
  }

  /** Everything after a line break in the path is dropped, because `.` does
      not match a newline. */
  lemma FixOcrArtifactsTruncates(url: string)
    requires HostEnd(url) != 0
    ensures var le := RunUntil(url, HostEnd(url), '\n');
      FixOcrArtifacts(url) == FixOcrArtifacts(url[..le])
  {
    var h := HostEnd(url);
    var le := RunUntil(url, h, '\n');
    var v := url[..le];
    assert v[..h] == url[..h];
    assert StartsAt(url, 0, "https://") <==> StartsAt(v, 0, "https://");
    assert StartsAt(url, 0, "http://") <==> StartsAt(v, 0, "http://");
    assert h == RunUntil(v, SchemeLen(v), '/') by {
      var n := SchemeLen(v);
      assert forall k :: n <= k < h ==> v[k] == url[k];
      if h < |v| {
        assert v[h] == url[h];
      }
      RunUntilUnique(v, n, '/', h);
    }
    assert RunUntil(v, h, '\n') == le by {
      assert forall k :: h <= k < le ==> v[k] == url[k];
      RunUntilUnique(v, h, '\n', |v|);
    }
    assert v[h..le] == url[h..le];
  }

  /** The run ends at the first `c`, or at the end of the string. */
  lemma {:induction false} RunUntilUnique(s: string, i: nat, c: char, r: nat)
    requires i <= r <= |s|
    requires forall k :: i <= k < r ==> s[k] != c
    requires r == |s| || s[r] == c
    ensures RunUntil(s, i, c) == r
    decreases r - i
  {
    if i < r {
      RunUntilUnique(s, i + 1, c, r);
    }
  }

  lemma NoNewlineRunUntil(s: string, i: nat)
    requires i <= |s| && '\n' !in s
    ensures RunUntil(s, i, '\n') == |s|
  {
    forall k | i <= k < |s| ensures s[k] != '\n' {
      assert s[k] in s;
    }
    RunUntilUnique(s, i, '\n', |s|);
  }

  /** A URL whose path segments are all too short or not hex-dense comes
      back unchanged. */
  lemma FixOcrArtifactsNoHexSegment(url: string)
    requires '\n' !in url
    requires HostEnd(url) != 0
    requires forall seg :: seg in Split(url[HostEnd(url)..], '/') ==> !LooksLikeHex(seg)
    ensures FixOcrArtifacts(url) == url
  {
    var h := HostEnd(url);
    NoNewlineRunUntil(url, h);
    var path := url[h..];
    var segs := Split(path, '/');
    assert url[h..RunUntil(url, h, '\n')] == path;
    assert FixSegments(segs) == segs;
    JoinSplit(path, '/');
    assert url[..h] + path == url;
  }

  /** The fixed URL has the same host as the original, and its path part is
      the fixed path, which holds no line break. */
  lemma FixedUrlParts(url: string)
    requires HostEnd(url) != 0
    ensures var h := HostEnd(url);
      var r := FixOcrArtifacts(url);
      var path := url[h..RunUntil(url, h, '\n')];
      && HostEnd(r) == h
      && r[..h] == url[..h]
      && RunUntil(r, h, '\n') == |r|
      && r[h..] == Join(FixSegments(Split(path, '/')), '/')
  {
    var h := HostEnd(url);
    var le := RunUntil(url, h, '\n');
    var path := url[h..le];
    var fixed := Join(FixSegments(Split(path, '/')), '/');
    var r := url[..h] + fixed;
    PathOnlyFixesApplied(path);
    assert r[..h] == url[..h];
    assert StartsAt(url, 0, "https://") <==> StartsAt(r, 0, "https://");
    assert StartsAt(url, 0, "http://") <==> StartsAt(r, 0, "http://");
    var n := SchemeLen(r);
    if h < |r| {
      assert path[0] == url[h] == '/';
      assert r[h] == fixed[0];
    }
    RunUntilUnique(r, n, '/', h);
    forall k | h <= k < |r| ensures r[k] != '\n' {
      assert r[k] == fixed[k - h];
      assert path[k - h] == url[k];
    }
    RunUntilUnique(r, h, '\n', |r|);
    assert r[h..] == fixed;
  }

  /** Fixing the segments a second time changes none of them. */
  lemma FixSegmentsIdempotent(path: string)
    ensures var fixedSegs := FixSegments(Split(path, '/'));
      FixSegments(Split(Join(fixedSegs, '/'), '/')) == fixedSegs
  {
    var fixedSegs := FixSegments(Split(path, '/'));
    SplitJoin(fixedSegs, '/');
    assert FixSegments(fixedSegs) == fixedSegs;
  }

  /** `_fix_ocr_artifacts` is idempotent: fixing a fixed URL changes nothing. */
  lemma FixOcrArtifactsIdempotent(url: string)
    ensures FixOcrArtifacts(FixOcrArtifacts(url)) == FixOcrArtifacts(url)
  {
    var h := HostEnd(url);
    if h != 0 {
      var path := url[h..RunUntil(url, h, '\n')];
      var fixedSegs := FixSegments(Split(path, '/'));
      var r := FixOcrArtifacts(url);
      FixedUrlParts(url);
      FixSegmentsIdempotent(path);
      assert r[h..RunUntil(r, h, '\n')] == r[h..] == Join(fixedSegs, '/');
      calc {
        FixOcrArtifacts(r);
        r[..h] + Join(FixSegments(Split(r[h..], '/')), '/');
        r[..h] + Join(fixedSegs, '/');
        r[..h] + r[h..];
        r;
      }
    }
  }
}
