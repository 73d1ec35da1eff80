/** `find_urls` of extract_links.py: rejoin wrapped lines, collect every match
    of the URL pattern, repair OCR misreads in each match, and drop repeats
    while keeping the order of first occurrence. Repair comes before the
    duplicate check, so two readings of one URL that differ only by misread
    hex glyphs are reported once. */
module Pipeline {
  import opened Strings
  import opened UrlPattern
  import opened HexFix
  import opened Rejoin
  import opened Dedupe

  /** `[_fix_ocr_artifacts(u) for u in urls]` */
  function FixAll(urls: seq<string>): seq<string> {
    seq(|urls|, k requires 0 <= k < |urls| => FixOcrArtifacts(urls[k]))
  }

  /** The matches of the URL pattern in the rejoined text, in order. */
  function Matches(text: string): seq<string> {
    FindAll(Rejoined(text))
  }

  /** `find_urls` */
  function FindUrls(text: string): (urls: seq<string>)
    ensures NoDuplicates(urls)
  {
    Deduplicate(FixAll(Matches(text)))
  }

  /** No prefix literal holds a glyph that the repair replaces. */
  lemma PrefixesHaveNoMisread(lit: string)
    requires lit in Prefixes
    ensures forall k :: 0 <= k < |lit| ==> lit[k] !in OcrHexFixes
  {
  }

  /** A repair keeps the prefix of the pattern, since none of its characters
      is an OCR misread. */
  lemma FixKeepsPrefix(u: string, r: string, lit: string)
    requires OnlyFixesApplied(u, r) && StartsAt(u, 0, lit) && lit in Prefixes
    ensures StartsAt(r, 0, lit)
  {
    PrefixesHaveNoMisread(lit);
    forall k | 0 <= k < |lit| ensures r[k] == lit[k] {
      assert u[k] == u[..|lit|][k];
    }
  }

  /** Every replacement is a digit, which is neither a delimiter nor
      trailing punctuation. */
  lemma FixesKeepCharacters(u: string, r: string)
    requires OnlyFixesApplied(u, r) && u != []
    requires forall k :: 0 <= k < |u| ==> !IsDelimiter(u[k])
    requires !IsTrailingPunct(u[|u| - 1])
    ensures forall k :: 0 <= k < |r| ==> !IsDelimiter(r[k])
    ensures !IsTrailingPunct(r[|r| - 1])
  {
  }

  /** Replacing OCR misreads keeps a string URL-shaped: the prefix holds no
      misread glyph, and the replacements are harmless characters. */
  lemma FixesKeepUrlShape(u: string, r: string)
    requires IsUrlShaped(u) && OnlyFixesApplied(u, r)
    ensures IsUrlShaped(r)
  {
    FixesKeepCharacters(u, r);
    if StartsAt(u, 0, "https://") {
      FixKeepsPrefix(u, r, "https://");
    } else if StartsAt(u, 0, "http://") {
      FixKeepsPrefix(u, r, "http://");
    } else if StartsAt(u, 0, "ftp://") {
      FixKeepsPrefix(u, r, "ftp://");
    } else {
      FixKeepsPrefix(u, r, "www.");
    }
  }

  /** Repairing a match keeps it URL-shaped. */
  lemma FixKeepsUrlShape(u: string)
    requires IsUrlShaped(u)
    ensures IsUrlShaped(FixOcrArtifacts(u))
  {
    assert '\n' !in u by {
      assert forall k :: 0 <= k < |u| ==> u[k] != '\n';
    }
    FixOcrArtifactsShape(u);
    FixesKeepUrlShape(u, FixOcrArtifacts(u));
  }

  /** Every reported URL is a match of the pattern after repair: it starts
      with one of the four prefixes, has something after it, holds no
      whitespace or delimiter and does not end in `.` or `:`. */
  lemma FindUrlsAreUrlShaped(text: string)
    ensures forall u :: u in FindUrls(text) ==> IsUrlShaped(u)
  {
    var ms := Matches(text);
    FindAllUrlShaped(Rejoined(text));
    forall u | u in FindUrls(text) ensures IsUrlShaped(u) {
      var k :| 0 <= k < |ms| && FixAll(ms)[k] == u;
      assert ms[k] in ms;
      FixKeepsUrlShape(ms[k]);
    }
  }

  lemma FixAllMembers(ms: seq<string>, u: string)
    ensures u in FixAll(ms) <==> exists m :: m in ms && FixOcrArtifacts(m) == u
  {
    if u in FixAll(ms) {
      var k :| 0 <= k < |ms| && FixAll(ms)[k] == u;
      assert ms[k] in ms;
    }
    if m :| m in ms && FixOcrArtifacts(m) == u {
      var k :| 0 <= k < |ms| && ms[k] == m;
      assert FixAll(ms)[k] == u;
    }
  }

  /** The URLs reported are exactly the repaired matches. */
  lemma FindUrlsMembers(text: string, u: string)
    ensures u in FindUrls(text) <==> exists m :: m in Matches(text) && FixOcrArtifacts(m) == u
  {
    FixAllMembers(Matches(text), u);
  }

  /** The URLs come out in the order in which their repaired forms first
      occur among the repaired matches. */
  lemma FindUrlsOrder(text: string)
    ensures var fixed := FixAll(Matches(text));
      forall i, j :: 0 <= i < j < |FindUrls(text)| ==>
        FirstIndex(fixed, FindUrls(text)[i]) < FirstIndex(fixed, FindUrls(text)[j])
  {
    DeduplicateFirstOccurrenceOrder(FixAll(Matches(text)));
  }

  /** Every reported URL is already repaired: repairing it again changes
      nothing. */
  lemma FindUrlsAreRepaired(text: string)
    ensures forall u :: u in FindUrls(text) ==> FixOcrArtifacts(u) == u
  {
    var ms := Matches(text);
    forall u | u in FindUrls(text) ensures FixOcrArtifacts(u) == u {
      var k :| 0 <= k < |ms| && FixAll(ms)[k] == u;
      FixOcrArtifactsIdempotent(ms[k]);
    }
  }

  /** Text in which the pattern matches nowhere yields no URL, so does the
      empty text. */
  lemma FindUrlsUrlFree(text: string)
    requires forall p: nat, e: nat :: !RegexMatches(text, p, e)
    ensures FindUrls(text) == []
  {
    RejoinedUrlFree(text);
    FindAllEmptyIff(text);
  }

  lemma FindUrlsEmpty()
    ensures FindUrls("") == []
  {
    forall p: nat, e: nat ensures !RegexMatches("", p, e) {
    }
    FindUrlsUrlFree("");
  }
}
