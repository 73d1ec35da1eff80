# Text recovery of the image link extractor, in Dafny

`extract_links.py` reads text out of a screenshot or slide with OCR and
reports the links in it. This project models the part that turns the raw OCR
text into a clean, ordered, duplicate-free list of URLs, `find_urls`. It also
proves what that part promises. The pipeline has four stages:

1. **Rejoining wrapped lines** (`rejoin_wrapped_urls`, module `Rejoin`, file
   `rejoin.dfy`). A line that looks like the tail of a URL is glued onto the
   previous line when that line holds a URL. The join test is
   `_should_join_to_previous` together with `_looks_like_url_continuation`.
   The loop is an imperative method. It is proved equal to a fold over the
   lines, and the lemmas are about that fold.
2. **Matching the URL pattern** (`URL_PATTERN`, module `UrlPattern`, file
   `url_pattern.dfy`). It is written as a hand-made scanner that handles
   `search` and `findall`. The scanner is proved to agree with a
   declarative reading of the regular expression: a match is leftmost and
   longest, and `findall` resumes after each match.
3. **Repairing OCR misreads** (`_fix_hex_segment`, `_fix_ocr_artifacts`,
   module `HexFix`, file `hex_fix.dfy`). Path segments that are long and
   mostly hex digits have `O Q l I S G` replaced by `0 0 1 1 5 6`.
4. **Order-preserving de-duplication** (`_deduplicate`, module `Dedupe`,
   file `dedupe.dfy`). The composition `find_urls` is in module `Pipeline`
   (file `pipeline.dfy`).

Module `Strings` (file `strings.dfy`) gives the Python `str` operations these
stages use:
- `split`/`join` on one separator;
- `strip`/`rstrip`;
- counting the characters that pass a test.

Whitespace is the exact set of the 29 code points for which `str.isspace()`
holds. CPython uses that same test for `strip()` and for `\s` in a `str`
pattern.

Some properties hold only in specific cases or have consequences worth
stating:
- The repair of `_fix_ocr_artifacts` keeps the length and every `/` of a URL
  that contains no line break. The model splits the path on `/` and joins it
  again, and this round trip is exact: a path that starts with `/` keeps its
  leading slash (`HexFix.FixOcrArtifactsShape`, `Strings.JoinSplit`).
- In `(https?://[^/]+)(.*)`, the `.` does not match a line break. So when a
  URL passed to `_fix_ocr_artifacts` contains one, the result loses
  everything from the first line break of the path onwards. The model keeps
  that behaviour (`HexFix.FixOcrArtifactsTruncates`). The matcher never
  produces such a URL, so `find_urls` is not affected.

## Model

| member | source | states |
|---|---|---|
| Strings.CountIf | extract_links.py:178 | the number of characters passing a test is at most the length of the string |
| Strings.CountIfAll | extract_links.py:178-180 | every character is counted exactly when every character passes the test |
| Strings.CountIfMonotone | extract_links.py:190-191 | position-wise, more characters passing the test never lowers the count |
| Strings.RStripChars | extract_links.py:171 | `rstrip(chars)` returns a prefix; every dropped character is in `chars`; the result does not end with one |
| Strings.RStrip | extract_links.py:147 | `rstrip()` with no argument is `rstrip` of the whitespace set, with the guarantees of `Strings.RStripChars` |
| Strings.RStripCharsAppend | extract_links.py:171 | characters of `chars` appended to a string are all cut again by `rstrip(chars)` |
| Strings.Strip | extract_links.py:145 | `strip()` is no longer than its input and neither starts nor ends with whitespace |
| Strings.LeadingWhitespace | extract_links.py:145 | the number of whitespace characters at the start of a string: all of them are whitespace and the next one is not |
| Strings.StripInfix | extract_links.py:145 | `strip()` returns, character for character, the piece of the string that starts right after its leading whitespace: only the ends are cut |
| Strings.StripTrailingWhitespace | extract_links.py:145 | everything after the piece that `strip()` keeps is whitespace |
| Strings.StripAppend | extract_links.py:145 | stripping `s + t`, where `s` ends in a visible character, gives `s.strip()` followed by `t.rstrip()` |
| Strings.Without | extract_links.py:145-147 | the characters of a string that are not in a set, in order; none of the result's characters is in the set |
| Strings.WithoutConcat | extract_links.py:147 | removing a set of characters distributes over concatenation |
| Strings.WithoutRStripChars | extract_links.py:147 | `rstrip(chars)` removes nothing but characters of `chars` |
| Strings.WithoutStrip | extract_links.py:145 | `strip()` removes nothing but whitespace |
| Strings.StripSubstring | extract_links.py:145-147 | `strip()` and `rstrip()` add no character that was not in their input |
| Strings.Split | extract_links.py:141 | `split(sep)` gives at least one piece and no piece contains `sep` |
| Strings.JoinSplit | extract_links.py:209-210 | `sep.join(s.split(sep)) == s` |
| Strings.SplitLength | extract_links.py:141 | `split(sep)` gives one more piece than there are separators |
| Strings.SplitPrefix | extract_links.py:141 | splitting `p + t`, where `p` holds no separator, puts `p` in front of the first piece of `t` |
| Strings.SplitJoin | extract_links.py:141-151 | `sep.join(parts).split(sep) == parts` when no piece contains `sep` |
| Strings.Join | extract_links.py:151 | `sep.join(parts)`: the pieces with `sep` between neighbours; `Strings.JoinSplit`, `Strings.SplitJoin` and `Strings.JoinContains` state its round trips |
| Strings.JoinContains | extract_links.py:151 | every piece occurs, whole, inside the joined string |
| UrlPattern.PrefixLen | extract_links.py:44 | at most one of `https://`, `http://`, `ftp://`, `www.` starts at a position, and the scanner reports that one |
| UrlPattern.RunEnd | extract_links.py:45 | the greedy body `[^\s<>"')\]},;!]*` stops at the first delimiter or the end |
| UrlPattern.BackOff | extract_links.py:45-46 | backtracking gives up exactly the trailing `.`/`:` characters so that the last one matches `[^...\.:]` |
| UrlPattern.MatchAt | extract_links.py:43-47 | a match found at a position ends after it and within the text |
| UrlPattern.MatchAtIsLongestMatch | extract_links.py:43-47 | the scanner's match at a position is a match of the pattern, and no longer one exists; no match reported means the pattern cannot match there |
| UrlPattern.NextMatch | extract_links.py:158 | `search` from a position returns a match of the scanner within the text |
| UrlPattern.MatchSpans | extract_links.py:221 | the spans `findall` reports lie in the text, in increasing order and non-overlapping |
| UrlPattern.NoMatchInAt | extract_links.py:221 | a range free of matches has no position at which the scanner finds a match |
| UrlPattern.NextMatchLeftmost | extract_links.py:158 | the match `search` returns is the leftmost: no position before it starts one, and none at all when it returns nothing |
| UrlPattern.MatchSpansAreMatches | extract_links.py:221 | every span `findall` reports is the scanner's longest match at its start |
| UrlPattern.MatchSpansFirst | extract_links.py:221 | no match starts before the first span, and none at all when there is no span |
| UrlPattern.MatchSpansGapAt | extract_links.py:221 | each span after the first is the leftmost match after the previous one ends |
| UrlPattern.MatchSpansLast | extract_links.py:221 | no match starts after the last span |
| UrlPattern.SearchFrom | extract_links.py:158 | some position at or after the start has a match; `UrlPattern.SearchFromNextMatch` ties it to the scanner |
| UrlPattern.Search | extract_links.py:158 | `URL_PATTERN.search(line)` succeeds; `UrlPattern.SearchIff` ties it to the declarative pattern |
| UrlPattern.SearchFromNextMatch | extract_links.py:158 | `search` succeeds exactly when scanning finds a leftmost match |
| UrlPattern.SearchIff | extract_links.py:158 | `search` succeeds exactly when some range of the text matches the pattern |
| UrlPattern.RegexMatchIsUrlShaped | extract_links.py:43-47 | a matched range starts with a prefix, has a character after it, holds no whitespace or delimiter and does not end in `.` or `:` |
| UrlPattern.FindAllUrlShaped | extract_links.py:43-47 | every result of `findall` has that shape |
| UrlPattern.FindAll | extract_links.py:221 | `findall` returns the text of each span of `UrlPattern.MatchSpans`; its results are characterised by `UrlPattern.FindAllUrlShaped` and `UrlPattern.FindAllEmptyIff` |
| UrlPattern.FindAllEmptyIff | extract_links.py:221 | `findall` returns nothing exactly when no range matches |
| UrlPattern.NoPrefixNoMatch | extract_links.py:44 | text without any of the four prefixes, such as a bare `example.com/path` or `""`, yields no match |
| UrlPattern.RegexMatchesLocal | extract_links.py:43-47 | whether a range matches depends only on the characters in it |
| HexFix.FixChar | extract_links.py:192 | `OCR_HEX_FIXES.get(c, c)`; `HexFix.FixCharFacts` states what the replacement does |
| HexFix.FixChars | extract_links.py:192 | every character replaced through `OCR_HEX_FIXES`, in place; `HexFix.FixHexSegment` states the result |
| HexFix.LooksLikeHex | extract_links.py:187-191 | at least 8 characters, of which at least 70% are hex digits, compared exactly as `10 * hex >= 7 * len` |
| HexFix.FixHexSegment | extract_links.py:185-193 | length kept; a segment shorter than 8 or less than 70% hex is unchanged; otherwise each character is replaced by its entry in `OCR_HEX_FIXES` if it has one |
| HexFix.FixCharFacts | extract_links.py:57-78 | the replacement of a character is final, hex digits are never replaced, and every replacement is a hex digit |
| HexFix.FixHexSegmentIdempotent | extract_links.py:185-193 | fixing a segment twice is fixing it once |
| HexFix.SchemeLen | extract_links.py:202 | the scheme `https?://` is 8 characters exactly for `https://`, 7 exactly for `http://`, otherwise absent |
| HexFix.RunUntil | extract_links.py:202 | `[^/]+` and `.*` run to the first `/` or line break, or to the end of the string |
| HexFix.HostEnd | extract_links.py:202-204 | group 1 ends at the first `/` after the scheme; `re.match` fails exactly when there is no scheme or no character other than `/` follows it |
| HexFix.FixSegments | extract_links.py:209 | each fixed segment differs from its original only by OCR replacements, a segment without `/` stays without `/`, and every fixed segment is left alone by a second fix |
| HexFix.FixOcrArtifacts | extract_links.py:196-210 | the host (group 1) is never modified; the path up to the first line break is split on `/`, each segment fixed, and the segments joined again |
| HexFix.JoinOnlyFixesApplied | extract_links.py:209-210 | joining fixed segments gives the joined originals with only OCR replacements applied |
| HexFix.PathOnlyFixesApplied | extract_links.py:207-210 | the rebuilt path is the path with only OCR replacements applied |
| HexFix.NonHttpUnchanged | extract_links.py:202-204 | a URL that is not `http://`/`https://` followed by a character other than `/` (e.g. `ftp://`, `www.`) is returned unchanged |
| HexFix.FixOcrArtifactsShape | extract_links.py:196-210 | for a URL without a line break: the host is unchanged, only OCR replacements are applied, and the length and every `/` position are kept |
| HexFix.FixOcrArtifactsTruncates | extract_links.py:202-207 | the path is cut at its first line break |
| HexFix.FixOcrArtifactsNoHexSegment | extract_links.py:196-210 | when no path segment qualifies, the URL is unchanged |
| HexFix.FixedUrlParts | extract_links.py:206-210 | the fixed URL keeps the host, and its path is the fixed segments joined by `/` |
| HexFix.FixSegmentsIdempotent | extract_links.py:209 | fixing the segments of an already-fixed path changes nothing |
| HexFix.FixOcrArtifactsIdempotent | extract_links.py:196-210 | repairing a URL twice is repairing it once |
| Rejoin.Cleaned | extract_links.py:171 | the cleaned line is no longer than the line and does not end in `.,;:!? ` |
| Rejoin.LooksLikeUrlContinuation | extract_links.py:165-182 | the cleaned line is non-empty, holds no space, is at least 5 long and at least 85% URL characters, compared exactly as `20 * count >= 17 * len`; the lemmas below state what follows |
| Rejoin.SpacedLineIsNotContinuation | extract_links.py:171-176 | a space followed later in the stripped line by a character the cleaning keeps rejects the line, so prose is never a continuation |
| Rejoin.CleanedAppend | extract_links.py:171 | for a line that ends in a visible character, appending characters of `.,;:!? ` does not change the cleaned line |
| Rejoin.TrailingPunctuationIgnored | extract_links.py:165-182 | for a line that ends in a visible character, as the stripped lines examined by `_should_join_to_previous` do, appending characters of `.,;:!? ` never changes the verdict |
| Rejoin.UrlTailIsContinuation | extract_links.py:165-182 | a cleaned line of at least 5 URL characters without a space is always a continuation |
| Rejoin.ShortLineIsNotContinuation | extract_links.py:171-181 | a line shorter than 5 after stripping, or blank, is never a continuation |
| Rejoin.ShouldJoinToPrevious | extract_links.py:154-162 | the four conditions of `_should_join_to_previous`, with `search` modelled by `UrlPattern.Search` |
| Rejoin.ShouldJoinToPreviousIff | extract_links.py:154-162 | a join happens exactly when the previous merged line contains a match, and the stripped line is non-empty, not bullet-prefixed and a continuation |
| Rejoin.RejoinStep | extract_links.py:145-149 | one pass of the loop: the stripped line is glued onto the right-stripped last merged line, or the raw line is appended |
| Rejoin.RejoinLines | extract_links.py:144-149 | the list `merged` after the loop has seen all of the lines |
| Rejoin.Rejoined | extract_links.py:141-151 | `rejoin_wrapped_urls` as a value: split on line breaks, rejoin, join with line breaks |
| Rejoin.RejoinWrappedUrls | extract_links.py:131-151 | the loop returns the lines folded by the join-or-append step and joined with line breaks |
| Rejoin.JoinDecisions | extract_links.py:144-146 | one join decision per input line |
| Rejoin.FirstLineNeverJoined | extract_links.py:157 | the first line is never joined |
| Rejoin.RejoinLinesCount | extract_links.py:144-149 | the number of merged lines is the number of lines minus the number of joins |
| Rejoin.LastLineNotJoined | extract_links.py:146-149 | a line that is not joined is appended unchanged, not stripped |
| Rejoin.JoinDecisionsPrefix | extract_links.py:144-146 | the decision about a line depends only on the lines up to it |
| Rejoin.RejoinLinesWithoutJoins | extract_links.py:144-149 | without joins the lines come out unchanged |
| Rejoin.ConcatSnoc | extract_links.py:149 | appending a line appends its text |
| Rejoin.JoinKeepsText | extract_links.py:147 | `rstrip(prev) + strip(line)` keeps every non-whitespace character of `prev` and `line`, in order |
| Rejoin.StepKeepsText | extract_links.py:145-149 | one step of the loop keeps every non-whitespace character, in order |
| Rejoin.RejoinLinesKeepsText | extract_links.py:144-149 | rejoining never reorders, loses or invents a non-whitespace character |
| Rejoin.RejoinLinesNoNewline | extract_links.py:145-147 | merged lines contain no line break |
| Rejoin.RejoinedLineCount | extract_links.py:141-151 | the output has as many lines as the input minus the number of joins |
| Rejoin.RejoinedWithoutJoins | extract_links.py:141-151 | without joins the output is the input, because `"\n".join(text.split("\n")) == text` |
| Rejoin.StepUrlFree | extract_links.py:146-158 | a line is never joined onto a line without a URL |
| Rejoin.RejoinLinesUrlFree | extract_links.py:144-158 | lines without URLs come out unchanged |
| Rejoin.RejoinedUrlFree | extract_links.py:141-151 | text in which the pattern matches nowhere passes through unchanged |
| Rejoin.RejoinedEmpty | extract_links.py:141-151 | `rejoin_wrapped_urls("") == ""` |
| Dedupe.Deduplicate | extract_links.py:213-215 | the result has no duplicates and holds exactly the items of the input |
| Dedupe.FirstIndex | extract_links.py:215 | the first position at which an item occurs |
| Dedupe.FirstIndexPrefix | extract_links.py:215 | appending items does not move a first occurrence |
| Dedupe.FirstIndexAppend | extract_links.py:215 | an item that is new when appended first occurs at the end |
| Dedupe.DeduplicateFirstOccurrenceOrder | extract_links.py:213-215 | the items come out in the order of their first occurrences |
| Dedupe.DeduplicateNoDuplicates | extract_links.py:213-215 | a list without duplicates is returned unchanged |
| Dedupe.DeduplicateIdempotent | extract_links.py:213-215 | de-duplicating twice is de-duplicating once |
| Pipeline.Matches | extract_links.py:220-221 | the matches of the URL pattern in the rejoined text, in order |
| Pipeline.FixAll | extract_links.py:222 | every match repaired, in order; `Pipeline.FixAllMembers` states its members |
| Pipeline.FindUrls | extract_links.py:218-223 | `find_urls` returns no duplicates |
| Pipeline.FixKeepsPrefix | extract_links.py:57-64 | OCR replacements keep a leading literal that holds no misread glyph |
| Pipeline.FixesKeepUrlShape | extract_links.py:43-64 | OCR replacements keep a matched URL's shape |
| Pipeline.FixKeepsUrlShape | extract_links.py:196-210 | `_fix_ocr_artifacts` keeps a matched URL's shape |
| Pipeline.FindUrlsAreUrlShaped | extract_links.py:218-223 | every URL reported starts with a prefix, has something after it, holds no whitespace or delimiter and does not end in `.` or `:` |
| Pipeline.FixAllMembers | extract_links.py:222 | the repaired list holds exactly the repairs of the matches |
| Pipeline.FindUrlsMembers | extract_links.py:218-223 | a URL is reported exactly when it is the repair of some match in the rejoined text |
| Pipeline.FindUrlsOrder | extract_links.py:218-223 | URLs come out in the order in which their repaired forms first occur |
| Pipeline.FindUrlsAreRepaired | extract_links.py:218-223 | every URL reported is already repaired: repairing it again changes nothing |
| Pipeline.FindUrlsUrlFree | extract_links.py:218-223 | text in which the pattern matches nowhere yields no URL |
| Pipeline.FindUrlsEmpty | extract_links.py:218-223 | `find_urls("") == []` |

## Left out

- Image loading, preprocessing and the OCR call (`preprocess_image`, `extract_text`): foreign libraries and I/O.
- `process_image`, `_format_result`, `main` and `ExtractionResult`: file-system checks, terminal output and a plain record around the pipeline.
- `str.isalnum()`: it is Unicode-wide in Python. The model treats only the ASCII letters and digits as alphanumeric, so a line of non-ASCII letters can count fewer URL characters than Python counts.
- The ratio tests `count / len >= 0.85` and `hex / len >= 0.7` are compared exactly as `20 * count >= 17 * len` and `10 * hex >= 7 * len`. They differ from the floating-point comparison only by rounding, which does not occur at realistic lengths.
- The general regular-expression engine: only `URL_PATTERN` and `(https?://[^/]+)(.*)` are modelled, each as a scanner.
- Concrete worked examples are not proved, such as `"Visit https://example.com."` giving `["https://example.com"]`, or the wrapped gist URL with a misread `Q` coming out as one corrected URL. Evaluating the scanner on literal text is too costly for the verifier. The general lemmas on shape, membership, repair and order state what these examples show.
- Rejoin.RejoinLinesKeepsText: states that no non-whitespace character is lost, added or reordered; it does not state where the line breaks end up beyond the line count of `Rejoin.RejoinedLineCount`.
