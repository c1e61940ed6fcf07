# Chinese-to-English punctuation and Confluence URL conversion

A Dafny model of two pure string components of `esc_mini_tools_lib`.

**The punctuation normaliser** (`chinese_to_english_punctuation.py`). `process` splits a
text into lines and runs `handle_everything` on each line. That is a fixed pipeline:

- eleven split/strip/join handlers, each of which turns one full-width mark
  (，、。：；？！（）“”) into its ASCII mark;
- a spacing pass that puts one space between an ASCII letter or a digit and a
  neighbouring non-ASCII character;
- a post-pass that pairs `**` markers first-with-second, third-with-fourth, and so on,
  and deletes the spaces just inside each pair.

Modules:

- `Text`: Python's `strip`, `split`, `join` and `find`.
- `Punctuation`: the handlers. They come in three shapes: separators, openers and
  closers.
- `HandlerLaws`: what each handler shape does to a line.
- `Spacing`: the spacing pass.
- `PairedMarkers`: `find_pair_markers`, `remove_spaces_around_paired_markers` and the
  post-pass.
- `Normalizer`: `splitlines`, the handler pipeline and `process`.
- `NormalizerExamples`: worked cases from the repository's tests: a comma between two
  phrases, a bold heading, a colon before a bold sentence and a line of labelled values.

**The Confluence URL converter** (`confluence_export.py`, module `Confluence`):

- `identify_url_pattern` sorts a URL into draft, edit, standard or with-query pages, or
  unknown.
- The four `extract_page_id_*` functions pull out the page id.
- `convert_to_api_url` builds the REST URL.
- `ConfluenceUrlTransformInput.main` reports the outcome.
- `Record.site_url` recovers the site.

A URL is taken as its parsed components (scheme, host, path, query). The two regular
expressions are written as explicit scanners. `parse_qs` is written as a field splitter.

Facts about the code that the model keeps:

- Only the full-width quotes U+201C and U+201D are converted. ASCII `"` is never
  touched by the handlers, and the spacing pass adds no space next to it.
- The spacing pass does not put a space between an ASCII letter and a digit, although
  the docstring at `chinese_to_english_punctuation.py:296` says it does.
- `str.splitlines` breaks at all of Python's line boundaries: `\n`, `\r`, `\r\n` (one
  break), `\v`, `\f`, `\x1c`–`\x1e`, `\x85`, U+2028 and U+2029.

## Model

| member | source | states |
|---|---|---|
| Text.Strip | esc_mini_tools_lib/tools/chinese_to_english_punctuation.py:154 | `str.strip()`: the result has no whitespace at either end, and is empty exactly when the line is blank |
| Text.StripFramed | esc_mini_tools_lib/tools/chinese_to_english_punctuation.py:154 | what `str.strip()` leaves is a window of the line with only whitespace on either side of it |
| Text.JoinSplit | esc_mini_tools_lib/tools/chinese_to_english_punctuation.py:154-156 | joining the pieces of `split(sep)` with `sep` gives the string back |
| Text.SplitJoinInverse | esc_mini_tools_lib/tools/chinese_to_english_punctuation.py:356 | splitting a `"\n".join` of lines without `\n` gives the lines back |
| Text.Find | esc_mini_tools_lib/tools/chinese_to_english_punctuation.py:50 | `str.find`: the leftmost occurrence from `start`, or None when there is none |
| Punctuation.KeepWordsWords | esc_mini_tools_lib/tools/chinese_to_english_punctuation.py:154 | the comprehension keeps the stripped non-blank tokens: each kept one is non-empty and stripped, and there are no more of them than pieces |
| Punctuation.KeepWordsChars | esc_mini_tools_lib/tools/chinese_to_english_punctuation.py:154 | every character of a kept token is a character of one of the pieces |
| HandlerLaws.KeepWordsAppend | esc_mini_tools_lib/tools/chinese_to_english_punctuation.py:154 | the comprehension over two lists of pieces is the comprehension over each, concatenated |
| Punctuation.ProcessLastSpecialCharSpec | esc_mini_tools_lib/tools/chinese_to_english_punctuation.py:141-146 | an empty token is appended exactly when the mark is the last non-whitespace character; a blank line gains none, because the IndexError is caught |
| Punctuation.EndsWithMarkAt | esc_mini_tools_lib/tools/chinese_to_english_punctuation.py:143 | `line.rstrip()[-1] == mark` holds exactly when the mark is followed by whitespace only; it never holds for a blank line |
| Punctuation.Separate | esc_mini_tools_lib/tools/chinese_to_english_punctuation.py:149-216 | a separator handler leaves no copy of its mark and no whitespace at either end; every output character comes from the line, the ASCII mark or a space |
| Punctuation.Open | esc_mini_tools_lib/tools/chinese_to_english_punctuation.py:219-225 | the same three guarantees for the opening bracket and quote handlers |
| Punctuation.Close | esc_mini_tools_lib/tools/chinese_to_english_punctuation.py:228-252 | the same three guarantees for the closing bracket and quote handlers |
| Punctuation.HandleDouHao | esc_mini_tools_lib/tools/chinese_to_english_punctuation.py:149-156 | no ， is left; the result is stripped and built from the line's characters, `,` and a space |
| Punctuation.HandleDunHao | esc_mini_tools_lib/tools/chinese_to_english_punctuation.py:159-166 | no 、 is left; the result is stripped and built from the line's characters, `,` and a space |
| Punctuation.HandleJuHao | esc_mini_tools_lib/tools/chinese_to_english_punctuation.py:169-176 | no 。 is left; the result is stripped and built from the line's characters, `.` and a space |
| Punctuation.HandleMaoHao | esc_mini_tools_lib/tools/chinese_to_english_punctuation.py:179-186 | no ： is left; the result is stripped and built from the line's characters, `:` and a space |
| Punctuation.HandleFenHao | esc_mini_tools_lib/tools/chinese_to_english_punctuation.py:189-196 | no ； is left; the result is stripped and built from the line's characters, `;` and a space |
| Punctuation.HandleWenHao | esc_mini_tools_lib/tools/chinese_to_english_punctuation.py:199-206 | no ？ is left; the result is stripped and built from the line's characters, `?` and a space |
| Punctuation.HandleExclamation | esc_mini_tools_lib/tools/chinese_to_english_punctuation.py:209-216 | no ！ is left; the result is stripped and built from the line's characters, `!` and a space |
| Punctuation.HandleZuoKuoHao | esc_mini_tools_lib/tools/chinese_to_english_punctuation.py:219-225 | no （ is left; the result is stripped and built from the line's characters, `(` and a space |
| Punctuation.HandleYouKuoHao | esc_mini_tools_lib/tools/chinese_to_english_punctuation.py:228-252 | no ） is left; the result is stripped and built from the line's characters, `)` and a space |
| Punctuation.HandleZuoShuangYinHao | esc_mini_tools_lib/tools/chinese_to_english_punctuation.py:255-261 | no “ is left; the result is stripped and built from the line's characters, `"` and a space |
| Punctuation.HandleYouShuangYinHao | esc_mini_tools_lib/tools/chinese_to_english_punctuation.py:264-288 | no ” is left; the result is stripped and built from the line's characters, `"` and a space |
| HandlerLaws.SeparateNoMark | esc_mini_tools_lib/tools/chinese_to_english_punctuation.py:154-156 | a line without the mark comes back as `line.strip()`; a blank line gives `""` |
| HandlerLaws.SeparateBlank | esc_mini_tools_lib/tools/chinese_to_english_punctuation.py:141-156 | a whitespace-only line gives `""`, marks or not, without error |
| HandlerLaws.SeparateSplit | esc_mini_tools_lib/tools/chinese_to_english_punctuation.py:154-156 | at the first mark, the stripped text before it is followed by the ASCII mark, one space, then the handled rest |
| HandlerLaws.SeparateLeadingMark | esc_mini_tools_lib/tools/chinese_to_english_punctuation.py:154 | a mark at the very start of the line disappears |
| HandlerLaws.SeparateTrailingMark | esc_mini_tools_lib/tools/chinese_to_english_punctuation.py:155-156 | a mark at the end of the line gives a trailing bare ASCII mark |
| HandlerLaws.HandlersCollapseMarks | esc_mini_tools_lib/tools/chinese_to_english_punctuation.py:154 | in every handler, two marks with only whitespace between them act as one mark, because the empty tokens are filtered |
| HandlerLaws.HandlersAbsorbSpace | esc_mini_tools_lib/tools/chinese_to_english_punctuation.py:154 | in every handler, the whitespace on either side of a mark is discarded |
| HandlerLaws.SeparateIdempotent | esc_mini_tools_lib/tools/chinese_to_english_punctuation.py:149-216 | running a separator handler twice is running it once |
| HandlerLaws.OpenNoMark | esc_mini_tools_lib/tools/chinese_to_english_punctuation.py:224-225 | a line without the opening mark comes back stripped |
| HandlerLaws.OpenSplit | esc_mini_tools_lib/tools/chinese_to_english_punctuation.py:224-225 | an interior opening mark becomes a space followed by the ASCII mark |
| HandlerLaws.OpenEndMarks | esc_mini_tools_lib/tools/chinese_to_english_punctuation.py:224-225 | an opening mark at the start or the end of the line is dropped |
| HandlerLaws.OpenIdempotent | esc_mini_tools_lib/tools/chinese_to_english_punctuation.py:219-225 | running an opener handler twice is running it once |
| HandlerLaws.CloseNoMark | esc_mini_tools_lib/tools/chinese_to_english_punctuation.py:233-252 | a line without the closing mark comes back stripped |
| HandlerLaws.CloseSplit | esc_mini_tools_lib/tools/chinese_to_english_punctuation.py:236-245 | an interior closing mark becomes the ASCII mark, followed by a space unless the next token starts with one of the closers (`,.:;?!`, plus `)` for quotes) |
| HandlerLaws.CloseTrailingMark | esc_mini_tools_lib/tools/chinese_to_english_punctuation.py:246-250 | a trailing closing mark gives a bare ASCII mark |
| HandlerLaws.CloseLeadingMark | esc_mini_tools_lib/tools/chinese_to_english_punctuation.py:233-252 | a leading closing mark vanishes unless nothing else is on the line, in which case it gives the bare ASCII mark |
| HandlerLaws.CloseIdempotent | esc_mini_tools_lib/tools/chinese_to_english_punctuation.py:228-288 | running a closer handler twice is running it once |
| Spacing.HandleSpaceBetweenChineseAndEnglish | esc_mini_tools_lib/tools/chinese_to_english_punctuation.py:291-331 | the character loop with `prev_char` computes the spaced line; empty input is returned unchanged, and the output keeps the first and last character |
| Spacing.SpacedAt | esc_mini_tools_lib/tools/chinese_to_english_punctuation.py:304-329 | character `i` of the line lands after the spaces inserted before it, with a space just before it exactly where it and its left neighbour need one |
| Spacing.SpacedLength | esc_mini_tools_lib/tools/chinese_to_english_punctuation.py:304-329 | the output is the line plus one space per neighbour pair that needs one |
| Spacing.SpacedUnchanged | esc_mini_tools_lib/tools/chinese_to_english_punctuation.py:316-326 | a line is left alone exactly when no two neighbours need a space |
| Spacing.SpacedWellSpaced | esc_mini_tools_lib/tools/chinese_to_english_punctuation.py:316-326 | after the pass, no two neighbours need a space |
| Spacing.SpacedIdempotent | esc_mini_tools_lib/tools/chinese_to_english_punctuation.py:291-331 | spacing twice is spacing once |
| Spacing.SpacedAscii | esc_mini_tools_lib/tools/chinese_to_english_punctuation.py:308-313 | an all-ASCII line such as `Python3` is left alone; letters and digits are never separated |
| Spacing.FullWidthDigitsSeparated | esc_mini_tools_lib/tools/chinese_to_english_punctuation.py:310-324 | full-width digits count both as digits and as non-ASCII, so `１２` becomes `１ ２` |
| Spacing.SpacedChars | esc_mini_tools_lib/tools/chinese_to_english_punctuation.py:326-328 | the pass adds nothing but spaces |
| PairedMarkers.PositionsSound | esc_mini_tools_lib/tools/chinese_to_english_punctuation.py:48-54 | the search loop finds occurrences of the marker, increasing and not overlapping, each resuming after the previous find |
| PairedMarkers.PositionsComplete | esc_mini_tools_lib/tools/chinese_to_english_punctuation.py:48-54 | every occurrence of the marker is either found or overlaps a found one |
| PairedMarkers.PairUpPairs | esc_mini_tools_lib/tools/chinese_to_english_punctuation.py:57-68 | occurrences are paired first with second, third with fourth; an odd last one is unpaired |
| PairedMarkers.FindPairMarkers | esc_mini_tools_lib/tools/chinese_to_english_punctuation.py:32-70 | there are floor(count/2) pairs, each with the marker at both ends and `open_end <= close_start`, in increasing order and disjoint |
| PairedMarkers.SpacesBefore | esc_mini_tools_lib/tools/chinese_to_english_punctuation.py:98-101 | the backward loop counts exactly the maximal run of `' '` before the closing marker |
| PairedMarkers.SpacesAfter | esc_mini_tools_lib/tools/chinese_to_english_punctuation.py:107-110 | the forward loop counts exactly the maximal run of `' '` after the opening marker |
| PairedMarkers.RemoveInsideSegments | esc_mini_tools_lib/tools/chinese_to_english_punctuation.py:96-112 | one round of the loop keeps everything up to the opener and from the closer on, and trims the spaces at both ends of the inside |
| PairedMarkers.RemoveDescendingClean | esc_mini_tools_lib/tools/chinese_to_english_punctuation.py:89-114 | processing the pairs in descending order equals reading them left to right and trimming the inside of each: earlier indices stay valid |
| PairedMarkers.PostProcessClean | esc_mini_tools_lib/tools/chinese_to_english_punctuation.py:117-138 | the post-pass keeps the text outside `**` pairs and the markers, and leaves no space just inside any pair |
| PairedMarkers.PostProcessOnlySpaces | esc_mini_tools_lib/tools/chinese_to_english_punctuation.py:89-114 | only `' '` characters are removed; every other character survives, in order |
| PairedMarkers.PostProcessNoPair | esc_mini_tools_lib/tools/chinese_to_english_punctuation.py:89-90 | with fewer than two markers the line is returned unchanged |
| PairedMarkers.PostProcessEnds | esc_mini_tools_lib/tools/chinese_to_english_punctuation.py:117-138 | the post-pass keeps the first and the last character of a line |
| PairedMarkers.PostProcessExample | esc_mini_tools_lib/tools/chinese_to_english_punctuation.py:117-138 | `a ** b ** c` becomes `a **b** c` |
| Normalizer.SplitLines | esc_mini_tools_lib/tools/chinese_to_english_punctuation.py:354 | `str.splitlines`: no line holds a line boundary |
| Normalizer.SplitLinesOneLine | esc_mini_tools_lib/tools/chinese_to_english_punctuation.py:354 | `splitlines` gives no lines for the empty text and the text itself when it holds no boundary |
| Normalizer.SplitLinesBreak | esc_mini_tools_lib/tools/chinese_to_english_punctuation.py:354 | any one of Python's boundary characters (`\n`, `\r`, `\v`, `\f`, `\x1c`–`\x1e`, `\x85`, U+2028, U+2029) ends the first line, and the rest of the text gives the other lines; with SplitLinesOneLine and SplitLinesCrLf this fixes `splitlines` on every text |
| Normalizer.SplitLinesCrLf | esc_mini_tools_lib/tools/chinese_to_english_punctuation.py:354 | `\r\n` ends one line and leaves no empty line between `\r` and `\n` |
| Normalizer.SplitLinesJoin | esc_mini_tools_lib/tools/chinese_to_english_punctuation.py:354-356 | with `\n` as the only boundary, joining the lines gives the text back, less one final `\n` |
| Normalizer.Apply | esc_mini_tools_lib/tools/chinese_to_english_punctuation.py:149-288 | a handler rule removes its mark, strips, and adds only its ASCII mark and spaces |
| Normalizer.RulesAreHandlers | esc_mini_tools_lib/tools/chinese_to_english_punctuation.py:335-345 | the eleven rules, in order, are the eleven handlers `handle_everything` calls |
| Normalizer.ApplyAllAppend | esc_mini_tools_lib/tools/chinese_to_english_punctuation.py:335-345 | running one list of handlers and then another is running the two lists joined, so the chain can be cut at any handler |
| Normalizer.ConvertPunctuationFree | esc_mini_tools_lib/tools/chinese_to_english_punctuation.py:335-345 | after the handler chain, none of the eleven full-width marks is left, the line is stripped, and only ASCII marks and spaces were added |
| Normalizer.ConvertPunctuationUntouched | esc_mini_tools_lib/tools/chinese_to_english_punctuation.py:335-345 | the handler chain leaves a line alone exactly when it is stripped and has none of the marks |
| Normalizer.ConvertPunctuationIdempotent | esc_mini_tools_lib/tools/chinese_to_english_punctuation.py:335-345 | running the handler chain twice is running it once |
| Normalizer.HandleEverythingShape | esc_mini_tools_lib/tools/chinese_to_english_punctuation.py:334-350 | a handled line has none of the full-width marks and is stripped; only ASCII marks and spaces were added |
| Normalizer.MapLinesAt | esc_mini_tools_lib/tools/chinese_to_english_punctuation.py:355 | line `i` of the output list is the handled line `i` |
| Normalizer.ProcessLines | esc_mini_tools_lib/tools/chinese_to_english_punctuation.py:353-356 | splitting the output on `\n` gives the handled lines: the output has as many lines as the input |
| Normalizer.ProcessEmpty | esc_mini_tools_lib/tools/chinese_to_english_punctuation.py:353-356 | the empty text gives the empty text |
| NormalizerExamples.CommaBetween | esc_mini_tools_lib/tools/chinese_to_english_punctuation.py:334-350 | two plain phrases around ， come out around `, ` |
| NormalizerExamples.CommaExample | tests/test_tools_chinese_to_english_punctuation.py:9-10 | `你好，世界` becomes `你好, 世界` |
| NormalizerExamples.BoldHeading | esc_mini_tools_lib/tools/chinese_to_english_punctuation.py:334-350 | a bold heading `**<phrase>：**` comes out as `**<phrase>:**`: the colon handler leaves `: ` and the post-pass trims that space inside the pair |
| NormalizerExamples.BoldHeadingExample | tests/test_tools_chinese_to_english_punctuation.py:153 | `**参考资料：**` becomes `**参考资料:**` |
| NormalizerExamples.ColonBold | esc_mini_tools_lib/tools/chinese_to_english_punctuation.py:334-350 | `a：**b，c。**` comes out as `a: **b, c.**`: the colon stays outside the pair with a space after it, the comma gains a space, and the space after the full stop is trimmed before the closing `**` |
| NormalizerExamples.ColonBoldExample | tests/test_tools_chinese_to_english_punctuation.py:157-160 | `注意：**这很着急，也很重要。**` becomes `注意: **这很着急, 也很重要.**` |
| NormalizerExamples.Labels | esc_mini_tools_lib/tools/chinese_to_english_punctuation.py:334-350 | `p：q；r：s。t` comes out as `p: q; r: s. t` with each piece spaced on its own: every mark becomes its ASCII form and one space, and spacing never crosses a separator |
| NormalizerExamples.NumberUnit | esc_mini_tools_lib/tools/chinese_to_english_punctuation.py:316-326 | a run of ASCII digits followed by a unit in CJK ideographs gets exactly one space between them |
| NormalizerExamples.LabelsExample | tests/test_tools_chinese_to_english_punctuation.py:152 | `价格：100元；数量：5个。下一句` becomes `价格: 100 元; 数量: 5 个. 下一句` |
| Confluence.SegmentEnd | esc_mini_tools_lib/tools/confluence_export.py:73 | `[^/]+` takes the maximal run of non-`/` characters |
| Confluence.DigitsEnd | esc_mini_tools_lib/tools/confluence_export.py:95 | `\d+` takes the maximal run of digits |
| Confluence.StandardAtSpec | esc_mini_tools_lib/tools/confluence_export.py:95 | the scanner finds a match of `/spaces/[^/]+/pages/(\d+)` at an index exactly when the expression matches there, and returns its group |
| Confluence.EditAtSpec | esc_mini_tools_lib/tools/confluence_export.py:124 | the scanner finds a match of `/pages/edit-v2/(\d+)` at an index exactly when the expression matches there |
| Confluence.Search | esc_mini_tools_lib/tools/confluence_export.py:96 | `re.search` returns the leftmost index where the expression matches |
| Confluence.SearchGroupFound | esc_mini_tools_lib/tools/confluence_export.py:96-99 | a group is found exactly when the expression matches somewhere |
| Confluence.IdentifySpec | esc_mini_tools_lib/tools/confluence_export.py:58-83 | the four tests, in fixed priority: draft if both draft markers occur, else edit if the edit marker occurs, else standard or with-query if the path has the standard shape, else unknown |
| Confluence.StandardOrWithQuery | esc_mini_tools_lib/tools/confluence_export.py:74-78 | a standard-shaped path gives PAGE_WITH_QUERY exactly when there is a query, and STANDARD_PAGE otherwise |
| Confluence.ExtractPageIdFromStandardUrl | esc_mini_tools_lib/tools/confluence_export.py:86-99 | a found id is a non-empty run of digits |
| Confluence.ExtractPageIdFromPageWithQueryUrl | esc_mini_tools_lib/tools/confluence_export.py:102-112 | it is the standard extractor |
| Confluence.ExtractPageIdFromEditUrl | esc_mini_tools_lib/tools/confluence_export.py:115-128 | a found id is a non-empty run of digits |
| Confluence.StandardExtractSpec | esc_mini_tools_lib/tools/confluence_export.py:95-98 | the id is the group of the leftmost match in the whole URL text |
| Confluence.StandardExtractNone | esc_mini_tools_lib/tools/confluence_export.py:96-99 | no match anywhere gives None |
| Confluence.EditExtractSpec | esc_mini_tools_lib/tools/confluence_export.py:124-127 | the id is the digit run after the leftmost `/pages/edit-v2/` that has one |
| Confluence.EditExtractNone | esc_mini_tools_lib/tools/confluence_export.py:125-128 | no match anywhere gives None |
| Confluence.StandardIdKept | esc_mini_tools_lib/tools/confluence_export.py:95-98 | text appended after the first match, starting with a non-digit (a title or a query), leaves the standard id alone |
| Confluence.EditIdKept | esc_mini_tools_lib/tools/confluence_export.py:124-127 | text appended after the first match, starting with a non-digit, leaves the edit id alone |
| Confluence.PlusToSpace | esc_mini_tools_lib/tools/confluence_export.py:141 | `parse_qs` reads `+` as a space and keeps every other character |
| Confluence.QueryField | esc_mini_tools_lib/tools/confluence_export.py:141 | a kept query field has a non-empty value |
| Confluence.QueryFieldOf | esc_mini_tools_lib/tools/confluence_export.py:141 | a piece is cut at its first `=`, and is kept exactly when the value is non-empty |
| Confluence.Fields | esc_mini_tools_lib/tools/confluence_export.py:141 | every kept field has a non-empty value |
| Confluence.FieldsAppend | esc_mini_tools_lib/tools/confluence_export.py:141 | the fields of two lists of pieces are the fields of each, in order |
| Confluence.FirstValue | esc_mini_tools_lib/tools/confluence_export.py:142 | `.get(key, [None])[0]` finds a value exactly when some field has the key, and the value is one of that key's |
| Confluence.FirstValueAt | esc_mini_tools_lib/tools/confluence_export.py:142 | the value is that of the first field under the key |
| Confluence.ExtractPageIdFromDraftUrl | esc_mini_tools_lib/tools/confluence_export.py:131-143 | a found draft id is non-empty |
| Confluence.SingleField | esc_mini_tools_lib/tools/confluence_export.py:141 | a query of one `name=value` piece holds that one field, or none when the value is empty |
| Confluence.DraftIdOnly | esc_mini_tools_lib/tools/confluence_export.py:140-143 | `draftId=<id>` yields the id, with `+` read as a space |
| Confluence.DraftIdAmong | esc_mini_tools_lib/tools/confluence_export.py:140-143 | a query whose `&`-pieces include `draftId=<id>`, with no `draftId` field before it, yields that id whatever the other pieces are |
| Confluence.DraftIdSecondExample | esc_mini_tools_lib/tools/confluence_export.py:140-143 | `x=1&draftId=5` yields `5` |
| Confluence.DraftIdFirstExample | esc_mini_tools_lib/tools/confluence_export.py:140-143 | `draftId=5&x=1` yields `5` |
| Confluence.DraftIdMissing | esc_mini_tools_lib/tools/confluence_export.py:142-143 | a query without a kept `draftId` field yields None |
| Confluence.ConvertToApiUrl | esc_mini_tools_lib/tools/confluence_export.py:146-183 | a REST URL exactly when the pattern is known and its extractor finds an id; it is built on the page's scheme and host from that id, which is all digits for non-draft pages |
| Confluence.PageIdNonEmpty | esc_mini_tools_lib/tools/confluence_export.py:175-176 | every extractor yields a non-empty id, so the `not page_id` test only rejects None |
| Confluence.StandardConverts | esc_mini_tools_lib/tools/confluence_export.py:160-183 | a standard or with-query URL converts to the REST URL of the id of its leftmost standard match |
| Confluence.EditConverts | esc_mini_tools_lib/tools/confluence_export.py:160-183 | an edit URL is EDIT_PAGE and converts to the REST URL of its edit id |
| Confluence.EditWithoutIdFails | esc_mini_tools_lib/tools/confluence_export.py:68-69 | `/pages/edit-v2/` in the path makes an edit page even without digits; such a URL does not convert |
| Confluence.DraftConverts | esc_mini_tools_lib/tools/confluence_export.py:160-183 | a draft URL with query `draftId=<id>` is DRAFT_PAGE and converts to the REST URL of that id |
| Confluence.DraftConvertsAmong | esc_mini_tools_lib/tools/confluence_export.py:160-183 | a draft URL whose query holds `draftId=<id>` among other pieces is DRAFT_PAGE and converts to the REST URL of that id |
| Confluence.EmptyDraftIdFails | esc_mini_tools_lib/tools/confluence_export.py:64 | `draftId=` with an empty value passes the draft test, but `parse_qs` drops it and the URL does not convert |
| Confluence.StandardTitleAndQueryIgnored | tests/test_tools_confluence_export.py:108-118 | standard and with-query URLs that differ only after their first match (title, query) give the same REST URL |
| Confluence.UrlText | esc_mini_tools_lib/tools/confluence_export.py:95-96 | the text the extractors search is the URL as written: `scheme://host` then path and query when both scheme and host are present, the bare path and query when neither is |
| Confluence.HostlessEditExample | esc_mini_tools_lib/tools/confluence_export.py:124-127 | `pages/edit-v2/1/x/pages/edit-v2/2`, with no scheme or host, is EDIT_PAGE and converts with id `2`: the first `/pages/edit-v2/` of the text as written is the second one |
| Confluence.EditTrailIgnored | esc_mini_tools_lib/tools/confluence_export.py:124-127 | edit URLs that differ only after their first match give the same REST URL |
| Confluence.ApiUrlId | esc_mini_tools_lib/tools/confluence_export.py:178-182 | the id can be read back from the REST URL, between the fixed path and the fixed query |
| Confluence.ApiUrlInjective | esc_mini_tools_lib/tools/confluence_export.py:178-182 | two pages of one site share a REST URL only when they share the id |
| Confluence.Transform | esc_mini_tools_lib/tools/confluence_export.py:193-207 | the output carries the input, its pattern and the result of `convert_to_api_url`; `success` holds exactly when there is a REST URL, and then the pattern is not UNKNOWN |
| Confluence.TransformStandard | esc_mini_tools_lib/tools/confluence_export.py:193-207 | a standard page URL gives a successful output with pattern STANDARD_PAGE and the REST URL of its id |
| Confluence.TransformUnknown | esc_mini_tools_lib/tools/confluence_export.py:193-207 | a URL of unknown pattern gives an unsuccessful output with no REST URL |
| Confluence.SiteUrlOf | esc_mini_tools_lib/tools/confluence_export.py:268-275 | the first three `/`-pieces of `scheme://host/...` rejoin to `scheme://host` |
| Confluence.SiteUrlMatchesApiUrl | esc_mini_tools_lib/tools/confluence_export.py:268-275 | a page URL with a scheme and a host and its REST URL have the same site, the scheme and host |

## Left out

- I/O: the `input.txt`/`output.txt` paths, the Pydantic wrapper classes and the unused
  `chinese_punctuation` constant.
- `urlparse` is not modelled. A URL is given as scheme, host, path and query; the URL
  text the extractors search is rebuilt from these, with `scheme:` only when there is
  a scheme and `//host` only when there is a host.
  Fragments, `;params`, user info and the exception handler of `identify_url_pattern`
  fall outside these components.
- Confluence.UrlText: a URL written with `//` but an empty host (`https:///x`) is
  rebuilt without the `//`, so in that case the searched text differs from the text as
  written.
- `parse_qs` percent-decoding is not modelled. The `;` separator and `strict_parsing`
  are not modelled either. `+` is read as a space, pieces without `=` and pieces with
  empty values are dropped.
- Python's Unicode tables are not modelled:
  - `str.isspace` is an explicit list of code points;
  - `isalpha` is used only with `ord < 128`, so it becomes the ASCII letters;
  - `isdigit` and `\d` become the ASCII digits plus the full-width digits U+FF10–U+FF19.
    Other Unicode digits are left out.
- `remove_spaces_around_paired_markers` is modelled only on the pairs
  `find_pair_markers` returns: well-formed, ascending and disjoint. The source accepts
  any list.
- An empty marker is excluded: the source's search loop would never end on one.
- The `Record` page-data internals (`GetPageResponse`, `NodeDoc`, JSON parsing,
  markdown and XML) and `ConfluencePageExportInput.main` are not modelled. They wrap
  libraries that are not part of this model.
- `count_llm_token` and `add_up_two_number` lie outside the two components.
- Two test cases are not encoded, because the code does not give what they expect.
  Nothing puts a space next to an ASCII `"`, which is neither a letter nor a digit.
  - tests/test_tools_chinese_to_english_punctuation.py:144-145 expects
    `"Python" 是一种编程语言, 它很流行. 下一句`. The code gives
    `"Python"是一种编程语言, 它很流行. 下一句`.
  - tests/test_tools_chinese_to_english_punctuation.py:155-156 expects
    `从 "A" 到 "B" 只需1天.`. The code gives `从"A"到"B"只需 1 天.`, since the
    digit-spacing rule also puts spaces around `1`.
- PairedMarkers.RemoveSpacesAroundPairedMarkers: requires a non-empty marker without
  spaces. The source accepts any marker, but the only marker it is called with is `**`,
  and trimming spaces next to a marker made of spaces would not be well defined.
- The extractors search the whole URL text, not the path, so a host holding
  `/spaces/` could match before the path does. This is modelled, not left out. The
  conversion lemmas take the leftmost match in the whole text, as the code does.
