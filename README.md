# Messenger chat viewer: search, highlighting and windowed rendering

This project models the core of the browser-side viewer for Facebook
Messenger chat exports (`script.js`). It covers these parts and proves
properties about each:

- **Search normalization.** `normalizeForSearch` strips diacritics, lower-cases,
  collapses white space and trims.
- **Search index.** `buildSearchIndex` builds one record per message from its
  text, content, sender, reactions and media file names.
- **Scoring and search.** `fuzzyScore` combines a substring bonus, token
  overlap and a Levenshtein distance (`lev`). `performSearch` scans the index
  in batches of 500 while reporting progress, then sorts the hits by
  descending score.
- **Highlighting.** `highlightText` maps each query token back to positions of
  the original text (`buildNormalizedMap`, `findRangesForToken`), merges the
  ranges (`mergeRanges`) and wraps them in `<strong>`. All other text is
  escaped with `escapeHtml`.
- **Windowed rendering.** The message list is cut into chunks of 50
  (`chunkArray`). `renderMessages` creates one container per chunk.
  `renderChunk` mounts a chunk and the intersection observer unmounts chunks
  that leave the view. `renderedMessages` records which chunks are mounted.
  `jumpToMessage` mounts the chunk of a message and finds its element.
- **Search session.** The lazily built `__searchIndex` is dropped when a
  different file is chosen and when a chat is set up. `startSearch` builds
  the index if needed and lists the 50 best results.
- **Media type.** `getMediaType` classifies a file name by its last extension.

Modules:

- `Text`: string search, slicing, `split`/`join` with their round trips.
- `Normalize`: `normalizeForSearch` and `buildNormalizedMap`.
- `Sorting`: the stable key sort that `Array.prototype.sort` performs.
- `Fuzzy`: `lev` and `fuzzyScore`.
- `Ranges`: `findRangesForToken` and `mergeRanges`.
- `Highlight`: `escapeHtml` and `highlightText`.
- `Search`: `buildSearchIndex` and `performSearch`.
- `Window`: `chunkArray` and the `ChatWindow` class.
- `Session`: the `SearchSession` class.
- `Media`: `getMediaType`.

The host's Unicode decomposition, diacritic removal and lower-casing are a
parameter of type `CharFolding`: a decomposition per character, which
already omits diacritics, and a per-character lower-casing.

## Model

| member | source | states |
|---|---|---|
| Text.IndexOf | script.js:546 | `indexOf(t, from)` returns the first position at or after `from` where `t` occurs, or -1 when there is none |
| Text.ContainsIff | script.js:747 | `includes` holds exactly when the needle occurs at some position |
| Text.Slice | script.js:586-590 | `s.slice(a, b)` has length `min(b, s.length) - a` when `a < b` and `a < s.length` (otherwise 0), and it is the infix from `a` to `b` when `a <= b <= s.length` |
| Text.Split | script.js:750-751 | `split(sep)` returns at least one piece and no piece contains the separator |
| Text.JoinSplit | script.js:750-751 | joining the pieces of `split(sep)` with `sep` gives back the string |
| Text.SplitJoin | script.js:738 | splitting a join of separator-free pieces gives back the pieces |
| Text.SplitLast | script.js:518 | the last piece of `stem + "." + ext` split on `.` is `ext` when `ext` has no dot |
| Text.SplitPiecesNonEmpty | script.js:573 | a string that neither starts nor ends with the separator and never doubles it splits into non-empty pieces |
| Normalize.Lowered | script.js:719 | lower-casing keeps the length |
| Normalize.TrimStart | script.js:719 | the result is a suffix of the input that does not start with white space, and it is shorter when the input starts with white space |
| Normalize.TrimEnd | script.js:719 | the result is a prefix of the input that does not end with white space |
| Normalize.Collapse | script.js:719 | collapsing white space is empty only for the empty input; that words stay separated by single spaces is stated by `Normalize.CollapseShape` and `Normalize.CollapseJoinsWords` |
| Normalize.CollapseShape | script.js:719 | after collapsing, the only white space is single spaces, never two in a row, and the text starts with a space exactly when the input starts with white space |
| Normalize.NormalizeForSearch | script.js:715-720 | a normalized string has no leading or trailing space, no white space but single spaces, and no two spaces in a row |
| Normalize.TrimmedCollapseInSearchForm | script.js:719 | collapsing and then trimming both ends always gives a string in that form |
| Normalize.Word | script.js:719 | the word at the head of a text is its longest prefix without white space; it is followed by white space or the end of the text |
| Normalize.WordsShape | script.js:719 | the words of a text are non-empty and contain no white space |
| Normalize.CollapseWord | script.js:719 | collapsing passes a word through unchanged |
| Normalize.CollapseJoinsWords | script.js:719 | collapsing and trimming a text gives its words joined by single spaces |
| Normalize.NormalizedWords | script.js:715-720 | a normalized string is the words of the folded input joined by single spaces, so no two words merge and none is split |
| Normalize.NormalizedTokensAreWords | script.js:715-720 | splitting a non-empty normalized string on spaces gives back exactly the words of the folded input |
| Normalize.NormalizedTokensNonEmpty | script.js:715-720 | every token of a non-empty normalized string is non-empty and free of spaces |
| Normalize.NormalizeKeepsVisible | script.js:715-720 | normalization keeps exactly the non-space characters of the folded input, in order |
| Normalize.Origins | script.js:526-538 | every normalized position maps to a character of the original that is in range and whose decomposition contains it, and the map never decreases |
| Normalize.PositionMapShape | script.js:526-538 | `mapping` and `normalized` have the same length; each entry points into the original, entries never decrease, and each normalized character is a lower-cased character of its source's decomposition |
| Normalize.BuildNormalizedMap | script.js:526-538 | the loop builds the normalized text and the position map that `NormalizedMap` defines |
| Sorting.Insert | script.js:792 | inserting adds exactly the element, as a multiset |
| Sorting.SortBy | script.js:558 | the sort is a permutation of its input |
| Sorting.SortBySorted | script.js:558 | the sort is ordered by its key |
| Sorting.SortByStable | script.js:792 | elements with equal keys keep their input order (the sort is stable) |
| Fuzzy.DistUpper | script.js:761-766 | the edit distance of two prefixes is at most the longer prefix's length |
| Fuzzy.DistLower | script.js:761-766 | the edit distance is at least the difference of the lengths |
| Fuzzy.DistZero | script.js:761-766 | the distance is 0 exactly when the prefixes are equal |
| Fuzzy.EditDistanceZero | script.js:761-766 | `lev(a, b) == 0` exactly when `a == b` |
| Fuzzy.DistStep | script.js:764 | the table recurrence: equal last characters cost nothing, otherwise 1 plus the cheapest of deletion, insertion and substitution |
| Fuzzy.Lev | script.js:761-766 | the dynamic-programming table computes the edit distance |
| Fuzzy.Overlap | script.js:753-758 | the overlap count is at most the number of query tokens |
| Fuzzy.TokenOverlap | script.js:750-758 | the nested loop counts the query tokens related (one containing the other) to some target token |
| Fuzzy.OverlapAll | script.js:753-758 | when every query token is related to some target token, the overlap is the number of query tokens |
| Fuzzy.ShortQuery | script.js:768 | the query is cut to its first 30 characters |
| Fuzzy.DistScore | script.js:769-770 | the distance score is at most 30 |
| Fuzzy.FuzzyScore | script.js:745-773 | the computed score is `Score(query, target)` |
| Fuzzy.Score | script.js:745-773 | an empty query or target scores 0; a substring match scores 101 to 150; otherwise the score is between 0 and 10 per query token plus 30 |
| Fuzzy.FillRow | script.js:764 | filling row `i` of the table gives each of its cells the distance of the two prefixes and leaves the other rows unchanged |
| Fuzzy.ShortQueryScores | script.js:768-772 | a non-empty query shorter than 20 characters gives every non-empty target a positive score |
| Fuzzy.HighScoreWithoutSubstring | script.js:745-773 | a query of ten tokens `a` scores at least 100 against `a` although it is not a substring of it, so a score of 100 or more does not imply a substring match |
| Ranges.CoveredIff | script.js:556-568 | a position is covered exactly when one of the ranges contains it |
| Ranges.MatchesShape | script.js:544-552 | the scan finds occurrences of the token, at or after the start, that do not overlap and are in increasing order |
| Ranges.MatchesCover | script.js:544-552 | every occurrence of the token overlaps one of the found occurrences |
| Ranges.MatchesStep | script.js:545-551 | the next match is the first occurrence, and the scan resumes after its end |
| Ranges.RangesAt | script.js:548-550 | there is one range per match |
| Ranges.FindRangesForToken | script.js:540-554 | the method returns the ranges `TokenRanges` defines: for each match, the original index of its first character up to one past that of its last |
| Ranges.ScanRanges | script.js:543-552 | the `while (true)` loop yields one range per successive match |
| Ranges.TokenRangesShape | script.js:540-554 | every token range is non-empty, lies in the original text, and starts no earlier than the previous one; when no character decomposes into several, the ranges are disjoint |
| Ranges.OriginsStrict | script.js:526-538 | when no character decomposes into several, the position map strictly increases |
| Ranges.MergeInto | script.js:562-566 | merging one range into the output never leaves it empty |
| Ranges.MergeSorted | script.js:556-568 | the merge of the sorted ranges is empty exactly when there are no ranges |
| Ranges.MergeRanges | script.js:556-568 | the method sorts by start and merges, as `MergeSorted(SortBy(ranges, Start))` |
| Ranges.MergeIntoSeparated | script.js:562-566 | merging a range that starts no earlier than the last output range keeps the output separated |
| Ranges.MergeIntoCovers | script.js:562-566 | merging a range covers exactly the old coverage plus that range |
| Ranges.MergeSeparated | script.js:556-568 | merging non-empty ranges sorted by start gives ranges separated by gaps, in increasing order |
| Ranges.MergeBounded | script.js:556-568 | merging keeps every end within a bound that all inputs respect |
| Ranges.MergeCoversAt | script.js:556-568 | merging covers exactly the positions the sorted input covers |
| Ranges.MergeRangesShape | script.js:556-568 | `mergeRanges` returns separated ranges within the text that cover exactly the positions its input covers |
| Highlight.EscapeChar | script.js:879 | a character is kept as itself exactly when it is not one of `& < > " '`; each of those becomes an entity that starts with `&` and ends with `;`; no output contains `<` or `>` |
| Highlight.EscapeHtml | script.js:879 | escaped text contains no `<` and is at least as long as the input |
| Highlight.EscapeAppend | script.js:879 | escaping distributes over concatenation |
| Highlight.UnescapeEntity | script.js:879 | decoding one escaped character followed by anything gives back that character |
| Highlight.UnescapeEscape | script.js:879 | decoding escaped text gives back the text (escaping loses nothing) |
| Highlight.NonEmpty | script.js:573 | `filter(Boolean)` keeps only non-empty tokens, each taken from the input |
| Highlight.TokensOfQuery | script.js:571-574 | the tokens are the pieces of the normalized query, none of them empty or containing a space; there are none exactly when the normalized query is empty |
| Highlight.HighlightText | script.js:570-593 | the method returns `Highlighted(f, original, query)` |
| Highlight.CollectRanges | script.js:576-580 | the token loop concatenates the ranges of every token |
| Highlight.MarkRanges | script.js:583-592 | the output loop writes escaped gaps and `<strong>`-wrapped escaped ranges, then the escaped tail |
| Highlight.AllRangesInside | script.js:576-580 | every collected range is non-empty and lies within the original |
| Highlight.MarkedShape | script.js:583-592 | removing the tags from the marked output gives the escaped text from the start position, and there is one `<strong>` per range |
| Highlight.HighlightUnmark | script.js:570-593 | removing the `<strong>` tags from the highlighted text gives exactly the escaped original |
| Highlight.HighlightCount | script.js:570-593 | the output has one `<strong>` element per merged range |
| Highlight.HighlightCovers | script.js:570-593 | the merged ranges cover exactly the positions some token range covers |
| Highlight.HighlightNoMatch | script.js:570-593 | when no token occurs in the folded text, there is no range and the output is just the escaped original |
| Search.ReactionLabels | script.js:733 | one label per reaction, the reaction and its actor joined by a space |
| Search.Uris | script.js:734-736 | at most one part per media item |
| Search.UrisIff | script.js:734-736 | a part is a media URI exactly when it is non-empty and some media item has it |
| Search.Sender | script.js:739 | the sender is never empty, and it is `senderName` whenever that is set |
| Search.Timestamp | script.js:739 | the timestamp is 0 exactly when neither `timestamp` nor `timestamp_ms` is set |
| Search.Index | script.js:723-742 | the index has one record per message |
| Search.IndexAt | script.js:723-742 | record `k` is the record of message `k` |
| Search.BuildParts | script.js:727-736 | the part-collection steps build the parts `Parts` defines |
| Search.PushUris | script.js:734-736 | the media loop appends the non-empty URIs in order |
| Search.BuildSearchIndex | script.js:723-742 | the loop builds the index `Index` defines |
| Search.PartsFindable | script.js:726-738 | the record text contains the message text, its content, its sender name and each media URI |
| Search.RecordShape | script.js:737-739 | record `i` has `idx == i`, text the space-joined parts, a normalized text in search form and a non-empty sender |
| Search.Keep | script.js:782-786 | the kept hits are at most as many as the scanned records; which hits are kept, and in what order, is stated by `Search.KeptIff` and `Search.KeepOrdered` |
| Search.KeptIff | script.js:782-786 | a hit is kept exactly when it is some record with its score and that score is positive |
| Search.Percent | script.js:788 | reported progress is between 0 and 100 |
| Search.BatchCount | script.js:781 | a batch starts at `b * 500` exactly when `b` is below the batch count |
| Search.ProgressStep | script.js:781-788 | each batch reports the next progress value |
| Search.PercentMono | script.js:788 | progress grows with the number of scanned records |
| Search.PercentFull | script.js:788 | the last batch reports 100 |
| Search.ProgressShape | script.js:781-788 | one report per batch, each between 0 and 100, never decreasing, the last one 100 |
| Search.ProgressMono | script.js:788 | progress values never decrease |
| Search.PerformSearch | script.js:776-794 | the method returns `Search(f, query, index)` and reports `Progress(index.length)`, or nothing for a query that normalizes to empty |
| Search.ScanAll | script.js:781-790 | the batched scan keeps exactly the positively scored records, in index order, and reports one progress value per batch |
| Search.ScanBatch | script.js:782-786 | a batch extends the kept hits by those of its records |
| Search.ScanRecord | script.js:783-785 | a record is pushed with its score exactly when the score is positive |
| Search.KeepOrdered | script.js:782-786 | kept hits are in index order |
| Search.Search | script.js:776-794 | a query that normalizes to the empty string gives no results, and there are never more results than records |
| Search.SearchRanked | script.js:792 | the results are a permutation of the kept hits, sorted by descending score with ties in index order |
| Search.SearchMembers | script.js:776-794 | a hit is a result exactly when the query normalizes to non-empty and the hit is a record with its positive score |
| Search.SubstringFound | script.js:776-794 | a record whose normalized text contains the normalized query is a result with score `100 + min(50, q.length)` |
| Search.IndexSearchRanked | script.js:792 | searching a built index gives results by descending score, with ties in message order |
| Window.ChunkArray | script.js:691-697 | the loop cuts the list into the chunks `Chunks` defines |
| Window.ChunksStep | script.js:693-695 | each step takes the next slice of at most `size` elements |
| Window.ChunksFlatten | script.js:691-697 | concatenating the chunks gives back the list |
| Window.ChunksShape | script.js:691-697 | every chunk is non-empty with at most `size` elements, and all but the last have exactly `size` |
| Window.ChunkAt | script.js:691-697 | chunk `c` exists exactly when `c * size < a.length`, and then it is the slice from `c * size` of at most `size` elements |
| Window.ChunkCount | script.js:691-697 | there are `ceil(a.length / size)` chunks |
| Window.MessageInChunk | script.js:885-892 | message `i` is element `i % 50` of chunk `i / 50` |
| Window.FindView | script.js:910 | returns the first element tagged `i` at or after `from`, or -1 when there is none |
| Window.FindTagged | script.js:910 | returns an element tagged `i`, or nothing when no container holds one |
| Window.Views | script.js:1014-1019 | the elements of a chunk are one per message, element `k` of chunk `c` is tagged `50 * c + k`, and it is `from-me` exactly when the message's sender is the selected participant |
| Window.ChatWindow.constructor | script.js:7-8 | the window starts with no messages, no containers and no mounted chunk |
| Window.ChatWindow.RenderMessages | script.js:400-428 | the mounted-chunk map is cleared, and there is one empty container per chunk of the list |
| Window.ChatWindow.RenderChunk | script.js:1008-1030 | an existing, unmounted chunk is filled with one element per message, tagged with its global index, and marked mounted; otherwise nothing changes |
| Window.ChatWindow.Unmount | script.js:437-442 | a mounted chunk is emptied, keeps its height and is no longer mounted; otherwise nothing changes |
| Window.ChatWindow.OnIntersection | script.js:431-445 | a visible chunk is mounted, its container filled with the elements of its messages and its height kept; a chunk out of view is marked unmounted and emptied, keeping its rendered height as `minHeight` if it was mounted; no other chunk, container or field changes |
| Window.ChatWindow.JumpToMessage | script.js:882-926 | the message's chunk is mounted, its container holds the elements of its messages, and no other container changes; an existing message is found at element `i % 50` of chunk `i / 50` and carries its own index; the index one past the end falls back to the last element of its chunk when that chunk exists; otherwise there is no target |
| Window.ChatWindow.Locate | script.js:909-925 | the element lookup and its fallback, under the condition that the message's chunk is mounted |
| Window.ChatWindow.TagShape | script.js:1014-1016 | every element is in a mounted chunk and is tagged `50 * c + k`, the index of an existing message |
| Window.ChatWindow.ChunkHolds | script.js:914-917 | message `i` exists exactly when its local index falls inside its chunk |
| Window.ChatWindow.Findable | script.js:910 | once its chunk is mounted, message `i` is found as element `i % 50` of chunk `i / 50` |
| Window.ChatWindow.NotFindable | script.js:910-925 | no element is tagged with an index past the last message |
| Media.Classify | script.js:519-522 | image, video and audio each match exactly their extension lists; `ogg` counts as video, since the video test comes first |
| Media.GetMediaType | script.js:516-523 | a name without a dot is unknown; otherwise a name is an image, a video or an audio file exactly when its lower-cased last extension is in that list, and an extension listed as video is never audio |
| Media.LastExtensionDecides | script.js:518-522 | the type of `stem.ext` is decided by the lower-cased last extension alone |
| Media.OggIsVideo | script.js:520-521 | `.ogg` files are classified as video, never audio |
| Session.Shown | script.js:859 | the list holds the first `min(50, n)` results, unchanged |
| Session.ShownAreBest | script.js:859 | no result left off the list scores above a listed one |
| Session.SearchSession.constructor | script.js:3-5 | the session starts with no chat, no index, no file, an empty query and nothing listed |
| Session.SearchSession.SelectFile | script.js:51-72 | no file changes nothing; a file that differs from a previous one in name, size or time drops the index and clears the query and the list; the file becomes current |
| Session.SearchSession.SetupChat | script.js:243-245 | the chat is loaded and the index is dropped |
| Session.SearchSession.EnterQuery | script.js:822 | the search box holds the query and nothing else changes |
| Session.SearchSession.StartSearch | script.js:821-877 | without a chat nothing happens; otherwise an existing index is reused (an index always belongs to the loaded chat), a missing one is built, and the list shows the best 50 results of the search |

## Left out

- DOM, layout and timers are not modelled. Containers are values, heights are naturals, and the `await`/`setTimeout` pauses are not modelled (no code runs in between in this model).
- The intersection observer is not modelled. Its visibility answer is the parameter `isIntersecting` of `OnIntersection`.
- The radio button's value is the `selected` field of `ChatWindow`.
- Unicode is a parameter. NFD decomposition, the `\p{Diacritic}` removal and `toLowerCase` are the `CharFolding` functions. Lower-casing is per character and keeps the length, which `toLowerCase` does not do for every character.
- `Math.round` in the progress value is computed as `floor(x + 1/2)` on rationals. There is no floating point.
- `Fuzzy.ShortQuery`, `Fuzzy.Score`, `Fuzzy.FuzzyScore`, `Search.SubstringFound`, `Text.Slice` and `Text.IndexOf`: lengths and positions count Unicode scalar values (Dafny `char`), while JavaScript strings count UTF-16 code units. The two agree on text without characters outside the Basic Multilingual Plane; an emoji, for one, counts once here and twice in the browser, which can change the 30-character cut, the `min(50, length)` bonus and the `slice` window.
- `Normalize.BuildNormalizedMap` and `Normalize.Origins` fold the original one character (scalar value) at a time, and so do `Ranges.FindRangesForToken` and `Highlight.HighlightText`, which use them. The browser walks the original one UTF-16 code unit at a time (script.js:528-535), so a character outside the Basic Multilingual Plane reaches `normalize('NFD')` as two lone surrogates and is neither decomposed nor stripped of diacritics. `normalizeForSearch` works on the whole query and does fold such characters. In the browser, a query containing one (U+1D15E, an astral combining mark, or a compatibility ideograph at U+2F800 to U+2FA1D) can therefore fail to match the map and go unhighlighted where the model marks a range. Folding one character at a time also skips the canonical reordering of combining marks that whole-string NFD performs, so the model and the browser can differ on text with several combining marks in non-canonical order.
- `Ranges.TokenRangesShape`: range starts are only proved non-decreasing. A character that decomposes into several characters can start two matches, so they are disjoint only when no character does.
- `Fuzzy.HighScoreWithoutSubstring`: a score of 100 or more does not mean a substring match, so no lemma states that.
- `Window.ChatWindow.RenderChunk` requires that the caller pass chunk `c` of the list when the chunk is unmounted. Both callers do (script.js:434 and 891-893).
- `Window.ChatWindow.JumpToMessage` does not model the loop that counts elements (script.js:901-907), because its result is never used. The scroll and flash (`scrollAndHighlight`) are not modelled either; the method returns the target element.
- `Search.ScanAll`, `Search.ScanBatch` and `Search.ScanRecord` take the scoring function as a ghost parameter. It only names the score that `FuzzyScore` computes.
- `Session.SearchSession.StartSearch` does not model the progress bar, the "No results" message, the result snippets (script.js:859-873) or `updateHighlightsAcrossDOM`. It records the listed hits.
- `Session.SearchSession.SelectFile` stops where the file is read. Reading and parsing files (`processFileContent`, `parseHTMLContent`) are not part of this model; a parsed chat enters through `SetupChat`.
- Statistics, participants, display toggles, media upload, linkify, message HTML, tooltips, dark mode and storage are not part of this model.
- `analyze_html.py` is not part of this model.
