# MangaTranslator background pipeline in Dafny

This project models the background pipeline of the MangaTranslator browser extension. The pipeline
turns the OCR result for a comic page into translated text blocks:

1. **Recognition** (`callOCRSpace`). An API-key guard runs first. The OCR provider's reply is then
   mapped to a typed error or to the recognised lines.
2. **Rectangle extraction**. Each recognised line becomes a rectangle. With word boxes it is the
   smallest rectangle holding all of them. Without word boxes the source's fallback is used as
   written: `MinTop` serves as both left and top, the width is 100 and the height is `MaxHeight`.
   That fallback looks like a defect (the horizontal origin is taken from a vertical metric). It
   is reproduced because the intended left edge cannot be recovered from a line-level record.
3. **Neighbour test** (`areVisualNeighbors`). Two rectangles are neighbours when they are
   vertically close and column-aligned, or horizontally close and row-aligned. The factors 1.5,
   2.0 and 0.8 are cleared of fractions: `2*yGap < 3*refH`, `xGap < 2*refW`,
   `5*xOverlap > -4*refW` and `5*yOverlap > -4*refH`. For integer coordinates of realistic size
   these agree with the source's double-precision comparisons.
4. **Clustering** (`performSuperSmartClustering`). A breadth-first search groups the rectangles
   into connected components of the neighbour relation. A rectangle is marked visited when it is
   enqueued. The model keeps the flags in a local `array<bool>` and the queue in a sequence.
   Clusters come out in the order of their first line, which is also their smallest index.
   That order decides which blocks the fallback reaches before a 429.
5. **Finalisation** (`finalizeCluster`). A one-line cluster passes through unchanged. A larger
   cluster is sorted into reading order, its texts are joined with a space, and its box is the
   union box. The comparator is not transitive (a 15-unit same-row tolerance), so the order
   `Array.prototype.sort` yields depends on the engine. The model fixes an in-place insertion
   sort and proves only what any such sort guarantees: a permutation whose adjacent pairs are
   ordered. The union box is proved independent of the order.
6. **Translation**.
   - `translateBatchGoogle` joins the block texts with `"\n\n"`, sends one request, splits the
     reply and zips the pieces back onto the blocks.
   - A 429 fails the batch with `RateLimited`. Any other failure hands over to
     `translateSequentialFallback`.
   - The fallback translates block by block. It substitutes the original text on ordinary
     errors. It stops at the first 429, which it records with the marker "⛔ Limit".
   - `googleTranslatePost` trims the text and sends nothing for a blank text. It maps the target
     language "eng" to `en` and everything else to `id`. It concatenates the returned segments,
     or returns the untrimmed input when the reply has no first element.
   - The batch text is trimmed before it is sent. When the first block's text is blank, the
     trim swallows the first separator and the pieces shift by one: the first block receives
     the second block's text. Every block gets its own piece when trimming leaves the joined
     text unchanged and every block text is separator-free.
   - A text is *separator-free* when it neither contains `"\n\n"` nor ends with `"\n"`. A
     text ending with `"\n"` would form a separator with the one that follows it, so the split
     would no longer cut at the block boundaries.

The translation and OCR providers are parameters: deterministic functions from request to
reply. The methods return the sequence of translation requests they send, so the contracts can
say which calls happen: none for an empty batch, exactly one on a batch 429, one per non-blank
block in the fallback.

Two behaviours of the code are worth noting:
- An OCR reply with status 429 is an ordinary transport error. Only the translation path
  distinguishes 429.
- A blank block text is not sent to the provider, so the fallback makes one request per
  non-blank block.

## Model

| member | source | states |
|---|---|---|
| Geometry.LeftEdge | background.js:188 | the left edge is at most every word's `Left` and equals one of them |
| Geometry.TopEdge | background.js:189 | the top edge is at most every word's `Top` and equals one of them |
| Geometry.RightEdge | background.js:190 | the right edge is at least every word's `Left + Width` and equals one of them |
| Geometry.BottomEdge | background.js:191 | the bottom edge is at least every word's `Top + Height` and equals one of them |
| Geometry.ExtractRect | background.js:184-212 | with words, the rectangle contains every word box and each edge touches one; without words it is `(MinTop, MinTop, 100, MaxHeight)`; id and text come from the line |
| Geometry.ExtractRectNonNegative | background.js:188-193 | word boxes of non-negative size give a rectangle with `w >= 0` and `h >= 0` |
| Geometry.ExtractRects | background.js:183-212 | one rectangle per line, in order: rectangle `i` is the rectangle of line `i` with `id` `i`, so it carries the line's text and ExtractRect's geometry |
| Geometry.AreVisualNeighbors | background.js:240-258 | neighbours have positive widths or positive heights; NeighborsSymmetric, OverlappingAreNeighbors, StackedAreNeighbors and FarApartAreNotNeighbors state the rest of its meaning |
| Geometry.OverlappingAreNeighbors | background.js:240-258 | two overlapping rectangles of positive size are neighbours |
| Geometry.NeighborsSymmetric | background.js:240-258 | the neighbour relation is symmetric |
| Geometry.StackedAreNeighbors | background.js:240-258 | a rectangle stacked under another, inside its column and touching it, is a neighbour |
| Geometry.FarApartAreNotNeighbors | background.js:240-258 | in any direction, a horizontal gap of at least twice the smaller width together with a vertical gap of at least 1.5 times the smaller height rules out a neighbour |
| Geometry.ThreeLineScenario | background.js:240-258 | two stacked lines are neighbours; a line 150 units to their right is a neighbour of neither |
| Seqs.Min | background.js:188-189 | `Math.min(...xs)` is a lower bound that is attained |
| Seqs.Max | background.js:190-191 | `Math.max(...xs)` is an upper bound that is attained |
| Seqs.DistinctIndicesBound | background.js:215-237 | distinct indices below `n` number at most `n`, which bounds the breadth-first search |
| Clustering.EnqueueNeighbors | background.js:225-232 | exactly the unvisited neighbours of the popped rectangle are marked and appended, in increasing index order; the queue prefix and all other flags are unchanged |
| Clustering.ExpandCluster | background.js:217-233 | from an unvisited seed: the popped members start at the seed, are chained by the neighbour relation, become visited exactly, and every neighbour of a member ends up visited |
| Clustering.CloseComponent | background.js:215-237 | a finished cluster has no neighbour outside itself, so each cluster is a whole connected component |
| Clustering.ClusterAboveSeed | background.js:217-221 | a cluster opened at line `i`, after every earlier line was visited, holds no index below `i` |
| Clustering.PartitionUnique | background.js:215-237 | in a partition every index lies in exactly one cluster |
| Clustering.PerformSuperSmartClustering | background.js:180-237 | the clusters partition the line indices; there are at most as many clusters as lines and at least one for any line; no lines give no clusters and no blocks; each cluster is a closed component finalised into the block at its position; each cluster starts at its smallest index and the clusters come in increasing order of that index |
| Finalizer.ReadingCompare | background.js:274-277 | a rectangle at least 15 units higher goes first; within 15 units the one further left goes first; the comparison is a tie exactly for the same row and the same left edge |
| Finalizer.ReadingCompareAntisymmetric | background.js:274-277 | the reading-order comparator is antisymmetric |
| Finalizer.ReadingCompareCycle | background.js:274-277 | the comparator is not transitive: three rectangles form a cycle |
| Finalizer.InsertAt | background.js:274-277 | one insertion pass extends the ordered prefix by one element; it permutes the prefix up to `i` among itself and leaves the rest of the array unchanged |
| Finalizer.SortReadingOrder | background.js:274-277 | the sorted array is a permutation of the input with every adjacent pair in reading order |
| Finalizer.UnionBox | background.js:279-287 | the union box contains every member and each of its edges touches a member |
| Finalizer.UnionBoxOfPermutation | background.js:274-287 | the union box does not depend on the order of the members |
| Finalizer.UnionBoxSingleton | background.js:262-271 | for one member the union box is the member's own box |
| Finalizer.FinalizeCluster | background.js:261-289 | one member passes through with its exact text and box; otherwise the text is the members' texts joined by a space in a reading order of the members, and the box is the union box |
| Strings.Join | background.js:115 | no parts give ""; otherwise the result starts with the first part and is as long as the parts plus a separator between each two neighbours; JoinSplit and SplitJoin tie it to Split |
| Strings.Split | background.js:119 | splitting yields at least one piece |
| Strings.JoinSplit | background.js:115-119 | joining the pieces of a split on the same separator restores the string |
| Strings.SplitJoin | background.js:115-119 | splitting a join of separator-free parts restores the parts |
| Strings.Trim | background.js:123 | the trimmed string neither starts nor ends with whitespace |
| Strings.TrimStart | background.js:136 | leading whitespace is removed and only that |
| Strings.TrimEnd | background.js:136 | trailing whitespace is removed and only that |
| Strings.TrimIdempotent | background.js:136 | trimming twice is trimming once |
| Strings.Contains | background.js:73 | `includes` holds exactly when the substring occurs at some position |
| Translation.TargetCode | background.js:139-142 | the code is `en` exactly for the target "eng" and `id` otherwise |
| Translation.PostRequest | background.js:136-146 | no request for a blank text; otherwise the request carries the trimmed text and the target code |
| Translation.PostCalls | background.js:136-152 | one call sends at most one request, and none exactly when the text is blank |
| Translation.TranslatePostCases | background.js:135-160 | a blank text gives ""; the 429 outcome is exactly a 429 reply to the request sent; a translation of a non-blank text comes from a 2xx reply with a parsed body, and such a reply gives exactly the segments joined, or the untrimmed text when the first element is missing |
| Translation.TranslatePost | background.js:135-160 | a blank text gives ""; the 429 outcome only arises when a request is sent; TranslatePostCases, BlankTextNeedsNoProvider, TranslatePostDependsOnlyOnReply and EchoTrims state the rest |
| Translation.BlankTextNeedsNoProvider | background.js:136-137 | for a blank text the result is "" whatever the provider answers, and no request is sent |
| Translation.TranslatePostDependsOnlyOnReply | background.js:135-160 | the outcome depends on the provider only through its reply to the one request |
| Translation.ZipTranslations | background.js:121-127 | one result per block, in block order; each gets its trimmed piece, or keeps its own text when the piece is missing or empty |
| Translation.BatchText | background.js:114-115 | splitting the joined block texts on the separator gives back the texts, when there is a block and every text is separator-free (no `\n\n` inside, no `\n` at the end) |
| Translation.BatchRoundTrip | background.js:115-127 | splitting the joined texts of separator-free blocks and zipping the pieces gives every block its own trimmed text |
| Translation.EchoTrims | background.js:135-158 | a provider that returns the request's text yields the trimmed input |
| Translation.EchoBatchRoundTrip | background.js:112-136 | with such a provider and separator-free blocks whose joined text trimming leaves unchanged, the batch comes back unchanged and every block gets its own trimmed text |
| Translation.BlankFirstBlockShifts | background.js:119-136 | with a blank first block the trim of the joined texts swallows the first separator: the first block receives the second block's text and the second keeps its own |
| Translation.Settle | background.js:166-174 | a fallback result keeps its block and carries the translation, the limit marker after a 429, or the original text after any other error |
| Translation.SequentialRun | background.js:162-178 | the fallback yields no more results than blocks, and none only when there are no blocks |
| Translation.SequentialRunShape | background.js:162-178 | result `k` settles block `k` with its own attempt; no attempt before the last result met a 429; a run that stops early stops at a 429 |
| Translation.SequentialRunStopsAtFirstLimit | background.js:169-173 | a first 429 at block `k` gives exactly `k + 1` results, the last carrying the limit marker |
| Translation.SequentialRunCompletes | background.js:163-177 | without any 429 every block gets a result |
| Translation.SequentialRunPrefix | background.js:163-177 | while no 429 intervenes, each further block appends exactly its own settled result |
| Translation.SequentialRunTruncate | background.js:170-173 | nothing after the first 429 contributes to the results |
| Translation.CallsFor | background.js:164-166 | the fallback sends at most one request per attempted block |
| Translation.TranslateSequentialFallback | background.js:162-178 | the results are the run over the blocks' own outcomes, and the requests are exactly those of the attempted blocks, in order |
| Translation.TranslateBatch | background.js:112-133 | no blocks: `[]` and no request; a translation is split and zipped onto the blocks after at most one request (none when every text is blank); a 429 gives `RateLimited` after exactly one request and no fallback; any other failure gives the fallback's results after the batch request and the fallback's own |
| Pipeline.ApiKeyUsable | background.js:73-75 | a key is usable exactly when it is set, non-empty and has no occurrence of "Null" |
| Pipeline.RecognizeLines | background.js:72-107 | an unusable key is a configuration error; with a usable key, 403 is exactly access denied, a failed request, another non-2xx status or an unparsable body is exactly a transport error, `IsErroredOnProcessing` is exactly a processing error, and every other reply gives its lines, missing overlay lines read as none; recognition never reports a rate limit or missing text |
| Pipeline.ProcessMangaImage | background.js:61-70 | a recognition error ends the request with that error and no translation request; `NoTextDetected` arises exactly when no line was recognised, with no request; otherwise the recognised lines are clustered into the blocks as PerformSuperSmartClustering promises and the outcome and requests are those of TranslateBatch on those blocks, so `RateLimited` comes only from a 429 to the batch request; a success holds between one and as many entries as there were lines |

## Left out

- `content.js` and `popup.js` are not part of this model. They are the page overlay, the
  selection UI and the settings popup: DOM and browser storage only.
- The message listener (background.js:1-36) is not modelled. It is browser plumbing that routes
  requests and wraps errors into responses, including the default target "idn".
- `fetchImageAsBase64` and `convertBlobToBase64` are left out: they are network and `FileReader`
  I/O.
- The HTTP exchange of `callOCRSpace` is a parameter (`ocr`). So is the translation request of
  `googleTranslatePost` (`provider`). Their replies are given as decoded values, so identical
  requests get identical replies. Timing, retries and varying replies are not modelled.
- The random pacing delay between fallback requests (background.js:168) is left out. It is
  timing and randomness with no effect on the results.
- Errors are modelled as explicit kinds instead of by matching "429" in the message text. A
  failure whose message happens to quote "429", such as a JSON parse error echoing a body, is not
  modelled as a rate limit.
- Coordinates are integers. `centerX` and `centerY` are computed by the source but never read,
  so they are dropped. Segment values that are not strings, which `join` would render as "", are
  not modelled: a segment is its text.
- Finalizer.SortReadingOrder: states the guarantee of any adjacent-pair-ordered permutation, not
  the order a particular JavaScript engine's `sort` would produce with the non-transitive
  comparator.
- Clustering.PerformSuperSmartClustering: the `visited` flags live in a local array instead of
  on shared rectangle objects. Rectangles are values, so aliasing between the flags and the
  rectangles handed to `finalizeCluster` is not modelled.
