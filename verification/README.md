# A verified model of Boost.Taar's algorithms and state machines

Boost.Taar is an HTTP library: incremental multipart parsing, keyed context stores with per-entry
locks, nested generators and streamed responses, request matchers, static files, OpenAPI and MCP
documents, JSON-RPC. This project models the parts of it that are self-contained algorithms and state
machines, and proves what they promise for every input, every run or every reachable state.

`dafny verify dfyconfig.toml` checks all of it. Code that works in place is modelled by methods and
classes with the same loops, fields and branches, proved against value-level specifications; the main
theorems are lemmas about those specifications, or stand in the methods' own contracts.

- **Multipart** (`Text`, `MultipartHeader`, `Multipart`, `MultipartReader`, `MultipartStreaming`,
  `MultipartPrinter`): the resumable delimiter scanner against a reference meaning of a whole body.
  Chunking does not matter exactly when the header blocks fit; streaming agrees with buffering for any
  interleaving; parsing undoes printing, however the sender writes the headers, and every break in a
  body is reported as its own error.
- **Concurrency** (`HandOffLock`, `Serialisation`, `ContextStore`, `AsyncChannel`,
  `JsonRpcRegistry`): step systems whose invariants hold over all interleavings of atomic steps, and
  the classes whose critical sections those steps are.
- **Generators** (`Generators`): bodies as trees of yields; driving them flattens them depth first.
- **Matching** (`Glob`, `GlobReading`, `GlobSegments`, `UriTemplate`, `UriMeaning`, `UriForms`,
  `TemplateParser`, `TargetMatcher`, `TargetMeaning`, `Operand`, `RouteShape`): each engine against a
  declarative meaning of its patterns, and the documented forms spelled out on texts.
- **Static files** (`ByteRange`, `SegmentedBody`, `RangedResponse`, `RangedReading`, `RecencyMap`,
  `ContentCache`): from a Range header to the bytes on the wire and back, and the two caches.
- **Documents and encodings** (`SchemaHoisting`, `JsonRpc`, `Base64`).

A byte is modelled as a `char` except in `Base64`, where it is a number below 256. Memory is
sequentially consistent: one atomic read or write is one step.

## Where the code and its documentation disagree

The model follows the code.

- Locked entries are said never to be swept (`include/boost/taar/core/context_store.hpp:161`). They can
  be: a task that has been granted the lock counts itself only when it is resumed, and an expiry check
  reads the count and the activity time separately. `LockedEntryCanBeSwept` and `GuardedEntryCanBeSwept`
  are runs; `LockedEntryIsSweptExactly`, `LockedEntryRemovedExactlyInWindow` and `GuardedWhenReadIsKept`
  say exactly when it happens, with and without interruptions.
- A header block longer than the limit less three bytes is accepted or refused depending on how the
  body arrives (`include/boost/taar/core/multipart.hpp:207-209`); `ChunkInvariance` has the exact
  condition.
- `{*name}` is documented to match zero or more segments (`include/boost/taar/matcher/target.hpp:43`).
  Before another segment it takes at least one whenever any remain, and never gives one back
  (`GreedyCanMiss`). A template misses nothing exactly when its greedy segments come last
  (`MissesNothingExactly`). The bare `{*}` form is refused by the template parser.
- `**/` is commented as whole segments (`include/boost/taar/handler/htdocs.hpp:108`). It covers the empty
  run and any run that ends in a slash, so `a**/b` matches `ax/b` (`DirectoriesCutSegments`).
  `WholeSegmentsExactly` says which patterns match by whole segments all the same.
- Saturating 64-bit parsing accepts `last < first` when both are at or beyond the 64-bit maximum
  (`InversionsCanHide`; `ParseIsExact` has the exact condition).
- A failed alternative of `||` leaves its path arguments behind, and they win over those of the
  alternative that matches (`StaleCapture`; `MatchEither` says exactly when, and what avoids it).
- `header(k) == ""` is summarised as a required header but also matches a request without it
  (`RequiredHeaderCanBeMissing`, `RequiredHeaderIsPresentExactly`). A conjunction of method constraints is
  expressible although its summary can list methods it never serves (`TwoMethodConjuncts`);
  `SummaryIsExactExactly` says when the summary is the whole story.
- `{.n*}` is documented to span several labels (`include/boost/taar/mcp/arg.hpp:209`). A dot ends its value all
  the same, so it takes exactly what `{.n}` takes (`ExplodedLabelIsLabel`, `LabelsDoNotSpan`).
- The base64 decoder accepts text whose spare bits are not zero (`DecoderAcceptsSpareBits`).
- Hoisted schemas keep their meaning only while equal component names mean equal schemas, and distinct
  names can be mapped to one (`NamesCanCollide`).

## Model

| member | source | states |
|---|---|---|
| `MultipartHeader.QuotedLoop` | include/boost/taar/core/multipart.hpp:295-304 | a quoted parameter value is read up to its closing quote, with backslash escapes |
| `MultipartHeader.ParseDispositionLoop` | include/boost/taar/core/multipart.hpp:283-317 | the parameter loop of a Content-Disposition value sets exactly the name and file name its specification reads, for malformed values too |
| `MultipartHeader.ParseHeadersLoop` | include/boost/taar/core/multipart.hpp:319-337 | a header block gives the headers, name and file name of its lines, or the failure of the first bad line, or of a missing name |
| `Multipart.NextMeaning` | include/boost/taar/core/multipart.hpp:165-251 | whatever `next()` reports, the bytes it consumed and the bytes still to come have the same meaning as before, for every possible future input |
| `Multipart.NextProgress` | include/boost/taar/core/multipart.hpp:165-251 | every event consumes input or moves to a later phase, and after `finish` the scanner never asks for more |
| `Multipart.RetainedIsBounded` | include/boost/taar/core/multipart.hpp:165-251 | after `need_more` no more is retained than the opening delimiter, an unfinished delimiter or a header block within the limit, phase by phase |
| `Multipart.DrainIsMeaning` | include/boost/taar/core/multipart.hpp:154-251 | draining any chunks from any scanner state gives the reference meaning of the remaining body when its header blocks fit |
| `Multipart.ParseWholeIsMeaning` | include/boost/taar/core/multipart.hpp:355-384 | a body fed at once has its reference meaning, whether or not its header blocks fit: the size check runs only while the terminator is missing |
| `Multipart.OneByteDrain` | include/boost/taar/core/multipart.hpp:204-218 | fed byte by byte, a body that parses whole but has a header block that does not fit ends in the size failure |
| `Multipart.ChunkInvariance` | include/boost/taar/core/multipart.hpp:154-251 | for every body that parses: every way of splitting it into feeds yields the same headers and data if and only if every header block is at least three bytes shorter than the limit |
| `Multipart.ChunkInvarianceOfFailures` | include/boost/taar/core/multipart.hpp:154-251 | when the header blocks fit, malformed bodies fail with the same error under every splitting |
| `MultipartReader.MultipartScanner.Compact` | include/boost/taar/core/multipart.hpp:261-268 | dropping consumed bytes, now or later, does not change what is left to scan |
| `MultipartReader.MultipartScanner.Feed` | include/boost/taar/core/multipart.hpp:154-158 | appends to the unconsumed bytes, nothing else |
| `MultipartReader.MultipartScanner.Next` | include/boost/taar/core/multipart.hpp:165-251 | the in-place scanner reports the event, or throws the error, of the value-level `next()` and moves to its state |
| `MultipartReader.ParseMultipart` | include/boost/taar/core/multipart.hpp:355-384 | the collected form is the reference meaning of the whole body, failures included |
| `MultipartReader.EventPhase` | include/boost/taar/core/multipart.hpp:165-251 | data and part ends are reported only out of an open part; which phase each event can leave the scanner in |
| `MultipartReader.MultipartReader.Pull` | include/boost/taar/core/multipart.hpp:507-522 | the next event other than `need_more`, feeding and finishing as the source delivers; it accounts for the body exactly and always terminates |
| `MultipartReader.MultipartReader.NextPart` | include/boost/taar/core/multipart.hpp:413-435 | skips the rest of the open part and returns the next header of the buffered parse, nothing after the last, or the buffered failure |
| `MultipartReader.MultipartReader.ReadSome` | include/boost/taar/core/multipart.hpp:438-463 | what is read followed by what is left is what was left before; nothing is read only once the part is done; ever less is left |
| `MultipartReader.MultipartReader.ReadAll` | include/boost/taar/core/multipart.hpp:480-498 | returns exactly the rest of the part, or fails on a longer one or with the body's own failure |
| `MultipartStreaming.ReadForm` | include/boost/taar/core/multipart.hpp:404-530 | for any interleaving of `next_part` and `read_some` with any sizes over any pieces: the k-th part opened has the k-th buffered header and the bytes read from it are a prefix of its data, all of it once the part is done |
| `Text.TrimPads` | include/boost/taar/core/multipart.hpp:270-275 | spaces and tabs around a text are stripped, and nothing else |
| `Text.IEqualsExactly` | include/boost/taar/core/multipart.hpp:277-280 | letter case is ignored for the 26 ASCII letters, and nothing else is identified |
| `MultipartPrinter.ParamsAreRead` | include/boost/taar/core/multipart.hpp:283-317 | parameters are read back whether they are quoted or bare, with any blanks before them and any keys: the last `name` and the last `filename`, in any letter case, win |
| `MultipartPrinter.BlockParses` | include/boost/taar/core/multipart.hpp:283-337 | any printable header lines, in any order and letter case, with quoted and bare parameters and further fields, read back as exactly their name, file name, content type and list of headers, or are refused when they give no name |
| `MultipartPrinter.DataEnds` | include/boost/taar/core/multipart.hpp:220-241 | after data that does not hold the delimiter, the first delimiter found is the printed one |
| `MultipartPrinter.RoundTrip` | include/boost/taar/core/multipart.hpp:355-384 | parsing a printed form returns its fields, for every choice of header lines and quoting, whatever epilogue follows and whatever preamble comes before that does not hold the delimiter; and the form survives every splitting exactly when its header blocks fit (section 5.1.1 of RFC 2046) |
| `MultipartPrinter.PrefixMeans` | include/boost/taar/core/multipart.hpp:355-384 | a body that begins with printed parts means these parts and then whatever its rest means, failures included |
| `MultipartPrinter.BreakIsReported` | include/boost/taar/core/multipart.hpp:165-251 | behind any number of good parts, a cut-off or unbroken delimiter line, an unfinished header block, a line without a colon, a part without a name and data without a delimiter each fail with their own error |
| `MultipartPrinter.NoDelimiterIsReported` | include/boost/taar/core/multipart.hpp:170-183 | a body that nowhere holds the first delimiter has no opening boundary |
| `HandOffLock.AsyncLock.AsyncAcquire` | include/boost/taar/core/context_store.hpp:61-86 | a free lock is taken and the caller resumed; otherwise the caller joins the end of the queue |
| `HandOffLock.AsyncLock.Release` | include/boost/taar/core/context_store.hpp:88-100 | the lock passes straight to the first waiter, or becomes free when there is none |
| `Serialisation.StepKeepsInv` | include/boost/taar/core/context_store.hpp:58-114 | every atomic step of every task (asking, taking a grant up, touching, uncounting, letting go, and each read and write under the store mutex) keeps the ownership, queue and inspection invariant |
| `Serialisation.Serialised` | include/boost/taar/core/context_store.hpp:447-452 | over every run: an entry has one holder at most, its in-flight count is 0 or 1 and counts its guard, nobody waits for a free lock, and the lock is granted in the order it was asked for |
| `Serialisation.GuardedWhenReadIsKept` | include/boost/taar/core/context_store.hpp:456-459 | over every run: an entry is guarded when an expiry removes it if and only if a guard taken up after its in-flight count was read still counts; a guard that existed at the reading always keeps its entry |
| `Serialisation.UninterruptedExpiryIsSafe` | include/boost/taar/core/context_store.hpp:469-486 | an expiry check that runs without interruption removes no guarded entry |
| `Serialisation.UninterruptedExpiryExactly` | include/boost/taar/core/context_store.hpp:456-486 | an expiry check that runs without interruption succeeds if and only if nobody is counted for the entry and it has been idle for longer than the timeout |
| `Serialisation.LockedEntryIsSweptExactly` | include/boost/taar/core/context_store.hpp:447-486 | over every run: a locked entry is swept without interruption if and only if it is idle and its holder is not counted, that is granted and not yet resumed, or dropped and not yet let go |
| `Serialisation.LockedEntryRemovedExactlyInWindow` | include/boost/taar/core/context_store.hpp:447-459 | over every run and with any interruptions: an entry is locked when an expiry removes it if and only if a guard taken up during the check still counts, or its holder is not counted |
| `Serialisation.LockedEntryCanBeSwept` | include/boost/taar/core/context_store.hpp:447-452 | a run in which a locked entry is swept, between the grant and the count: the claim at line 161 that locked entries are never swept does not hold |
| `Serialisation.GuardedEntryCanBeSwept` | include/boost/taar/core/context_store.hpp:456-459 | a run in which an entry is removed while its guard exists, taken up between the two halves of the expiry check |
| `Serialisation.OneKeyTwoGuards` | include/boost/taar/core/context_store.hpp:425-429 | a run in which one key has two guarded entries after an `erase`: exclusion is per entry |
| `ContextStore.StoreEntry.TakeUp` | include/boost/taar/core/context_store.hpp:449-451 | taking up a grant counts the guard |
| `ContextStore.StoreEntry.Drop` | include/boost/taar/core/context_store.hpp:267-276 | the guard's release refreshes the activity, uncounts itself and passes the lock on |
| `ContextStore.ContextStore.Sweep` | include/boost/taar/core/context_store.hpp:469-486 | exactly the expired entries go, the others stay as they are, and the count is their number |
| `ContextStore.ContextStore.MaybeSweep` | include/boost/taar/core/context_store.hpp:461-467 | sweeps when a quarter of the timeout has passed since the last sweep, and otherwise changes nothing |
| `ContextStore.TakenMeans` | include/boost/taar/core/context_store.hpp:456-459 | a key is taken exactly while its entry is in flight or was active no longer ago than the timeout |
| `ContextStore.SweepDueMeans` | include/boost/taar/core/context_store.hpp:461-467 | a sweep is due once a quarter of the timeout, rounded towards zero, has passed, and keeps exactly the taken keys |
| `ContextStore.ContextStore.Find` | include/boost/taar/core/context_store.hpp:321-339 | an expired key is unknown and gone; a hit is the stored entry, refreshed; nothing else changes beyond the due sweep |
| `ContextStore.ContextStore.Emplace` | include/boost/taar/core/context_store.hpp:347-366 | the live entry, refreshed, or a new one in the place of whatever was there |
| `ContextStore.ContextStore.Create` | include/boost/taar/core/context_store.hpp:370-390 | a new entry under the first drawn key that has no live entry |
| `ContextStore.ContextStore.Peek` | include/boost/taar/core/context_store.hpp:398-408 | the live entry of a key, with nothing refreshed or swept |
| `ContextStore.ContextStore.Erase` | include/boost/taar/core/context_store.hpp:425-429 | removes the key and says whether it was there |
| `Generators.DepthFirst` | include/boost/taar/core/async_generator.hpp:347-492 | the values a tree of generators gives are a prefix of its depth-first values, all of them when nothing fails; a plain body fails exactly when some reached part throws |
| `Generators.Generator.Next` | include/boost/taar/core/async_generator.hpp:637-808 | each `next` gives the first remaining depth-first value, the end, or a pending exception, and leaves the rest; metadata that has been settled stays |
| `Generators.Generator.Resume` | include/boost/taar/core/chunked_response.hpp:145-176 | runs a body to its next suspension: metadata yields are stored until data begins and are an error after it |
| `Generators.Generator.Flattened` | include/boost/taar/core/async_generator.hpp:354-492 | awaiting an inner generator delivers its first value through the outermost one; an exhausted or empty inner gives no spurious end |
| `Generators.Generator.RethrowIfException` | include/boost/taar/core/async_generator.hpp:600-608 | hands the stashed exception over once |
| `Generators.Drain` | include/boost/taar/core/async_generator.hpp:637-808 | repeated `next` yields exactly the depth-first values up to the first exception, then the end with that exception pending on the outermost generator, and the final metadata |
| `Generators.Relay.Next` | include/boost/taar/handler/with_session.hpp:96-124 | one resumption of the relay pulls one value of the inner and holds nothing back; status and headers are settled at the first, the inner ones with the extra ones behind them, and never change |
| `Generators.DrainRelay` | include/boost/taar/handler/with_session.hpp:96-124 | a relay emits the inner's values and its final exception under the replayed metadata |
| `Glob.SplitsSnoc` | include/boost/taar/handler/htdocs.hpp:89-138 | a split into token pieces can be taken apart at its last piece |
| `Glob.NextRow` | include/boost/taar/handler/htdocs.hpp:101-138 | the positions reached by one more token are those one piece further on |
| `Glob.GlobMatch` | include/boost/taar/handler/htdocs.hpp:89-138 | true if and only if the path, or its last segment for a pattern without a slash, splits into pieces that the tokens stand for, within pattern length times (path length + 1) cell updates |
| `GlobReading.TokensExactly` | include/boost/taar/handler/htdocs.hpp:101-132 | a pattern is read as a list of wildcards and characters if and only if these are written as the pattern and no wildcard could have been longer |
| `GlobReading.PlainMeans` | include/boost/taar/handler/htdocs.hpp:84-86 | a pattern with a slash and no wildcard matches itself only |
| `GlobReading.StarMeans` | include/boost/taar/handler/htdocs.hpp:84-86 | `a*b` matches exactly the paths `a`, a run without a slash, `b` |
| `GlobReading.DoubleStarMeans` | include/boost/taar/handler/htdocs.hpp:84-86 | `a**b` matches exactly the paths `a`, any run, `b` |
| `GlobReading.DoubleStarSlashMeans` | include/boost/taar/handler/htdocs.hpp:105-116 | `a**/b` matches exactly the paths `a`, nothing or a run that ends in a slash, `b` |
| `GlobReading.QuestionMeans` | include/boost/taar/handler/htdocs.hpp:84-86 | `a?b` matches exactly the paths `a`, one character other than the slash, `b` |
| `GlobReading.FileNameMeans` | include/boost/taar/handler/htdocs.hpp:86-94 | `a*b` without a slash matches exactly the paths whose file name has this form, in any directory |
| `Glob.DirectoriesCutSegments` | include/boost/taar/handler/htdocs.hpp:106-117 | `**/` can end inside a path segment: `a**/b` matches `ax/b` |
| `GlobSegments.MatchingIsFitting` | include/boost/taar/handler/htdocs.hpp:89-138 | matching, and matching by whole segments, are taking the path token by token from the left |
| `GlobSegments.WholeSegmentsExactly` | include/boost/taar/handler/htdocs.hpp:106-117 | for every pattern with no `?` directly before a `**/`: every path it matches is matched by whole segments if and only if each `**/` is anchored at a segment start, or stands behind a `**` or before tokens that can take its run |
| `GlobSegments.HarmlessIsWhole` | include/boost/taar/handler/htdocs.hpp:106-117 | patterns of that shape match by whole segments, also with `?` before a `**/` |
| `GlobSegments.AnchoredIsHarmless` | include/boost/taar/handler/htdocs.hpp:106-117 | the plain case: each `**/` first, behind a slash, behind a `**` or behind another such one |
| `GlobSegments.AnyOneCanGiveWay` | include/boost/taar/handler/htdocs.hpp:106-117 | why `?` is set apart: `**?**//**` is not of that shape and matches by whole segments all the same |
| `GlobSegments.LiteralCanBeHarmless` | include/boost/taar/handler/htdocs.hpp:106-117 | a `**/` behind a literal need not cut: `a**/**` matches by whole segments |
| `GlobSegments.EverySplitIsWholeExactly` | include/boost/taar/handler/htdocs.hpp:106-117 | for every pattern: no way of matching any path cuts a segment if and only if each `**/` comes first, directly behind a slash, or behind another such one |
| `AsyncChannel.AsyncChannel.Push` | include/boost/taar/core/async_channel.hpp:56-73 | rejected when closed, handed to the first waiter, or queued |
| `AsyncChannel.AsyncChannel.Trim` | include/boost/taar/core/async_channel.hpp:76-86 | drops the oldest values beyond the maximum and counts them |
| `AsyncChannel.AsyncChannel.Close` | include/boost/taar/core/async_channel.hpp:89-100 | closes the channel and completes all waiters with nothing, in order |
| `AsyncChannel.AsyncChannel.AsyncReceive` | include/boost/taar/core/async_channel.hpp:121-176 | takes the first value, ends at once when closed, or waits under a fresh id |
| `AsyncChannel.AsyncChannel.Cancel` | include/boost/taar/core/async_channel.hpp:195-209 | takes out the waiter with that id if it still waits, and no other |
| `AsyncChannel.StepKeepsInv` | include/boost/taar/core/async_channel.hpp:56-209 | every push, trim, close, receive, cancel and completion keeps the whole invariant |
| `AsyncChannel.Conservation` | include/boost/taar/core/async_channel.hpp:56-209 | over every run: accepted values in order are the values delivered or trimmed followed by the queue, a value is delivered to one receive, and a non-empty queue or a closed channel means no waiters |
| `AsyncChannel.CompletedOnce` | include/boost/taar/core/async_channel.hpp:121-209 | over every run: what a completed receive was given never changes, however push, close and cancel race |
| `AsyncChannel.ServedInIdOrder` | include/boost/taar/core/async_channel.hpp:56-73 | the next push goes to the waiting receive with the smallest id |
| `ByteRange.SaturatingStep` | include/boost/taar/core/byte_range.hpp:76-88 | one digit of the saturating loop neither overflows nor loses the cap |
| `ByteRange.ParseNumber` | include/boost/taar/core/byte_range.hpp:76-88 | a digit string gives its number capped at the 64-bit maximum, anything else nothing |
| `ByteRange.SaturationIsExact` | include/boost/taar/core/byte_range.hpp:107-140 | for one spec the saturating answer is the unbounded one if and only if no inversion is hidden by both ends being capped |
| `ByteRange.EvaluateSpec` | include/boost/taar/core/byte_range.hpp:107-140 | a spec is malformed, unsatisfiable or the clipped range its meaning says |
| `ByteRange.SuffixMeans` | include/boost/taar/core/byte_range.hpp:111-124 | `-n` is the last n bytes, all of them when there are fewer, and unsatisfiable when n or the size is 0 |
| `ByteRange.OpenMeans` | include/boost/taar/core/byte_range.hpp:125-141 | `a-` is everything from byte a on, and unsatisfiable when there is no byte a |
| `ByteRange.ClosedMeans` | include/boost/taar/core/byte_range.hpp:125-141 | `a-b` is byte a to byte b or to the last byte, unsatisfiable when there is no byte a, and malformed when b is less than a and less than the 64-bit maximum |
| `ByteRange.OnlyTheseForms` | include/boost/taar/core/byte_range.hpp:111-141 | every other spec is malformed |
| `ByteRange.HeaderIsRead` | include/boost/taar/core/byte_range.hpp:66-148 | `bytes` in any letter case, `=`, and specs with commas and blanks between them: ignored with too many specs or a malformed one, unsatisfiable when all are, otherwise the wanted ranges |
| `ByteRange.ParseRange` | include/boost/taar/core/byte_range.hpp:66-148 | a header is ignored, unsatisfiable or gives the ranges of its specs in order, each inside the representation |
| `ByteRange.ParseIsExact` | include/boost/taar/core/byte_range.hpp:66-148 | parsing agrees with unbounded arithmetic if and only if no spec hides an inversion or the header is ignored anyway |
| `ByteRange.InversionsCanHide` | include/boost/taar/core/byte_range.hpp:66-148 | a header with a hidden inversion: two numbers just above the 64-bit maximum, refused as unsatisfiable where it should be ignored |
| `ByteRange.Coalesce` | include/boost/taar/core/byte_range.hpp:155-172 | the merged ranges hold exactly the same bytes, sorted, disjoint and non-adjacent, without overflow at the last offset |
| `ByteRange.SeparatedIsUnique` | include/boost/taar/core/byte_range.hpp:155-172 | separated ranges with the same bytes are the same ranges, so the result of merging is the only one |
| `SegmentedBody.BodyValue.AppendText` | include/boost/taar/core/segmented_body.hpp:70-74 | appends a segment of text and grows the promised size by its length |
| `SegmentedBody.BodyValue.AppendBuffer` | include/boost/taar/core/segmented_body.hpp:80-84 | appends a window of a buffer and grows the promised size by its length |
| `SegmentedBody.BodyValue.AppendFileRange` | include/boost/taar/core/segmented_body.hpp:87-91 | appends a window of the file and grows the promised size by its length |
| `SegmentedBody.ContentSnoc` | include/boost/taar/core/segmented_body.hpp:70-91 | the content of a longer body is the content so far followed by the new segment |
| `SegmentedBody.Writer.More` | include/boost/taar/core/segmented_body.hpp:207-220 | true exactly when bytes remain |
| `SegmentedBody.Writer.Get` | include/boost/taar/core/segmented_body.hpp:145-204 | each buffer is the next piece of the remaining content, never empty, with `more` true exactly when bytes remain, for any short reads |
| `SegmentedBody.Writer.FromFile` | include/boost/taar/core/segmented_body.hpp:167-201 | a file window is opened at its offset and read piece by piece, each buffer taking its bytes off the remaining content |
| `SegmentedBody.WriteAll` | include/boost/taar/core/segmented_body.hpp:145-220 | repeated `get` emits exactly the content, in as many bytes as `size()` promised |
| `RangedResponse.BuildBody` | include/boost/taar/handler/htdocs.hpp:1142-1179 | the body of a ranged response is the one window, or the multipart body with the announced boundaries, content ranges and windows |
| `RangedResponse.StaysInside` | include/boost/taar/handler/htdocs.hpp:1115-1127 | the windows of parsed and merged ranges stay inside the file |
| `RangedResponse.Serve` | include/boost/taar/handler/htdocs.hpp:1114-1181 | from a Range header to the wire: 416 when nothing overlaps, everything when there is nothing to honour, otherwise exactly the bytes of the merged ranges as section 14.6 of RFC 9110 lays them out |
| `RangedReading.WireIsRead` | include/boost/taar/handler/htdocs.hpp:1163-1181 | a reader of the multipart layout, going by the delimiters and by the lengths of the ranges, gets back from the wire one part for each range |
| `RangedReading.PartsInOrder` | include/boost/taar/handler/htdocs.hpp:1163-1181 | the i-th part read has the content type, the i-th range, the total size and its window of the content |
| `TemplateParser.ParseTemplate` | include/boost/taar/matcher/template_parser.hpp:114-265 | the looping state machine returns the segments, or the error, of the character-by-character specification |
| `TemplateParser.CharacterSets` | include/boost/taar/matcher/template_parser.hpp:20-55 | the characters of literals and of parameter names, written out (section 3.3 of RFC 3986) |
| `TemplateParser.ErrorsTellApart` | include/boost/taar/matcher/template_parser.hpp:114-265 | a template is reported as not absolute if and only if it does not start with a slash |
| `TemplateParser.StepReads` | include/boost/taar/matcher/template_parser.hpp:133-247 | each character is read as itself, except a slash right after a slash |
| `TemplateParser.AcceptedIsPrinted` | include/boost/taar/matcher/template_parser.hpp:114-265 | what is accepted prints back as the text read, slashes collapsed |
| `TemplateParser.PrintedIsAccepted` | include/boost/taar/matcher/template_parser.hpp:114-265 | the printed form of valid segments is accepted and returns them |
| `TemplateParser.SqueezeIsIgnored` | include/boost/taar/matcher/template_parser.hpp:145-150 | repeated slashes do not change what is parsed |
| `TemplateParser.ParsesExactlyPrinted` | include/boost/taar/matcher/template_parser.hpp:114-265 | a text parses to given segments if and only if they are valid and the text, with repeated and trailing slashes collapsed, is their printed form |
| `TemplateParser.PrintRoundTrip` | include/boost/taar/matcher/template_parser.hpp:114-265 | parsing the printed form of any valid segment list returns it |
| `TargetMatcher.Match` | include/boost/taar/matcher/target.hpp:79-182 | true if and only if the target splits into pieces for the template with every inner greedy parameter as eager as the code makes it; then the path arguments are those pieces; after a failure they are the pieces taken so far |
| `TargetMeaning.EagerIsUnique` | include/boost/taar/matcher/target.hpp:79-182 | a target has one eager split at most: the outcome of a match and its captures are determined by template and target |
| `TargetMeaning.MissesNothingExactly` | include/boost/taar/matcher/target.hpp:118-172 | greedy parameters take any number of segments as documented, missing no target that has a substitution, if and only if the greedy segments of the template come last |
| `TargetMeaning.MatchWithGreedySuffix` | include/boost/taar/matcher/target.hpp:79-182 | with the greedy segments last, a match is reported if and only if any substitution exists |
| `TargetMeaning.GreedyCanMiss` | include/boost/taar/matcher/target.hpp:118-172 | a template outside that condition and a target it misses: the greedy parameter stops at the first segment equal to the next literal and never goes back |
| `TargetMeaning.CapturesAreThePieces` | include/boost/taar/matcher/target.hpp:92-155 | with distinct names and no earlier arguments, each parameter holds its own piece and nothing else is captured |
| `TargetMeaning.ExpandGivesTarget` | include/boost/taar/matcher/target.hpp:92-155 | substituting the captures into the template gives the target back, segment by segment, if and only if every greedy piece survives being joined to one text |
| `TargetMeaning.CapturesAreOwnExactly` | include/boost/taar/matcher/target.hpp:108-149 | over earlier arguments each parameter gets its own piece if and only if the arguments already there say the same |
| `TargetMeaning.MatchEither` | include/boost/taar/matcher/target.hpp:67-186 | two alternatives in one context: what a failed first one has taken stays, the captures of the second are right if and only if they do not conflict with it, and always when the two share no names and no earlier argument has one of the second |
| `TargetMeaning.StaleCapture` | include/boost/taar/matcher/target.hpp:146-174 | a conflict is real: `/{x}/b/c` or `/a/{x}/d` on `/a/b/d` ends with x being a |
| `UriTemplate.ParseExpressionLoop` | include/boost/taar/mcp/arg.hpp:129-181 | the loop over an expression returns the operator and variables of its specification, or rejects it |
| `UriTemplate.TakeLoop` | include/boost/taar/mcp/arg.hpp:184-195 | a value ends at the first character its operator does not allow, or at the limit |
| `UriTemplate.PastTheLimit` | include/boost/taar/mcp/arg.hpp:284-306 | once the cursor has passed its limit after a comma, a list can only mismatch, so the wrapped length never matters |
| `UriTemplate.ListedSound` | include/boost/taar/mcp/arg.hpp:282-306 | the text consumed by `{a,b}` or `{+a,b}` is its captured values with commas between them, all of them captured |
| `UriTemplate.PrefixedSound` | include/boost/taar/mcp/arg.hpp:330-342 | the text consumed by `{.a,b}` or `{/a,b}` is its captured values behind the operator, the others absent |
| `UriTemplate.ExpressionSound` | include/boost/taar/mcp/arg.hpp:258-342 | the expansion of a matched expression is the part of the URI it consumed, under any later captures |
| `UriTemplate.MatchIsSound` | include/boost/taar/mcp/arg.hpp:215-342 | for a template with distinct variables and operators none, `+`, `.` and `/`: expanding it with the returned captures gives back the URI exactly (sections 3.2.2, 3.2.3, 3.2.5 and 3.2.6 of RFC 6570) |
| `UriTemplate.MatchLoop` | include/boost/taar/mcp/arg.hpp:215-342 | the two-cursor loop ends and answers as the matching specification |
| `UriMeaning.BarredExactly` | include/boost/taar/mcp/arg.hpp:184-195 | the characters that end a value, written out for each operator |
| `UriMeaning.LimitIsBound` | include/boost/taar/mcp/arg.hpp:224-280 | a value extends to the next occurrence of the literal behind it, to the last dot before a label or the first separator before another optional expression, and otherwise to the end |
| `UriMeaning.MatchExactly` | include/boost/taar/mcp/arg.hpp:198-342 | completeness: for a template with distinct variables and operators none, `+`, `.` and `/`, a URI matches with given captures if and only if the template expands to it with them and every value can be read off where it stands (nothing barred in it, and the text behind it does not end it early or late) |
| `UriMeaning.MatchUriTemplate` | include/boost/taar/mcp/arg.hpp:198-342 | the match returned is exactly the captures that the template means, and expanding them gives back the URI |
| `UriMeaning.OneVariable` | include/boost/taar/mcp/arg.hpp:198-342 | a template with one expression takes exactly the literals around a value that is not empty, holds no barred character, fits its prefix length and is not cut short by the literal behind it; for an optional expression also the literals alone |
| `UriForms.ReservedMeans` | include/boost/taar/mcp/arg.hpp:203-204 | `{+n}` at the end takes everything that is left, slashes and all |
| `UriForms.SimpleMeans` | include/boost/taar/mcp/arg.hpp:202-203 | `{n}` takes one or more characters other than `/`, `?`, `#` and `,`, up to the literal behind it |
| `UriForms.PrefixMeans` | include/boost/taar/mcp/arg.hpp:210 | `{n:k}` takes no more than k characters |
| `UriForms.LabelMeans` | include/boost/taar/mcp/arg.hpp:204-208 | `{.n}` takes a dot and a value without dots and slashes, or nothing |
| `UriForms.PathMeans` | include/boost/taar/mcp/arg.hpp:204-208 | `{/n}` takes a slash and one segment, or nothing |
| `UriForms.ExplodedPathMeans` | include/boost/taar/mcp/arg.hpp:209 | `{/n*}` takes a slash and any number of segments, or nothing |
| `UriForms.ExplodedLabelIsLabel` | include/boost/taar/mcp/arg.hpp:187-195 | `{.n*}` takes exactly what `{.n}` takes, a single label, although line 209 lets it span several |
| `UriForms.LabelsDoNotSpan` | include/boost/taar/mcp/arg.hpp:187-195 | no URI with two labels is taken by a template that ends in one `{.n*}` |
| `SchemaHoisting.ComponentNameLoop` | include/boost/taar/openapi/generator.hpp:199-222 | the two loops compute the mapped and stripped name of a title, or `Schema` |
| `SchemaHoisting.ComponentNameIsKey` | include/boost/taar/openapi/generator.hpp:199-222 | a component name is a non-empty OpenAPI key that neither starts nor ends with `_` or `.` |
| `SchemaHoisting.CleanNameStays` | include/boost/taar/openapi/generator.hpp:199-222 | a title of letters, digits, `-`, `.` and `_` with clean ends is its own name, and dots and underscores around it are taken off |
| `SchemaHoisting.ColonsBecomeDot` | include/boost/taar/openapi/generator.hpp:199-222 | two colons between clean names become a dot |
| `SchemaHoisting.OtherBecomesUnderscore` | include/boost/taar/openapi/generator.hpp:199-222 | any other character between clean names becomes an underscore |
| `SchemaHoisting.Components.HoistSchema` | include/boost/taar/openapi/generator.hpp:540-559 | rewriting in place and growing the table agrees with the hoisting specification |
| `SchemaHoisting.HoistAllReplaces` | include/boost/taar/openapi/generator.hpp:540-585 | field by field: every slot is left with a reference for each schema that has a title and properties and with nothing else changed, no such node stays in a slot or inside a component, and the new components are exactly the names of these schemas, each with the first one of its name |
| `SchemaHoisting.Components.HoistDocument` | include/boost/taar/openapi/generator.hpp:401-417 | every slot of every operation is hoisted into one growing table: slots and components are as field by field described, and denote the originals if and only if equal names mean equal schemas |
| `SchemaHoisting.HoistDenotes` | include/boost/taar/openapi/generator.hpp:540-585 | a hoisted schema, read against the grown table, is the schema it was, at any depth |
| `SchemaHoisting.DenotesOne` | include/boost/taar/openapi/generator.hpp:540-585 | a schema read against a table stands for one tree at most |
| `SchemaHoisting.NamedAreReferenced` | include/boost/taar/openapi/generator.hpp:540-585 | in a hoisted schema whatever stands for a named schema is a reference under its name |
| `SchemaHoisting.MeaningIsPreservedExactly` | include/boost/taar/openapi/generator.hpp:540-585 | resolving every hoisted slot against the final components rebuilds the original schemas, over any sequence of operations, if and only if equal component names mean equal schemas |
| `SchemaHoisting.NamesCanCollide` | include/boost/taar/openapi/generator.hpp:199-222 | different titles can share a component name: `a::b` and `a.b` do |
| `RecencyMap.Lru.Find` | include/boost/taar/handler/htdocs.hpp:486-492 | the value of a key, its entry moved to the front, list and index still holding the same unique keys |
| `RecencyMap.Lru.Put` | include/boost/taar/handler/htdocs.hpp:494-503 | the value stored as the most recent entry, replacing an earlier one |
| `RecencyMap.Lru.Erase` | include/boost/taar/handler/htdocs.hpp:505-511 | removes the one entry of the key from list and index |
| `RecencyMap.Lru.PopOldest` | include/boost/taar/handler/htdocs.hpp:514-520 | removes and returns the least recently used entry |
| `RecencyMap.WithoutAt` | include/boost/taar/handler/htdocs.hpp:481-525 | with unique keys, taking a key out removes its one entry and leaves the order of the others |
| `ContentCache.Account` | include/boost/taar/handler/htdocs.hpp:1229-1243 | taking a held key out takes exactly its bytes off the account |
| `ContentCache.Cache.LookUp` | include/boost/taar/handler/htdocs.hpp:1229-1243 | a hit is data that was read from this very file with this modification time and size; a stale entry goes and its bytes with it; the account stays exact |
| `ContentCache.Cache.Store` | include/boost/taar/handler/htdocs.hpp:1276-1288 | the data just read is the first entry and survives, of the others the longest most recent part that fits is kept, and the account is exact and within its limit |
| `ContentCache.Cache.Evict` | include/boost/taar/handler/htdocs.hpp:1284-1287 | eviction stops on a non-empty list as soon as the account is within its limit |
| `ContentCache.EveryUnlockIsExact` | include/boost/taar/handler/htdocs.hpp:1220-1289 | over every interleaving of the two critical sections: at each unlock one entry a key, the account exact and within the limit, only stored contents held, and the one just stored first |
| `ContentCache.ResolutionCache.Recall` | include/boost/taar/handler/htdocs.hpp:886-892 | an answer from the cache was resolved for this key less than the revalidation time ago and is never a failure |
| `ContentCache.ResolutionCache.Remember` | include/boost/taar/handler/htdocs.hpp:894-903 | a failure is forgotten with what was known before; anything else becomes the most recent entry, and the oldest go until the limit holds |
| `Base64.ValueOfSymbol` | include/boost/taar/core/base64.hpp:24-66 | the encoder's table and the decoder's character ranges are inverse to each other |
| `Base64.Encode` | include/boost/taar/core/base64.hpp:22-53 | the output is the canonical text of the bytes (their bits read as one number, spare bits zero), of length four times the number of triples rounded up |
| `Base64.Decode` | include/boost/taar/core/base64.hpp:56-89 | succeeds if and only if the text is whole groups of symbols with at most two padding characters at the end, and then gives the bytes the text denotes |
| `Base64.CanonicalTextIsUnique` | include/boost/taar/core/base64.hpp:22-53 | a byte string has one canonical text |
| `Base64.EncodeThenDecode` | include/boost/taar/core/base64.hpp:22-89 | decoding what was encoded returns the bytes, for every byte string (section 4 of RFC 4648) |
| `Base64.DecodeThenEncode` | include/boost/taar/core/base64.hpp:22-89 | encoding what was decoded returns the text if and only if it is canonical |
| `Base64.DecoderAcceptsSpareBits` | include/boost/taar/core/base64.hpp:66-87 | the decoder accepts a text the encoder never writes: two texts of one byte |
| `Operand.FindHeader` | include/boost/taar/matcher/header.hpp:62-130 | a header is found by its name in any letter case, and missing only when no field has that name |
| `Operand.FirstIsFound` | include/boost/taar/matcher/header.hpp:62-130 | of several fields of one name the first is found |
| `Operand.HeaderLeavesAsk` | include/boost/taar/matcher/header.hpp:62-130 | header constraints ask about the first field of that name, a missing one reading as the empty string |
| `Operand.AndInvokes` | include/boost/taar/matcher/operand.hpp:653-737 | a conjunction answers as both sides in order on the inputs it is given, and asks for an input exactly when a side does |
| `Operand.OrInvokes` | include/boost/taar/matcher/operand.hpp:738-822 | a disjunction answers as its sides in order on the inputs it is given, and asks for an input exactly when a side does |
| `Operand.NotInvokes` | include/boost/taar/matcher/operand.hpp:203-263 | a negation flips the answer and asks for what its operand asks for |
| `Operand.ComposedMeansExpression` | include/boost/taar/matcher/operand.hpp:175-263 | every composed operand answers as its expression means on the real target and cookies, although parts are handed empty ones when no part of the whole asks for them |
| `Operand.UnneededInputsDoNotMatter` | include/boost/taar/matcher/operand.hpp:40-43 | an operand that does not ask for the target or the cookies answers alike for all of them |
| `Operand.MeaningIsBoolean` | include/boost/taar/matcher/operand.hpp:657-825 | when no part looks at the path arguments, which holds of all the library's own leaves, short-circuit evaluation gives the Boolean value of the formula |
| `Operand.CapturesLineUp` | include/boost/taar/matcher/metadata.hpp:172-224 | the captures of any composition are those of its leaves in order, one for each flattened tag and of its type |
| `RouteShape.ExpressibleIsConjunction` | include/boost/taar/matcher/route_shape.hpp:33-97 | a matcher is expressible if and only if it is a conjunction of positive constraints and alternatives between methods with exactly one target and at least one method |
| `RouteShape.SummarizeRoute` | include/boost/taar/matcher/route_shape.hpp:136-174 | the summary lists the methods, headers and cookies of the leaves in order and the one template |
| `RouteShape.TargetsAreCounted` | include/boost/taar/matcher/route_shape.hpp:41-87 | the counts of a valid shape are the numbers of target and method leaves |
| `RouteShape.MatchObeysSummary` | include/boost/taar/matcher/route_shape.hpp:136-174 | for every expressible matcher a match implies a listed method, the template, and every listed header and cookie; the path arguments are the template's |
| `RouteShape.SummaryIsExact` | include/boost/taar/matcher/route_shape.hpp:89-97 | with one conjunct about the method, a request matches if and only if it obeys the summary and the version constraints |
| `RouteShape.ValidMeans` | include/boost/taar/matcher/route_shape.hpp:41-87 | a matcher of valid shape matches exactly what obeys everything but the method and is accepted by every conjunct about the method |
| `RouteShape.SummaryIsExactExactly` | include/boost/taar/matcher/route_shape.hpp:89-174 | an expressible matcher matches, for all requests, exactly what its summary and version constraints allow if and only if its conjuncts about the method agree on every listed method (or its other constraints contradict each other) |
| `RouteShape.AgreementIsCheckable` | include/boost/taar/matcher/route_shape.hpp:89-97 | that agreement can be checked on the listed methods one by one |
| `RouteShape.TwoMethodConjuncts` | include/boost/taar/matcher/route_shape.hpp:89-97 | a formula outside that condition: GET and POST at once lists both and matches nothing |
| `RouteShape.RequiredHeaderIsPresentExactly` | include/boost/taar/matcher/header.hpp:62-80 | `header(key) == value` matches only requests that have the field if and only if the value is not empty |
| `RouteShape.RequiredHeaderCanBeMissing` | include/boost/taar/matcher/route_shape.hpp:99-105 | an expressible matcher whose summary requires a field and which matches a request without it |
| `RouteShape.CompiledImplements` | include/boost/taar/matcher/target.hpp:67-186 | for every template text there is a target leaf that keeps the contract which the summary theorems ask of it |
| `RouteShape.RunTarget` | include/boost/taar/matcher/target.hpp:67-186 | the matching loop is that leaf: it matches on the same targets and leaves the same arguments |
| `RouteShape.FaithfulIsBoolean` | include/boost/taar/matcher/operand.hpp:657-825 | an expression of the library's own leaves is answered as the Boolean formula it writes |
| `JsonRpcRegistry.PendingIsBegunNotEnded` | include/boost/taar/jsonrpc/endpoint.hpp:339-350 | what is pending under a scope key and id is exactly what was begun under them and not ended since |
| `JsonRpcRegistry.KeysAreInjective` | include/boost/taar/jsonrpc/endpoint.hpp:530-533 | registry keys tell scope key and id apart, even for scope keys that hold newlines |
| `JsonRpcRegistry.Registry.BeginRequest` | include/boost/taar/jsonrpc/endpoint.hpp:339-350 | a request is registered under its scope key and id; a notification gets a scope and is not |
| `JsonRpcRegistry.Registry.EndRequest` | include/boost/taar/jsonrpc/endpoint.hpp:535-542 | the request is no longer pending, everything else is, and no empty list stays |
| `JsonRpcRegistry.Registry.Cancel` | include/boost/taar/jsonrpc/endpoint.hpp:367-380 | cancels exactly the requests pending under the scope key and id, and returns their number |
| `JsonRpc.BeginThenEnd` | include/boost/taar/jsonrpc/endpoint.hpp:282-292 | beginning and ending one request leaves pending exactly what the others leave, whatever begins and ends in between |
| `JsonRpc.RunRegistered` | include/boost/taar/jsonrpc/endpoint.hpp:282-292 | a request is seen as cancelled if and only if a cancel with its own scope key and id arrived while it ran, whatever else others began, ended or cancelled; they alone decide what is pending afterwards |
| `JsonRpc.Dispatch` | include/boost/taar/jsonrpc/endpoint.hpp:267-311 | member by member of the answer: -32601 for an unknown method, else -32800 when this very request was cancelled, else the result itself or the code, message and data of the mapped failure; none for a notification; with other requests beginning, ending and cancelling meanwhile, which alone decide what is pending afterwards |
| `JsonRpc.DefaultMapping` | include/boost/taar/jsonrpc/endpoint.hpp:80-112 | the default mapping goes by the code alone: JSON-RPC codes are passed on, the library's own mean invalid parameters with data that says which, everything else is an internal error without data |
| `JsonRpc.OnlyNotificationsGoUnanswered` | include/boost/taar/jsonrpc/endpoint.hpp:404-416 | an element goes unanswered if and only if it is a well-formed request object without an id |
| `JsonRpc.RepliesAreAnswered` | include/boost/taar/jsonrpc/endpoint.hpp:402-417 | a batch has one answer for each element that is owed one, in order |
| `JsonRpc.AnsweredAreTheRest` | include/boost/taar/jsonrpc/endpoint.hpp:402-417 | the answered positions are increasing and are all but the notifications |
| `JsonRpc.BatchRepliesHold` | include/boost/taar/jsonrpc/endpoint.hpp:402-417 | every answer of a batch holds, member by member, what its own element is owed |
| `JsonRpc.RepliesEchoIds` | include/boost/taar/jsonrpc/endpoint.hpp:502-516 | every answer carries the version, the request's id or the recoverable one, and either a result or an error |
| `JsonRpc.HandleJson` | include/boost/taar/jsonrpc/endpoint.hpp:387-428 | member by member: -32600 for an empty batch or an invalid element under its recoverable id, a single request answered as dispatched, a batch by the array of its answers or by nothing (section 6 of the JSON-RPC 2.0 Specification) |

## Left out

- UriTemplate.MatchIsSound: does not cover the operators `#`, `;`, `?` and `&`, for which the model answers that it says nothing: their pairs may be reordered, repeated or ignored, so exact expansion is not what the code promises.
- UriMeaning.MatchExactly: says nothing of templates that use a variable twice, for which the later capture replaces the earlier one, nor of the operators that `UriTemplate.MatchIsSound` leaves out.
- UriMeaning.MatchUriTemplate: prefix lengths are unbounded numbers; the wrap-around of a very long `:n` in `size_t` is not modelled.
- ContextStore.ContextStore.Create: the key generator is a finite list of draws; drawing for ever because every key is taken is not modelled.
- ContextStore: the methods are whole critical sections; how other tasks' steps fall between their reads and writes is the subject of `Serialisation`, where looking up, inserting and removing are split into steps.
- Generators: executors, completion handlers, cancellation slots, alive flags and coroutine frames are left out; a body is a finite tree, and calling `next` again after an inner exception has been rethrown resumes the outer body as the code does.
- AsyncChannel: ids are unbounded; the wrap-around of the 64-bit counter is not modelled. Handlers are calls owed and completed, without executors.
- Serialisation: tasks ask for one entry at a time; entries are never freed while a task may refer to them.
- JsonRpc.Dispatch: a callable is the outcome it ends with; cancelling does not interrupt it, and how a foreign exception is wrapped as a failure is left out.
- JsonRpcRegistry: serialisation of ids is any function that is injective and writes no newline; weak references are live while registered, as the owner keeps the scope.
- JsonRpc: JSON numbers are integers; parsing and printing JSON text is not modelled.
- ContentCache: reading and stating files between the two critical sections is left out; what was read is remembered as history.
- RecencyMap.Lru: an index iterator is found by walking to its key, so the constant-time access of the original is not captured.
- RangedResponse.Serve: preconditions, If-Range, entity tags, encodings and headers other than those of ranges are left out; the boundary is a parameter.
- SegmentedBody: sizes and offsets are unbounded; the 64-bit sum of very long bodies is not modelled. The file does not change while it is served, but its reads may be short.
- ByteRange.ParseRange: `max_ranges` and the counter of specs are unbounded.
- SchemaHoisting: the visiting order of `hoist_operation` is a list of slots; rendering of operations, security schemes and keywords other than `title`, `properties`, `items` and `additionalProperties` are kept as one opaque text.
- GlobSegments.WholeSegmentsExactly: says nothing of patterns with a `?` directly before a `**/`; for these `HarmlessIsWhole` gives one direction, and `AnyOneCanGiveWay` shows that the other fails.
- Operand: case folding of field names is ASCII.
- TargetMatcher: percent-decoding of target segments is left out.
- MultipartPrinter: the repository has no printer for forms; this one follows section 5.1.1 of RFC 2046, leaves the sender the choice of quoting, letter case and order, and serves as the parser's inverse.
- RangedReading: the repository has no reader of its ranged responses; this one is the inverse of what it sends.
- Base64: `reserve` and other capacity hints are left out everywhere.
- Sessions, servers, TLS, timers, deadlines, the transport behind request bodies, path resolution and the file system, dates, MIME types, CORS, cookies, argument binding and response conversion are left out: input and output, compile-time dispatch, or mostly one-branch claims.
