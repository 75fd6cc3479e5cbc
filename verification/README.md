# SpecLens core in Dafny

SpecLens is a browser extension that finds CPU and GPU model names in a web
page and annotates each with its PassMark benchmark score, rank and price.
This project models the logic under the browser plumbing as pure Dafny
functions and proves properties of them:

- **Name normalisation and the keyword pre-filter** (`Util`, over the string
  primitives in `Text`): `normalizeName` and `isLikelyHardwareText`.
- **Row-to-record conversion** (`Records`, `Parser`): the benchmark table is
  a sequence of rows, each the sequence of its cell texts. The model covers
  the skip rules and the derivation of each record's fields.
- **Index building, the cache and the CPU/GPU merge** (`JsMaps`, `Storage`,
  `Entry`). A JavaScript `Map` is modelled as its entry list in insertion
  order. The cache is a map from keys to timestamped entries, and the clock
  is a parameter.
- **Candidate extraction** (`Extract`): the token windows, the keyword test,
  the insertion-ordered set, and the stable sort by descending length. The
  generic sequence parts live in `Seqs`.
- **Annotation** (`Annotate`):
  - candidate resolution through the aliases;
  - the guard and first-hit decision of `annotateNode`;
  - the split, chip text and splice of `injectAnnotation`;
  - the `acceptNode` filter of the page scan.

  A text node is seen through its `Site`: the elements above it, and its
  parent's child list.

`addCommonAliases` and `keyFor` are imported by src/annotate.js but not
defined in src/util.js. They are modelled as the two function fields of
`Aliasing`, so every property is stated for all of their possible
behaviours.

## Model

| member | source | states |
|---|---|---|
| Util.NormalizeName | src/util.js:2-10 | Empty input gives "". The result contains only `a-z`, `0-9` and single spaces, with no space at either end. It equals the single-space join of the maximal `[a-z0-9]` runs of the lower-cased input. |
| Util.NormalizeIdempotent | src/util.js:5-9 | Normalising a normalised name changes nothing. |
| Util.ContainsKeyword | src/util.js:19-20 | The alternation of keywords, followed by `\b`, matches exactly when some keyword occurs at some position, ignoring ASCII case, followed by the end of the text or a non-word character. With `wholeWord`, a boundary is also required before the keyword. |
| Util.IsLikelyHardwareText | src/util.js:14-24 | True iff one of the 13 `HARDWARE_KEYWORDS` occurs, ignoring case, followed by the end of the text or a non-word character. Nothing is required before it. |
| Util.SubwordPassesPrefilter | src/util.js:20-24 | "subcore x" passes the pre-filter, because no boundary is required before "core". |
| Records.ToNumber | src/parser.js:27 | `Number(s)` is an integer exactly when the trimmed string is all digits. The empty or blank string is 0. |
| Records.ToNumberOfRendering | src/parser.js:27 | Converting the decimal rendering of a natural number gives the number back. |
| Records.ToNumberOfDigits | src/parser.js:27 | Conversely, a digit string without a leading zero converts to an integer whose decimal rendering is that string. |
| Records.ToNumberTrims | src/parser.js:27 | Only the trimmed text matters: `Number(s)` equals `Number(s.trim())`, so " 12" is 12. |
| Records.ToNumberLeadingZero | src/parser.js:27 | A leading zero in front of digits is ignored, so "007" is 7. |
| Parser.OptionalCell | src/parser.js:21-22 | The value is present iff the cell exists and is not blank after trimming; it is then the trimmed cell. |
| Parser.RankOf | src/parser.js:28 | `Number(rank) \|\| null` is present iff the number is an integer other than 0, and is then that integer. |
| Parser.ParseRowSkips | src/parser.js:17-23 | A row is skipped iff any of these holds: it has fewer than 3 cells; its trimmed name is empty; its trimmed, comma-stripped score has no digit. |
| Parser.ParseRowFields | src/parser.js:18-30 | For a kept row: the name is the trimmed first cell, with commas kept. The key is its normalisation, a normalised key. Score and rank are the numbers of the comma-stripped second and third cells. Value and price are the optional fourth and fifth cells. |
| Parser.ParseTable | src/parser.js:11-34 | There are no more records than rows. Every row that is not skipped contributes its record. |
| Parser.ParseTableSources | src/parser.js:15-32 | Each record comes from a distinct, kept row, and the source rows are strictly increasing, so relative row order is kept. Every kept row is a source. |
| Parser.ParseTableAppend | src/parser.js:15-32 | Parsing concatenated rows concatenates the parses. |
| Parser.ParseTableSingle | src/parser.js:15-32 | A one-row table parses to that row's record, or to nothing. |
| Parser.CpuAndGpuParsersAgree | src/parser.js:3-9 | `parseCPUListHTML` and `parseGPUListHTML` compute the same function. |
| JsMaps.Get | src/entry.js:36 | `get` finds a value iff `has` holds. |
| JsMaps.Set | src/entry.js:22 | `set` keeps the keys distinct and makes `get(k)` return the new value. Other keys are unchanged. A present key keeps its position; a new key is appended. Every entry is an old entry or the new one. |
| JsMaps.FromEntries | src/entry.js:17 | `new Map(entries)` has distinct keys, and every entry comes from the list. |
| JsMaps.FromEntriesKeys | src/entry.js:17 | The keys of `new Map(entries)` are the keys of the list in order of first appearance. |
| JsMaps.FromEntriesLastWins | src/entry.js:17 | Each key holds the value of its last entry in the list. |
| JsMaps.FromEntriesRoundTrip | src/entry.js:17-24 | Rebuilding a map from its own entry list gives the same map. |
| JsMaps.AddMissing | src/entry.js:36 | Adding only missing keys keeps the existing keys first, in their order. |
| JsMaps.AddMissingGet | src/entry.js:36 | After adding missing keys, a key that was present keeps its value. Any other key gets the value of its first entry in the added list, or stays absent. |
| Storage.GetCached | src/storage.js:3-9 | An absent key reads as nothing. A present key reads as its payload iff `now <= timestamp + 604800000`, that is, its age is at most seven days; a negative age counts as fresh. |
| Storage.SetCached | src/storage.js:11-13 | The key then holds the payload stamped with `now`. Every other key's entry is unchanged. |
| Storage.SetThenGet | src/storage.js:3-13 | A value written at `t` is read back at `now` iff `now - t <= TTL_MS`. |
| Storage.SetThenGetAtOnce | src/storage.js:3-13 | Reading straight after writing gives the payload. |
| Storage.SetLeavesOthers | src/storage.js:12 | Writing one key leaves what every other key reads unchanged. |
| Storage.StaleStaysStale | src/storage.js:7 | An entry that is stale at some time is stale at every later time. |
| Storage.FreshnessBoundary | src/storage.js:1-7 | An entry exactly seven days old is served. At seven days and 1 ms, or at eight days, it is not. One from 1 ms in the future is served. |
| Entry.CacheKey | src/entry.js:15 | The cache key is "passmark-" followed by the kind. |
| Entry.CacheKeysDistinct | src/entry.js:15 | The CPU and GPU indexes are cached under different keys. |
| Entry.BuildIndex | src/entry.js:21-22 | The index has distinct keys. Every entry holds an item of the list, filed under that item's own key. |
| Entry.BuildIndexKeys | src/entry.js:21-22 | The index's keys are exactly the item keys, in order of first appearance. |
| Entry.BuildIndexLastWins | src/entry.js:22 | On a duplicate key, the index holds the last item with that key. |
| Entry.MergeGet | src/entry.js:35-36 | On a key in the CPU index, the merged lookup gives the CPU item. Otherwise it gives the GPU item. Its keys are the union of both. |
| Entry.MergeKeepsCpuOrder | src/entry.js:35-36 | The merged lookup lists the CPU keys first, in their order. |
| Entry.EnsureIndex | src/entry.js:14-26 | A fresh cache entry, judged at the read time `now`, is rebuilt into the index and the cache is untouched. On a miss, the fetched rows are parsed and indexed, and the index's entry list is cached under the kind's key, stamped with `written`, the time `setCached` reads after the fetch. When the fetch fails there is no index. No other cache key changes. |
| Entry.RepeatIsCached | src/entry.js:16-24 | After a fetch cached at time `w`, a second call reading within seven days of `w` returns the same index from the cache, whatever the fetch would give. The cache is left as it is. |
| Entry.KindsCommute | src/entry.js:30-33 | Ensuring the CPU and GPU indexes in either order, each at its own read and write times, gives the same indexes and the same cache. The two calls of `Promise.all` do not interfere. |
| Entry.OtherKindUnaffected | src/entry.js:14-26 | Ensuring one kind's index does not change what the other kind's call reads or returns, at whatever time that call runs. |
| Entry.Load | src/entry.js:28-37 | A lookup exists iff both indexes were had. It answers each key with the CPU item if the CPU index has the key, and with the GPU item otherwise. |
| Extract.Tokens | src/annotate.js:25 | The tokens are non-empty and contain no whitespace. |
| Extract.TokensJoined | src/annotate.js:25 | For every text, the tokens joined by single spaces are the text with each whitespace run squashed to one space and both ends trimmed. So the tokens depend only on that squashed text. |
| Extract.TokensOfJoin | src/annotate.js:25 | Words without whitespace, joined by single spaces, split back into the same words in the same order. |
| Extract.SpansAt | src/annotate.js:28-29 | The inner loop visits the spans from `i` to each end from `j` up to `min(tokens.length, i + 8)`, in that order. |
| Extract.Spans | src/annotate.js:27-29 | The two loops visit the span of every window of 1 to 8 tokens starting at `i` or later, each once, in strictly increasing (start, end) order, and nothing else. |
| Extract.WindowsFrom | src/annotate.js:27-29 | The `k`-th window built is the join of the `k`-th visited span's tokens. The windows built are exactly the windows of 1 to 8 tokens. |
| Extract.KeepQualifying | src/annotate.js:30-32 | A window is kept iff it passes the keyword test. |
| Extract.KeepQualifyingAppend | src/annotate.js:30-32 | The keyword filter keeps order: it distributes over concatenation, and keeps a single window exactly when it qualifies. |
| Extract.Discovered | src/annotate.js:26-36 | `Array.from(cands)` is the qualifying windows, in visiting order, each kept at its first appearance. Its contents are exactly the candidates, without repetition. |
| Extract.ExtractCandidates | src/annotate.js:24-37 | Every result is a single-space join of 1 to 8 consecutive tokens containing a whole-word extractor keyword, and every such window appears. The results are distinct and ordered by non-increasing JavaScript length, counted in UTF-16 code units. Results of equal length keep their order of first discovery. |
| Extract.TabSeparatedCandidate | src/annotate.js:25-29 | "AMD\tRX" has the candidate "AMD RX", which `indexOf` does not find in it. |
| Annotate.ResolveCandidate | src/annotate.js:39-47 | The result is absent iff no alias key is in the lookup. Otherwise it is the lookup's value for the first alias, in alias order, whose key is present. |
| Annotate.FirstResolving | src/annotate.js:15-21 | Finds the first candidate that resolves, or reports that none does. |
| Annotate.ScoreShort | src/annotate.js:64 | The short score is never empty. |
| Annotate.ScoreShortRounds | src/annotate.js:64 | From 1000 on, the short score is `m` followed by "k", with `m` the nearest number of thousands, halves rounding up. |
| Annotate.ScoreShortSmall | src/annotate.js:64 | Below 1000, the short score reads back as the score. |
| Annotate.ChipPieces | src/annotate.js:66 | The first piece is the short score. There is a second piece "ranked " followed by the rank's digits iff the rank is present and non-zero. The last piece is the price iff it is present and non-empty. No piece is empty. |
| Annotate.ChipText | src/annotate.js:67 | The chip starts with " (" and ends with ")". |
| Annotate.ChipTextForm | src/annotate.js:64-67 | For every record the chip is " (", the short score, ", ranked r" for a present non-zero rank, ", " and the price for a present non-empty price, then ")". |
| Annotate.ChipExample | src/annotate.js:64-67 | Score 27000, rank 150 and price "$350" give " (27k, ranked 150, $350)". |
| Annotate.SplitAtFirst | src/annotate.js:50-55 | Nothing comes back iff the fragment does not occur. Otherwise `before + fragment + after == full`, with `before` ending at the first occurrence. For a non-empty fragment, both parts are strictly shorter than `full`. |
| Annotate.Wrapper | src/annotate.js:57-71 | The annotation carries the class "spa-ann" and has two element children. The first holds the fragment. The second carries the class "spa-chip" and holds the chip text. Its text is the fragment followed by the chip text. |
| Annotate.InjectAnnotation | src/annotate.js:49-77 | Without an occurrence the children are unchanged. Otherwise the text node's slot holds exactly `before`, the annotation and `after`, in that order, and every other child is unchanged. |
| Annotate.InjectKeepsText | src/annotate.js:73-76 | After the splice, the parent's text is its old text with the chip inserted right after the first occurrence of the fragment. |
| Annotate.AnnotateNode | src/annotate.js:5-22 | Nothing changes when the node is not an eligible text node. Otherwise the first candidate that resolves, and only that one, goes to `injectAnnotation`, and nothing changes when none resolves. |
| Annotate.LongestResolvingWins | src/annotate.js:14-36 | No candidate longer than the annotated one, in UTF-16 code units, resolves. |
| Annotate.StopsAtFirstResolving | src/annotate.js:14-22 | When the first resolving candidate does not occur in the text, the node stays unchanged, even if a later candidate would. |
| Annotate.InsideAnnotationLeftAlone | src/annotate.js:10 | A text node with a "spa-ann" element among its ancestors is never annotated, wherever it sits. |
| Annotate.NoReentry | src/annotate.js:10 | Neither the fragment under the inserted name span nor the chip text under the chip span is annotated again. |
| Annotate.KeywordListsNested | src/util.js:14-17 | Every keyword of the extractor's expression in src/annotate.js is a pre-filter keyword. "Celeron" and "Pentium" are only in the pre-filter. |
| Annotate.QualifyingPassesPrefilter | src/util.js:20-23 | A fragment that passes the extractor's keyword test passes the pre-filter. |
| Annotate.CeleronPassesFilterOnly | src/annotate.js:30 | "Celeron" passes the pre-filter but is not a candidate. |
| Annotate.AcceptNode | src/annotate.js:81-89 | A text node is accepted iff all of these hold: the trimmed text has at least 3 UTF-16 code units; there is a parent element; its tag name contains none of SCRIPT, STYLE, NOSCRIPT, TEXTAREA, INPUT, SELECT; it lacks the class "spa-skip". |
| Annotate.AcceptsLetterAndEmoji | src/annotate.js:82 | "a" followed by an emoji, two characters but three code units, is long enough to be scanned. |
| Text.JsLength | src/annotate.js:82 | `.length` counts between one and two code units per character. |
| Text.JsLengthAppend | src/annotate.js:82 | The length of a concatenation is the sum of the lengths. |
| Text.JsLengthOfBmp | src/annotate.js:82 | For text within the Basic Multilingual Plane the length is the number of characters. |
| Text.JsLengthOfEmoji | src/annotate.js:82 | "a" followed by an emoji has length 3. |
| Annotate.SkippedTagMatch | src/annotate.js:86 | The tag test matches iff one of the six names occurs in the tag name. |
| Annotate.SkipsTagsContainingSelect | src/annotate.js:86 | A custom element "X-SELECTOR" is skipped like a `select`. |

## Left out

- src/bg.js is not part of this model: the cross-origin fetch over extension messaging.
- src/content.js is not part of this model: the dynamic-import bootstrap.
- The fetch in `ensureIndex` is a parameter: the rows of the page, or `None` when `bgFetch` throws.
  - The URLs, the messaging and the HTML parsing (`DOMParser`, `querySelectorAll`) are left out.
  - A page is given directly as its body rows of cell texts.
- `Entry.Load` models `Promise.all` as the two calls one after the other, each with its own cache read time and cache write time. `Entry.KindsCommute` shows the order does not matter. Interleavings inside a call are not modelled.
- The `try`/`catch` logging of `run` is not modelled.
- `scanDocument` and `observeMutations` are not modelled beyond `acceptNode` and the per-node step.
  - The reasons: the TreeWalker traversal order and the event-driven mutation observer belong to the browser.
- `chrome.storage.local` is a Dafny `map`. `Date.now()` is a parameter: `now` where `getCached` reads it, `written` where `setCached` reads it.
  - The JSON serialisation of stored payloads is not modelled.
- `Records.ToNumber`: only integer strings are modelled. Strings that `Number()` reads as decimals, signed values, exponents, `Infinity`, or hexadecimal, binary (`0b`) or octal (`0o`) literals become `NaN` in the model, while JavaScript gives their value.
  - Benchmark scores and ranks are digit strings once commas are removed.
  - The value is exact. JavaScript rounds digit strings above 2^53 to the nearest double, so the model differs there.
- `Annotate.ScoreShort`: `Math.round(score / 1000)` is computed on integers as `(score + 500) / 1000`.
  - This agrees with the floating-point result for scores below 10^15. Such a quotient is below 2^40: an exact half is representable, and any other quotient lies at least 0.001 from a half while its rounding error is under 2^-13.
  - Above that, the double division can round across a half and the results may differ. `String()` also switches to exponent notation from 10^21, which `NatToString` does not model.
  - A score that is not a whole number is not modelled.
- `Text.Lower`: lower-casing is ASCII only. `toLowerCase` also maps non-ASCII letters, which only affects which characters `normalizeName` keeps.
  - The whitespace class `\s` and `trim` are modelled with the full JavaScript whitespace set.
- `Text.JsLength`: a string is a sequence of Unicode scalar values, each counted as one or two UTF-16 code units. A JavaScript string holding an unpaired surrogate has no counterpart.
- `Annotate.Aliasing`: `addCommonAliases` and `keyFor` are uninterpreted function parameters. src/annotate.js:1 imports both from src/util.js, but src/util.js exports neither, so the module as written fails to link. The model assumes some definition of each, and every property holds for all of them.
- The DOM is reduced to text nodes, elements with a tag name, class list and children, and other nodes.
  - `nodeType`, `parentElement` and `closest` are read off a node's `Site`. `Site` is a snapshot, not a live tree.
