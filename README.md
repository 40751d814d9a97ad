# tame-search topic index, modelled in Dafny

`tame-search` is an in-memory topic index for publish/subscribe routing.
Records are subscribed under slash-separated topics or patterns, in which a
segment may be the wildcard `*`. A query topic is answered by probing a short
list of candidate keys: the topic itself, then the topic with its last
segments replaced by `*`. The records stored under those keys are
concatenated in candidate order. Two memo caches sit in front of this: one
for what each key yields, one for the candidate list of each query topic.

The project models three parts of the repository:

- `lib/index.js` is the `TameSearch` class. It is modelled imperatively as
  class `Index.TameSearch`. The store and both caches are `map` fields that
  the methods reassign.
- `lib/util.js` is the same candidate generator as a standalone function. It
  is modelled as the method `Generator.WildcardPermutations`, proved equal to
  the recursive specification `Generator.Permutations`.
- `test/__fixtures/util.js` is the test fixture's complete 2^k wildcard
  enumerator, built from little-endian bit vectors. It is modelled as the
  methods `Fixture.BinaryCombinations`, `Fixture.CheckMask` and
  `Fixture.WildcardPermutations`, each proved against a specification
  function.

Modules:

| module | file | contents |
|---|---|---|
| `Wrappers` | wrappers.dfy | `Option`: an argument or property that may be missing |
| `Text` | text.dfy | JavaScript's `split('/')` and `join('/')`, and their inverse laws |
| `Generator` | generator.dfy | the suffix-wildcard generator (`lib/util.js`, duplicated in `lib/index.js`) |
| `Fixture` | fixture.dfy | the fixture's bit-vector enumerator |
| `Agreement` | agreement.dfy | each generator candidate is an entry of the fixture's enumeration |
| `Lists` | lists.dfy | `sift` as a predicate filter, `indexOf`, `splice(i, 1)` |
| `Index` | index.dfy | the `TameSearch` class |

JavaScript shares arrays by reference, so a search-cache entry is one of two
things:

- `SharedList` is the very array the store holds under the key. A reader sees
  the store's current list, because `subscribe` pushes into that array and a
  filtered `unsubscribe` splices it.
- `DetachedEmpty` is the fresh `[]` that `getValue` creates for a key the
  store did not hold (lib/index.js:70). It stays empty whatever is
  subscribed later.

The model does not claim that the cache is coherent, because it is not.
After a search has cached `[]` for a pattern, the first subscription under
that pattern is invisible to the same search: `Index.StaleAfterFirstSubscribe`
shows this. What is proved is weaker. A shared entry always shows the
store's list. While no cached `[]` is stale (`Index.NoStale`), a search
returns exactly the records stored under its candidates.

The generator only ever produces suffix wildcards. A record stored under
`/*/x` is never found by the query `/a/x` (`Index.SuffixOnlySearch`). A
query whose last segment is `*` is listed again as its own last candidate
(`Generator.LastSegmentStar`), so a search reads that key twice; for `/*` the
doubled result is proved in `Index.DuplicateResults`.

`subscribe` never touches either cache (lib/index.js:59-64); only
`unsubscribe` evicts its own topic from the search cache (lib/index.js:37).

## Model

| member | source | states |
|---|---|---|
| Index.Defaults | lib/index.js:135-143 | each capacity option is truthy afterwards; a supplied truthy value is kept; a missing options object, or a missing or 0 capacity, becomes 5000 |
| Index.DefaultsIdempotent | lib/index.js:135-143 | applying the defaults to defaulted options changes nothing |
| Index.TameSearch.constructor | lib/index.js:17-33 | the options are the defaulted ones, and the store and both caches start empty |
| Index.TameSearch.Subscribe | lib/index.js:59-64 | exactly one record is appended at the end of the topic's list, which is created when absent; every other list and both caches are unchanged |
| Index.SubscribeView | lib/index.js:59-72 | after a subscribe, the topic yields one more record through the cache unless a stale `[]` is cached for it; every other key yields what it did |
| Index.SubscribeNoStale | lib/index.js:59-72 | a subscribe keeps every cache entry current exactly when the topic is not cached as a detached `[]` |
| Index.TameSearch.Unsubscribe | lib/index.js:35-57 | the topic is always evicted from the search cache; a missing or empty list returns 0 and leaves the store alone; without a filter the key is deleted and its former length returned; with a filter the selected records are removed, survivors keep their order, the key stays and the number removed is returned; no stale entry is introduced |
| Index.TameSearch.RemoveSelected | lib/index.js:48-56 | splicing each `sift`-selected record out at its `indexOf` leaves exactly the rejected records and removes as many records as were selected |
| Lists.DropStep | lib/index.js:52-54 | after the first k selected records are gone, `indexOf` finds the next one (never -1) and splicing it out removes it and nothing else |
| Lists.DropAll | lib/index.js:48-54 | removing as many matches as `sift` selected leaves exactly the records the filter rejects |
| Lists.DropNone | lib/index.js:48-54 | before any splice the list is unchanged |
| Lists.SelectRejectPartition | lib/index.js:48-56 | the selected and rejected records partition the list, as multisets and in count, so the count returned plus the survivors is the old length |
| Lists.Select | lib/index.js:48 | `sift` keeps only records satisfying the filter, and every record of the list that satisfies it |
| Lists.Reject | lib/index.js:48-54 | the survivors are exactly the list's records the filter rejects |
| Lists.IndexOf | lib/index.js:53 | `indexOf` is -1 exactly when the record is absent, otherwise the first position holding it |
| Lists.SpliceOne | lib/index.js:53 | `splice(i, 1)` removes position i; a start of -1 would remove the last record |
| Lists.SelectAppend | lib/index.js:84-87 | filtering the concatenation equals concatenating the filtered parts |
| Index.TameSearch.GetValue | lib/index.js:66-75 | returns the cached value on a hit and the store's list or a fresh `[]` on a miss; the miss is recorded in the search cache; the store and the candidate cache are unchanged |
| Index.RememberKeeps | lib/index.js:66-75 | caching a miss changes what no key yields, covers the key read and keeps every earlier entry |
| Index.RememberAllKeepsView | lib/index.js:82-85 | reading any candidates through the cache never changes what any key yields afterwards |
| Index.RememberAllCovers | lib/index.js:82-85 | after a search every candidate is cached and every earlier entry is kept |
| Index.RememberAllSound | lib/index.js:66-75 | caching never creates a stale entry, nor a shared entry for a key the store lacks |
| Index.NoStaleView | lib/index.js:66-75 | while no cached `[]` is stale, what a key yields through the search cache is exactly the store's current list for it |
| Index.TameSearch.Search | lib/index.js:77-92 | the result is the concatenation, in candidate order, of what each candidate yielded before the search, narrowed by the filter when one is given; the store is unchanged; the candidate list and the searched keys are cached |
| Index.TameSearch.GatherValues | lib/index.js:82-85 | concatenates `getValue` over the candidates in order and caches each one |
| Index.GatherSnoc | lib/index.js:82-85 | one more candidate appends exactly what it yields |
| Index.GatherCoherent | lib/index.js:66-85 | while no cached `[]` is stale, gathering through the cache equals collecting the store's lists directly |
| Index.CollectedMembers | lib/index.js:82-85 | a record is collected exactly when it is stored under one of the candidates |
| Index.CoherentSearch | lib/index.js:77-92 | while no cached `[]` is stale, a search returns a record exactly when it is stored under one of the query's candidate keys |
| Index.DuplicateResults | lib/index.js:82-85 | the query `/*` returns what `/*` yields twice |
| Index.SuffixOnlySearch | lib/index.js:82-85 | the query `/a/x` reads only `/a/x`, `/*/*` and `/a/*` |
| Index.StaleAfterFirstSubscribe | lib/index.js:59-75 | on a fresh index: search `/a`, subscribe `/a`, search `/a` again; both searches return nothing while the store holds the record |
| Index.FirstSearchOfA | lib/index.js:66-85 | on an empty index, the search for `/a` finds nothing and caches `[]` for `/a` and `/*` |
| Index.SecondSearchOfA | lib/index.js:66-85 | with `[]` cached for both candidates, the search for `/a` finds nothing although `/a` holds a record |
| Index.TameSearch.GetWildcardPermutations | lib/index.js:94-133 | a hit and a miss both return the pure generator's list; a miss caches it |
| Generator.WildcardPermutations | lib/util.js:2-37 | the generator returns `Permutations(topic)`: the topic, then one candidate per segment count kept |
| Generator.StripSeparators | lib/util.js:4-17 | removes exactly one leading and one trailing `/` and reports which were there |
| Generator.Possibilities | lib/util.js:20-34 | the outer loop lists the topic, then candidates 0 .. n-1 in order |
| Generator.Possibility | lib/util.js:24-31 | one possibility is the first i segments, then n - i wildcards, joined and re-wrapped |
| Generator.PermutationsShape | lib/util.js:20-34 | n + 1 entries; entry 0 is the topic unchanged; entry i + 1 is the first i segments followed by n - i wildcards |
| Generator.CandidatesAt | lib/util.js:22-33 | candidates are listed in the order i = 0, 1, ... |
| Generator.CandidateSegments | lib/util.js:24-31 | every candidate re-parses to exactly n segments, the first i of the topic's then wildcards, with the topic's leading and trailing `/` restored |
| Generator.StripCandidate | lib/util.js:9-31 | stripping a candidate recovers the topic's separators and the joined segments |
| Generator.CandidateBody | lib/util.js:24-28 | a joined candidate ends in `*` and starts with `/` only when the topic had a leading `/` |
| Generator.StripWrap | lib/util.js:9-17 | stripping undoes re-wrapping for a body that cannot be mistaken for a separator |
| Generator.WrapStrip | lib/util.js:9-17 | re-wrapping a stripped topic gives the topic back |
| Generator.HeadSegment | lib/util.js:9-19 | without a leading `/`, an empty first segment only comes from an empty body |
| Generator.BodyHead | lib/util.js:9-17 | without a leading `/`, the stripped body starts with the topic's first character |
| Generator.FirstAndLastCandidates | lib/util.js:22-26 | candidate 1 is all wildcards; the last candidate replaces only the final segment |
| Generator.TwoSegmentShape | lib/util.js:9-19 | a rooted two-segment topic strips and splits to its two segments |
| Generator.TwoCandidates | lib/util.js:24-31 | the two candidates of a rooted two-segment topic are `/*/*` and the first segment followed by `/*` |
| Generator.TwoSegments | lib/util.js:2-37 | a rooted two-segment topic yields itself, `/*/*`, and its first segment followed by `/*` |
| Generator.OnlySuffixWildcards | lib/util.js:22-34 | `/a/x` yields `/a/x`, `/*/*`, `/a/*`, so never `/*/x` |
| Generator.OneSegment | lib/util.js:2-37 | a rooted one-segment topic yields itself and `/*` |
| Generator.DuplicateCandidates | lib/util.js:22-34 | `/*` yields `/*` twice |
| Generator.LastSegmentStar | lib/util.js:22-34 | a topic whose last segment is `*` is listed again as its own last candidate, so it appears both first and last |
| Text.Split | lib/util.js:19 | `split('/')` always yields at least one piece |
| Text.SplitHasNoSeparator | lib/util.js:19 | no piece of a split holds `/` |
| Text.JoinSplit | lib/util.js:19-28 | joining the pieces of a split gives the string back |
| Text.Join | lib/util.js:28 | `join('/')` has at least one character per separator; Text.JoinSplit and Text.SplitJoin show it inverts `split('/')` on separator-free pieces |
| Text.SplitJoin | lib/util.js:19-28 | splitting joined separator-free pieces gives the pieces back |
| Text.SplitSegment | lib/util.js:19 | a string without `/` splits to itself |
| Text.SplitAfterSegment | lib/util.js:19 | a separator-free piece followed by `/` splits off as one segment |
| Text.SplitTrailingSeparator | lib/util.js:14-19 | a trailing `/` adds one empty last piece |
| Text.JoinTrailingEmpty | lib/util.js:28-31 | joining with an extra empty last piece appends `/` |
| Text.JoinEndsWithLast | lib/util.js:28 | the joined string ends with the last piece |
| Text.JoinStartsWithHead | lib/util.js:28 | the joined string starts with the first piece |
| Text.SplitHeadEmpty | lib/util.js:19 | the first piece is empty only for an empty string or a leading `/` |
| Fixture.BinaryCombinations | test/__fixtures/util.js:11-22 | 2^n combinations; combination y is `Combo(y, n)`, the low n bits of y, least significant first |
| Fixture.Bit | test/__fixtures/util.js:16 | `(y >> x) & 1` is 0 or 1 |
| Fixture.Pow2 | test/__fixtures/util.js:14 | `Math.pow(2, n)` is positive and exceeds n; Fixture.CombinationsDistinct and Fixture.ComboOfValue show the counters below it give pairwise distinct n-bit combinations, and every 0/1 sequence of length n among them |
| Fixture.ComboTail | test/__fixtures/util.js:16 | the first entry is the lowest bit and the rest is the combination of y / 2 |
| Fixture.ComboValue | test/__fixtures/util.js:14-16 | combination y read as a little-endian number is y |
| Fixture.CombinationsDistinct | test/__fixtures/util.js:14-16 | entries are 0 or 1, and distinct counters give distinct combinations |
| Fixture.ValueBound | test/__fixtures/util.js:14-16 | a 0/1 sequence of length n spells a counter value below 2^n |
| Fixture.ComboOfValue | test/__fixtures/util.js:11-22 | every 0/1 sequence of length n is the combination of the value it spells, so `binaryCombinations(n)` lists it |
| Fixture.BitOfZero | test/__fixtures/util.js:16 | every bit of 0 is clear |
| Fixture.BitOfAllOnes | test/__fixtures/util.js:16 | every bit below n of 2^n - 1 is set |
| Fixture.FirstAndLastCombinations | test/__fixtures/util.js:14-16 | the first combination is all zeros and the last all ones |
| Fixture.CheckMask | test/__fixtures/util.js:2-10 | true when the mask is absent, otherwise true exactly when some position sums to 2 in mask and combination |
| Fixture.Sum | test/__fixtures/util.js:35 | `eval(mask.join('+'))` on numbers: a positive sum needs a positive entry, and entries that are all non-negative give a sum that is not negative |
| Fixture.KeepCombination | test/__fixtures/util.js:35 | a combination is skipped exactly when a mask with a positive sum has no position where it and the combination sum to 2 |
| Fixture.Possibility | test/__fixtures/util.js:37-43 | segment j becomes `*` exactly where combination entry j is 1, and stays the original segment elsewhere |
| Fixture.WildcardPermutations | test/__fixtures/util.js:23-49 | the result is the rendering of every kept combination, in counter order |
| Fixture.VisitAll | test/__fixtures/util.js:33-46 | the outer `forEach` pushes, combination by combination in order, the rendering of each kept one and nothing for the others |
| Fixture.Visit | test/__fixtures/util.js:35-45 | one `forEach` body pushes the rendering of its combination when it is kept, and nothing when the mask check returns early |
| Fixture.ExpandSnoc | test/__fixtures/util.js:33-46 | one more combination appends its rendering exactly when it is kept |
| Fixture.ExpandUnmasked | test/__fixtures/util.js:33-46 | without a mask every combination is rendered, in order |
| Fixture.ExpandNonPositiveMask | test/__fixtures/util.js:35 | a mask summing to 0 or less, such as all zeros or empty, filters nothing |
| Fixture.ExpandMembers | test/__fixtures/util.js:33-46 | a string is in the result exactly when it renders some kept combination |
| Fixture.UnmaskedPermutations | test/__fixtures/util.js:29-45 | without a mask there are 2^k strings; for k ≥ 1, string y re-splits to k segments, segment j being `*` where bit j of y is 1 and the original segment elsewhere |
| Fixture.NoSeparatorTopic | test/__fixtures/util.js:29-45 | a topic without `/` has no segments (k = 0), and its single string is `/`, which re-splits to one empty segment rather than zero |
| Fixture.ApplyFirstAndLast | test/__fixtures/util.js:33-43 | the all-zero combination keeps every segment; the all-one combination stars them all |
| Fixture.RenderTopic | test/__fixtures/util.js:29-45 | for a topic starting with `/`, `/` followed by the joined segments is the topic |
| Fixture.FirstAndLastPermutations | test/__fixtures/util.js:29-45 | the first string is `/` plus the joined segments, which is the topic when it starts with `/`; the last is all wildcards |
| Fixture.MaskedPermutations | test/__fixtures/util.js:35 | a mask with a positive sum keeps exactly the combinations that sum to 2 with it at some position; a mask summing to 0 or less filters nothing |
| Agreement.Pow2Monotone | test/__fixtures/util.js:14 | 2^i is at most 2^n for i at most n |
| Agreement.BitAbove | test/__fixtures/util.js:16 | a counter below 2^x has bit x clear |
| Agreement.BitAboveHigher | test/__fixtures/util.js:16 | a counter below 2^n has every bit from n on clear |
| Agreement.SuffixBits | test/__fixtures/util.js:16 | the bits of 2^n - 2^i below n are 0 below i and 1 from i on |
| Agreement.SuffixCombo | test/__fixtures/util.js:14-16 | combination 2^n - 2^i is 1 exactly at positions i .. n-1 |
| Agreement.ApplySuffix | test/__fixtures/util.js:39-43 | applying that combination keeps the first i segments and stars the next n - i |
| Agreement.FixtureSegmentsOfRooted | test/__fixtures/util.js:29 | for a topic starting with `/`, the fixture's segments are the split of the rest |
| Agreement.RootedSegments | test/__fixtures/util.js:29 | a rooted topic's fixture segments are the generator's, plus an empty one after a trailing `/` |
| Agreement.RenderSuffix | test/__fixtures/util.js:45 | rendering the suffix combination gives the generator's candidate |
| Agreement.SuffixEntry | test/__fixtures/util.js:29-45 | entry 2^n - 2^i of the unmasked fixture list is the generator's candidate with i segments kept |
| Agreement.CandidateInFixture | lib/util.js:22-34 | generator candidate i + 1 is fixture entry 2^n - 2^i |
| Agreement.GeneratorWithinFixture | lib/util.js:2-37 | for a topic starting with `/`, every generator candidate is in the fixture's unmasked list |

## Left out

- LRU capacity and eviction (`lru-cache`, lib/index.js:3, 28-29): both caches are unbounded maps, and the capacities are only recorded as option values. An eviction only turns a later hit into a miss. A miss recomputes the same candidate list, or for the search cache re-reads the store.
- The `sift` query language (lib/index.js:4, 48, 87) is reduced to a predicate over records, supplied as an optional parameter.
- `fast-clone` (lib/index.js:5, 63, 89) and the `clone` search option are the identity on Dafny values. Live references versus copies are not modelled. The same holds for `indexOf`'s reference identity, which becomes value equality: equal records satisfy a filter alike, so the spliced list is the same.
- `Object.defineProperty` (lib/index.js:19-20, 32): non-enumerable, read-only properties are JavaScript object plumbing.
- Index.Defaults returns the defaulted options rather than mutating the caller's object in place. Capacity options are integers: non-numeric values (strings, `NaN`, `false`, `null`) are not modelled, so falsy means missing or 0.
- Topics that collide with JavaScript object prototype keys (such as `constructor`) are treated as ordinary keys.
- Fixture.Bit is `(y >> x) & 1` for the counters the fixture can reach. The 32-bit wrap of `>>` for n > 31 is not modelled.
- Fixture.CheckMask and Fixture.Sum treat mask entries as integers. The `eval(mask.join('+'))` of non-numeric entries, or of an empty mask (`undefined`), is modelled as the integer sum, with 0 for the empty mask. Both give "not greater than 0".
- Index.TameSearch.Valid does not claim general search-cache coherence. Only shared entries are tied to the store, because the code keeps a stale `[]` after the first subscription under a searched pattern.
- test/integration.js and test/unit.js exercise an API that lib/index.js does not implement (subscriber keys, `subscribeAny`, `searchAll`, `**` expansion, topic validation, `getWildcardCombinations`). That API is not part of this model. test/performance.js is not part of this model.
