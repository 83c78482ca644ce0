# Data map core, modelled in Dafny

This project models the in-memory core of a data-map viewer. The viewer shows an inventory of
*systems*. Each system has a `fides_key`, a `system_type` and privacy declarations, and each
declaration names dotted data-category paths and a `data_use`. The core computes the following:

- **Dedup**: the inventory without repeated keys.
- **Short category**: the name of a category, which is the last segment of its dotted path.
- **Option lists**: the sorted, duplicate-free lists of data uses and short categories offered
  by the filters.
- **Filters**: by data use and by category. An empty selection means no filtering.
- **Grouping**: the sections of the page, which are buckets by system type or by data use.
- **Connections**: for a hovered card, the cards that share a short category with it, and the
  set of card ids to highlight.

Modules, one per file:

- `Seqs` (`seqs.dfy`): subsequences, order-preserving filter, first-occurrence dedup by key,
  first- and last-match lookup, and first-seen distinct elements (the iteration order of a
  JavaScript `Set`).
- `Strings` (`strings.dfy`): the default string order of `Array.prototype.sort`, sorting of a
  duplicate-free list, and `split`/`join` on one character.
- `Types` (`types.dfy`): the records of src/types/dataMap.ts.
- `DataMap` (`datamap.dfy`): src/utils/dataMap.ts up to `applyFilters`.
- `Grouping` (`grouping.dfy`): `groupSystems`. A JavaScript `Map<string, System[]>` is modelled
  as its keys in insertion order plus a map from key to bucket.
- `CategoryConnectors` (`categoryconnectors.dfy`): `getConnectionsForHovered` and
  `getRelatedCardIds`.
- `GroupingExamples` and `ConnectorExamples`: the scenarios of the unit tests, plus the
  counterexample behind the finding below.

Where the source keeps state in a loop (the dedup `seen` set, the `Set`s of the option lists,
the buckets of `groupSystems` and the `seen` set and `conns` array of the connection scan),
the model is a method with the same loop. The loop invariant ties each method to a recursive
specification function over the prefix it has read. The properties are proved about those
functions. The expression-only code (`extractShortCategory`, the filters, `applyFilters`) is
modelled as functions. The connection scan is the one exception to "the same loop": the method
`GetConnectionsForHovered` deduplicates by the unordered pair of ids, not by the joined string
that `getConnectionsForHovered` builds, because the joined string drops connections (see
"## Findings"). The scan as written is modelled too, as the function `ConnectionsAsWritten`,
and `RelatedIdsAsWritten` gives the ids it highlights.

Selecting more values does not always grow the filter result. An empty selection disables a
filter, so going from no selection to one value can drop systems. The monotonicity lemmas
therefore start from a non-empty selection.

## Model

| member | source | states |
|---|---|---|
| Seqs.KeepFirst | src/utils/dataMap.ts:7-13 | keeping each element whose key was not seen before gives a subsequence with pairwise-distinct keys, the same key set as the input, and, for every key, the first input element bearing it |
| Seqs.Filter | src/utils/dataMap.ts:65-69 | `Array.prototype.filter`: a subsequence whose elements all pass, holding every passing element as often as the input does and no failing one |
| Seqs.Distinct | src/utils/dataMap.ts:116-118 | the elements of a `Set` built from a list: duplicate-free, the same members, and a subsequence of the list |
| Seqs.DistinctFirstSeenOrder | src/utils/dataMap.ts:116-118 | the order is first-seen order: of two elements of the result, the earlier occurs in the list before the later one first does |
| Seqs.KeepFirstOrder | src/utils/dataMap.ts:7-13 | the kept records are in first-seen order of their keys: the earlier one occurs in the input before any record with the later one's key |
| Seqs.LastWith | src/components/CategoryConnectors.tsx:31-32 | a `Map` built from key/value pairs keeps the last value for a key; absent exactly when no element has the key |
| Seqs.FilterCommute | src/utils/dataMap.ts:85-98 | two filters applied in either order give the same list |
| Strings.Sort | src/utils/dataMap.ts:34 | sorting a duplicate-free list gives a strictly ascending list with the same elements and the same length |
| Strings.SortedUnique | src/utils/dataMap.ts:34 | two strictly ascending lists with the same elements are equal, so the sorted output does not depend on insertion order |
| Strings.LessTotal | src/utils/dataMap.ts:34 | the string order is total and asymmetric |
| Strings.LessTransitive | src/utils/dataMap.ts:34 | the string order is transitive |
| Strings.JoinSplit | src/utils/dataMap.ts:21 | joining the pieces of a split by the separator gives back the string |
| Strings.SplitJoin | src/utils/dataMap.ts:21 | splitting a join of separator-free pieces gives back the pieces |
| Strings.SplitLast | src/utils/dataMap.ts:21-22 | the last piece of a split is separator-free and a suffix of the string, is preceded by the separator when shorter than the string, and is the whole string when there is no separator |
| DataMap.ExtractShortCategory | src/utils/dataMap.ts:20-23 | the result has no `.`, is a suffix of the path preceded by `.` when shorter, and a path without `.` is returned unchanged |
| DataMap.ExtractShortCategoryIdempotent | src/utils/dataMap.ts:20-23 | applying it twice equals applying it once |
| DataMap.ExtractShortCategoryOfPath | src/utils/dataMap.ts:20-23 | for any parent path, `parent.leaf` with a dot-free leaf maps to the leaf |
| DataMap.ExtractShortCategoryExamples | src/utils/dataMap.test.ts:15-29 | `user.derived.identifiable.location` gives `location`, `email` gives `email`, and the empty string gives the empty string |
| DataMap.ParseAndDedupe | src/utils/dataMap.ts:6-14 | the output is a subsequence of the input with pairwise-distinct keys and the same key set, holding for each key its first record |
| DataMap.GetUniqueDataCategories | src/utils/dataMap.ts:27-35 | strictly ascending, and it holds exactly the short names of all categories of all declarations; empty for a system without declarations |
| DataMap.GetUniqueDataUses | src/utils/dataMap.ts:38-46 | strictly ascending, and it holds exactly the data uses of all declarations of all systems |
| DataMap.GetUniqueDataCategoriesList | src/utils/dataMap.ts:49-57 | strictly ascending, and it holds exactly the union of the per-system short-category sets |
| DataMap.FilterByDataUse | src/utils/dataMap.ts:60-70 | an empty selection returns the input; otherwise the result keeps, in order and with their multiplicity, exactly the systems with a declaration whose use is selected |
| DataMap.FilterByDataCategories | src/utils/dataMap.ts:73-82 | an empty selection returns the input; otherwise the result keeps, in order and with their multiplicity, exactly the systems whose short-category set meets the selection |
| DataMap.ApplyFilters | src/utils/dataMap.ts:85-98 | the use filter then the category filter; a subsequence of the input; no selection returns the input; a system is kept exactly when it passes both non-empty dimensions |
| DataMap.FiltersCommute | src/utils/dataMap.ts:85-98 | running the category filter first gives the same result |
| DataMap.FilterByDataUseMonotone | src/utils/dataMap.ts:60-70 | from a non-empty selection, selecting more uses gives a result of which the old one is a subsequence |
| DataMap.FilterByDataCategoriesMonotone | src/utils/dataMap.ts:73-82 | from a non-empty selection, selecting more categories gives a result of which the old one is a subsequence |
| DataMap.ApplyFiltersMonotone | src/utils/dataMap.ts:85-98 | growing both selections, without switching an empty one on, gives a result of which the old one is a subsequence |
| Grouping.PushValid | src/utils/dataMap.ts:110-112 | `get ?? []`, `push`, `set` keeps the keys duplicate-free and in step with the entries, and adds one system to the total |
| Grouping.PushAllTracks | src/utils/dataMap.ts:125-129 | pushing onto a list of buckets leaves as keys the distinct pushed keys in first-seen order, with one stored system per push |
| Grouping.PushAllGet | src/utils/dataMap.ts:125-129 | pushing onto a duplicate-free list of buckets appends the system once to each of those buckets and changes no other |
| Grouping.PushEach | src/utils/dataMap.ts:125-129 | the inner loop pushes the system onto each bucket of the list in order |
| Grouping.InBucketMeaning | src/utils/dataMap.ts:107-131 | by type a system belongs to its raw `system_type` only; by use to each declared use, or to `(no data use)` when it has no declarations |
| Grouping.DataUseBucketCount | src/utils/dataMap.ts:116-130 | by use, a system with declarations is pushed once per distinct data use |
| Grouping.SystemTypeKeysCount | src/utils/dataMap.ts:107-113 | by type, every system is pushed exactly once |
| Grouping.GroupSpecProperties | src/utils/dataMap.ts:102-134 | the keys are the distinct bucket keys in first-seen order; each bucket is the input filtered by membership, so input order is kept; no bucket is empty; the sizes add up to the number of pushes |
| Grouping.GroupSystems | src/utils/dataMap.ts:102-134 | the loop computes the groups of the specification; keys in first-seen order; each bucket is the order-preserving filter of the systems that belong to it; no empty bucket; by type the sizes add up to the number of systems |
| GroupingExamples.GroupBySystemTypeExample | src/utils/dataMap.test.ts:331-361 | two applications and a database give the buckets `[a, b]` and `[c]`, in that key order |
| GroupingExamples.GroupByDataUseExample | src/utils/dataMap.test.ts:363-380 | a system declaring advertising and analytics is alone in each of those two buckets |
| GroupingExamples.GroupWithoutDataUseExample | src/utils/dataMap.test.ts:382-395 | a system without declarations is alone in `(no data use)` |
| CategoryConnectors.LookupLast | src/components/CategoryConnectors.tsx:31-33 | the lookup is absent exactly when no system has the id, and otherwise returns a system of the list with that key |
| CategoryConnectors.JoinedPairKey | src/components/CategoryConnectors.tsx:44 | the key of a pair as written is one id, `--`, then the other, so its length is the two lengths plus two |
| CategoryConnectors.JoinedPairKeySymmetric | src/components/CategoryConnectors.tsx:44 | sorting before joining makes the key the same whichever of the two cards is hovered |
| CategoryConnectors.PairKeyInjective | src/components/CategoryConnectors.tsx:44-45 | for a fixed hovered id, different partners have different unordered pair keys |
| CategoryConnectors.RelatedKeys | src/components/CategoryConnectors.tsx:39-43 | a key is listed exactly when it differs from the hovered id and some system with that key shares a short category with the hovered system |
| CategoryConnectors.Scan | src/components/CategoryConnectors.tsx:36-50 | every connection goes from the hovered id to a different id |
| CategoryConnectors.ScanTargets | src/components/CategoryConnectors.tsx:35-50 | with a key that tells partners apart, the targets are the distinct related keys in input order, and the seen set holds exactly their keys |
| CategoryConnectors.ScanSound | src/components/CategoryConnectors.tsx:39-50 | whatever the dedup key, the scan's targets are duplicate-free and a subsequence of the related keys, and the key of each target is in the seen set |
| CategoryConnectors.ConnectionsAsWritten | src/components/CategoryConnectors.tsx:27-52 | `getConnectionsForHovered` with its joined-string key: no connections for an unknown id; each goes from the hovered id to another id; the targets are duplicate-free and a subsequence of the related keys (complete only when no joined keys collide) |
| CategoryConnectors.ConnectionsTargets | src/components/CategoryConnectors.tsx:31-51 | no connections when the hovered id is not a system key; otherwise the targets are distinct and are exactly the related keys, in first-seen order |
| CategoryConnectors.SharedIffRelated | src/components/CategoryConnectors.tsx:41-42 | `some(c => categoriesY.has(c))` holds exactly when the two short-category sets intersect |
| CategoryConnectors.GetConnectionsForHovered | src/components/CategoryConnectors.tsx:27-52 | the loop computes the connection list of the specification; every connection has `from` equal to the hovered id and `to` different from it |
| CategoryConnectors.RelatedIdsOfConnections | src/components/CategoryConnectors.tsx:14-25 | the highlighted ids are the hovered id plus the targets of its connections |
| CategoryConnectors.RelatedIdsAsWritten | src/components/CategoryConnectors.tsx:14-25 | the ids highlighted with the joined-string connections contain the hovered id and are among the ids `RelatedIds` names |
| CategoryConnectors.AsWrittenTargetsRelated | src/components/CategoryConnectors.tsx:14-52 | every target of a joined-key connection is a related id |
| CategoryConnectors.GetRelatedCardIds | src/components/CategoryConnectors.tsx:14-25 | the result is the hovered id plus the key of every other system related to it, and always contains the hovered id |
| CategoryConnectors.RelatedIdsSymmetric | src/components/CategoryConnectors.tsx:35-42 | with distinct keys, `b` highlighted for `a` implies `a` highlighted for `b` |
| ConnectorExamples.NoSharedCategory | src/components/CategoryConnectors.test.tsx:44-52 | `a` with `location` and `b` with `email` highlight only `a` |
| ConnectorExamples.SharedCategory | src/components/CategoryConnectors.test.tsx:32-42 | `a` with `location, email`, `b` with `location` and `c` with `cookie_id` highlight `a` and `b` |
| ConnectorExamples.UnknownHoveredId | src/components/CategoryConnectors.test.tsx:54-61 | an id no system has highlights only itself |
| ConnectorExamples.DashedKeysCollide | src/components/CategoryConnectors.tsx:44 | the joined keys of (`--a--`, `--a`) and (`--a--`, `a--`) are the same string |
| ConnectorExamples.AsWrittenOfThree | src/components/CategoryConnectors.tsx:44-48 | when the joined keys of two related partners collide, the written code connects only the first |
| ConnectorExamples.CorrectedOfThree | src/components/CategoryConnectors.tsx:44-48 | with the unordered-pair key, both related partners are connected |
| ConnectorExamples.JoinedPairKeyCollision | src/components/CategoryConnectors.tsx:44-48 | on the three dashed keys the written code connects `--a--` to `--a` only, while the corrected one connects it to `--a` and `a--` |
| ConnectorExamples.FirstPartnerConnected | src/components/CategoryConnectors.tsx:39-48 | with an empty seen set the first related partner is always connected, so hovering the last of three systems connects it to the first when they are related |
| ConnectorExamples.AsWrittenIdsOfTargets | src/components/CategoryConnectors.tsx:14-25 | the ids highlighted as written are the hovered id and the targets of the joined-key connections |
| ConnectorExamples.RelatedIdsOfTargets | src/components/CategoryConnectors.tsx:14-25 | the corrected highlighted ids are the hovered id and its connection targets |
| ConnectorExamples.AsWrittenHighlightsOfThree | src/components/CategoryConnectors.tsx:14-52 | when two partners' joined keys collide, only the hovered id and the first partner are highlighted as written |
| ConnectorExamples.CorrectedHighlightsOfThree | src/components/CategoryConnectors.tsx:14-52 | with the unordered-pair key, the hovered id and both partners are highlighted |
| ConnectorExamples.OneSidedOfThree | src/components/CategoryConnectors.tsx:14-52 | in that situation, hovering the dropped partner highlights the hovered card, but not the other way round |
| ConnectorExamples.JoinedPairKeyHighlights | src/components/CategoryConnectors.tsx:14-52 | hovering `--a--` highlights `--a--` and `--a` as written, but `--a--`, `--a` and `a--` with the corrected key |
| ConnectorExamples.JoinedPairKeyNotSymmetric | src/components/CategoryConnectors.tsx:14-52 | as written, hovering `a--` highlights `--a--`, while hovering `--a--` does not highlight `a--` |

## Left out

- The bundled `sample.json` import and its cast (src/utils/dataMap.ts:2,8). These are file input. `DataMap.ParseAndDedupe` takes the raw list as a parameter.
- The default-exported React component of src/components/CategoryConnectors.tsx (lines 54-131). It is DOM measurement, floating-point geometry, SVG paths and animation frames.
- src/routes/index.tsx, src/components/DataMapFilters.tsx, src/components/SystemCard.tsx and vite.config.ts. They are page composition, UI state, rendering and build configuration. Their locale-dependent section ordering is presentation.
- Strings.Less: Dafny compares characters by code point, while `Array.prototype.sort` compares UTF-16 code units. The two orders differ only for pairs where one character lies outside the Basic Multilingual Plane.
- Strings.Sort: specified and proved only for duplicate-free lists. Every list the core sorts comes from a `Set`.
- DataMap.FilterByDataUseMonotone: assumes a non-empty starting selection. An empty selection disables the filter, so the unrestricted claim is false.
- DataMap.FilterByDataCategoriesMonotone: assumes a non-empty starting selection, for the same reason.
- DataMap.ApplyFiltersMonotone: assumes that a selection which is empty stays empty, for the same reason.
- Grouping.GroupSystems: a bucket is a value updated in the map. The model does not capture that the source pushes onto the very array object held by the `Map`. No other code holds those arrays, so the result is the same.
- CategoryConnectors.GetConnectionsForHovered: deduplicates by the unordered pair of ids, not by the joined string of src/components/CategoryConnectors.tsx:44, so on colliding ids it returns more connections than the source. The source's own result is `CategoryConnectors.ConnectionsAsWritten` (see "## Findings").
- CategoryConnectors.GetConnectionsForHovered: short-circuiting of `some` and the conversion of the category lists to `Set`s are modelled as membership tests. Neither is observable.
- CategoryConnectors.GetRelatedCardIds: uses the connections of the unordered-pair key, so on colliding ids it highlights more cards than the source does. The source's own result is `CategoryConnectors.RelatedIdsAsWritten`, which is a subset of it.
- CategoryConnectors.GetRelatedCardIds: returns a mathematical set, so the insertion order of the JavaScript `Set` is not modelled. Callers only test membership and size.
- CategoryConnectors.RelatedIdsSymmetric: holds for the unordered-pair key only. With the joined-string key of the source, highlighting is one-sided on colliding ids (`ConnectorExamples.JoinedPairKeyNotSymmetric`).
- The fields `description`, `name`, `data_subjects` and `system_dependencies` are carried but never read.

## Findings

| source | as written | input that shows it | evidently intended | confidence | as-written member | corrected member |
|---|---|---|---|---|---|---|
| src/components/CategoryConnectors.tsx:44-46 | the dedup key of a pair is the two sorted ids joined by `--`, which is not injective when ids contain `--` | hovered `--a--`, and systems `--a` and `a--`, all declaring the same category: both pairs get the key `--a----a--`, so `a--` gets no connection and is not highlighted; yet hovering `a--` highlights `--a--`, so highlighting is not symmetric | one connection per distinct related partner, keyed by the unordered pair itself | not executed; follows from the proved lemmas, though real keys with `--` may be rare | CategoryConnectors.ConnectionsAsWritten, CategoryConnectors.RelatedIdsAsWritten, ConnectorExamples.JoinedPairKeyCollision, ConnectorExamples.JoinedPairKeyHighlights, ConnectorExamples.JoinedPairKeyNotSymmetric | CategoryConnectors.GetConnectionsForHovered, CategoryConnectors.ConnectionsTargets, CategoryConnectors.GetRelatedCardIds, CategoryConnectors.RelatedIdsSymmetric |
