# Trie versus linear search: a verified model

This project models the core of a small browser benchmark (`main.js`). The benchmark
compares two ways of finding words that match a query:

- a prefix tree (`Trie`, with `TrieNode` nodes) that stores every inserted word
  lower-cased, together with the list of payloads inserted under it;
- a linear scan (`regularSearch`) that keeps the items containing the query as a
  substring. While it scans, it inserts each kept item into the shared trie.

The driver (`searchWords`) runs both searches for each query, in order. For each one
it records the number of results.

The model is written in Dafny in four modules:

- `Strings` (`strings.dfy`): ASCII lower-casing, which stands in for `toLowerCase`, and
  substring containment, which stands in for `includes`.
- `Tries` (`trie.dfy`): the heap trie. `TrieNode` is a class with an end flag and a child
  map. Its `keys` field keeps the child characters in insertion order, the order a JS
  `Map` iterates them in. `Trie` is a class holding the root and the payload map.
  - Ghost state: `nodeAt` maps each existing path to its node, and `Repr` is the node
    footprint.
  - Invariant (`Valid`): the nodes form a tree indexed by their paths, and the paths that
    end at an `isEnd` node are exactly the keys of the payload map.
  - `Insert` and `Search` are methods with loops. `autocomplete` is the pure recursive
    function `Collect`.
- `Benchmark` (`benchmark.dfy`): `regularSearch` as a method over a given trie, and the
  per-query loop of `searchWords` with its timings removed.
- `ObjectKeys` (`findings.dfy`): the payload bookkeeping as written. It uses the `in`
  operator on a plain object (see Findings).

The global `trie` and `items` of the program are passed as parameters.

## Model

| member | source | states |
|---|---|---|
| `Strings.LowerString` | main.js:13 | lower-casing keeps the length and leaves no upper-case letter. Lower-case input is returned unchanged. Characters other than 'A'..'Z' are kept |
| `Strings.Lower` | main.js:13 | the per-character lowering: the result is never an upper-case ASCII letter. A character changes exactly when it is one, and then moves by the distance from 'A' to 'a' |
| `Strings.Contains` | main.js:65 | `includes`: a string can only contain a string no longer than itself, and every string contains the empty string |
| `Strings.LowerStringIdempotent` | main.js:29 | lower-casing twice is the same as lower-casing once |
| `Strings.PrefixContained` | main.js:65 | a string contains every prefix of itself, so an item always passes the `includes` test for itself |
| `Tries.AddPayload` | main.js:14-18 | the word's payload list gets the payload appended, or is created as a one-element list. Every other entry is unchanged |
| `Tries.Prefixes` | main.js:20-24 | the nodes the insertion walk passes through after `i` characters are exactly the prefixes of the word of length at most `i` |
| `Tries.TrieNode.constructor` | main.js:53-57 | a new node carries its character, is not the end of a word and has no children |
| `Tries.Trie.constructor` | main.js:7-10 | a new trie is valid, its payload map is empty and it holds no words |
| `Tries.Trie.Walk` | main.js:20-23 | following child edges from a node along a string. When the walk succeeds it ends at a node of the tree whose path is the node's path followed by the string |
| `Tries.Trie.WalkFollowsPaths` | main.js:20-23 | following child edges along a string succeeds exactly when that path exists in the tree, and ends at the node of that path |
| `Tries.Trie.TerminalPathIffKey` | main.js:14-25 | walking a string from the root ends at an end-of-word node if and only if the string is a key of the payload map |
| `Tries.Trie.Collect` | main.js:42-47 | `autocomplete` as a function: `prefix + data` first when the node ends a word, then what each child emits, in the children's insertion order. It has no contract of its own; `CollectMembers` states what it emits |
| `Tries.Trie.CollectChildren` | main.js:45-46 | the loop of `autocomplete` over the children keys, in order. `ChildrenMembers` states what it emits |
| `Tries.Trie.CollectMembers` | main.js:42-47 | `autocomplete` started at a node with the prefix `search` gives it emits every word of that node's subtree, and nothing else. Each word appears exactly once |
| `Tries.Trie.ChildrenMembers` | main.js:45-46 | the loop over the listed children emits, without repetition, exactly the words below the node that continue with one of those children |
| `Tries.Trie.Found` | main.js:29-38 | the words `search` passes to `res.map`: the output of `autocomplete` at the node of the lower-cased query, or nothing when the walk stops at a missing child. `FoundSpec` states which words these are |
| `Tries.Payloads` | main.js:39 | `res.map(re => this.resultMap[re])`: one entry per found word, in order, each that word's payload list |
| `Tries.Trie.FoundSpec` | main.js:28-40 | `search` finds each payload-map key that starts with the lower-cased query, and only those, each exactly once |
| `Tries.Trie.SearchIgnoresCase` | main.js:29 | a query and its lower-cased form find the same words, in the same order |
| `Tries.Trie.EmptyTrieFindsNothing` | main.js:7-10 | on a trie nothing was inserted into, every search returns nothing |
| `Tries.Trie.SearchFindsKey` | main.js:28-40 | a lower-case word that was inserted is found when it is searched for |
| `Tries.Trie.Search` | main.js:28-40 | a query whose path is missing gives `[]`. Otherwise the result has one entry per found word, in the order `autocomplete` emits them. Each entry is the word's payload list. The found words are exactly the keys with the lower-cased query as a prefix, each once. The method changes nothing |
| `Tries.Trie.Step` | main.js:21-23 | the child of the current node for the next character is reused when it exists and created otherwise. The tree stays well formed and the words are unchanged |
| `Tries.Trie.AddChild` | main.js:22 | `children.set(c, new TrieNode(c))`: the new node is appended to the end of the insertion-ordered keys, has no children and is not an end. No other path changes and the words are unchanged |
| `Tries.Trie.Record` | main.js:13-18 | the payload map becomes `AddPayload` of the old map. The tree and its words are untouched |
| `Tries.Trie.Descend` | main.js:19-24 | the walk ends at the node whose path is the whole word. It adds exactly the missing prefixes of the word as paths, and keeps every existing path at its node and the words unchanged |
| `Tries.Trie.MarkEnd` | main.js:25 | marking the last node adds exactly its path to the words |
| `Tries.Trie.Insert` | main.js:12-26 | The trie stays valid: terminal paths remain exactly the payload-map keys. The payload is appended under the lower-cased word, and that word is added to the words. The tree only grows: exactly the word's prefixes are added and every old path keeps its node. Afterwards, walking the lower-cased word ends at an end-of-word node |
| `Benchmark.Matches` | main.js:62-71 | the items `regularSearch` keeps, in their order. There are never more of them than items. `MatchesCount` and `MatchesMembers` state which ones they are |
| `Benchmark.MatchesCount` | main.js:62-71 | the scan keeps every occurrence of each item that contains the text, in number, and drops the rest |
| `Benchmark.MatchesMembers` | main.js:64-66 | an item is in the scan's result if and only if it contains the text |
| `Benchmark.MatchesSnoc` | main.js:64-68 | scanning one more item appends that item to the result exactly when it contains the text |
| `Benchmark.AddAll` | main.js:67 | inserting a list of items adds their lower-cased forms as keys. Every existing payload list is only extended, and keys not inserted are unchanged |
| `Benchmark.AddAllSnoc` | main.js:67 | inserting one more item is one more `AddPayload` under its lower-cased form |
| `Benchmark.ScanItem` | main.js:65-68 | one iteration: the item is kept and inserted into the trie exactly when it contains the text |
| `Benchmark.RegularSearch` | main.js:62-71 | the result is exactly the items containing the text, in order. Each of them has been inserted into the trie, with the payload map and the word set extended accordingly. A non-empty query that is itself an item is findable by the trie afterwards |
| `Benchmark.FoundAfterScan` | main.js:174-179 | once the scan for a query that is one of the items has run, the trie search for it finds the query itself |
| `Benchmark.Flatten` | main.js:168-170 | the order the two loops visit the queries in: bucket by bucket, and within a bucket in order. `FlattenMembers` states which queries these are |
| `Benchmark.FlattenMembers` | main.js:168-170 | the queries visited are exactly those of all the buckets |
| `Benchmark.Inserted` | main.js:170-174 | the items the scans of a list of queries insert into the trie: the matches of each query, one query after the other. `InsertedConcat` states how it composes |
| `Benchmark.InsertedConcat` | main.js:168-174 | running two lists of queries one after the other inserts into the trie what each list inserts, in order |
| `Benchmark.AddAllConcat` | main.js:67 | inserting one list of items and then another leaves the same payload map as inserting the two lists joined |
| `Benchmark.TrieCount` | main.js:174-181 | right after the scan for a query, the trie count is the number of trie words that start with the lower-cased query. For an item query it is at least 1. For lower-case items it equals the number of distinct items that start with the query, and is at most the scan's count |
| `Benchmark.FoundArePrefixedItems` | main.js:174-181 | for lower-case items, the words the trie finds right after the scan are exactly the distinct items that start with the query. Each of them was also kept by the scan |
| `Benchmark.RunQuery` | main.js:174-181 | one query runs the scan, which inserts exactly its matches into the trie (payload map and words), then the trie search. The scan's record counts the matches. The trie's record counts the trie words, after the scan, that start with the lower-cased query |
| `Benchmark.SearchOne` | main.js:170-182 | one iteration of the inner loop: the trie gains the matches of the query, and the query's two records are appended |
| `Benchmark.SearchNext` | main.js:168-183 | one iteration of the outer loop: the trie gains the matches of the bucket's queries, and their records are appended after those of the earlier buckets |
| `Benchmark.SearchBucket` | main.js:169-182 | the trie ends up holding its earlier payloads and words plus exactly the matches of the bucket's queries, inserted in query order. The records come in pairs, one pair per query, in order, each counted against the trie as it stood at that query |
| `Benchmark.SearchWords` | main.js:168-183 | the trie ends up holding its earlier payloads and words plus exactly the matches of all the queries, inserted bucket by bucket and query by query. The records come in pairs, one pair per query, in that order, each counted against the trie as it stood at that query |
| `ObjectKeys.AddPayloadAsWritten` | main.js:14-18 | as written, with `in` on a plain object: the bookkeeping throws exactly for a word that is not an own key but is an inherited property name. Otherwise it appends or creates the list |
| `ObjectKeys.ConstructorInsertThrows` | main.js:13-15 | inserting the item "Constructor" into a fresh trie throws as written, but is recorded under "constructor" by the intended bookkeeping |
| `ObjectKeys.AsWrittenAgreesOtherwise` | main.js:14-18 | for every word that is an own key or not an inherited name, the code as written and the intended bookkeeping agree |
| `ObjectKeys.InheritedNeverStored` | main.js:14-18 | as written, an inherited name never becomes an own key |

## Left out

- `Tries.Trie.Search`: requires a non-empty query. For the empty query the source
  walks nowhere and calls `autocomplete` on the root with the prefix `""`. The root's
  data is `null`, so `prefix + node.data` is `"null"` and every child receives it: each
  word of the trie comes out as `"null" + word`, and `res.map` then gives `undefined`
  for every one of them. That behaviour is not modelled. The only caller passes random
  words of at least three characters.
- `Tries.Trie.Insert`: does not state that the insertion order of each node's existing
  children is preserved (`keys` only grows at the end). Only the growth of the path
  index is stated.
- `toLowerCase` is modelled on ASCII letters only. Full Unicode case mapping is not
  modelled, including mappings that change a string's length.
- A Dafny `char` is a Unicode scalar value, which matches what `for..of` yields. JS
  `length`, `substring(0, length - 1)` and `includes` count UTF-16 code units instead.
  Strings with characters outside the Basic Multilingual Plane are not modelled.
- `loadData` (main.js:112-122) fetches the word list over the network. It is I/O, so the
  items are a parameter.
- `getRandomWords` (main.js:132-154) uses `Math.random`. It is randomness, so the buckets
  of queries are a parameter of `SearchWords`.
- The timings with `performance.now` (main.js:173-180) are a clock and are dropped from
  the records. The records keep the method, the count and the query.
- `console.log` progress output, the counting of the total number of words
  (main.js:160-164), and the display functions `updateResults`, `addResults`,
  `clearResults` and `runTest`: these are DOM work and I/O. The records are returned as a
  sequence instead of being appended to the results table.
- The jQuery ready handler and the `setInterval` polling (main.js:200-211) are
  event-loop scheduling, outside the model.
- The global `trie` is a parameter of `RegularSearch` and `SearchWords`, and so is
  `items`.
- `Trie.height` is a ghost bound on the depth of the tree. It exists only to prove that
  `autocomplete` terminates.

## Findings

| source | as written | input that shows it | evidently intended | confidence | as-written member | corrected member |
|---|---|---|---|---|---|---|
| main.js:13-15 | `word in this.resultMap` on a plain object `{}` is also true for the properties inherited from `Object.prototype`. For the lower-cased names `constructor` and `__proto__`, `this.resultMap[word].push(result)` then runs on a function or an object and throws a `TypeError` | inserting the item `"Constructor"` (or `"constructor"`, `"__proto__"`) into a fresh trie, e.g. through `regularSearch("con", ["Constructor"])` | an own-key test (`Object.hasOwn`, or a `Map`), so that the word gets a fresh payload list | not executed | `ObjectKeys.AddPayloadAsWritten`, `ObjectKeys.ConstructorInsertThrows` | `Tries.AddPayload` |
