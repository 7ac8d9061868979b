/** The benchmark driver: the linear scan `regularSearch`, which also feeds the
    trie, and the per-query loop of `searchWords`, which runs the scan and then
    the trie search for every query and records how many results each found. */
module Benchmark {
  import opened Strings
  import opened Tries

  /** The items that contain `text`, in their original order: what the linear scan keeps. */
  function Matches(items: seq<string>, text: string): (r: seq<string>)
    ensures |r| <= |items|
  {
    if items == [] then []
    else Matches(items[..|items| - 1], text) + Keep(items[|items| - 1], text)
  }

  /** `[x]` when `x` contains `text`, otherwise `[]`. */
  function Keep(x: string, text: string): seq<string> {
    if Contains(x, text) then [x] else []
  }

  /** The scan keeps every occurrence of each item that contains `text` and drops
      every other item: as a multiset, it is the items filtered by `includes`. */
  lemma {:induction false} MatchesCount(items: seq<string>, text: string)
    ensures forall x :: multiset(Matches(items, text))[x] ==
                        (if Contains(x, text) then multiset(items)[x] else 0)
  {
    if items != [] {
      var init, last := items[..|items| - 1], items[|items| - 1];
      assert items == init + [last];
      MatchesCount(init, text);
    }
  }

  /** The scan keeps exactly the items that contain `text`. */
  lemma MatchesMembers(items: seq<string>, text: string)
    ensures forall x :: x in Matches(items, text) <==> x in items && Contains(x, text)
  {
    MatchesCount(items, text);
    forall x
      ensures x in Matches(items, text) <==> x in items && Contains(x, text)
    {
      assert x in Matches(items, text) <==> multiset(Matches(items, text))[x] > 0;
      assert x in items <==> multiset(items)[x] > 0;
    }
  }

  /** The lower-cased forms of the strings in `xs`. */
  function LowerAll(xs: seq<string>): set<string> {
    set x | x in xs :: LowerString(x)
  }

  /** The payload map after inserting every string of `xs` under its own lower-cased
      form, in order, as `trie.insert(item, item)` does. */
  function AddAll(m: map<string, seq<string>>, xs: seq<string>): (r: map<string, seq<string>>)
    ensures r.Keys == m.Keys + LowerAll(xs)
    ensures forall k :: k in m ==> m[k] <= r[k]
    ensures forall k :: k in r && k !in LowerAll(xs) ==> k in m && r[k] == m[k]
  {
    if xs == [] then m
    else
      var init, last := xs[..|xs| - 1], xs[|xs| - 1];
      assert xs == init + [last];
      LowerAllSnoc(init, last);
      UnionAssoc(m.Keys, LowerAll(init), {LowerString(last)});
      AddPayload(AddAll(m, init), LowerString(last), last)
  }

  lemma LowerAllSnoc(xs: seq<string>, x: string)
    ensures LowerAll(xs + [x]) == LowerAll(xs) + {LowerString(x)}
  {
    assert forall y :: y in xs + [x] <==> y in xs || y == x;
  }

  lemma MatchesSnoc(items: seq<string>, i: nat, text: string)
    requires i < |items|
    ensures Matches(items[..i + 1], text) == Matches(items[..i], text) + Keep(items[i], text)
  {
    assert items[..i + 1][..i] == items[..i];
  }

  lemma AddAllSnoc(m: map<string, seq<string>>, xs: seq<string>, x: string)
    ensures AddAll(m, xs + [x]) == AddPayload(AddAll(m, xs), LowerString(x), x)
  {
    assert (xs + [x])[..|xs|] == xs;
  }

  /** `regularSearch(text, items)`: scan the items in order, keep those that contain
      `text`, and insert each kept item into the trie under itself. */
  method RegularSearch(trie: Trie<string>, text: string, items: seq<string>)
    returns (searchResults: seq<string>)
    requires trie.Valid()
    modifies trie, trie.Repr
    ensures trie.Valid() && fresh(trie.Repr - old(trie.Repr))
    ensures searchResults == Matches(items, text)
    ensures trie.resultMap == AddAll(old(trie.resultMap), searchResults)
    ensures trie.Words() == old(trie.Words()) + LowerAll(searchResults)
    ensures text != [] && text in items ==> LowerString(text) in trie.Found(text)
  {
    searchResults := [];
    var i := 0;
    while i < |items|
      invariant 0 <= i <= |items|
      invariant trie.Valid() && fresh(trie.Repr - old(trie.Repr))
      invariant searchResults == Matches(items[..i], text)
      invariant trie.resultMap == AddAll(old(trie.resultMap), searchResults)
      invariant trie.Words() == old(trie.Words()) + LowerAll(searchResults)
    {
      MatchesSnoc(items, i, text);
      searchResults := ScanItem(trie, text, items[i], searchResults, old(trie.resultMap), old(trie.Words()));
      i := i + 1;
    }
    assert items[..i] == items;
    if text != [] && text in items {
      FoundAfterScan(trie, text, items);
    }
  }

  /** One iteration of the scan: keep `item` and insert it into the trie when it
      contains `text`. `m0` and `W0` are the payload map and the words before the scan. */
  method ScanItem(trie: Trie<string>, text: string, item: string, kept: seq<string>,
                  ghost m0: map<string, seq<string>>, ghost W0: set<string>)
    returns (kept': seq<string>)
    requires trie.Valid()
    requires trie.resultMap == AddAll(m0, kept) && trie.Words() == W0 + LowerAll(kept)
    modifies trie, trie.Repr
    ensures trie.Valid() && fresh(trie.Repr - old(trie.Repr))
    ensures kept' == kept + Keep(item, text)
    ensures trie.resultMap == AddAll(m0, kept') && trie.Words() == W0 + LowerAll(kept')
  {
    kept' := kept;
    if Contains(item, text) {
      AddAllSnoc(m0, kept, item);
      LowerAllSnoc(kept, item);
      kept' := kept + [item];
      trie.Insert(item, item);
      UnionAssoc(W0, LowerAll(kept), {LowerString(item)});
    }
  }

  // Regrouping a union of set-valued function results is cheap when asked for
  // explicitly, and expensive when the solver has to find it among the trie's facts.
  lemma UnionAssoc<T>(A: set<T>, B: set<T>, C: set<T>)
    ensures A + B + C == A + (B + C)
  {
  }

  /** A non-empty query that is itself one of the items is found by the trie once the
      scan for it has inserted its matches. */
  lemma FoundAfterScan(trie: Trie<string>, text: string, items: seq<string>)
    requires trie.Valid() && text != [] && text in items
    requires LowerAll(Matches(items, text)) <= trie.Words()
    ensures LowerString(text) in trie.Found(text)
  {
    PrefixContained(text, text);
    MatchesMembers(items, text);
    assert text in Matches(items, text);
    assert LowerString(text) in LowerAll(Matches(items, text));
    trie.FoundSpec(text);
  }

  /** The two measurements `searchWords` takes per query. */
  datatype Strategy = Regular | TrieSearch

  /** One entry of the results table, without its timing. */
  datatype Record = Record(strategy: Strategy, nItems: nat, query: string)

  /** The queries of all buckets, bucket by bucket. */
  function Flatten(buckets: seq<seq<string>>): seq<string> {
    if buckets == [] then [] else Flatten(buckets[..|buckets| - 1]) + buckets[|buckets| - 1]
  }

  /** The queries visited are exactly those of the buckets. */
  lemma {:induction false} FlattenMembers(buckets: seq<seq<string>>)
    ensures forall q :: q in Flatten(buckets) <==> exists b :: b in buckets && q in b
  {
    if buckets != [] {
      var init, last := buckets[..|buckets| - 1], buckets[|buckets| - 1];
      assert buckets == init + [last];
      FlattenMembers(init);
    }
  }

  /** Every string of `xs` is already lower-case. */
  predicate AllLower(xs: seq<string>) {
    forall x :: x in xs ==> IsLower(x)
  }

  /** The distinct items that start with `q`. */
  function ItemsWithPrefix(items: seq<string>, q: string): set<string> {
    set x | x in items && q <= x
  }

  /** The words of `W` that start with `p`. */
  ghost function WithPrefix(W: set<string>, p: string): set<string> {
    set w | w in W && p <= w
  }

  /** The items the scans of `queries`, run in order, insert into the trie: the
      matches of each query, one query after the other. */
  function Inserted(items: seq<string>, queries: seq<string>): seq<string> {
    if queries == [] then []
    else Inserted(items, queries[..|queries| - 1]) + Matches(items, queries[|queries| - 1])
  }

  lemma InsertedSnoc(items: seq<string>, queries: seq<string>, q: string)
    ensures Inserted(items, queries + [q]) == Inserted(items, queries) + Matches(items, q)
  {
    assert (queries + [q])[..|queries|] == queries;
  }

  /** Running two lists of queries one after the other inserts what each inserts, in order. */
  lemma {:induction false} InsertedConcat(items: seq<string>, A: seq<string>, B: seq<string>)
    ensures Inserted(items, A + B) == Inserted(items, A) + Inserted(items, B)
    decreases |B|
  {
    if B == [] {
      assert A + B == A;
    } else {
      var init, q := B[..|B| - 1], B[|B| - 1];
      assert B == init + [q];
      calc {
        Inserted(items, A + B);
        { assert A + B == (A + init) + [q]; }
        Inserted(items, (A + init) + [q]);
        { InsertedSnoc(items, A + init, q); }
        Inserted(items, A + init) + Matches(items, q);
        { InsertedConcat(items, A, init); }
        Inserted(items, A) + Inserted(items, init) + Matches(items, q);
        { InsertedSnoc(items, init, q); }
        Inserted(items, A) + Inserted(items, B);
      }
    }
  }

  /** Inserting `xs` and then `ys` leaves the payload map that inserting `xs + ys` does. */
  lemma {:induction false} AddAllConcat(m: map<string, seq<string>>, xs: seq<string>, ys: seq<string>)
    ensures AddAll(AddAll(m, xs), ys) == AddAll(m, xs + ys)
    decreases |ys|
  {
    if ys == [] {
      assert xs + ys == xs;
    } else {
      var init, y := ys[..|ys| - 1], ys[|ys| - 1];
      assert ys == init + [y];
      assert xs + ys == (xs + init) + [y];
      AddAllSnoc(AddAll(m, xs), init, y);
      AddAllSnoc(m, xs + init, y);
      AddAllConcat(m, xs, init);
    }
  }

  lemma LowerAllConcat(xs: seq<string>, ys: seq<string>)
    ensures LowerAll(xs + ys) == LowerAll(xs) + LowerAll(ys)
  {
    assert forall y :: y in xs + ys <==> y in xs || y in ys;
  }

  /** The pair of records `searchWords` appends for query `q`, where `W` is the set of
      words the trie holds when it is searched: the scan's count of the items containing
      `q`, then the trie's count of the words of `W` that start with the lower-cased `q`.
      When `q` is an item the trie count is at least one; when moreover the items are
      lower-case and the trie started out (`W0`) holding only items, it is the number of
      distinct items starting with `q`, so never more than the scan's. */
  ghost predicate Recorded(regular: Record, trieRec: Record, q: string, items: seq<string>,
                           W0: set<string>, W: set<string>)
  {
    && regular == Record(Regular, |Matches(items, q)|, q)
    && trieRec == Record(TrieSearch, |WithPrefix(W, LowerString(q))|, q)
    && (q in items ==> 1 <= trieRec.nItems)
    && (AllLower(items) && q in items && W0 <= (set x | x in items) ==>
          trieRec.nItems == |ItemsWithPrefix(items, q)| <= regular.nItems)
  }

  /** `records` holds, pair by pair, the records of the queries `queries`, in order, run
      on a trie that held the words `Ws` before the first of them. */
  ghost predicate AllRecorded(records: seq<Record>, queries: seq<string>, items: seq<string>,
                              W0: set<string>, Ws: set<string>)
  {
    && |records| == 2 * |queries|
    && forall k :: 0 <= k < |queries| ==>
         Recorded(records[2 * k], records[2 * k + 1], queries[k], items, W0,
                  Ws + LowerAll(Inserted(items, queries[..k + 1])))
  }

  lemma AppendRecorded(r1: seq<Record>, q1: seq<string>, r2: seq<Record>, q2: seq<string>,
                       items: seq<string>, W0: set<string>, Ws: set<string>)
    requires AllRecorded(r1, q1, items, W0, Ws)
    requires AllRecorded(r2, q2, items, W0, Ws + LowerAll(Inserted(items, q1)))
    ensures AllRecorded(r1 + r2, q1 + q2, items, W0, Ws)
  {
    forall k | 0 <= k < |q1 + q2|
      ensures Recorded((r1 + r2)[2 * k], (r1 + r2)[2 * k + 1], (q1 + q2)[k], items, W0,
                       Ws + LowerAll(Inserted(items, (q1 + q2)[..k + 1])))
    {
      if k < |q1| {
        assert (q1 + q2)[..k + 1] == q1[..k + 1];
      } else {
        var j := k - |q1|;
        assert (r1 + r2)[2 * k] == r2[2 * j];
        assert (r1 + r2)[2 * k + 1] == r2[2 * j + 1];
        assert (q1 + q2)[..k + 1] == q1 + q2[..j + 1];
        InsertedConcat(items, q1, q2[..j + 1]);
        LowerAllConcat(Inserted(items, q1), Inserted(items, q2[..j + 1]));
        UnionAssoc(Ws, LowerAll(Inserted(items, q1)), LowerAll(Inserted(items, q2[..j + 1])));
      }
    }
  }

  lemma FlattenSnoc(buckets: seq<seq<string>>, b: nat)
    requires b < |buckets|
    ensures Flatten(buckets[..b + 1]) == Flatten(buckets[..b]) + buckets[b]
  {
    assert buckets[..b + 1][..b] == buckets[..b];
  }

  /** The records of a single query, run on a trie that held the words `Ws`. */
  lemma OneRecorded(regular: Record, trieRec: Record, q: string, items: seq<string>,
                    W0: set<string>, W: set<string>, Ws: set<string>)
    requires Recorded(regular, trieRec, q, items, W0, W)
    requires W == Ws + LowerAll(Matches(items, q))
    ensures AllRecorded([regular, trieRec], [q], items, W0, Ws)
  {
    assert [q][..1] == [q] && [q][..0] == [];
    assert Inserted(items, [q]) == Matches(items, q);
    assert Recorded([regular, trieRec][0], [regular, trieRec][1], [q][0], items, W0,
                    Ws + LowerAll(Inserted(items, [q][..1])));
  }

  /** The per-query loop of `searchWords`: for each query, in order, the scan's record
      and then the trie's record. The trie ends up holding exactly what the scans of all
      the queries inserted into it. */
  method SearchWords(trie: Trie<string>, items: seq<string>, buckets: seq<seq<string>>)
    returns (records: seq<Record>)
    requires trie.Valid()
    requires forall q :: q in Flatten(buckets) ==> q != []
    modifies trie, trie.Repr
    ensures trie.Valid() && fresh(trie.Repr - old(trie.Repr))
    ensures trie.resultMap == AddAll(old(trie.resultMap), Inserted(items, Flatten(buckets)))
    ensures trie.Words() == old(trie.Words()) + LowerAll(Inserted(items, Flatten(buckets)))
    ensures AllRecorded(records, Flatten(buckets), items, old(trie.Words()), old(trie.Words()))
  {
    records := [];
    ghost var W0, m0 := trie.Words(), trie.resultMap;
    ghost var queries: seq<string> := [];
    var b := 0;
    while b < |buckets|
      invariant 0 <= b <= |buckets|
      invariant queries == Flatten(buckets[..b])
      invariant trie.Valid() && fresh(trie.Repr - old(trie.Repr))
      invariant trie.resultMap == AddAll(m0, Inserted(items, queries))
      invariant trie.Words() == W0 + LowerAll(Inserted(items, queries))
      invariant trie.Words() <= W0 + LowerAll(items)
      invariant AllRecorded(records, queries, items, W0, W0)
    {
      records, queries := SearchNext(trie, items, buckets, b, records, queries, W0, m0);
      b := b + 1;
    }
    assert buckets[..b] == buckets;
  }

  /** One iteration of the outer loop of `searchWords`: runs the queries of bucket `b`
      and appends their records. */
  method SearchNext(trie: Trie<string>, items: seq<string>, buckets: seq<seq<string>>, b: nat,
                    records: seq<Record>, ghost queries: seq<string>,
                    ghost W0: set<string>, ghost m0: map<string, seq<string>>)
    returns (records': seq<Record>, ghost queries': seq<string>)
    requires b < |buckets| && forall q :: q in Flatten(buckets) ==> q != []
    requires queries == Flatten(buckets[..b])
    requires trie.Valid() && trie.Words() <= W0 + LowerAll(items)
    requires trie.resultMap == AddAll(m0, Inserted(items, queries))
    requires trie.Words() == W0 + LowerAll(Inserted(items, queries))
    requires AllRecorded(records, queries, items, W0, W0)
    modifies trie, trie.Repr
    ensures queries' == Flatten(buckets[..b + 1])
    ensures trie.Valid() && fresh(trie.Repr - old(trie.Repr))
    ensures trie.Words() <= W0 + LowerAll(items)
    ensures trie.resultMap == AddAll(m0, Inserted(items, queries'))
    ensures trie.Words() == W0 + LowerAll(Inserted(items, queries'))
    ensures AllRecorded(records', queries', items, W0, W0)
  {
    assert forall q :: q in buckets[b] ==> q != [] by {
      assert buckets[b] in buckets;
      FlattenMembers(buckets);
      forall q | q in buckets[b]
        ensures q != []
      {
        assert q in Flatten(buckets);
      }
    }
    var recs := SearchBucket(trie, items, buckets[b], W0);
    AppendRecorded(records, queries, recs, buckets[b], items, W0, W0);
    Regroup(m0, W0, Inserted(items, queries), Inserted(items, buckets[b]));
    InsertedConcat(items, queries, buckets[b]);
    FlattenSnoc(buckets, b);
    records' := records + recs;
    queries' := queries + buckets[b];
  }

  /** Inserting `xs` and then `ys` into a trie with payload map `m` and words `W`. */
  lemma Regroup(m: map<string, seq<string>>, W: set<string>, xs: seq<string>, ys: seq<string>)
    ensures AddAll(AddAll(m, xs), ys) == AddAll(m, xs + ys)
    ensures W + LowerAll(xs) + LowerAll(ys) == W + LowerAll(xs + ys)
  {
    AddAllConcat(m, xs, ys);
    LowerAllConcat(xs, ys);
    UnionAssoc(W, LowerAll(xs), LowerAll(ys));
  }

  /** The inner loop of `searchWords`, over the queries of one bucket. */
  method SearchBucket(trie: Trie<string>, items: seq<string>, words: seq<string>,
                      ghost W0: set<string>)
    returns (records: seq<Record>)
    requires trie.Valid() && trie.Words() <= W0 + LowerAll(items)
    requires forall q :: q in words ==> q != []
    modifies trie, trie.Repr
    ensures trie.Valid() && fresh(trie.Repr - old(trie.Repr))
    ensures trie.resultMap == AddAll(old(trie.resultMap), Inserted(items, words))
    ensures trie.Words() == old(trie.Words()) + LowerAll(Inserted(items, words))
    ensures trie.Words() <= W0 + LowerAll(items)
    ensures AllRecorded(records, words, items, W0, old(trie.Words()))
  {
    records := [];
    ghost var Ws, m0 := trie.Words(), trie.resultMap;
    var j := 0;
    while j < |words|
      invariant 0 <= j <= |words|
      invariant trie.Valid() && fresh(trie.Repr - old(trie.Repr))
      invariant trie.resultMap == AddAll(m0, Inserted(items, words[..j]))
      invariant trie.Words() == Ws + LowerAll(Inserted(items, words[..j]))
      invariant trie.Words() <= W0 + LowerAll(items)
      invariant AllRecorded(records, words[..j], items, W0, Ws)
    {
      assert words[j] in words;
      records := SearchOne(trie, items, words, j, records, W0, Ws, m0);
      j := j + 1;
    }
    assert words[..j] == words;
  }

  /** One iteration of the inner loop of `searchWords`: runs the query `words[j]` and
      appends its two records. */
  method SearchOne(trie: Trie<string>, items: seq<string>, words: seq<string>, j: nat,
                   records: seq<Record>, ghost W0: set<string>, ghost Ws: set<string>,
                   ghost m0: map<string, seq<string>>)
    returns (records': seq<Record>)
    requires j < |words| && words[j] != []
    requires trie.Valid() && trie.Words() <= W0 + LowerAll(items)
    requires trie.resultMap == AddAll(m0, Inserted(items, words[..j]))
    requires trie.Words() == Ws + LowerAll(Inserted(items, words[..j]))
    requires AllRecorded(records, words[..j], items, W0, Ws)
    modifies trie, trie.Repr
    ensures trie.Valid() && fresh(trie.Repr - old(trie.Repr))
    ensures trie.Words() <= W0 + LowerAll(items)
    ensures trie.resultMap == AddAll(m0, Inserted(items, words[..j + 1]))
    ensures trie.Words() == Ws + LowerAll(Inserted(items, words[..j + 1]))
    ensures AllRecorded(records', words[..j + 1], items, W0, Ws)
  {
    var regular, trieRec := RunQuery(trie, items, words[j], W0);
    records' := records + [regular, trieRec];
    assert AllRecorded(records', words[..j + 1], items, W0, Ws) by {
      PrefixSnoc(words, j);
      OneRecorded(regular, trieRec, words[j], items, W0, trie.Words(),
                  Ws + LowerAll(Inserted(items, words[..j])));
      AppendRecorded(records, words[..j], [regular, trieRec], [words[j]], items, W0, Ws);
    }
    PrefixSnoc(words, j);
    Regroup(m0, Ws, Inserted(items, words[..j]), Matches(items, words[j]));
    InsertedSnoc(items, words[..j], words[j]);
  }

  /** One query of `searchWords`: the scan, which inserts its matches into the trie, then
      the trie search, each giving a record. `W0` is the set of words the trie held when
      the whole run began. */
  method RunQuery(trie: Trie<string>, items: seq<string>, word: string, ghost W0: set<string>)
    returns (regular: Record, trieRec: Record)
    requires trie.Valid() && word != []
    requires trie.Words() <= W0 + LowerAll(items)
    modifies trie, trie.Repr
    ensures trie.Valid() && fresh(trie.Repr - old(trie.Repr))
    ensures trie.resultMap == AddAll(old(trie.resultMap), Matches(items, word))
    ensures trie.Words() == old(trie.Words()) + LowerAll(Matches(items, word))
    ensures trie.Words() <= W0 + LowerAll(items)
    ensures Recorded(regular, trieRec, word, items, W0, trie.Words())
  {
    ghost var before := trie.Words();
    var regularResults := RegularSearch(trie, word, items);
    MatchedItemsAreItems(items, word);
    regular := Record(Regular, |regularResults|, word);
    var trieResults := trie.Search(word);
    TrieCount(trie.Words(), trie.Found(word), items, word, W0, before);
    trieRec := Record(TrieSearch, |trieResults|, word);
  }

  lemma MatchedItemsAreItems(items: seq<string>, text: string)
    ensures LowerAll(Matches(items, text)) <= LowerAll(items)
  {
    MatchesMembers(items, text);
  }

  /** For lower-case items, lower-casing changes none of them. */
  lemma LowerAllOfLower(items: seq<string>)
    requires AllLower(items)
    ensures LowerAll(items) == set x | x in items
  {
  }

  /** What the trie finds for `q` right after the scan for `q` (`found`, over the words
      `W`): as many words as `W` has starting with the lower-cased `q`; at least `q`
      itself when `q` is an item; and, when the items are lower-case and the trie holds
      only items, exactly the distinct items starting with `q`, which are no more than
      the items containing `q`. */
  lemma TrieCount(W: set<string>, found: seq<string>, items: seq<string>, q: string,
                  W0: set<string>, before: set<string>)
    requires NoDup(found) && forall w :: w in found <==> w in W && LowerString(q) <= w
    requires W == before + LowerAll(Matches(items, q))
    requires before <= W0 + LowerAll(items)
    ensures |found| == |WithPrefix(W, LowerString(q))|
    ensures q in items ==> 1 <= |found|
    ensures AllLower(items) && q in items && W0 <= (set x | x in items) ==>
      |found| == |ItemsWithPrefix(items, q)| <= |Matches(items, q)|
  {
    NoDupCard(found);
    assert (set x | x in found) == WithPrefix(W, LowerString(q));
    if q in items {
      MatchesMembers(items, q);
      PrefixContained(q, q);
      assert LowerString(q) in LowerAll(Matches(items, q));
      assert LowerString(q) in found;
      if AllLower(items) && W0 <= (set x | x in items) {
        FoundArePrefixedItems(W, found, items, q, W0, before);
        SubsetOfSeqCard(ItemsWithPrefix(items, q), Matches(items, q));
      }
    }
  }

  lemma FoundArePrefixedItems(W: set<string>, found: seq<string>, items: seq<string>, q: string,
                              W0: set<string>, before: set<string>)
    requires forall w :: w in found <==> w in W && LowerString(q) <= w
    requires W == before + LowerAll(Matches(items, q))
    requires before <= W0 + LowerAll(items)
    requires AllLower(items) && q in items && W0 <= (set x | x in items)
    ensures (set w | w in found) == ItemsWithPrefix(items, q)
    ensures forall x :: x in ItemsWithPrefix(items, q) ==> x in Matches(items, q)
  {
    LowerAllOfLower(items);
    MatchesMembers(items, q);
    MatchedItemsAreItems(items, q);
    assert LowerString(q) == q;
    forall x | x in ItemsWithPrefix(items, q)
      ensures x in found && x in Matches(items, q)
    {
      PrefixContained(q, x);
      assert LowerString(x) == x;
      assert x in LowerAll(Matches(items, q));
    }
  }

  /** A sequence without repetitions has as many distinct elements as it is long. */
  lemma {:induction false} NoDupCard<T>(s: seq<T>)
    requires NoDup(s)
    ensures |set x | x in s| == |s|
  {
    if s != [] {
      NoDupTail(s);
      NoDupCard(s[1..]);
      assert (set x | x in s) == (set x | x in s[1..]) + {s[0]};
    }
  }

  /** A set whose elements all occur in `s` has at most `|s|` elements. */
  lemma {:induction false} SubsetOfSeqCard<T>(S: set<T>, s: seq<T>)
    requires forall x :: x in S ==> x in s
    ensures |S| <= |s|
  {
    if s != [] {
      SubsetOfSeqCard(S - {s[0]}, s[1..]);
    }
  }
}
