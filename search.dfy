/** The searches of `SpellSync`: `find_matching_spells` (all collections,
    duplicates merged at their least distance, ranked, cut by the distance
    threshold and the result limit), `find_relevant_grimoriums` (the master
    index, ranked) and `find_spells_within_grimorium` (one collection, in
    store order). The vector store's `query` is an oracle; distances are
    reals. */
module Search {
  import opened Common
  import opened Sorting
  import opened Store

  /** `self.top_spells` */
  const TopSpells: nat := 5
  /** `self.distance_threshold` */
  const DistanceThreshold: real := 0.4

  /** The lists of one query answer (`results[key][0]`); all empty when the
      answer or its ids are falsy. */
  datatype Hits = Hits(ids: seq<string>, distances: seq<real>, documents: seq<string>, metadatas: seq<Option<Metadata>>)

  /** `query(collection, text)`: the hits, or `None` where getting the
      collection or querying it raises. */
  type Searcher = (string, string) -> Option<Hits>

  /** A spell id and a distance. */
  type Match = (string, real)

  /** `query` is a non-empty string that is not only whitespace. */
  predicate ValidQuery(query: Option<string>) {
    query.Some? && query.value != "" && !IsBlank(query.value)
  }

  /** The collection is searched: there is no allow-list, or it lists the
      collection (`is not None`, so an empty list allows nothing). */
  predicate Listed(name: string, allowed: Option<seq<string>>) {
    allowed.None? || name in allowed.value
  }

  /** The pairs appended for one answer: one per id until the distances
      run out, where indexing raises and ends that collection's loop. */
  function HitPairs(h: Hits): (pairs: seq<Match>)
    ensures |pairs| == if |h.ids| <= |h.distances| then |h.ids| else |h.distances|
    ensures forall k :: 0 <= k < |pairs| ==> pairs[k] == (h.ids[k], h.distances[k])
  {
    var n := if |h.ids| <= |h.distances| then |h.ids| else |h.distances|;
    seq(n, k requires 0 <= k < n => (h.ids[k], h.distances[k]))
  }

  /** What one listed collection contributes to `all_matches`. */
  function CollectionPairs(name: string, allowed: Option<seq<string>>, query: string, search: Searcher): seq<Match> {
    if !Listed(name, allowed) then []
    else match search(name, query)
      case None => []
      case Some(h) => HitPairs(h)
  }

  /** `all_matches` after the loop over the collections `names`. */
  function Collected(names: seq<string>, allowed: Option<seq<string>>, query: string, search: Searcher): seq<Match> {
    if names == [] then []
    else Collected(names[..|names| - 1], allowed, query, search) + CollectionPairs(names[|names| - 1], allowed, query, search)
  }

  // ---------------------------------------------------------------------
  // Merging duplicates

  function IdsOf(all: seq<Match>): set<string> {
    set k | 0 <= k < |all| :: all[k].0
  }

  /** The values of `unique_matches_map`: an id keeps a distance when it is
      new or strictly smaller than the kept one. */
  function MinMap(all: seq<Match>): map<string, real> {
    if all == [] then map[]
    else
      var m := MinMap(all[..|all| - 1]);
      var (id, d) := all[|all| - 1];
      if id !in m || d < m[id] then m[id := d] else m
  }

  /** The keys of `unique_matches_map` in insertion order: first-seen order. */
  function FirstSeen(all: seq<Match>): seq<string> {
    if all == [] then []
    else
      var o := FirstSeen(all[..|all| - 1]);
      var id := all[|all| - 1].0;
      if id in IdsOf(all[..|all| - 1]) then o else o + [id]
  }

  /** The index of the first pair for `id` (`|all|` when there is none). */
  function FirstIndex(all: seq<Match>, id: string): nat {
    if all == [] then 0
    else if id in IdsOf(all[..|all| - 1]) then FirstIndex(all[..|all| - 1], id)
    else if all[|all| - 1].0 == id then |all| - 1
    else |all|
  }

  /** `unique_matches_map.items()`. */
  function Items(m: map<string, real>, order: seq<string>): (items: seq<Match>)
    requires forall k :: 0 <= k < |order| ==> order[k] in m
    ensures |items| == |order| && forall k :: 0 <= k < |order| ==> items[k] == (order[k], m[order[k]])
  {
    seq(|order|, k requires 0 <= k < |order| => (order[k], m[order[k]]))
  }

  /** `d` is the least distance recorded for `id`. */
  predicate IsMinDist(all: seq<Match>, id: string, d: real) {
    (exists k :: 0 <= k < |all| && all[k] == (id, d)) && forall k :: 0 <= k < |all| && all[k].0 == id ==> d <= all[k].1
  }

  lemma IdsOfPrefix(all: seq<Match>)
    requires all != []
    ensures IdsOf(all) == IdsOf(all[..|all| - 1]) + {all[|all| - 1].0}
  {
    var p := all[..|all| - 1];
    forall id | id in IdsOf(all) ensures id in IdsOf(p) || id == all[|all| - 1].0 {
      var k :| 0 <= k < |all| && all[k].0 == id;
      if k < |all| - 1 {
        assert p[k].0 == id;
      }
    }
    forall id | id in IdsOf(p) ensures id in IdsOf(all) {
      var k :| 0 <= k < |p| && p[k].0 == id;
      assert all[k].0 == id;
    }
  }

  /** Each merged distance is the least one recorded for its id, and every
      id recorded is merged. */
  lemma {:induction false} MinMapIsMin(all: seq<Match>)
    ensures MinMap(all).Keys == IdsOf(all)
    ensures forall id | id in MinMap(all) :: IsMinDist(all, id, MinMap(all)[id])
    decreases |all|
  {
    if all != [] {
      var p := all[..|all| - 1];
      MinMapIsMin(p);
      IdsOfPrefix(all);
      var m := MinMap(p);
      var (id, d) := all[|all| - 1];
      forall x | x in MinMap(all)
        ensures IsMinDist(all, x, MinMap(all)[x])
      {
        var v := MinMap(all)[x];
        if x == id && (id !in m || d < m[id]) {
          assert all[|all| - 1] == (x, v);
          forall k | 0 <= k < |all| && all[k].0 == x ensures v <= all[k].1 {
            if k < |all| - 1 {
              assert p[k] == all[k];
            }
          }
        } else {
          assert v == m[x];
          var j :| 0 <= j < |p| && p[j] == (x, v);
          assert all[j] == (x, v);
          forall k | 0 <= k < |all| && all[k].0 == x ensures v <= all[k].1 {
            if k < |all| - 1 {
              assert p[k] == all[k];
            }
          }
        }
      }
    }
  }

  /** The ids in first-seen order: each once, all of them, ordered by
      where they first occur. */
  lemma {:induction false} FirstSeenOrder(all: seq<Match>)
    ensures var o := FirstSeen(all);
      && (forall i, j :: 0 <= i < j < |o| ==> o[i] != o[j])
      && (forall k :: 0 <= k < |o| ==> o[k] in IdsOf(all))
      && (forall id | id in IdsOf(all) :: id in o)
      && (forall i, j :: 0 <= i < j < |o| ==> FirstIndex(all, o[i]) < FirstIndex(all, o[j]))
      && (forall k :: 0 <= k < |o| ==> FirstIndex(all, o[k]) < |all|)
    decreases |all|
  {
    if all != [] {
      var p := all[..|all| - 1];
      FirstSeenOrder(p);
      IdsOfPrefix(all);
      var o := FirstSeen(p);
      var id := all[|all| - 1].0;
      assert forall k :: 0 <= k < |o| ==> FirstIndex(all, o[k]) == FirstIndex(p, o[k]);
      if id !in IdsOf(p) {
        assert FirstIndex(all, id) == |all| - 1;
        assert FirstSeen(all) == o + [id];
      }
    }
  }

  // ---------------------------------------------------------------------
  // Ranking

  /** `key=lambda x: x[1]`. */
  function ByDistance(): (Match, Match) -> bool {
    ByKey((p: Match) => p.1)
  }

  /** Every id in first-seen order has a merged distance. */
  lemma FirstSeenMerged(all: seq<Match>)
    ensures forall k :: 0 <= k < |FirstSeen(all)| ==> FirstSeen(all)[k] in MinMap(all)
  {
    MinMapIsMin(all);
    FirstSeenOrder(all);
  }

  /** `unique_matches_map.items()` for the collected pairs. */
  function Merged(all: seq<Match>): seq<Match> {
    FirstSeenMerged(all);
    Items(MinMap(all), FirstSeen(all))
  }

  /** `sorted(unique_matches_map.items(), key=lambda x: x[1])`. */
  function Ranked(all: seq<Match>): seq<Match> {
    Sort(Merged(all), ByDistance())
  }

  /** `[m for m in s if m[1] <= self.distance_threshold]`. */
  function Within(s: seq<Match>): (r: seq<Match>)
    ensures |r| <= |s|
  {
    if s == [] then []
    else (if s[0].1 <= DistanceThreshold then [s[0]] else []) + Within(s[1..])
  }

  /** `[m[0] for m in s]`. */
  function Firsts(s: seq<Match>): (ids: seq<string>)
    ensures |ids| == |s| && forall k :: 0 <= k < |s| ==> ids[k] == s[k].0
  {
    seq(|s|, k requires 0 <= k < |s| => s[k].0)
  }

  /** The result of `find_matching_spells` given the collected pairs. */
  function Best(all: seq<Match>): seq<string> {
    Take(Firsts(Within(Ranked(all))), TopSpells)
  }

  /** `find_matching_spells(query)`: `listing` is what `list_collections`
      returns, `None` where it raises. */
  function MatchingSpells(query: Option<string>, listing: Option<seq<string>>, allowed: Option<seq<string>>, search: Searcher): seq<string> {
    if !ValidQuery(query) || listing.None? then []
    else Best(Collected(listing.value, allowed, query.value, search))
  }

  predicate Pairwise(s: seq<Match>, rel: (Match, Match) -> bool) {
    forall i, j :: 0 <= i < j < |s| ==> rel(s[i], s[j])
  }

  lemma {:induction false} WithinMembers(s: seq<Match>, x: Match)
    ensures x in Within(s) <==> x in s && x.1 <= DistanceThreshold
    decreases |s|
  {
    if s != [] {
      WithinMembers(s[1..], x);
      assert s == [s[0]] + s[1..];
    }
  }

  lemma {:induction false} WithinPairwise(s: seq<Match>, rel: (Match, Match) -> bool)
    requires Pairwise(s, rel)
    ensures Pairwise(Within(s), rel)
    decreases |s|
  {
    if s != [] {
      WithinPairwise(s[1..], rel);
      var rest := Within(s[1..]);
      forall k | 0 <= k < |rest| ensures rel(s[0], rest[k]) {
        WithinMembers(s[1..], rest[k]);
        var m :| 0 <= m < |s[1..]| && s[1..][m] == rest[k];
        assert s[m + 1] == rest[k];
      }
    }
  }

  /** Two equal elements at distinct positions count twice. */
  lemma TwiceCounted(s: seq<Match>, i: nat, j: nat)
    requires i < j < |s| && s[i] == s[j]
    ensures multiset(s)[s[i]] >= 2
  {
    assert s == s[..j] + [s[j]] + s[j + 1..];
    assert s[i] in s[..j];
    assert multiset(s) == multiset(s[..j]) + multiset{s[j]} + multiset(s[j + 1..]);
  }

  lemma {:induction false} DistinctCounted(s: seq<Match>, x: Match)
    requires forall i, j :: 0 <= i < j < |s| ==> s[i] != s[j]
    ensures multiset(s)[x] <= 1
    decreases |s|
  {
    if s != [] {
      DistinctCounted(s[1..], x);
      assert s == [s[0]] + s[1..];
      if x == s[0] {
        assert x !in s[1..];
      }
    }
  }

  /** The merged pairs: each id once, at its least distance, every merged
      id present, in first-seen order. */
  lemma MergedFacts(all: seq<Match>)
    ensures var s := Merged(all);
      var m := MinMap(all);
      && (forall x | x in s :: x.0 in m && x.1 == m[x.0])
      && (forall id | id in m :: (id, m[id]) in s)
      && (forall i, j :: 0 <= i < j < |s| ==> s[i] != s[j])
      && (forall i, j :: 0 <= i < j < |s| ==> FirstIndex(all, s[i].0) < FirstIndex(all, s[j].0))
  {
    MinMapIsMin(all);
    FirstSeenOrder(all);
    var o := FirstSeen(all);
    var s := Merged(all);
    forall id | id in MinMap(all) ensures (id, MinMap(all)[id]) in s {
      var k :| 0 <= k < |o| && o[k] == id;
      assert s[k] == (id, MinMap(all)[id]);
    }
  }

  /** The ranked pairs hold exactly the merged pairs. */
  lemma RankedContents(all: seq<Match>)
    ensures var s := Ranked(all);
      var m := MinMap(all);
      && (forall k :: 0 <= k < |s| ==> s[k].0 in m && s[k].1 == m[s[k].0])
      && (forall id | id in m :: (id, m[id]) in s)
      && Pairwise(s, (a: Match, b: Match) => a.0 != b.0)
  {
    MergedFacts(all);
    var items := Merged(all);
    var s := Ranked(all);
    assert multiset(s) == multiset(items);
    forall k | 0 <= k < |s| ensures s[k] in items {
      assert s[k] in multiset(items);
    }
    forall id | id in MinMap(all) ensures (id, MinMap(all)[id]) in s {
      assert (id, MinMap(all)[id]) in multiset(s);
    }
    forall i, j | 0 <= i < j < |s| ensures s[i].0 != s[j].0 {
      if s[i].0 == s[j].0 {
        assert s[i] in items && s[j] in items;
        assert s[i] == s[j];
        TwiceCounted(s, i, j);
        DistinctCounted(items, s[i]);
      }
    }
  }

  /** The ranked pairs are in ascending distance, ties in first-seen order. */
  lemma RankedOrder(all: seq<Match>)
    ensures var s := Ranked(all);
      && Pairwise(s, (a: Match, b: Match) => a.1 <= b.1)
      && Pairwise(s, (a: Match, b: Match) => a.1 == b.1 ==> FirstIndex(all, a.0) <= FirstIndex(all, b.0))
  {
    MergedFacts(all);
    var items := Merged(all);
    var s := Ranked(all);
    var lt := ByDistance();
    ByKeyIsStrictWeakOrder((p: Match) => p.1);
    SortSorted(items, lt);
    var g := (p: Match) => FirstIndex(all, p.0) as int;
    assert Ascending(items, g);
    SortStable(items, lt, g);
    forall i, j | 0 <= i < j < |s| ensures s[i].1 <= s[j].1 {
      assert !lt(s[j], s[i]);
    }
    forall i, j | 0 <= i < j < |s| && s[i].1 == s[j].1 ensures FirstIndex(all, s[i].0) <= FirstIndex(all, s[j].0) {
      assert Tied(lt, s[i], s[j]);
      assert g(s[i]) <= g(s[j]);
    }
  }

  /** The pairs within the threshold keep all the ranked facts. */
  lemma KeptFacts(all: seq<Match>)
    ensures var f := Within(Ranked(all));
      var m := MinMap(all);
      && (forall k :: 0 <= k < |f| ==> f[k].0 in m && f[k].1 == m[f[k].0] && f[k].1 <= DistanceThreshold)
      && (forall id | id in m && m[id] <= DistanceThreshold :: (id, m[id]) in f)
      && (forall i, j :: 0 <= i < j < |f| ==> f[i].0 != f[j].0 && f[i].1 <= f[j].1)
      && (forall i, j :: 0 <= i < j < |f| && f[i].1 == f[j].1 ==> FirstIndex(all, f[i].0) <= FirstIndex(all, f[j].0))
  {
    var s := Ranked(all);
    var m := MinMap(all);
    RankedContents(all);
    RankedOrder(all);
    var f := Within(s);
    WithinPairwise(s, (a: Match, b: Match) => a.0 != b.0);
    WithinPairwise(s, (a: Match, b: Match) => a.1 <= b.1);
    WithinPairwise(s, (a: Match, b: Match) => a.1 == b.1 ==> FirstIndex(all, a.0) <= FirstIndex(all, b.0));
    forall k | 0 <= k < |f| ensures f[k].0 in m && f[k].1 == m[f[k].0] && f[k].1 <= DistanceThreshold {
      WithinMembers(s, f[k]);
    }
    WithinKeepsAll(all);
  }

  /** Every merged pair within the threshold survives the cut. */
  lemma WithinKeepsAll(all: seq<Match>)
    ensures var m := MinMap(all);
      forall id | id in m && m[id] <= DistanceThreshold :: (id, m[id]) in Within(Ranked(all))
  {
    var s := Ranked(all);
    var m := MinMap(all);
    RankedContents(all);
    forall id | id in m && m[id] <= DistanceThreshold ensures (id, m[id]) in Within(s) {
      assert (id, m[id]) in s;
      WithinMembers(s, (id, m[id]));
    }
  }

  /** The merged ids are exactly the recorded ones. */
  lemma MergedIds(all: seq<Match>)
    ensures MinMap(all).Keys == IdsOf(all)
  {
    MinMapIsMin(all);
  }

  /** The result is the first ids of the pairs within the threshold. */
  lemma BestPrefix(all: seq<Match>)
    ensures var f := Within(Ranked(all));
      var r := Best(all);
      |r| <= TopSpells && |r| <= |f| && (|f| > |r| ==> |r| == TopSpells)
      && forall k :: 0 <= k < |r| ==> r[k] == f[k].0
  {
    var f := Within(Ranked(all));
    var ids := Firsts(f);
    assert Best(all) == Take(ids, TopSpells);
  }

  /** `find_matching_spells` ranks by least distance: the result holds
      distinct ids, each at or under the threshold, in ascending least
      distance with ties in first-seen order, at most `top_spells` of them. */
  lemma BestIsRanked(all: seq<Match>)
    ensures var r := Best(all);
      var m := MinMap(all);
      && |r| <= TopSpells
      && (forall i, j :: 0 <= i < j < |r| ==> r[i] != r[j])
      && (forall k :: 0 <= k < |r| ==> r[k] in m && m[r[k]] <= DistanceThreshold)
      && (forall i, j :: 0 <= i < j < |r| ==> m[r[i]] <= m[r[j]])
      && (forall i, j :: 0 <= i < j < |r| && m[r[i]] == m[r[j]] ==> FirstIndex(all, r[i]) < FirstIndex(all, r[j]))
  {
    var m := MinMap(all);
    var f := Within(Ranked(all));
    KeptFacts(all);
    BestPrefix(all);
    MergedIds(all);
    var r := Best(all);
    forall i, j | 0 <= i < j < |r| && m[r[i]] == m[r[j]] ensures FirstIndex(all, r[i]) < FirstIndex(all, r[j]) {
      assert f[i].1 == f[j].1;
      FirstIndexDistinct(all, r[i], r[j]);
    }
  }

  /** No closer id is left out: an id within the threshold that is not in
      the result is preceded by a full result of ids at least as close. */
  lemma BestIsComplete(all: seq<Match>)
    ensures var r := Best(all);
      var m := MinMap(all);
      forall id | id in m && m[id] <= DistanceThreshold ::
        id in r || (|r| == TopSpells && forall k :: 0 <= k < |r| ==> r[k] in m && m[r[k]] <= m[id])
  {
    var m := MinMap(all);
    var f := Within(Ranked(all));
    KeptFacts(all);
    BestPrefix(all);
    var r := Best(all);
    forall id | id in m && m[id] <= DistanceThreshold
      ensures id in r || (|r| == TopSpells && forall k :: 0 <= k < |r| ==> r[k] in m && m[r[k]] <= m[id])
    {
      var q :| 0 <= q < |f| && f[q] == (id, m[id]);
      if q < |r| {
        assert r[q] == id;
      } else {
        forall k | 0 <= k < |r| ensures r[k] in m && m[r[k]] <= m[id] {
          assert f[k].1 <= f[q].1;
        }
      }
    }
  }

  /** Distinct recorded ids first occur at distinct places. */
  lemma {:induction false} FirstIndexDistinct(all: seq<Match>, a: string, b: string)
    requires a in IdsOf(all) && b in IdsOf(all) && a != b
    ensures FirstIndex(all, a) != FirstIndex(all, b)
    decreases |all|
  {
    var p := all[..|all| - 1];
    IdsOfPrefix(all);
    if a in IdsOf(p) && b in IdsOf(p) {
      FirstIndexDistinct(p, a, b);
    } else if a in IdsOf(p) {
      FirstIndexBound(p, a);
    } else if b in IdsOf(p) {
      FirstIndexBound(p, b);
    }
  }

  /** A recorded id first occurs inside the pairs. */
  lemma {:induction false} FirstIndexBound(all: seq<Match>, id: string)
    requires id in IdsOf(all)
    ensures FirstIndex(all, id) < |all|
    decreases |all|
  {
    var p := all[..|all| - 1];
    IdsOfPrefix(all);
    if id in IdsOf(p) {
      FirstIndexBound(p, id);
    }
  }

  /** The pairs collected from a listing are those of its listed
      collections, in listing order. */
  lemma CollectedSkipsUnlisted(names: seq<string>, allowed: Option<seq<string>>, query: string, search: Searcher, x: Match)
    ensures x in Collected(names, allowed, query, search) ==>
      exists k :: 0 <= k < |names| && Listed(names[k], allowed) && search(names[k], query).Some? && x in HitPairs(search(names[k], query).value)
    decreases |names|
  {
    if names != [] {
      var p := names[..|names| - 1];
      CollectedSkipsUnlisted(p, allowed, query, search, x);
      if x in Collected(p, allowed, query, search) {
        var k :| 0 <= k < |p| && Listed(p[k], allowed) && search(p[k], query).Some? && x in HitPairs(search(p[k], query).value);
        assert names[k] == p[k];
      }
    }
  }

  /** An invalid query, or a listing that raises, gives no result. */
  lemma InvalidQueryGivesNothing(query: Option<string>, listing: Option<seq<string>>, allowed: Option<seq<string>>, search: Searcher)
    requires query.None? || query.value == "" || IsBlank(query.value) || listing.None?
    ensures MatchingSpells(query, listing, allowed, search) == []
  {
  }

  /** An empty allow-list (as opposed to none) searches no collection. */
  lemma EmptyAllowListSearchesNothing(names: seq<string>, query: string, search: Searcher)
    ensures Collected(names, Some([]), query, search) == []
    decreases |names|
  {
    if names != [] {
      EmptyAllowListSearchesNothing(names[..|names| - 1], query, search);
    }
  }

  /** The duplicate from the store's tests: an id found twice is returned
      once, ranked by the closer of its two distances. */
  lemma DuplicateMergedExample()
    ensures MinMap([("s1", 0.1), ("s1", 0.05)]) == map["s1" := 0.05]
    ensures Best([("s1", 0.1), ("s1", 0.05)]) == ["s1"]
  {
    var all: seq<Match> := [("s1", 0.1), ("s1", 0.05)];
    assert all[..1] == [("s1", 0.1)];
    assert [("s1", 0.1)][..0] == [];
    assert MinMap([("s1", 0.1)]) == map["s1" := 0.1];
    assert IdsOf(all[..1]) == {"s1"};
    assert FirstSeen([("s1", 0.1)]) == ["s1"];
    assert FirstSeen(all) == ["s1"];
    var items := Items(MinMap(all), FirstSeen(all));
    assert items == [("s1", 0.05)];
    assert Sort(items, ByDistance()) == [("s1", 0.05)] by {
      assert items[1..] == [];
    }
    assert Within([("s1", 0.05)]) == [("s1", 0.05)] by {
      assert [("s1", 0.05)][1..] == [];
    }
  }

  // ---------------------------------------------------------------------
  // The master index and single collections

  /** One entry of `find_relevant_grimoriums`. */
  datatype GrimoriumMatch = GrimoriumMatch(id: string, description: string, metadata: Option<Metadata>, distance: real)

  /** The matches of the first `n` hits of the master index, or the
      exception indexing raises (distances, metadatas or documents shorter
      than the ids). */
  function RelevantScan(h: Hits, n: nat): Result<seq<GrimoriumMatch>>
    requires n <= |h.ids|
  {
    if n == 0 then Ok([])
    else match RelevantScan(h, n - 1)
      case Raised(x) => Raised(x)
      case Ok(ms) =>
        var i := n - 1;
        if i >= |h.distances| then Raised("IndexError")
        else if h.distances[i] <= DistanceThreshold then
          if i >= |h.metadatas| || i >= |h.documents| then Raised("IndexError")
          else Ok(ms + [GrimoriumMatch(h.ids[i], h.documents[i], h.metadatas[i], h.distances[i])])
        else Ok(ms)
  }

  function ByMatchDistance(): (GrimoriumMatch, GrimoriumMatch) -> bool {
    ByKey((g: GrimoriumMatch) => g.distance)
  }

  /** `find_relevant_grimoriums(query)`: `answer` is the master index's
      answer, `None` where getting or creating the index, or querying it,
      raises. */
  function RelevantGrimoriums(query: string, answer: Option<Hits>): seq<GrimoriumMatch> {
    if query == "" || answer.None? then []
    else match RelevantScan(answer.value, |answer.value.ids|)
      case Raised(_) => []
      case Ok(ms) => Sort(ms, ByMatchDistance())
  }

  /** `m` is the match built from the `i`-th hit. */
  predicate IsHit(h: Hits, i: int, m: GrimoriumMatch) {
    && 0 <= i < |h.ids| && i < |h.documents| && i < |h.metadatas| && i < |h.distances|
    && m == GrimoriumMatch(h.ids[i], h.documents[i], h.metadatas[i], h.distances[i])
  }

  /** `m` is built from one of the first `n` hits. */
  ghost predicate FromHits(h: Hits, n: int, m: GrimoriumMatch) {
    exists i :: 0 <= i < n && IsHit(h, i, m)
  }

  lemma {:induction false} RelevantScanWithin(h: Hits, n: nat)
    requires n <= |h.ids| && RelevantScan(h, n).Ok?
    ensures var ms := RelevantScan(h, n).value;
      && (forall k :: 0 <= k < |ms| ==> ms[k].distance <= DistanceThreshold)
      && (forall k :: 0 <= k < |ms| ==> FromHits(h, n, ms[k]))
      && n <= |h.distances|
      && (forall i | 0 <= i < n && h.distances[i] <= DistanceThreshold ::
            i < |h.documents| && i < |h.metadatas| &&
            GrimoriumMatch(h.ids[i], h.documents[i], h.metadatas[i], h.distances[i]) in ms)
    decreases n
  {
    if n > 0 {
      RelevantScanWithin(h, n - 1);
      var prev := RelevantScan(h, n - 1).value;
      var ms := RelevantScan(h, n).value;
      var last := n - 1;
      if h.distances[last] <= DistanceThreshold {
        var m := GrimoriumMatch(h.ids[last], h.documents[last], h.metadatas[last], h.distances[last]);
        assert ms == prev + [m];
        assert IsHit(h, last, m);
      } else {
        assert ms == prev;
      }
      forall k | 0 <= k < |ms| ensures FromHits(h, n, ms[k]) {
        if k < |prev| {
          var i :| 0 <= i < n - 1 && IsHit(h, i, prev[k]);
          assert ms[k] == prev[k];
          assert IsHit(h, i, ms[k]);
        } else {
          assert IsHit(h, last, ms[k]);
        }
      }
    }
  }

  /** Once indexing has raised, the scan stays raised. */
  lemma {:induction false} RelevantScanStaysRaised(h: Hits, i: nat, n: nat)
    requires i <= n <= |h.ids| && RelevantScan(h, i).Raised?
    ensures RelevantScan(h, n).Raised?
    decreases n - i
  {
    if n > i {
      RelevantScanStaysRaised(h, i, n - 1);
    }
  }

  /** Reordering matches built from hits leaves matches built from hits. */
  lemma HitsSurviveSorting(h: Hits, ms: seq<GrimoriumMatch>, r: seq<GrimoriumMatch>)
    requires multiset(r) == multiset(ms)
    requires forall k :: 0 <= k < |ms| ==> FromHits(h, |h.ids|, ms[k])
    ensures forall k :: 0 <= k < |r| ==> FromHits(h, |h.ids|, r[k])
  {
    forall k | 0 <= k < |r| ensures FromHits(h, |h.ids|, r[k]) {
      assert r[k] in multiset(ms);
      var j :| 0 <= j < |ms| && ms[j] == r[k];
      var i :| 0 <= i < |h.ids| && IsHit(h, i, ms[j]);
      assert IsHit(h, i, r[k]);
    }
  }

  /** `find_relevant_grimoriums` returns exactly the hits at or under the
      threshold, in ascending distance: each result is built from a hit,
      and every hit within the threshold is among the results. */
  lemma RelevantGrimoriumsRanked(query: string, answer: Option<Hits>)
    ensures var r := RelevantGrimoriums(query, answer);
      && (forall k :: 0 <= k < |r| ==> r[k].distance <= DistanceThreshold)
      && (forall i, j :: 0 <= i < j < |r| ==> r[i].distance <= r[j].distance)
      && (query != "" && answer.Some? && RelevantScan(answer.value, |answer.value.ids|).Ok? ==>
            var h := answer.value;
            && |h.ids| <= |h.distances|
            && (forall k :: 0 <= k < |r| ==> FromHits(h, |h.ids|, r[k]))
            && forall i | 0 <= i < |h.ids| && h.distances[i] <= DistanceThreshold ::
                 i < |h.documents| && i < |h.metadatas| &&
                 GrimoriumMatch(h.ids[i], h.documents[i], h.metadatas[i], h.distances[i]) in r)
  {
    var r := RelevantGrimoriums(query, answer);
    if query != "" && answer.Some? && RelevantScan(answer.value, |answer.value.ids|).Ok? {
      var h := answer.value;
      var ms := RelevantScan(h, |h.ids|).value;
      RelevantScanWithin(h, |h.ids|);
      var lt := ByMatchDistance();
      ByKeyIsStrictWeakOrder((g: GrimoriumMatch) => g.distance);
      SortSorted(ms, lt);
      assert multiset(r) == multiset(ms);
      forall k | 0 <= k < |r| ensures r[k].distance <= DistanceThreshold {
        assert r[k] in multiset(ms);
      }
      forall i, j | 0 <= i < j < |r| ensures r[i].distance <= r[j].distance {
        assert !lt(r[j], r[i]);
      }
      HitsSurviveSorting(h, ms, r);
      forall i | 0 <= i < |h.ids| && h.distances[i] <= DistanceThreshold
        ensures i < |h.documents| && i < |h.metadatas| && GrimoriumMatch(h.ids[i], h.documents[i], h.metadatas[i], h.distances[i]) in r
      {
        assert GrimoriumMatch(h.ids[i], h.documents[i], h.metadatas[i], h.distances[i]) in multiset(ms);
      }
    }
  }

  /** The ids of the first `n` hits of one collection at or under the
      threshold, in store order, or the exception indexing raises. */
  function WithinScan(h: Hits, n: nat): Result<seq<string>>
    requires n <= |h.ids|
  {
    if n == 0 then Ok([])
    else match WithinScan(h, n - 1)
      case Raised(x) => Raised(x)
      case Ok(ids) =>
        var i := n - 1;
        if i >= |h.distances| then Raised("IndexError")
        else if h.distances[i] <= DistanceThreshold then Ok(ids + [h.ids[i]])
        else Ok(ids)
  }

  /** Once indexing has raised, the scan stays raised. */
  lemma {:induction false} WithinScanStaysRaised(h: Hits, i: nat, n: nat)
    requires i <= n <= |h.ids| && WithinScan(h, i).Raised?
    ensures WithinScan(h, n).Raised?
    decreases n - i
  {
    if n > i {
      WithinScanStaysRaised(h, i, n - 1);
    }
  }

  /** The allow-list check of `find_spells_within_grimorium`: a truthy list
      (non-empty) that lacks the collection denies it. */
  predicate WithinDenied(id: string, allowed: Option<seq<string>>) {
    allowed.Some? && allowed.value != [] && id !in allowed.value
  }

  /** `find_spells_within_grimorium(id, query)`. */
  function SpellsWithin(id: string, query: string, allowed: Option<seq<string>>, search: Searcher): seq<string> {
    if WithinDenied(id, allowed) then []
    else match search(id, query)
      case None => []
      case Some(h) =>
        match WithinScan(h, |h.ids|)
        case Raised(_) => []
        case Ok(ids) => ids
  }

  /** The hits kept, by index: strictly increasing, each at or under the
      threshold, none skipped. */
  function KeptIndices(h: Hits, n: nat): (ks: seq<nat>)
    requires n <= |h.ids| && n <= |h.distances|
    ensures forall k :: 0 <= k < |ks| ==> ks[k] < n && h.distances[ks[k]] <= DistanceThreshold
    ensures forall i, j :: 0 <= i < j < |ks| ==> ks[i] < ks[j]
    ensures forall i | 0 <= i < n && h.distances[i] <= DistanceThreshold :: i in ks
  {
    if n == 0 then []
    else KeptIndices(h, n - 1) + (if h.distances[n - 1] <= DistanceThreshold then [n - 1] else [])
  }

  lemma {:induction false} WithinScanKept(h: Hits, n: nat)
    requires n <= |h.ids| && WithinScan(h, n).Ok?
    ensures n <= |h.distances|
    ensures var ids := WithinScan(h, n).value;
      var ks := KeptIndices(h, n);
      |ids| == |ks| && forall k :: 0 <= k < |ks| ==> ids[k] == h.ids[ks[k]]
    decreases n
  {
    if n > 0 {
      WithinScanKept(h, n - 1);
    }
  }

  /** `find_spells_within_grimorium` returns, in store order, exactly the
      hits at or under the threshold; a collection the allow-list denies is
      not even queried (the answer does not matter). */
  lemma SpellsWithinFacts(id: string, query: string, allowed: Option<seq<string>>, search: Searcher, other: Searcher)
    ensures WithinDenied(id, allowed) ==> SpellsWithin(id, query, allowed, search) == [] == SpellsWithin(id, query, allowed, other)
    ensures !WithinDenied(id, allowed) && search(id, query).Some? && WithinScan(search(id, query).value, |search(id, query).value.ids|).Ok? ==>
      var h := search(id, query).value;
      var ks := KeptIndices(h, |h.ids|);
      var r := SpellsWithin(id, query, allowed, search);
      |r| == |ks| && forall k :: 0 <= k < |ks| ==> r[k] == h.ids[ks[k]]
  {
    if !WithinDenied(id, allowed) && search(id, query).Some? {
      var h := search(id, query).value;
      if WithinScan(h, |h.ids|).Ok? {
        WithinScanKept(h, |h.ids|);
      }
    }
  }

  // ---------------------------------------------------------------------
  // Access

  /** `validate_spell_access(spell)`: no allow-list allows everything;
      otherwise some listed collection must exist, answer `get` and hold the
      spell. */
  predicate Accessible(cols: map<string, Collection>, getFails: set<string>, allowed: Option<seq<string>>, spell: string) {
    allowed.None? ||
    exists k :: 0 <= k < |allowed.value| && Holds(cols, getFails, allowed.value[k], spell)
  }

  /** Collection `c` exists, can be read and holds `spell`. */
  predicate Holds(cols: map<string, Collection>, getFails: set<string>, c: string, spell: string) {
    c in cols && c !in getFails && spell in cols[c]
  }

  /** Access fails closed: with an allow-list, a spell held by no readable
      listed collection is denied, and an empty allow-list denies all. */
  lemma AccessFailsClosed(cols: map<string, Collection>, getFails: set<string>, allowed: seq<string>, spell: string)
    ensures allowed == [] ==> !Accessible(cols, getFails, Some(allowed), spell)
    ensures (forall c | c in allowed :: c !in cols || c in getFails) ==> !Accessible(cols, getFails, Some(allowed), spell)
  {
  }
}
