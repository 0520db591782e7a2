/** What `SpellSync.sync_spells` does to the vector store: the registry's
    spells are grouped into buckets (one collection each), and in each
    bucket only the spells whose docstring hash differs from the stored one
    are upserted, in one batch. md5 is a parameter. */
module SpellSyncing {
  import opened Common
  import opened Workspace
  import opened Store

  const DefaultBucket: string := "default_grimorium"
  const DiscoveredPrefix: string := "magetools.discovered_spells."

  /** The collection a spell is synced to: the third dot-separated part of
      a module name under `magetools.discovered_spells.`, else the default
      bucket; the spell's explicit collection attribute overrides both. */
  function BucketName(f: SpellFn): string {
    var fromModule :=
      if f.moduleName != "" && StartsWith(f.moduleName, DiscoveredPrefix) then
        var parts := Split(f.moduleName, '.');
        if |parts| >= 3 then parts[2] else DefaultBucket
      else DefaultBucket;
    if f.collectionAttr.Some? then f.collectionAttr.value else fromModule
  }

  /** A spell loaded by discovery from file `stem` of collection `c`, with
      no explicit override, is synced to the collection `c`. */
  lemma DiscoveredSpellBucket(f: SpellFn, c: string, stem: string)
    requires '.' !in c && f.collectionAttr.None?
    requires f.moduleName == DiscoveredPrefix + c + "." + stem
    ensures BucketName(f) == c
  {
    assert DiscoveredPrefix == "magetools" + ['.'] + "discovered_spells" + ['.'];
    PrefixedThird("magetools", "discovered_spells", DiscoveredPrefix, c, stem, '.');
  }

  /** A spell without a discovered module name or override goes to the
      default bucket. */
  lemma OtherSpellsDefaultBucket(f: SpellFn)
    requires f.collectionAttr.None? && !StartsWith(f.moduleName, DiscoveredPrefix)
    ensures BucketName(f) == DefaultBucket
  {
  }

  /** `spell_func.__doc__ or ""`. */
  function DocOf(f: SpellFn): string {
    if f.doc.Some? then f.doc.value else ""
  }

  /** `hashlib.md5(docstring.encode("utf-8")).hexdigest()`. */
  function SpellHash(f: SpellFn, md5: seq<Byte> -> Digest): Digest {
    md5(Utf8(DocOf(f)))
  }

  /** The ids of the registry synced to collection `b`. */
  function Bucket(registry: Registry, b: string): set<string> {
    set id | id in registry && BucketName(registry[id]) == b
  }

  /** The collections the registry is synced to. */
  function Buckets(registry: Registry): set<string> {
    set id | id in registry :: BucketName(registry[id])
  }

  /** The `{id: hash}` map read back from a collection: the ids whose
      metadata is truthy and has a "hash" key. */
  function StoredHashes(c: Collection): map<string, MetaValue> {
    map id | id in c && c[id].metadata.Some? && "hash" in c[id].metadata.value :: c[id].metadata.value["hash"]
  }

  /** The stored hashes of bucket `b` as `sync_spells` sees them: none when
      the collection is new or its `get` raises. */
  function Existing(cols: map<string, Collection>, b: string, getFails: set<string>): map<string, MetaValue> {
    if b in getFails || b !in cols then map[] else StoredHashes(cols[b])
  }

  /** The spell is skipped: its id has a stored hash equal to its current one. */
  predicate UpToDate(existing: map<string, MetaValue>, id: string, hash: Digest) {
    id in existing && existing[id] == MStr(hash)
  }

  /** The record upserted for a spell: its docstring, its name and hash. */
  function SpellRecord(id: string, f: SpellFn, md5: seq<Byte> -> Digest): Record {
    Record(DocOf(f), Some(map["name" := MStr(id), "hash" := MStr(SpellHash(f, md5))]))
  }

  /** The records of bucket `b` that are upserted. */
  function Staged(registry: Registry, b: string, existing: map<string, MetaValue>, md5: seq<Byte> -> Digest): Collection {
    StagedAmong(registry, Bucket(registry, b), existing, md5)
  }

  /** The records upserted for the ids in `ids`: those not up to date. */
  function StagedAmong(registry: Registry, ids: set<string>, existing: map<string, MetaValue>, md5: seq<Byte> -> Digest): Collection
    requires ids <= registry.Keys
  {
    map id | id in ids && !UpToDate(existing, id, SpellHash(registry[id], md5)) :: SpellRecord(id, registry[id], md5)
  }

  /** Staging one more id adds its record unless it is up to date. */
  lemma StagedAmongStep(registry: Registry, ids: set<string>, id: string, existing: map<string, MetaValue>, md5: seq<Byte> -> Digest)
    requires ids <= registry.Keys && id in registry && id !in ids
    ensures StagedAmong(registry, ids + {id}, existing, md5) ==
      if UpToDate(existing, id, SpellHash(registry[id], md5)) then StagedAmong(registry, ids, existing, md5)
      else StagedAmong(registry, ids, existing, md5)[id := SpellRecord(id, registry[id], md5)]
  {
    var next := StagedAmong(registry, ids + {id}, existing, md5);
    var expected := if UpToDate(existing, id, SpellHash(registry[id], md5)) then StagedAmong(registry, ids, existing, md5)
      else StagedAmong(registry, ids, existing, md5)[id := SpellRecord(id, registry[id], md5)];
    assert next.Keys == expected.Keys;
  }

  /** The ids of bucket `b` that are skipped. */
  function Skipped(registry: Registry, b: string, existing: map<string, MetaValue>, md5: seq<Byte> -> Digest): set<string> {
    set id | id in Bucket(registry, b) && UpToDate(existing, id, SpellHash(registry[id], md5))
  }

  /** The records upserted into bucket `b` of the store `cols`. */
  function StagedFor(cols: map<string, Collection>, registry: Registry, b: string, getFails: set<string>, md5: seq<Byte> -> Digest): Collection {
    Staged(registry, b, Existing(cols, b, getFails), md5)
  }

  /** Collection `b` once its bucket is processed: created if absent, and
      updated by its one batch when there is one and the upsert succeeds. */
  function SyncedBucket(cols: map<string, Collection>, registry: Registry, b: string, md5: seq<Byte> -> Digest,
                        getFails: set<string>, upsertFails: set<string>): Collection {
    var c := if b in cols then cols[b] else map[];
    var staged := StagedFor(cols, registry, b, getFails, md5);
    if staged != map[] && b !in upsertFails then c + staged else c
  }

  /** The store once the buckets in `handled` are processed; a bucket
      whose collection cannot be created is skipped. */
  function SyncedStore(cols: map<string, Collection>, registry: Registry, md5: seq<Byte> -> Digest, handled: set<string>,
                       createFails: set<string>, getFails: set<string>, upsertFails: set<string>): map<string, Collection> {
    map b | b in cols.Keys + (handled - createFails) ::
      if b in handled && b !in createFails then SyncedBucket(cols, registry, b, md5, getFails, upsertFails) else cols[b]
  }

  /** The store after `sync_spells`. */
  function Synced(cols: map<string, Collection>, registry: Registry, md5: seq<Byte> -> Digest,
                  createFails: set<string>, getFails: set<string>, upsertFails: set<string>): map<string, Collection> {
    SyncedStore(cols, registry, md5, Buckets(registry), createFails, getFails, upsertFails)
  }

  // ---------------------------------------------------------------------
  // Properties

  /** Each spell of a bucket is either upserted or skipped, never both. */
  lemma StagedSkippedPartition(registry: Registry, b: string, existing: map<string, MetaValue>, md5: seq<Byte> -> Digest)
    ensures Staged(registry, b, existing, md5).Keys + Skipped(registry, b, existing, md5) == Bucket(registry, b)
    ensures Staged(registry, b, existing, md5).Keys * Skipped(registry, b, existing, md5) == {}
    ensures |Staged(registry, b, existing, md5).Keys| + |Skipped(registry, b, existing, md5)| == |Bucket(registry, b)|
  {
    var st := Staged(registry, b, existing, md5).Keys;
    var sk := Skipped(registry, b, existing, md5);
    assert st + sk == Bucket(registry, b);
    assert st * sk == {};
    assert |st + sk| == |st| + |sk| - |st * sk|;
  }

  /** A spell is upserted exactly when the collection holds no hash for it
      or holds a different one; then its record carries the current hash. */
  lemma UpsertedIffChanged(cols: map<string, Collection>, registry: Registry, id: string, md5: seq<Byte> -> Digest)
    requires id in registry
    ensures var b := BucketName(registry[id]);
            var hash := SpellHash(registry[id], md5);
            && (id in StagedFor(cols, registry, b, {}, md5) <==>
                  !(b in cols && id in cols[b] && cols[b][id].metadata.Some?
                    && "hash" in cols[b][id].metadata.value && cols[b][id].metadata.value["hash"] == MStr(hash)))
            && (id in StagedFor(cols, registry, b, {}, md5) ==>
                  StagedFor(cols, registry, b, {}, md5)[id] == Record(DocOf(registry[id]), Some(map["name" := MStr(id), "hash" := MStr(hash)])))
  {
    var b := BucketName(registry[id]);
    assert id in Bucket(registry, b);
  }

  /** When reading the stored hashes fails, every spell of the bucket is
      upserted. */
  lemma FetchFailureUpsertsAll(cols: map<string, Collection>, registry: Registry, b: string, getFails: set<string>, md5: seq<Byte> -> Digest)
    requires b in getFails
    ensures StagedFor(cols, registry, b, getFails, md5).Keys == Bucket(registry, b)
  {
  }

  /** With collections that can be created and written, every spell of the
      registry ends up in its bucket's collection with its current hash. */
  lemma SyncedRecordsCurrent(cols: map<string, Collection>, registry: Registry, md5: seq<Byte> -> Digest, getFails: set<string>, id: string)
    requires id in registry
    ensures var after := Synced(cols, registry, md5, {}, getFails, {});
            var b := BucketName(registry[id]);
            b in after && UpToDate(StoredHashes(after[b]), id, SpellHash(registry[id], md5))
  {
    var b := BucketName(registry[id]);
    var after := Synced(cols, registry, md5, {}, getFails, {});
    assert b in Buckets(registry);
    assert after[b] == SyncedBucket(cols, registry, b, md5, getFails, {});
    SyncedBucketCurrent(cols, registry, b, md5, getFails, id);
  }

  /** A spell of bucket `b` is current in the collection once `b` is
      processed without failures to create or write it. */
  lemma SyncedBucketCurrent(cols: map<string, Collection>, registry: Registry, b: string, md5: seq<Byte> -> Digest,
                            getFails: set<string>, id: string)
    requires id in registry && BucketName(registry[id]) == b
    ensures UpToDate(StoredHashes(SyncedBucket(cols, registry, b, md5, getFails, {})), id, SpellHash(registry[id], md5))
  {
    assert id in Bucket(registry, b);
    var staged := StagedFor(cols, registry, b, getFails, md5);
    var c := if b in cols then cols[b] else map[];
    var synced := SyncedBucket(cols, registry, b, md5, getFails, {});
    if id in staged {
      assert synced == c + staged;
      assert synced[id] == SpellRecord(id, registry[id], md5);
    } else {
      assert UpToDate(Existing(cols, b, getFails), id, SpellHash(registry[id], md5));
      assert b !in getFails && b in cols;
      assert synced[id] == c[id];
    }
  }

  /** Syncing twice with unchanged docstrings: the second run upserts
      nothing and leaves the store as it is. */
  lemma SyncIsIdempotent(cols: map<string, Collection>, registry: Registry, md5: seq<Byte> -> Digest, getFails: set<string>)
    ensures var once := Synced(cols, registry, md5, {}, getFails, {});
            && (forall b | b in Buckets(registry) :: StagedFor(once, registry, b, {}, md5) == map[])
            && Synced(once, registry, md5, {}, {}, {}) == once
  {
    var once := Synced(cols, registry, md5, {}, getFails, {});
    forall b | b in Buckets(registry)
      ensures StagedFor(once, registry, b, {}, md5) == map[]
    {
      ResyncStagesNothing(cols, registry, md5, getFails, b);
    }
    assert Buckets(registry) <= once.Keys;
    SyncedStoreNoop(once, registry, md5, Buckets(registry));
  }

  /** Handling buckets that exist and have nothing to stage changes nothing. */
  lemma SyncedStoreNoop(cols: map<string, Collection>, registry: Registry, md5: seq<Byte> -> Digest, handled: set<string>)
    requires handled <= cols.Keys
    requires forall b | b in handled :: StagedFor(cols, registry, b, {}, md5) == map[]
    ensures SyncedStore(cols, registry, md5, handled, {}, {}, {}) == cols
  {
    var after := SyncedStore(cols, registry, md5, handled, {}, {}, {});
    assert after.Keys == cols.Keys;
    forall b | b in after
      ensures after[b] == cols[b]
    {
      if b in handled {
        assert after[b] == SyncedBucket(cols, registry, b, md5, {}, {});
      }
    }
  }

  /** After a sync, no spell of a bucket is staged again. */
  lemma ResyncStagesNothing(cols: map<string, Collection>, registry: Registry, md5: seq<Byte> -> Digest, getFails: set<string>, b: string)
    ensures StagedFor(Synced(cols, registry, md5, {}, getFails, {}), registry, b, {}, md5) == map[]
  {
    var once := Synced(cols, registry, md5, {}, getFails, {});
    forall id | id in Bucket(registry, b)
      ensures UpToDate(Existing(once, b, {}), id, SpellHash(registry[id], md5))
    {
      SyncedRecordsCurrent(cols, registry, md5, getFails, id);
    }
  }

  /** `sync_spells` writes only the spells of the registry, each into its
      own bucket's collection; it removes no collection and creates only
      bucket collections. */
  lemma SyncWritesOnlyRegistrySpells(cols: map<string, Collection>, registry: Registry, md5: seq<Byte> -> Digest,
                                     createFails: set<string>, getFails: set<string>, upsertFails: set<string>)
    ensures var after := Synced(cols, registry, md5, createFails, getFails, upsertFails);
            && cols.Keys <= after.Keys
            && (forall b | b in after && b !in cols :: b in Buckets(registry) && after[b].Keys <= Bucket(registry, b))
            && (forall b, id | b in cols && id in after[b] && !(id in cols[b] && after[b][id] == cols[b][id]) ::
                  id in registry && BucketName(registry[id]) == b)
  {
    var after := Synced(cols, registry, md5, createFails, getFails, upsertFails);
    forall b | b in after && b !in cols
      ensures b in Buckets(registry) && after[b].Keys <= Bucket(registry, b)
    {
      assert after[b] == SyncedBucket(cols, registry, b, md5, getFails, upsertFails);
      SyncedBucketWithin(cols, registry, b, md5, getFails, upsertFails);
    }
    forall b, id | b in cols && id in after[b] && !(id in cols[b] && after[b][id] == cols[b][id])
      ensures id in registry && BucketName(registry[id]) == b
    {
      assert after[b] == SyncedBucket(cols, registry, b, md5, getFails, upsertFails);
      SyncedBucketWithin(cols, registry, b, md5, getFails, upsertFails);
    }
  }

  /** Processing a bucket changes or adds only records of that bucket. */
  lemma SyncedBucketWithin(cols: map<string, Collection>, registry: Registry, b: string, md5: seq<Byte> -> Digest,
                           getFails: set<string>, upsertFails: set<string>)
    ensures var c := SyncedBucket(cols, registry, b, md5, getFails, upsertFails);
            forall id | id in c && !(b in cols && id in cols[b] && c[id] == cols[b][id]) :: id in Bucket(registry, b)
  {
    var staged := StagedFor(cols, registry, b, getFails, md5);
    assert staged.Keys <= Bucket(registry, b);
  }

  // ---------------------------------------------------------------------
  // The steps of `sync_spells`

  /** The buckets of the ids in `done`. */
  function BucketsOf(registry: Registry, done: set<string>): set<string>
    requires done <= registry.Keys
  {
    set id | id in done :: BucketName(registry[id])
  }

  /** `book_buckets` once the ids in `done` are grouped: bucket name to ids. */
  function Grouped(registry: Registry, done: set<string>): map<string, set<string>>
    requires done <= registry.Keys
  {
    map b | b in BucketsOf(registry, done) :: set id | id in done && BucketName(registry[id]) == b
  }

  /** Grouping one more id adds it to its bucket, creating the bucket. */
  lemma GroupedStep(registry: Registry, done: set<string>, id: string)
    requires done <= registry.Keys && id in registry && id !in done
    ensures var g := Grouped(registry, done);
            var b := BucketName(registry[id]);
            Grouped(registry, done + {id}) == g[b := (if b in g then g[b] else {}) + {id}]
  {
    var g := Grouped(registry, done);
    var b := BucketName(registry[id]);
    var g' := Grouped(registry, done + {id});
    assert g'.Keys == g.Keys + {b};
    forall x | x in g'.Keys ensures g'[x] == g[b := (if b in g then g[b] else {}) + {id}][x] {
    }
  }

  /** Once every id is grouped, the buckets are those of the registry. */
  lemma GroupedAll(registry: Registry)
    ensures Grouped(registry, registry.Keys).Keys == Buckets(registry)
    ensures forall b | b in Buckets(registry) :: Grouped(registry, registry.Keys)[b] == Bucket(registry, b)
  {
  }

  /** The upsert calls of bucket `b`: one carrying the staged records, when
      the collection can be created and there is something to stage. */
  function BucketCalls(cols: map<string, Collection>, registry: Registry, b: string, md5: seq<Byte> -> Digest,
                       createFails: set<string>, getFails: set<string>): seq<UpsertCall> {
    var staged := StagedFor(cols, registry, b, getFails, md5);
    if b in createFails || staged == map[] then [] else [UpsertCall(b, staged)]
  }

  /** The collections `calls` were made on. */
  function CalledCollections(calls: seq<UpsertCall>): set<string> {
    set k | 0 <= k < |calls| :: calls[k].collection
  }

  /** Each of `calls` is made on a handled bucket that can be created, with
      exactly the records staged for it. */
  predicate CallsStaged(calls: seq<UpsertCall>, cols: map<string, Collection>, registry: Registry, md5: seq<Byte> -> Digest,
                        handled: set<string>, createFails: set<string>, getFails: set<string>) {
    forall k :: 0 <= k < |calls| ==>
      calls[k].collection in handled && calls[k].collection !in createFails
      && calls[k].records == StagedFor(cols, registry, calls[k].collection, getFails, md5) && calls[k].records != map[]
  }

  /** No collection is upserted twice. */
  predicate CallsDistinct(calls: seq<UpsertCall>) {
    forall i, j :: 0 <= i < j < |calls| ==> calls[i].collection != calls[j].collection
  }

  /** Every handled bucket that can be created and has records to stage is
      upserted. */
  predicate CallsCover(calls: seq<UpsertCall>, cols: map<string, Collection>, registry: Registry, md5: seq<Byte> -> Digest,
                       handled: set<string>, createFails: set<string>, getFails: set<string>) {
    forall b | b in handled && b !in createFails && StagedFor(cols, registry, b, getFails, md5) != map[] :: b in CalledCollections(calls)
  }

  /** `calls` are the upserts of the buckets in `handled`: one per bucket that
      has records to stage, each with exactly those records. */
  predicate BatchesOf(calls: seq<UpsertCall>, cols: map<string, Collection>, registry: Registry, md5: seq<Byte> -> Digest,
                      handled: set<string>, createFails: set<string>, getFails: set<string>) {
    && CallsStaged(calls, cols, registry, md5, handled, createFails, getFails)
    && CallsDistinct(calls)
    && CallsCover(calls, cols, registry, md5, handled, createFails, getFails)
  }

  /** What the store looks like at a bucket not yet handled. */
  lemma SyncedStoreUntouched(cols: map<string, Collection>, registry: Registry, md5: seq<Byte> -> Digest, handled: set<string>,
                             b: string, createFails: set<string>, getFails: set<string>, upsertFails: set<string>)
    requires b !in handled
    ensures var now := SyncedStore(cols, registry, md5, handled, createFails, getFails, upsertFails);
            (b in now <==> b in cols) && (b in cols ==> now[b] == cols[b])
            && StagedFor(now, registry, b, getFails, md5) == StagedFor(cols, registry, b, getFails, md5)
            && SyncedBucket(now, registry, b, md5, getFails, upsertFails) == SyncedBucket(cols, registry, b, md5, getFails, upsertFails)
  {
  }

  /** Handling one more bucket updates its collection and nothing else. */
  lemma SyncedStoreStep(cols: map<string, Collection>, registry: Registry, md5: seq<Byte> -> Digest, handled: set<string>,
                        b: string, createFails: set<string>, getFails: set<string>, upsertFails: set<string>)
    requires b !in handled
    ensures var now := SyncedStore(cols, registry, md5, handled, createFails, getFails, upsertFails);
            SyncedStore(cols, registry, md5, handled + {b}, createFails, getFails, upsertFails) ==
              if b in createFails then now else now[b := SyncedBucket(cols, registry, b, md5, getFails, upsertFails)]
  {
    var now := SyncedStore(cols, registry, md5, handled, createFails, getFails, upsertFails);
    var next := SyncedStore(cols, registry, md5, handled + {b}, createFails, getFails, upsertFails);
    var expected := if b in createFails then now else now[b := SyncedBucket(cols, registry, b, md5, getFails, upsertFails)];
    assert next.Keys == expected.Keys;
    forall x | x in next ensures next[x] == expected[x] {
    }
  }

  /** An empty registry leaves the store as it is. */
  lemma SyncedNothing(cols: map<string, Collection>, md5: seq<Byte> -> Digest, createFails: set<string>, getFails: set<string>, upsertFails: set<string>)
    ensures Synced(cols, map[], md5, createFails, getFails, upsertFails) == cols
  {
    var after := Synced(cols, map[], md5, createFails, getFails, upsertFails);
    assert Buckets(map[]) == {};
    assert after.Keys == cols.Keys;
  }

  /** Handling one more bucket adds its calls to the batches. */
  lemma BatchesOfStep(calls: seq<UpsertCall>, cols: map<string, Collection>, registry: Registry, md5: seq<Byte> -> Digest,
                      handled: set<string>, b: string, createFails: set<string>, getFails: set<string>)
    requires BatchesOf(calls, cols, registry, md5, handled, createFails, getFails) && b !in handled
    ensures BatchesOf(calls + BucketCalls(cols, registry, b, md5, createFails, getFails), cols, registry, md5, handled + {b}, createFails, getFails)
  {
    var added := BucketCalls(cols, registry, b, md5, createFails, getFails);
    assert b !in CalledCollections(calls);
    CallsStagedStep(calls, cols, registry, md5, handled, b, createFails, getFails);
    CallsDistinctStep(calls, added, b);
    CallsCoverStep(calls, cols, registry, md5, handled, b, createFails, getFails);
  }

  lemma CallsStagedStep(calls: seq<UpsertCall>, cols: map<string, Collection>, registry: Registry, md5: seq<Byte> -> Digest,
                        handled: set<string>, b: string, createFails: set<string>, getFails: set<string>)
    requires CallsStaged(calls, cols, registry, md5, handled, createFails, getFails)
    ensures CallsStaged(calls + BucketCalls(cols, registry, b, md5, createFails, getFails), cols, registry, md5, handled + {b}, createFails, getFails)
  {
    var added := BucketCalls(cols, registry, b, md5, createFails, getFails);
    var all := calls + added;
    forall k | 0 <= k < |all|
      ensures all[k].collection in handled + {b} && all[k].collection !in createFails
      ensures all[k].records == StagedFor(cols, registry, all[k].collection, getFails, md5) && all[k].records != map[]
    {
      if k < |calls| {
        assert all[k] == calls[k];
      } else {
        assert all[k] == added[0];
      }
    }
  }

  lemma CallsDistinctStep(calls: seq<UpsertCall>, added: seq<UpsertCall>, b: string)
    requires CallsDistinct(calls) && b !in CalledCollections(calls)
    requires forall k :: 0 <= k < |added| ==> added[k].collection == b
    requires |added| <= 1
    ensures CallsDistinct(calls + added)
  {
    var all := calls + added;
    forall i, j | 0 <= i < j < |all|
      ensures all[i].collection != all[j].collection
    {
      if j >= |calls| {
        assert all[j] == added[j - |calls|];
        assert i < |calls| && all[i] == calls[i];
        assert calls[i].collection in CalledCollections(calls);
      } else {
        assert all[i] == calls[i] && all[j] == calls[j];
      }
    }
  }

  lemma CallsCoverStep(calls: seq<UpsertCall>, cols: map<string, Collection>, registry: Registry, md5: seq<Byte> -> Digest,
                       handled: set<string>, b: string, createFails: set<string>, getFails: set<string>)
    requires CallsCover(calls, cols, registry, md5, handled, createFails, getFails)
    ensures CallsCover(calls + BucketCalls(cols, registry, b, md5, createFails, getFails), cols, registry, md5, handled + {b}, createFails, getFails)
  {
    var added := BucketCalls(cols, registry, b, md5, createFails, getFails);
    var all := calls + added;
    forall x | x in handled + {b} && x !in createFails && StagedFor(cols, registry, x, getFails, md5) != map[]
      ensures x in CalledCollections(all)
    {
      if x == b {
        assert all[|calls|].collection == b;
      } else {
        var k :| 0 <= k < |calls| && calls[k].collection == x;
        assert all[k].collection == x;
      }
    }
  }
}
