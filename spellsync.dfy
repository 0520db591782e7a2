/** The `SpellSync` object: the registry it syncs, the vector store it
    writes, and its allow-list of collections. Its methods are the loops of
    `sync_spells`, `sync_grimoriums_metadata` (and the async variant), the
    three searches and `validate_spell_access`, each proved against the
    function that specifies it. */
module SpellSyncs {
  import opened Common
  import opened Workspace
  import opened Store
  import opened ContentHash
  import opened Summaries
  import opened SpellSyncing
  import opened MetadataSync
  import opened Search
  import opened Sorting

  /** `{id: meta["hash"]}` over the records of a collection that carry a
      hash: the loop of `sync_spells` that reads back the stored hashes. */
  method ReadHashes(c: Collection) returns (existing: map<string, MetaValue>)
    ensures existing == StoredHashes(c)
  {
    existing := map[];
    var todo := c.Keys;
    while todo != {}
      invariant todo <= c.Keys
      invariant existing == map id | id in c && id !in todo && c[id].metadata.Some? && "hash" in c[id].metadata.value :: c[id].metadata.value["hash"]
      decreases todo
    {
      var id :| id in todo;
      var meta := c[id].metadata;
      if meta.Some? && "hash" in meta.value {
        existing := existing[id := meta.value["hash"]];
      }
      todo := todo - {id};
    }
  }

  /** The spells of a bucket whose hash is not the stored one, as the
      parallel lists of one upsert. */
  method StageSpells(registry: Registry, members: set<string>, existing: map<string, MetaValue>, md5: seq<Byte> -> Digest)
    returns (ids: seq<string>, documents: seq<string>, metadatas: seq<Metadata>)
    requires members <= registry.Keys
    ensures |ids| == |documents| == |metadatas|
    ensures BatchRecords(ids, documents, metadatas) == StagedAmong(registry, members, existing, md5)
  {
    ids, documents, metadatas := [], [], [];
    var todo := members;
    while todo != {}
      invariant todo <= members
      invariant |ids| == |documents| == |metadatas|
      invariant BatchRecords(ids, documents, metadatas) == StagedAmong(registry, members - todo, existing, md5)
      decreases todo
    {
      var id :| id in todo;
      StagedAmongStep(registry, members - todo, id, existing, md5);
      assert members - (todo - {id}) == (members - todo) + {id};
      var doc := DocOf(registry[id]);
      var hash := md5(Utf8(doc));
      if !(id in existing && existing[id] == MStr(hash)) {
        BatchRecordsAppend(ids, documents, metadatas, id, doc, map["name" := MStr(id), "hash" := MStr(hash)]);
        ids := ids + [id];
        documents := documents + [doc];
        metadatas := metadatas + [map["name" := MStr(id), "hash" := MStr(hash)]];
      }
      todo := todo - {id};
    }
    assert members - todo == members;
  }

  /** The loop of `sync_spells` that fills `book_buckets`. */
  method GroupBuckets(registry: Registry) returns (buckets: map<string, set<string>>)
    ensures buckets == Grouped(registry, registry.Keys)
  {
    buckets := map[];
    var todo := registry.Keys;
    while todo != {}
      invariant todo <= registry.Keys
      invariant buckets == Grouped(registry, registry.Keys - todo)
      decreases todo
    {
      var id :| id in todo;
      var b := BucketName(registry[id]);
      GroupedStep(registry, registry.Keys - todo, id);
      assert registry.Keys - (todo - {id}) == (registry.Keys - todo) + {id};
      buckets := buckets[b := (if b in buckets then buckets[b] else {}) + {id}];
      todo := todo - {id};
    }
    assert registry.Keys - todo == registry.Keys;
  }

  /** The summaries written to `grimorium_summary.md`: folder and text. */
  function SummaryWrites(results: seq<FolderResult>): seq<(string, string)> {
    if results == [] then []
    else
      var r := results[|results| - 1];
      SummaryWrites(results[..|results| - 1]) + (if r.written.Some? then [(r.id, r.written.value)] else [])
  }

  /** The body of the loop over folders of `sync_grimoriums_metadata` (and
      `process_folder` of its async variant) for one folder. */
  method ProcessFolderStep(e: Entry, master: Option<Collection>, md5: seq<Byte> -> Digest, generate: string -> Option<string>)
    returns (r: Result<FolderResult>)
    ensures r == ProcessFolder(e, master, md5, generate)
  {
    var current := ComputeGrimoriumHash(e.files, md5);
    if master.None? {
      return Raised("ChromaError");
    }
    var index := master.value;
    var stored := MStr("");
    if e.name in index {
      var meta := index[e.name].metadata;
      if meta.None? {
        return Raised("AttributeError");
      }
      stored := if "hash" in meta.value then meta.value["hash"] else MStr("");
    }
    var stale := Truthy(stored) && stored != MStr(current);
    assert StoredHash(master, e.name) == Ok(stored) && stale == IsStale(stored, current);
    if e.summary.UnreadableSummary? && !stale {
      return Raised("OSError");
    }
    var description, written := DescribeFolder(e, stale, generate);
    if description == "" {
      description := Placeholder(e.name);
    }
    var metadata := map["grimorium_id" := MStr(e.name), "spell_count" := MInt(TopLevelCount(e.files)), "hash" := MStr(current)];
    r := Ok(FolderResult(e.name, description, metadata, written));
  }

  /** The description of a folder and the summary written for it: the
      cached summary unless stale, else a new one when there are docstrings. */
  method DescribeFolder(e: Entry, stale: bool, generate: string -> Option<string>) returns (description: string, written: Option<string>)
    ensures (description, written) == Describe(e, stale, generate)
  {
    var cached := "";
    if e.summary.Cached? && !stale {
      cached := e.summary.text;
    }
    description, written := cached, None;
    if cached == "" || stale {
      var docs := ExtractSpellDocs(e.files);
      if docs != [] {
        description := GenerateGrimoriumSummary(e.name, docs, generate);
        if e.summaryWritable {
          written := Some(description);
        }
      }
    }
  }

  /** The summary written for one more folder, if any, after those
      already written. */
  method RecordWrite(results: seq<FolderResult>, writes: seq<(string, string)>, r: FolderResult) returns (extended: seq<(string, string)>)
    requires writes == SummaryWrites(results)
    ensures extended == SummaryWrites(results + [r])
  {
    assert (results + [r])[..|results|] == results;
    extended := writes;
    if r.written.Some? {
      extended := extended + [(r.id, r.written.value)];
    }
  }

  /** The loop over folders of `sync_grimoriums_metadata`: the results up to
      the first folder that raises, and the summaries written meanwhile. */
  method GatherFolders(folders: seq<Entry>, master: Option<Collection>, md5: seq<Byte> -> Digest, generate: string -> Option<string>)
    returns (results: seq<FolderResult>, failed: bool, writes: seq<(string, string)>)
    ensures (results, failed) == Gather(Outcomes(folders, master, md5, generate))
    ensures writes == SummaryWrites(results)
  {
    ghost var processed;
    results, failed, writes, processed := GatherLoop(folders, master, md5, generate);
    ghost var all := Outcomes(folders, master, md5, generate);
    forall k | 0 <= k < |processed|
      ensures processed[k] == all[k]
    {
    }
    assert processed == all[..|processed|];
    GatherPrefix(processed, all);
  }

  /** The folders processed in order until one raises, with the outcome of
      each folder processed. */
  method GatherLoop(folders: seq<Entry>, master: Option<Collection>, md5: seq<Byte> -> Digest, generate: string -> Option<string>)
    returns (results: seq<FolderResult>, failed: bool, writes: seq<(string, string)>, ghost processed: seq<Result<FolderResult>>)
    ensures |processed| <= |folders| && (failed || |processed| == |folders|)
    ensures forall k {:trigger ProcessFolder(folders[k], master, md5, generate)} :: 0 <= k < |processed| ==> processed[k] == ProcessFolder(folders[k], master, md5, generate)
    ensures (results, failed) == Gather(processed)
    ensures writes == SummaryWrites(results)
  {
    results, failed, writes, processed := [], false, [], [];
    var i := 0;
    while i < |folders|
      invariant 0 <= i <= |folders| && |processed| == i
      invariant forall k {:trigger ProcessFolder(folders[k], master, md5, generate)} :: 0 <= k < i ==> processed[k] == ProcessFolder(folders[k], master, md5, generate)
      invariant (results, false) == Gather(processed)
      invariant writes == SummaryWrites(results)
    {
      var raised;
      raised, results, writes, processed := GatherNext(folders, i, master, md5, generate, results, writes, processed);
      if raised {
        failed := true;
        return;
      }
      i := i + 1;
    }
  }

  /** The `i`th folder of the sequential loop, after folders none of which
      raised. */
  method GatherNext(folders: seq<Entry>, i: nat, master: Option<Collection>, md5: seq<Byte> -> Digest, generate: string -> Option<string>,
                    results: seq<FolderResult>, writes: seq<(string, string)>, ghost processed: seq<Result<FolderResult>>)
    returns (raised: bool, results': seq<FolderResult>, writes': seq<(string, string)>, ghost processed': seq<Result<FolderResult>>)
    requires i < |folders| && |processed| == i
    requires forall k {:trigger ProcessFolder(folders[k], master, md5, generate)} :: 0 <= k < i ==> processed[k] == ProcessFolder(folders[k], master, md5, generate)
    requires (results, false) == Gather(processed)
    requires writes == SummaryWrites(results)
    ensures |processed'| == i + 1
    ensures forall k {:trigger ProcessFolder(folders[k], master, md5, generate)} :: 0 <= k < i + 1 ==> processed'[k] == ProcessFolder(folders[k], master, md5, generate)
    ensures (results', raised) == Gather(processed')
    ensures writes' == SummaryWrites(results')
  {
    var r := ProcessFolderStep(folders[i], master, md5, generate);
    GatherAppend(processed, r);
    processed' := processed + [r];
    raised := r.Raised?;
    results', writes' := results, writes;
    if r.Ok? {
      writes' := RecordWrite(results, writes, r.value);
      results' := results + [r.value];
    }
  }

  /** The folders of the async variant: every folder is processed, and the
      gathered call fails when any of them raised. */
  method GatherAllFolders(folders: seq<Entry>, master: Option<Collection>, md5: seq<Byte> -> Digest, generate: string -> Option<string>)
    returns (results: seq<FolderResult>, failed: bool, writes: seq<(string, string)>)
    ensures (results, failed) == GatherAsync(Outcomes(folders, master, md5, generate))
    ensures writes == SummaryWrites(results)
  {
    ghost var processed;
    results, failed, writes, processed := GatherAllLoop(folders, master, md5, generate);
    ghost var all := Outcomes(folders, master, md5, generate);
    forall k | 0 <= k < |processed|
      ensures processed[k] == all[k]
    {
    }
    assert processed == all;
  }

  /** Every folder processed, with the outcome of each. */
  method GatherAllLoop(folders: seq<Entry>, master: Option<Collection>, md5: seq<Byte> -> Digest, generate: string -> Option<string>)
    returns (results: seq<FolderResult>, failed: bool, writes: seq<(string, string)>, ghost processed: seq<Result<FolderResult>>)
    ensures |processed| == |folders|
    ensures forall k {:trigger ProcessFolder(folders[k], master, md5, generate)} :: 0 <= k < |processed| ==> processed[k] == ProcessFolder(folders[k], master, md5, generate)
    ensures (results, failed) == GatherAsync(processed)
    ensures writes == SummaryWrites(results)
  {
    results, failed, writes, processed := [], false, [], [];
    var i := 0;
    while i < |folders|
      invariant 0 <= i <= |folders| && |processed| == i
      invariant forall k {:trigger ProcessFolder(folders[k], master, md5, generate)} :: 0 <= k < i ==> processed[k] == ProcessFolder(folders[k], master, md5, generate)
      invariant (results, failed) == GatherAsync(processed)
      invariant writes == SummaryWrites(results)
    {
      results, failed, writes, processed := GatherAllNext(folders, i, master, md5, generate, results, failed, writes, processed);
      i := i + 1;
    }
  }

  /** The `i`th folder of the async variant. */
  method GatherAllNext(folders: seq<Entry>, i: nat, master: Option<Collection>, md5: seq<Byte> -> Digest, generate: string -> Option<string>,
                       results: seq<FolderResult>, failed: bool, writes: seq<(string, string)>, ghost processed: seq<Result<FolderResult>>)
    returns (results': seq<FolderResult>, failed': bool, writes': seq<(string, string)>, ghost processed': seq<Result<FolderResult>>)
    requires i < |folders| && |processed| == i
    requires forall k {:trigger ProcessFolder(folders[k], master, md5, generate)} :: 0 <= k < i ==> processed[k] == ProcessFolder(folders[k], master, md5, generate)
    requires (results, failed) == GatherAsync(processed)
    requires writes == SummaryWrites(results)
    ensures |processed'| == i + 1
    ensures forall k {:trigger ProcessFolder(folders[k], master, md5, generate)} :: 0 <= k < i + 1 ==> processed'[k] == ProcessFolder(folders[k], master, md5, generate)
    ensures (results', failed') == GatherAsync(processed')
    ensures writes' == SummaryWrites(results')
  {
    var r := ProcessFolderStep(folders[i], master, md5, generate);
    GatherAsyncAppend(processed, r);
    processed' := processed + [r];
    results', failed', writes' := results, failed, writes;
    if r.Raised? {
      failed' := true;
    } else {
      writes' := RecordWrite(results, writes, r.value);
      results' := results + [r.value];
    }
  }

  /** The pairs of one answer, appended to `all` until the distances run
      out. */
  method AppendHits(all: seq<Match>, h: Hits) returns (extended: seq<Match>)
    ensures extended == all + HitPairs(h)
  {
    extended := all;
    var i := 0;
    while i < |h.ids|
      invariant 0 <= i <= |h.ids| && i <= |h.distances|
      invariant extended == all + HitPairs(h)[..i]
    {
      if i >= |h.distances| {
        break;
      }
      extended := extended + [(h.ids[i], h.distances[i])];
      i := i + 1;
    }
    assert HitPairs(h)[..i] == HitPairs(h);
  }

  /** The loop of `find_matching_spells` that keeps, per id, the least
      distance, in first-seen order. */
  method MergeMatches(all: seq<Match>) returns (m: map<string, real>, order: seq<string>)
    ensures m == MinMap(all) && order == FirstSeen(all)
  {
    m, order := map[], [];
    var j := 0;
    while j < |all|
      invariant 0 <= j <= |all|
      invariant m == MinMap(all[..j]) && order == FirstSeen(all[..j])
    {
      var (id, d) := all[j];
      assert all[..j + 1][..j] == all[..j];
      MergedIds(all[..j]);
      if id !in m || d < m[id] {
        if id !in m {
          order := order + [id];
        }
        m := m[id := d];
      }
      j := j + 1;
    }
    assert all[..j] == all;
  }

  /** What `sync_grimoriums_metadata_async` does to the collections `cols`
      of a store whose calls on the named collections raise as the three
      sets say: whether it raises, and the collections afterwards. */
  function MetadataSyncAsync(cols: map<string, Collection>, createFails: set<string>, getFails: set<string>, upsertFails: set<string>,
                             masterIndex: string, dbFolder: string, root: Root,
                             md5: seq<Byte> -> Digest, generate: string -> Option<string>): (r: (bool, map<string, Collection>))
    ensures masterIndex in createFails || !root.Listing? ==> r.0
    ensures r.1.Keys == cols.Keys + (if masterIndex in createFails then {} else {masterIndex})
    ensures forall c | c in cols && c != masterIndex :: r.1[c] == cols[c]
  {
    if masterIndex in createFails then (true, cols)
    else
      var base := if masterIndex in cols then cols[masterIndex] else map[];
      if !root.Listing? then (true, cols[masterIndex := base])
      else
        var master := if masterIndex in getFails then None else Some(base);
        var (results, failed) := GatherAsync(Outcomes(Folders(root.entries, dbFolder), master, md5, generate));
        var upserted := !failed && results != [];
        var batch := BatchRecords(Ids(results), Descriptions(results), Metadatas(results));
        (failed || (upserted && masterIndex in upsertFails),
         cols[masterIndex := if upserted && masterIndex !in upsertFails then base + batch else base])
  }

  /** The async metadata sync raises exactly when creating the master index
      raises, the root cannot be listed, some collection folder raises, or
      the final upsert has records and raises. */
  lemma MetadataSyncAsyncRaisesIff(cols: map<string, Collection>, createFails: set<string>, getFails: set<string>, upsertFails: set<string>,
                                   masterIndex: string, dbFolder: string, root: Root,
                                   md5: seq<Byte> -> Digest, generate: string -> Option<string>)
    requires masterIndex !in createFails && root.Listing?
    ensures var base := if masterIndex in cols then cols[masterIndex] else map[];
      var master := if masterIndex in getFails then None else Some(base);
      var folders := Folders(root.entries, dbFolder);
      MetadataSyncAsync(cols, createFails, getFails, upsertFails, masterIndex, dbFolder, root, md5, generate).0
      <==> (|| (exists k :: 0 <= k < |folders| && ProcessFolder(folders[k], master, md5, generate).Raised?)
            || (folders != [] && masterIndex in upsertFails))
  {
    var base := if masterIndex in cols then cols[masterIndex] else map[];
    var master := if masterIndex in getFails then None else Some(base);
    var folders := Folders(root.entries, dbFolder);
    var outcomes := Outcomes(folders, master, md5, generate);
    var (results, failed) := GatherAsync(outcomes);
    GatherAsyncRaisesIff(outcomes);
    GatherAsyncCount(outcomes);
    assert MetadataSyncAsync(cols, createFails, getFails, upsertFails, masterIndex, dbFolder, root, md5, generate).0
           == (failed || (!failed && results != [] && masterIndex in upsertFails));
    assert failed ==> exists k :: 0 <= k < |folders| && ProcessFolder(folders[k], master, md5, generate).Raised? by {
      if failed {
        var k :| 0 <= k < |outcomes| && outcomes[k].Raised?;
        assert ProcessFolder(folders[k], master, md5, generate) == outcomes[k];
      }
    }
    assert (exists k :: 0 <= k < |folders| && ProcessFolder(folders[k], master, md5, generate).Raised?) ==> failed by {
      if exists k :: 0 <= k < |folders| && ProcessFolder(folders[k], master, md5, generate).Raised? {
        var k :| 0 <= k < |folders| && ProcessFolder(folders[k], master, md5, generate).Raised?;
        assert outcomes[k].Raised?;
      }
    }
  }

  /** A listed root with no collection folder never makes the async
      metadata sync raise once the master index can be created: there is
      nothing to process and nothing to upsert. */
  lemma EmptyRootMetadataSyncSucceeds(cols: map<string, Collection>, createFails: set<string>, getFails: set<string>, upsertFails: set<string>,
                                      masterIndex: string, dbFolder: string, md5: seq<Byte> -> Digest, generate: string -> Option<string>)
    requires masterIndex !in createFails
    ensures !MetadataSyncAsync(cols, createFails, getFails, upsertFails, masterIndex, dbFolder, Listing([]), md5, generate).0
  {
  }

  class SpellSync {
    /** `self.registry`: spell ids to spell objects. */
    var registry: Registry
    /** `self.vector_store`. */
    const store: VectorStore
    /** `self.allowed_collections`. */
    const allowedCollections: Option<seq<string>>
    /** The name of the master index of collections. */
    const masterIndex: string
    /** The name of the database folder under the root. */
    const dbFolder: string

    constructor(store: VectorStore, allowedCollections: Option<seq<string>>, masterIndex: string, dbFolder: string)
      ensures registry == map[] && this.store == store && this.allowedCollections == allowedCollections
      ensures this.masterIndex == masterIndex && this.dbFolder == dbFolder
    {
      registry := map[];
      this.store := store;
      this.allowedCollections := allowedCollections;
      this.masterIndex := masterIndex;
      this.dbFolder := dbFolder;
    }

    /** One bucket of `sync_spells`: create the collection, read back its
        hashes, stage the spells whose hash changed and upsert them in one
        batch; a failing call skips the rest of the bucket. */
    method SyncBucket(b: string, members: set<string>, md5: seq<Byte> -> Digest)
      requires members == Bucket(registry, b)
      modifies store
      ensures store.collections == if b in store.createFails then old(store.collections)
                                   else old(store.collections)[b := SyncedBucket(old(store.collections), registry, b, md5, store.getFails, store.upsertFails)]
      ensures store.upserts == old(store.upserts) + BucketCalls(old(store.collections), registry, b, md5, store.createFails, store.getFails)
    {
      ghost var c0 := store.collections;
      ghost var base: Collection := if b in c0 then c0[b] else map[];
      ghost var staged := StagedFor(c0, registry, b, store.getFails, md5);
      var ok := store.GetOrCreateCollection(b);
      if !ok {
        return;
      }
      assert store.collections == c0[b := base];
      var existing: map<string, MetaValue> := map[];
      var got := store.Get(b);
      if got.Some? {
        existing := ReadHashes(got.value);
      }
      assert existing == Existing(c0, b, store.getFails) by {
        if b !in c0 && got.Some? {
          assert got.value == map[];
        }
      }
      var ids, documents, metadatas := StageSpells(registry, members, existing, md5);
      assert BatchRecords(ids, documents, metadatas) == staged;
      assert |ids| > 0 <==> staged != map[] by {
        if |ids| > 0 {
          assert ids[0] in BatchRecords(ids, documents, metadatas).Keys;
        }
      }
      if |ids| > 0 {
        ghost var mid := store.collections;
        var written := store.Upsert(b, ids, documents, metadatas);
        if written {
          assert mid[b] == base;
          assert store.collections == mid[b := base + staged];
          UpdateTwice(c0, b, base, base + staged);
        }
      }
    }

    /** `sync_spells()`: each bucket of the registry synced to its own
        collection. The store ends as `Synced` says, and the upserts made
        are one per bucket with changed spells, carrying exactly those. */
    method SyncSpells(md5: seq<Byte> -> Digest)
      modifies store
      ensures store.collections == Synced(old(store.collections), registry, md5, store.createFails, store.getFails, store.upsertFails)
      ensures |old(store.upserts)| <= |store.upserts| && store.upserts[..|old(store.upserts)|] == old(store.upserts)
      ensures BatchesOf(store.upserts[|old(store.upserts)|..], old(store.collections), registry, md5, Buckets(registry), store.createFails, store.getFails)
    {
      ghost var cols := store.collections;
      ghost var before := store.upserts;
      if registry == map[] {
        SyncedNothing(cols, md5, store.createFails, store.getFails, store.upsertFails);
        assert store.upserts[|before|..] == [];
        return;
      }
      var buckets := GroupBuckets(registry);
      GroupedAll(registry);
      SyncBuckets(buckets, md5);
    }

    /** `sync_grimoriums_metadata()`: the master index is created, every
        collection folder of the root is processed in order, and if none
        raised the results are upserted into the master index in one call.
        `raised` says whether the call raises; `writes` are the summaries
        written on the way. Each folder asks the master index for its
        record; the store answers every such `get` alike, so the method
        asks once and hands the answer to each folder. */
    method SyncGrimoriumsMetadata(root: Root, md5: seq<Byte> -> Digest, generate: string -> Option<string>)
      returns (raised: bool, writes: seq<(string, string)>)
      modifies store
      ensures masterIndex in store.createFails ==> raised && writes == [] && store.collections == old(store.collections)
      ensures masterIndex !in store.createFails ==>
        var base := if masterIndex in old(store.collections) then old(store.collections)[masterIndex] else map[];
        if !root.Listing? then raised && writes == [] && store.collections == old(store.collections)[masterIndex := base]
        else
          var master := if masterIndex in store.getFails then None else Some(base);
          var (results, failed) := Gather(Outcomes(Folders(root.entries, dbFolder), master, md5, generate));
          writes == SummaryWrites(results) && MetadataUpserted(old(store.collections), old(store.upserts), base, results, failed, raised)
      ensures masterIndex in store.createFails || !root.Listing? ==> store.upserts == old(store.upserts)
    {
      ghost var cols := store.collections;
      ghost var base := if masterIndex in cols then cols[masterIndex] else map[];
      var ok := store.GetOrCreateCollection(masterIndex);
      if !ok || !root.Listing? {
        return true, [];
      }
      assert store.collections == cols[masterIndex := base];
      var master := store.Get(masterIndex);
      var results, failed;
      results, failed, writes := GatherFolders(Folders(root.entries, dbFolder), master, md5, generate);
      raised := FinishMetadataSync(cols, base, results, failed);
    }

    /** `sync_grimoriums_metadata_async()`: as the sequential variant, but
        every folder is processed before the results are gathered. */
    method SyncGrimoriumsMetadataAsync(root: Root, md5: seq<Byte> -> Digest, generate: string -> Option<string>)
      returns (raised: bool, writes: seq<(string, string)>)
      modifies store
      ensures masterIndex in store.createFails ==> raised && writes == [] && store.collections == old(store.collections)
      ensures masterIndex !in store.createFails ==>
        var base := if masterIndex in old(store.collections) then old(store.collections)[masterIndex] else map[];
        if !root.Listing? then raised && writes == [] && store.collections == old(store.collections)[masterIndex := base]
        else
          var master := if masterIndex in store.getFails then None else Some(base);
          var (results, failed) := GatherAsync(Outcomes(Folders(root.entries, dbFolder), master, md5, generate));
          writes == SummaryWrites(results) && MetadataUpserted(old(store.collections), old(store.upserts), base, results, failed, raised)
      ensures masterIndex in store.createFails || !root.Listing? ==> store.upserts == old(store.upserts)
      ensures (raised, store.collections) == MetadataSyncAsync(old(store.collections), store.createFails, store.getFails, store.upsertFails,
                                                              masterIndex, dbFolder, root, md5, generate)
    {
      ghost var cols := store.collections;
      ghost var base := if masterIndex in cols then cols[masterIndex] else map[];
      var ok := store.GetOrCreateCollection(masterIndex);
      if !ok || !root.Listing? {
        return true, [];
      }
      assert store.collections == cols[masterIndex := base];
      var master := store.Get(masterIndex);
      var results, failed;
      results, failed, writes := GatherAllFolders(Folders(root.entries, dbFolder), master, md5, generate);
      raised := FinishMetadataSync(cols, base, results, failed);
    }

    /** The master index after the folders are processed: upserted once with
        the results when no folder raised and there are results. */
    ghost predicate MetadataUpserted(cols: map<string, Collection>, upserts: seq<UpsertCall>, base: Collection,
                                     results: seq<FolderResult>, failed: bool, raised: bool)
      reads this, store
    {
      var batch := BatchRecords(Ids(results), Descriptions(results), Metadatas(results));
      var upserted := !failed && results != [];
      && raised == (failed || (upserted && masterIndex in store.upsertFails))
      && store.upserts == upserts + (if upserted then [UpsertCall(masterIndex, batch)] else [])
      && store.collections == cols[masterIndex := if upserted && masterIndex !in store.upsertFails then base + batch else base]
    }

    /** The end of the metadata sync: one upsert of the gathered results,
        skipped when a folder raised or there is nothing to write. */
    method FinishMetadataSync(ghost cols: map<string, Collection>, ghost base: Collection, results: seq<FolderResult>, failed: bool)
      returns (raised: bool)
      requires store.collections == cols[masterIndex := base]
      modifies store
      ensures MetadataUpserted(cols, old(store.upserts), base, results, failed, raised)
    {
      if failed || |results| == 0 {
        return failed;
      }
      var ok := store.Upsert(masterIndex, Ids(results), Descriptions(results), Metadatas(results));
      raised := !ok;
      if ok {
        UpdateTwice(cols, masterIndex, base, base + BatchRecords(Ids(results), Descriptions(results), Metadatas(results)));
      }
    }

    /** The loop of `find_matching_spells` over the collections. */
    method CollectMatches(names: seq<string>, query: string, search: Searcher) returns (all: seq<Match>)
      ensures all == Collected(names, allowedCollections, query, search)
    {
      all := [];
      var i := 0;
      while i < |names|
        invariant 0 <= i <= |names|
        invariant all == Collected(names[..i], allowedCollections, query, search)
      {
        assert names[..i + 1][..i] == names[..i];
        var name := names[i];
        if allowedCollections.None? || name in allowedCollections.value {
          var answer := search(name, query);
          if answer.Some? {
            all := AppendHits(all, answer.value);
          }
        }
        i := i + 1;
      }
      assert names[..i] == names;
    }

    /** `find_matching_spells(query)`: `listing` is what `list_collections`
        returns (`None` where it raises) and `search` answers each query. */
    method FindMatchingSpells(query: Option<string>, listing: Option<seq<string>>, search: Searcher) returns (r: seq<string>)
      ensures r == MatchingSpells(query, listing, allowedCollections, search)
      ensures |r| <= TopSpells
    {
      if query.None? || query.value == "" || IsBlank(query.value) {
        return [];
      }
      if listing.None? {
        return [];
      }
      var all := CollectMatches(listing.value, query.value, search);
      var m, order := MergeMatches(all);
      FirstSeenMerged(all);
      var ranked := Sort(Items(m, order), ByDistance());
      r := Take(Firsts(Within(ranked)), TopSpells);
    }

    /** `find_relevant_grimoriums(query)`: `answer` is what querying the
        master index returns (`None` where it raises); the index is created
        when it is missing. */
    method FindRelevantGrimoriums(query: string, answer: Option<Hits>) returns (r: seq<GrimoriumMatch>)
      modifies store
      ensures r == RelevantGrimoriums(query, if masterIndex in store.createFails then None else answer)
      ensures store.collections ==
        if query != "" && masterIndex !in store.createFails && masterIndex !in old(store.collections)
        then old(store.collections)[masterIndex := map[]] else old(store.collections)
      ensures store.upserts == old(store.upserts)
    {
      if query == "" {
        return [];
      }
      var ok := store.GetOrCreateCollection(masterIndex);
      if !ok || answer.None? {
        return [];
      }
      var h := answer.value;
      var matches: seq<GrimoriumMatch> := [];
      var i := 0;
      while i < |h.ids|
        invariant 0 <= i <= |h.ids|
        invariant RelevantScan(h, i) == Ok(matches)
      {
        if i >= |h.distances| {
          RelevantScanStaysRaised(h, i + 1, |h.ids|);
          return [];
        }
        if h.distances[i] <= DistanceThreshold {
          if i >= |h.metadatas| || i >= |h.documents| {
            RelevantScanStaysRaised(h, i + 1, |h.ids|);
            return [];
          }
          matches := matches + [GrimoriumMatch(h.ids[i], h.documents[i], h.metadatas[i], h.distances[i])];
        }
        i := i + 1;
      }
      r := Sort(matches, ByMatchDistance());
    }

    /** `find_spells_within_grimorium(id, query)`. */
    method FindSpellsWithinGrimorium(id: string, query: string, search: Searcher) returns (r: seq<string>)
      ensures r == SpellsWithin(id, query, allowedCollections, search)
    {
      if allowedCollections.Some? && allowedCollections.value != [] && id !in allowedCollections.value {
        return [];
      }
      var answer := search(id, query);
      if answer.None? {
        return [];
      }
      var h := answer.value;
      r := [];
      var i := 0;
      while i < |h.ids|
        invariant 0 <= i <= |h.ids|
        invariant WithinScan(h, i) == Ok(r)
      {
        if i >= |h.distances| {
          WithinScanStaysRaised(h, i + 1, |h.ids|);
          return [];
        }
        if h.distances[i] <= DistanceThreshold {
          r := r + [h.ids[i]];
        }
        i := i + 1;
      }
    }

    /** `validate_spell_access(spell)`: the allowed collections are tried in
        order; one that exists, can be read and holds the spell allows it. */
    method ValidateSpellAccess(spell: string) returns (ok: bool)
      ensures ok == Accessible(store.collections, store.getFails, allowedCollections, spell)
    {
      if allowedCollections.None? {
        return true;
      }
      var allowed := allowedCollections.value;
      var k := 0;
      while k < |allowed|
        invariant 0 <= k <= |allowed|
        invariant forall j :: 0 <= j < k ==> !Holds(store.collections, store.getFails, allowed[j], spell)
      {
        if allowed[k] in store.collections {
          var got := store.Get(allowed[k]);
          if got.Some? && spell in got.value {
            return true;
          }
        }
        k := k + 1;
      }
      return false;
    }

    /** The store and the upserts made since `before` account for the
        buckets in `handled`, starting from the collections `cols`. */
    ghost predicate Progress(md5: seq<Byte> -> Digest, cols: map<string, Collection>, before: seq<UpsertCall>, handled: set<string>)
      reads this, store
    {
      && store.collections == SyncedStore(cols, registry, md5, handled, store.createFails, store.getFails, store.upsertFails)
      && |before| <= |store.upserts| && store.upserts[..|before|] == before
      && BatchesOf(store.upserts[|before|..], cols, registry, md5, handled, store.createFails, store.getFails)
    }

    /** One turn of the loop over `book_buckets`: bucket `b` is synced, and
        the store and the upserts made so far account for one more bucket. */
    method SyncNext(b: string, members: set<string>, md5: seq<Byte> -> Digest,
                    ghost cols: map<string, Collection>, ghost before: seq<UpsertCall>, ghost handled: set<string>)
      requires members == Bucket(registry, b) && b !in handled
      requires Progress(md5, cols, before, handled)
      modifies store
      ensures Progress(md5, cols, before, handled + {b})
    {
      ghost var callsBefore := store.upserts[|before|..];
      SyncedStoreUntouched(cols, registry, md5, handled, b, store.createFails, store.getFails, store.upsertFails);
      SyncedStoreStep(cols, registry, md5, handled, b, store.createFails, store.getFails, store.upsertFails);
      SyncBucket(b, members, md5);
      BatchesOfStep(callsBefore, cols, registry, md5, handled, b, store.createFails, store.getFails);
      assert store.upserts[|before|..] == callsBefore + BucketCalls(cols, registry, b, md5, store.createFails, store.getFails);
    }

    /** The loop of `sync_spells` over `book_buckets`. */
    method SyncBuckets(buckets: map<string, set<string>>, md5: seq<Byte> -> Digest)
      requires buckets.Keys == Buckets(registry) && forall b | b in buckets :: buckets[b] == Bucket(registry, b)
      modifies store
      ensures Progress(md5, old(store.collections), old(store.upserts), Buckets(registry))
    {
      ghost var cols := store.collections;
      ghost var before := store.upserts;
      ghost var handled: set<string> := {};
      var pending := buckets.Keys;
      assert store.upserts[|before|..] == [];
      assert SyncedStore(cols, registry, md5, {}, store.createFails, store.getFails, store.upsertFails) == cols;
      while pending != {}
        invariant pending <= Buckets(registry) && handled == Buckets(registry) - pending
        invariant Progress(md5, cols, before, handled)
        decreases pending
      {
        var b :| b in pending;
        SyncNext(b, buckets[b], md5, cols, before, handled);
        handled := handled + {b};
        pending := pending - {b};
      }
      assert handled == Buckets(registry);
    }
  }
}
