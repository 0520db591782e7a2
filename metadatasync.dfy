/** What `sync_grimoriums_metadata` (and the per-folder body of its async
    variant) computes for each collection folder: the content hash, the
    staleness of the stored one, the description (cached summary, a new
    summary from the language model, or a placeholder) and the metadata
    upserted into the master index. */
module MetadataSync {
  import opened Common
  import opened Workspace
  import opened Store
  import opened ContentHash
  import opened Summaries

  /** The folders of the root that are collections: directories whose name
      is neither hidden nor the database folder's. */
  function Folders(entries: seq<Entry>, dbFolder: string): (folders: seq<Entry>)
    ensures forall k :: 0 <= k < |folders| ==> folders[k].isDir && !IsHiddenName(folders[k].name) && folders[k].name != dbFolder
    ensures |folders| <= |entries|
  {
    if entries == [] then []
    else
      var e := entries[0];
      (if e.isDir && !IsHiddenName(e.name) && e.name != dbFolder then [e] else []) + Folders(entries[1..], dbFolder)
  }

  /** Python truthiness of a metadata value. */
  predicate Truthy(v: MetaValue) {
    match v
    case MStr(s) => s != ""
    case MInt(i) => i != 0
  }

  /** `master_index.get(ids=[id])["metadatas"][0].get("hash", "")`, with ""
      when the index has no record for `id`. `master` is the master index
      as its `get` sees it: `None` where that call raises. A record stored
      without metadata makes the `.get` on it raise. */
  function StoredHash(master: Option<Collection>, id: string): (r: Result<MetaValue>)
    ensures r.Raised? <==> master.None? || (id in master.value && master.value[id].metadata.None?)
  {
    match master
    case None => Raised("ChromaError")
    case Some(index) =>
      if id !in index then Ok(MStr(""))
      else match index[id].metadata
        case None => Raised("AttributeError")
        case Some(m) => Ok(if "hash" in m then m["hash"] else MStr(""))
  }

  /** `stored_hash and stored_hash != current_hash`. */
  predicate IsStale(stored: MetaValue, current: Digest) {
    Truthy(stored) && stored != MStr(current)
  }

  /** `len(list(folder.glob("*.py")))`: the Python files directly in the
      folder, hidden ones included. */
  function TopLevelCount(files: seq<PyFile>): (n: nat)
    ensures n <= |files|
  {
    if files == [] then 0 else (if files[0].dirs == [] then 1 else 0) + TopLevelCount(files[1..])
  }

  /** The description used when no summary is available. */
  function Placeholder(id: string): string {
    "Collection of spells in " + id
  }

  /** What one folder contributes: its id, description and metadata, and
      the summary text written to `grimorium_summary.md`, if any. */
  datatype FolderResult = FolderResult(id: string, description: string, metadata: Metadata, written: Option<string>)

  /** The description before the placeholder, and what is written: the
      cached summary when it exists and the stored hash is not stale; a new
      summary when that leaves nothing or the hash is stale and the folder
      has docstrings; written back when the file can be written. */
  function Describe(e: Entry, stale: bool, generate: string -> Option<string>): (string, Option<string>) {
    var cached := if e.summary.Cached? && !stale then e.summary.text else "";
    if cached == "" || stale then
      var docs := SpellDocs(e.files);
      if docs != [] then
        var summary := GenerateGrimoriumSummary(e.name, docs, generate);
        (summary, if e.summaryWritable then Some(summary) else None)
      else (cached, None)
    else (cached, None)
  }

  /** The body of the loop over folders, and `process_folder` of the async
      variant: it raises when reading the stored hash does, or when the
      cached summary is read (it exists and the hash is not stale) and
      reading it raises. */
  function ProcessFolder(e: Entry, master: Option<Collection>, md5: seq<Byte> -> Digest, generate: string -> Option<string>): Result<FolderResult> {
    var current := GrimoriumHash(e.files, md5);
    match StoredHash(master, e.name)
    case Raised(x) => Raised(x)
    case Ok(stored) =>
      if e.summary.UnreadableSummary? && !IsStale(stored, current) then Raised("OSError")
      else
        var (description, written) := Describe(e, IsStale(stored, current), generate);
        var metadata := map["grimorium_id" := MStr(e.name), "spell_count" := MInt(TopLevelCount(e.files)), "hash" := MStr(current)];
        Ok(FolderResult(e.name, if description == "" then Placeholder(e.name) else description, metadata, written))
  }

  /** Processing a folder raises exactly when the master index's `get`
      raises, when the folder's record there has no metadata, or when its
      cached summary is read and the read raises; neither call is guarded. */
  lemma FolderRaisesIff(e: Entry, master: Option<Collection>, md5: seq<Byte> -> Digest, generate: string -> Option<string>)
    ensures ProcessFolder(e, master, md5, generate).Raised? <==>
      || master.None?
      || (e.name in master.value && master.value[e.name].metadata.None?)
      || (e.summary.UnreadableSummary? && !IsStale(StoredHash(master, e.name).value, GrimoriumHash(e.files, md5)))
  {
  }

  /** A master index whose `get` raises aborts the whole sync as soon as
      there is a folder: the sequential loop stops at the first one and the
      gathered async call raises. */
  lemma MasterGetFailureAborts(folders: seq<Entry>, md5: seq<Byte> -> Digest, generate: string -> Option<string>)
    requires folders != []
    ensures Gather(Outcomes(folders, None, md5, generate)) == ([], true)
    ensures GatherAsync(Outcomes(folders, None, md5, generate)).1
  {
    var outcomes := Outcomes(folders, None, md5, generate);
    assert outcomes[0].Raised?;
  }

  /** The outcome of processing each folder, in order. */
  function Outcomes(folders: seq<Entry>, master: Option<Collection>, md5: seq<Byte> -> Digest, generate: string -> Option<string>): seq<Result<FolderResult>> {
    seq(|folders|, k requires 0 <= k < |folders| => ProcessFolder(folders[k], master, md5, generate))
  }

  /** The folders processed in order until one raises: the results before
      it and whether one raised. */
  function Gather(outcomes: seq<Result<FolderResult>>): (seq<FolderResult>, bool) {
    if outcomes == [] then ([], false)
    else match outcomes[0]
      case Raised(_) => ([], true)
      case Ok(r) =>
        var (rest, raised) := Gather(outcomes[1..]);
        ([r] + rest, raised)
  }

  /** The async variant: every folder is processed, then the results are
      collected; the gathered call raises when any folder raised. */
  function GatherAsync(outcomes: seq<Result<FolderResult>>): (seq<FolderResult>, bool) {
    if outcomes == [] then ([], false)
    else
      var (rest, raised) := GatherAsync(outcomes[1..]);
      match outcomes[0]
      case Raised(_) => (rest, true)
      case Ok(r) => ([r] + rest, raised)
  }

  /** One more outcome, after outcomes none of which raised. */
  lemma {:induction false} GatherAppend(outcomes: seq<Result<FolderResult>>, r: Result<FolderResult>)
    requires !Gather(outcomes).1
    ensures Gather(outcomes + [r]) == if r.Raised? then (Gather(outcomes).0, true) else (Gather(outcomes).0 + [r.value], false)
    decreases |outcomes|
  {
    if outcomes == [] {
      assert outcomes + [r] == [r] && [r][1..] == [];
      if r.Ok? {
        assert Gather([r]) == ([r.value] + [], false);
        assert [r.value] + [] == [] + [r.value];
      }
    } else {
      var head := outcomes[0].value;
      assert (outcomes + [r])[0] == outcomes[0];
      assert (outcomes + [r])[1..] == outcomes[1..] + [r];
      GatherAppend(outcomes[1..], r);
      var rest := Gather(outcomes[1..]).0;
      assert Gather(outcomes).0 == [head] + rest;
      if r.Ok? {
        assert [head] + (rest + [r.value]) == [head] + rest + [r.value];
      }
    }
  }

  /** One more outcome, in the async variant. */
  lemma {:induction false} GatherAsyncAppend(outcomes: seq<Result<FolderResult>>, r: Result<FolderResult>)
    ensures var (results, raised) := GatherAsync(outcomes);
            GatherAsync(outcomes + [r]) == if r.Raised? then (results, true) else (results + [r.value], raised)
    decreases |outcomes|
  {
    if outcomes == [] {
      assert outcomes + [r] == [r] && [r][1..] == [];
      if r.Ok? {
        assert GatherAsync([r]) == ([r.value] + [], false);
        assert [r.value] + [] == [] + [r.value];
      }
    } else {
      assert (outcomes + [r])[0] == outcomes[0];
      assert (outcomes + [r])[1..] == outcomes[1..] + [r];
      GatherAsyncAppend(outcomes[1..], r);
      var rest := GatherAsync(outcomes[1..]).0;
      if outcomes[0].Ok? && r.Ok? {
        assert [outcomes[0].value] + (rest + [r.value]) == [outcomes[0].value] + rest + [r.value];
      }
    }
  }

  /** The outcomes of a loop that stopped early at a raise, or ran to the
      end, gather as all of them do. */
  lemma GatherPrefix(processed: seq<Result<FolderResult>>, all: seq<Result<FolderResult>>)
    requires |processed| <= |all| && processed == all[..|processed|]
    requires Gather(processed).1 || |processed| == |all|
    ensures Gather(all) == Gather(processed)
  {
    if Gather(processed).1 {
      GatherStopsAtRaise(processed, all[|processed|..]);
      assert all == processed + all[|processed|..];
    } else {
      assert processed == all;
    }
  }

  /** Gathering stops at the first outcome that raises: the outcomes after
      it make no difference. */
  lemma {:induction false} GatherStopsAtRaise(outcomes: seq<Result<FolderResult>>, later: seq<Result<FolderResult>>)
    requires Gather(outcomes).1
    ensures Gather(outcomes + later) == Gather(outcomes)
    decreases |outcomes|
  {
    if outcomes[0].Ok? {
      assert (outcomes + later)[1..] == outcomes[1..] + later;
      GatherStopsAtRaise(outcomes[1..], later);
    }
  }

  /** The parallel lists of the single upsert into the master index. */
  function Ids(results: seq<FolderResult>): (ids: seq<string>)
    ensures |ids| == |results| && forall k :: 0 <= k < |results| ==> ids[k] == results[k].id
  {
    seq(|results|, k requires 0 <= k < |results| => results[k].id)
  }

  function Descriptions(results: seq<FolderResult>): (docs: seq<string>)
    ensures |docs| == |results| && forall k :: 0 <= k < |results| ==> docs[k] == results[k].description
  {
    seq(|results|, k requires 0 <= k < |results| => results[k].description)
  }

  function Metadatas(results: seq<FolderResult>): (metas: seq<Metadata>)
    ensures |metas| == |results| && forall k :: 0 <= k < |results| ==> metas[k] == results[k].metadata
  {
    seq(|results|, k requires 0 <= k < |results| => results[k].metadata)
  }

  // ---------------------------------------------------------------------
  // Properties

  /** A stored hash is stale exactly when it is a non-empty string other
      than the current digest (or a non-zero number, which never equals a
      digest). */
  lemma StaleIff(stored: MetaValue, current: Digest)
    ensures IsStale(stored, current) <==> (stored.MStr? && stored.s != "" && stored.s != current) || (stored.MInt? && stored.i != 0)
  {
  }

  /** A folder never seen before (or stored without a hash) is not stale. */
  lemma NewFolderNotStale(master: Option<Collection>, id: string, current: Digest)
    requires master.Some?
    requires id !in master.value || (master.value[id].metadata.Some? && "hash" !in master.value[id].metadata.value)
    ensures StoredHash(master, id) == Ok(MStr("")) && !IsStale(MStr(""), current)
  {
  }

  /** The cached summary is reused, and the language model is not asked,
      exactly when the file exists, is non-empty and the hash is not stale. */
  lemma CachedSummaryReused(e: Entry, stale: bool, generate: string -> Option<string>)
    ensures (e.summary.Cached? && e.summary.text != "" && !stale) ==> Describe(e, stale, generate) == (e.summary.text, None)
    ensures Describe(e, stale, generate).1.Some? ==> !(e.summary.Cached? && e.summary.text != "" && !stale)
  {
  }

  /** The language model is consulted only for a folder with docstrings:
      without them the outcome is the same whatever the model answers. */
  lemma ModelAskedOnlyWithDocs(e: Entry, master: Option<Collection>, md5: seq<Byte> -> Digest, g1: string -> Option<string>, g2: string -> Option<string>)
    requires SpellDocs(e.files) == []
    ensures ProcessFolder(e, master, md5, g1) == ProcessFolder(e, master, md5, g2)
  {
  }

  /** Every folder that is processed gets a non-empty description: the
      placeholder stands in for an empty one; its metadata carries the
      current content hash. */
  lemma FolderResultShape(e: Entry, master: Option<Collection>, md5: seq<Byte> -> Digest, generate: string -> Option<string>)
    requires ProcessFolder(e, master, md5, generate).Ok?
    ensures var r := ProcessFolder(e, master, md5, generate).value;
            && r.id == e.name && r.description != ""
            && (r.description == Placeholder(e.name) || r.description == Describe(e, IsStale(StoredHash(master, e.name).value, GrimoriumHash(e.files, md5)), generate).0)
            && r.metadata["hash"] == MStr(GrimoriumHash(e.files, md5))
            && r.metadata["grimorium_id"] == MStr(e.name)
  {
    var current := GrimoriumHash(e.files, md5);
    var stored := StoredHash(master, e.name).value;
    var d := Describe(e, IsStale(stored, current), generate).0;
    assert |Placeholder(e.name)| > 0;
  }

  /** A stale folder's summary is regenerated when it has docstrings, even
      if a cached summary exists. */
  lemma StaleSummaryRegenerated(e: Entry, master: Option<Collection>, md5: seq<Byte> -> Digest, generate: string -> Option<string>)
    requires StoredHash(master, e.name).Ok? && IsStale(StoredHash(master, e.name).value, GrimoriumHash(e.files, md5))
    requires SpellDocs(e.files) != []
    ensures var summary := GenerateGrimoriumSummary(e.name, SpellDocs(e.files), generate);
            ProcessFolder(e, master, md5, generate).value.description == (if summary == "" then Placeholder(e.name) else summary)
  {
  }

  /** Without a failing read, every folder yields exactly one entry, in
      order. */
  lemma {:induction false} GatherComplete(outcomes: seq<Result<FolderResult>>)
    requires forall k :: 0 <= k < |outcomes| ==> outcomes[k].Ok?
    ensures var (results, raised) := Gather(outcomes);
            && !raised && |results| == |outcomes|
            && forall k :: 0 <= k < |outcomes| ==> results[k] == outcomes[k].value
    decreases |outcomes|
  {
    if outcomes != [] {
      GatherComplete(outcomes[1..]);
      var (rest, _) := Gather(outcomes[1..]);
      var r := outcomes[0].value;
      assert Gather(outcomes).0 == [r] + rest;
      forall k | 1 <= k < |outcomes|
        ensures ([r] + rest)[k] == outcomes[k].value
      {
        assert outcomes[1..][k - 1] == outcomes[k];
      }
    }
  }

  /** The gathered async call raises exactly when some folder raised. */
  lemma {:induction false} GatherAsyncRaisesIff(outcomes: seq<Result<FolderResult>>)
    ensures GatherAsync(outcomes).1 <==> exists k :: 0 <= k < |outcomes| && outcomes[k].Raised?
    decreases |outcomes|
  {
    if outcomes != [] {
      var tail := outcomes[1..];
      GatherAsyncRaisesIff(tail);
      if exists k :: 0 <= k < |tail| && tail[k].Raised? {
        var k :| 0 <= k < |tail| && tail[k].Raised?;
        assert outcomes[k + 1] == tail[k];
      }
      if exists k :: 0 <= k < |outcomes| && outcomes[k].Raised? {
        var k :| 0 <= k < |outcomes| && outcomes[k].Raised?;
        if k > 0 {
          assert tail[k - 1] == outcomes[k];
        }
      }
    }
  }

  /** When the gathered async call does not raise, it has one result per
      folder. */
  lemma {:induction false} GatherAsyncCount(outcomes: seq<Result<FolderResult>>)
    ensures !GatherAsync(outcomes).1 ==> |GatherAsync(outcomes).0| == |outcomes|
    decreases |outcomes|
  {
    if outcomes != [] {
      GatherAsyncCount(outcomes[1..]);
    }
  }

  /** The async variant upserts the same entries as the sequential one, and
      raises exactly when it does. */
  lemma {:induction false} AsyncSameEntries(outcomes: seq<Result<FolderResult>>)
    ensures GatherAsync(outcomes).1 == Gather(outcomes).1
    ensures !Gather(outcomes).1 ==> GatherAsync(outcomes).0 == Gather(outcomes).0
    decreases |outcomes|
  {
    if outcomes != [] {
      AsyncSameEntries(outcomes[1..]);
    }
  }
}
