/** The agent-facing toolset: a `Grimorium` owns a `SpellSync`, initializes
    it (discovery, spell sync and, asynchronously, the metadata sync) and
    answers the three tools an agent calls: finding grimoriums, finding
    spells within one, and executing a spell with the tool context injected
    into its arguments. */
module Grimoriums {
  import opened Common
  import opened Workspace
  import opened Manifests
  import opened Store
  import opened Search
  import opened SpellSyncing
  import opened Discovery
  import opened SpellSyncs

  /** The exception a tool raises when the toolset is not initialized. */
  const NotInitialized := "RuntimeError"

  /** The `next_step` hint of a successful grimorium search. */
  const NextStep := "Use 'magetools_discover_spells(grimorium_id, query)' to find specific tools."

  /** The message when no grimorium is relevant. */
  const NoGrimoriums := "No relevant Grimoriums found."

  /** The description of a spell without a docstring. */
  const NoDescription := "No description."

  /** How many characters of a grimorium description an agent sees. */
  const BriefLength: nat := 200

  /** A value in a spell call's keyword arguments: one the agent passed, or
      the tool context the toolset injects. */
  datatype Arg = Given(value: Json) | Context

  /** What calling a spell does: it returns a value or raises an exception
      of the named type with the given message. */
  datatype Outcome = Returned(value: Json) | Threw(typeName: string, detail: string)

  /** Running a spell with keyword arguments; its body is not part of this
      model. */
  type Caller = (SpellFn, map<string, Arg>) -> Outcome

  /** What `discover_spells` tells about one spell. */
  datatype SpellInfo = SpellInfo(signature: seq<Param>, description: string)

  /** The dictionaries the tools return, by their `status`. */
  datatype Response =
    | NotFound(message: string)
    | GrimoriumsFound(grimoriums: seq<(string, string)>, nextStep: string)
    | SpellsFound(grimorium: string, spells: map<string, SpellInfo>)
    | Success(result: Json)
    | Error(message: string)

  // ---------------------------------------------------------------------
  // discover_grimoriums

  /** The simplified view of one relevant grimorium: its id and its
      description cut to 200 characters with "..." appended. */
  function Brief(m: GrimoriumMatch): (string, string) {
    (m.id, Take(m.description, BriefLength) + "...")
  }

  function Briefs(ms: seq<GrimoriumMatch>): seq<(string, string)> {
    seq(|ms|, i requires 0 <= i < |ms| => Brief(ms[i]))
  }

  function GrimoriumsResponse(results: seq<GrimoriumMatch>): Response {
    if results == [] then NotFound(NoGrimoriums) else GrimoriumsFound(Briefs(results), NextStep)
  }

  /** The simplification loop of `discover_grimoriums`. */
  method Simplify(results: seq<GrimoriumMatch>) returns (simple: seq<(string, string)>)
    ensures simple == Briefs(results)
  {
    simple := [];
    for i := 0 to |results|
      invariant |simple| == i
      invariant forall k :: 0 <= k < i ==> simple[k] == Brief(results[k])
    {
      var r := results[i];
      simple := simple + [(r.id, Take(r.description, BriefLength) + "...")];
    }
  }

  /** Each brief keeps the id and order of its match, and shows the first
      (at most) 200 characters of the description followed by "...". */
  lemma BriefsTruncate(ms: seq<GrimoriumMatch>)
    ensures |Briefs(ms)| == |ms|
    ensures forall i :: 0 <= i < |ms| ==>
      var (id, d) := Briefs(ms)[i];
      var n := |d| - 3;
      && id == ms[i].id
      && |d| <= BriefLength + 3
      && (n == BriefLength || n == |ms[i].description|)
      && d[..n] == ms[i].description[..n]
      && d[n..] == "..."
  {
    forall i | 0 <= i < |ms|
      ensures var (id, d) := Briefs(ms)[i]; var n := |d| - 3;
        id == ms[i].id && |d| <= BriefLength + 3 && (n == BriefLength || n == |ms[i].description|)
        && d[..n] == ms[i].description[..n] && d[n..] == "..."
    {
      var t := Take(ms[i].description, BriefLength);
      assert Briefs(ms)[i].1 == t + "...";
      assert (t + "...")[..|t|] == t;
    }
  }

  /** A successful grimorium search lists only grimoriums at or under the
      distance threshold, nearest first; an empty result is "not found". */
  lemma GrimoriumsResponseRanked(query: string, answer: Option<Hits>)
    ensures var results := RelevantGrimoriums(query, answer);
      var r := GrimoriumsResponse(results);
      && (r.NotFound? <==> results == [])
      && (r.GrimoriumsFound? ==>
            |r.grimoriums| == |results| &&
            (forall k :: 0 <= k < |results| ==> r.grimoriums[k].0 == results[k].id && results[k].distance <= DistanceThreshold) &&
            (forall i, j :: 0 <= i < j < |results| ==> results[i].distance <= results[j].distance))
  {
    RelevantGrimoriumsRanked(query, answer);
  }

  // ---------------------------------------------------------------------
  // discover_spells

  /** `inspect.getdoc(func) or "No description."`. */
  function Description(f: SpellFn): (d: string)
    ensures d != ""
    ensures f.doc.Some? && f.doc.value != "" ==> d == f.doc.value
    ensures f.doc.None? || f.doc.value == "" ==> d == NoDescription
  {
    if f.doc.Some? && f.doc.value != "" then f.doc.value else NoDescription
  }

  /** One pass of the detail loop: a spell missing from the registry or
      whose signature cannot be read is skipped. */
  function AddSpell(detailed: map<string, SpellInfo>, registry: Registry, id: string): map<string, SpellInfo> {
    if id in registry && registry[id].signature.Some? then
      detailed[id := SpellInfo(registry[id].signature.value, Description(registry[id]))]
    else detailed
  }

  /** The `detailed_spells` dictionary built over `ids`, left to right. */
  function SpellEntries(registry: Registry, ids: seq<string>): map<string, SpellInfo> {
    if ids == [] then map[] else AddSpell(SpellEntries(registry, ids[..|ids| - 1]), registry, ids[|ids| - 1])
  }

  /** The detailed spells, as a set of facts independent of order: exactly
      the found ids that the registry holds with a readable signature, each
      with that signature and its description. */
  lemma {:induction false} SpellEntriesAre(registry: Registry, ids: seq<string>)
    ensures forall id :: id in SpellEntries(registry, ids) <==> id in ids && id in registry && registry[id].signature.Some?
    ensures forall id | id in SpellEntries(registry, ids) ::
      SpellEntries(registry, ids)[id] == SpellInfo(registry[id].signature.value, Description(registry[id]))
  {
    if ids != [] {
      SpellEntriesAre(registry, ids[..|ids| - 1]);
      assert ids == ids[..|ids| - 1] + [ids[|ids| - 1]];
    }
  }

  function NoSpellsMessage(id: string, query: string): string {
    "No spells found in '" + id + "' matching '" + query + "'."
  }

  function SpellsResponse(id: string, query: string, found: seq<string>, registry: Registry): Response {
    if found == [] then NotFound(NoSpellsMessage(id, query)) else SpellsFound(id, SpellEntries(registry, found))
  }

  /** The detail loop of `discover_spells`. */
  method DetailSpells(registry: Registry, ids: seq<string>) returns (detailed: map<string, SpellInfo>)
    ensures detailed == SpellEntries(registry, ids)
  {
    detailed := map[];
    for i := 0 to |ids|
      invariant detailed == SpellEntries(registry, ids[..i])
    {
      assert ids[..i + 1][..i] == ids[..i];
      var name := ids[i];
      if name in registry {
        var f := registry[name];
        if f.signature.Some? {
          var doc := if f.doc.Some? && f.doc.value != "" then f.doc.value else NoDescription;
          detailed := detailed[name := SpellInfo(f.signature.value, doc)];
        }
      }
    }
    assert ids[..|ids|] == ids;
  }

  /** A spell search names the grimorium searched, and an empty search is
      "not found" with a message naming the grimorium and the query. */
  lemma SpellsResponseFacts(id: string, query: string, found: seq<string>, registry: Registry)
    ensures found == [] ==> SpellsResponse(id, query, found, registry) == NotFound(NoSpellsMessage(id, query))
    ensures found != [] ==> (SpellsResponse(id, query, found, registry).SpellsFound? &&
      SpellsResponse(id, query, found, registry).grimorium == id &&
      SpellsResponse(id, query, found, registry).spells.Keys <= set k | k in found)
  {
    if found != [] {
      SpellEntriesAre(registry, found);
    }
  }

  // ---------------------------------------------------------------------
  // execute_spell

  /** Whether the injection loop puts the tool context into parameter `p`:
      when it is annotated with `ToolContext`, or when it is named
      "tool_context" and the arguments do not hold that name yet. */
  predicate Injects(p: Param, args: map<string, Arg>) {
    p.annotatedToolContext || (p.name == "tool_context" && p.name !in args)
  }

  /** The call arguments after the injection loop over `params`, in order. */
  function WithContext(args: map<string, Arg>, params: seq<Param>): map<string, Arg>
    decreases |params|
  {
    if params == [] then args else WithContext(Step(args, params[0]), params[1..])
  }

  /** One pass of the injection loop. */
  function Step(args: map<string, Arg>, p: Param): map<string, Arg> {
    if Injects(p, args) then args[p.name := Context] else args
  }

  /** The names of the parameters annotated with `ToolContext`. */
  function AnnotatedNames(params: seq<Param>): set<string> {
    if params == [] then {}
    else (if params[0].annotatedToolContext then {params[0].name} else {}) + AnnotatedNames(params[1..])
  }

  lemma {:induction false} AnnotatedNamesAre(params: seq<Param>)
    ensures forall n :: n in AnnotatedNames(params) <==> exists p | p in params :: p.annotatedToolContext && p.name == n
  {
    if params != [] {
      AnnotatedNamesAre(params[1..]);
      assert params == [params[0]] + params[1..];
    }
  }

  predicate HasParam(params: seq<Param>, name: string) {
    exists p | p in params :: p.name == name
  }

  /** The names the injection loop fills in, independent of order. */
  function Injected(args: map<string, Arg>, params: seq<Param>): set<string> {
    AnnotatedNames(params) + (if "tool_context" !in args && HasParam(params, "tool_context") then {"tool_context"} else {})
  }

  /** The agent's arguments with the injected names overridden by the tool
      context: an order-free account of the injection loop. */
  function Overridden(args: map<string, Arg>, params: seq<Param>): map<string, Arg> {
    map k | k in args.Keys + Injected(args, params) :: if k in Injected(args, params) then Context else args[k]
  }

  /** The injection loop adds the tool context under every parameter
      annotated with `ToolContext` (overriding what the agent passed) and
      under "tool_context" when the spell has such a parameter and the agent
      did not pass it; every other argument is passed through unchanged. */
  lemma {:induction false} WithContextIsOverride(args: map<string, Arg>, params: seq<Param>)
    ensures WithContext(args, params) == Overridden(args, params)
    decreases |params|
  {
    if params == [] {
      assert Overridden(args, params) == args;
    } else {
      WithContextIsOverride(Step(args, params[0]), params[1..]);
      OverriddenStep(args, params);
    }
  }

  lemma InjectedStep(args: map<string, Arg>, params: seq<Param>)
    requires params != []
    ensures Injected(args, params) == (if Injects(params[0], args) then {params[0].name} else {}) + Injected(Step(args, params[0]), params[1..])
  {
    assert params == [params[0]] + params[1..];
    assert HasParam(params, "tool_context") <==> params[0].name == "tool_context" || HasParam(params[1..], "tool_context");
  }

  lemma OverriddenStep(args: map<string, Arg>, params: seq<Param>)
    requires params != []
    ensures Overridden(args, params) == Overridden(Step(args, params[0]), params[1..])
  {
    InjectedStep(args, params);
  }

  /** What a spell's call returns to the agent once it raised: a
      `TypeError` asks the agent to check its arguments, any other
      exception is named. */
  function Failure(typeName: string, detail: string): Response {
    if typeName == "TypeError" then Error("Failed to call spell. Please check arguments. details: " + detail)
    else Error("Execution failed: " + typeName + ": " + detail)
  }

  /** Reading the signature, injecting the context and calling the spell;
      `sigError` is the exception `inspect.signature` raises when the
      signature cannot be read. */
  function Invoke(f: SpellFn, arguments: map<string, Arg>, call: Caller, sigError: (string, string)): Response {
    match f.signature
    case None => Failure(sigError.0, sigError.1)
    case Some(params) =>
      match call(f, WithContext(arguments, params))
      case Returned(v) => Success(v)
      case Threw(t, d) => Failure(t, d)
  }

  function PermissionDenied(name: string): string {
    "Permission denied: Spell '" + name + "' is not in your allowed collections."
  }

  function SpellNotFound(name: string): string {
    "Spell '" + name + "' not found. Did you search for it first?"
  }

  /** `execute_spell` once initialized: the allow-list is checked before
      the registry, then the spell is called. */
  function Execute(registry: Registry, cols: map<string, Collection>, getFails: set<string>, allowed: Option<seq<string>>,
                   name: string, arguments: map<string, Arg>, call: Caller, sigError: (string, string)): Response {
    if !Accessible(cols, getFails, allowed, name) then Error(PermissionDenied(name))
    else if name !in registry then Error(SpellNotFound(name))
    else Invoke(registry[name], arguments, call, sigError)
  }

  /** The injection loop of `execute_spell`, on a copy of the arguments. */
  method InjectContext(arguments: map<string, Arg>, params: seq<Param>) returns (callArgs: map<string, Arg>)
    ensures callArgs == WithContext(arguments, params)
  {
    callArgs := arguments;
    for i := 0 to |params|
      invariant WithContext(callArgs, params[i..]) == WithContext(arguments, params)
    {
      assert params[i..][1..] == params[i + 1..];
      var p := params[i];
      if p.annotatedToolContext || (p.name == "tool_context" && p.name !in callArgs) {
        callArgs := callArgs[p.name := Context];
      }
    }
  }

  /** Only an allowed, registered spell whose call returned yields
      "success", and the call sees the agent's arguments with the context
      injected as `Overridden` says. A spell outside the allow-list is
      denied whether or not it is registered. */
  lemma ExecuteGuards(registry: Registry, cols: map<string, Collection>, getFails: set<string>, allowed: Option<seq<string>>,
                      name: string, arguments: map<string, Arg>, call: Caller, sigError: (string, string))
    ensures var r := Execute(registry, cols, getFails, allowed, name, arguments, call, sigError);
      && (!Accessible(cols, getFails, allowed, name) ==> r == Error(PermissionDenied(name)))
      && (allowed.None? && name !in registry ==> r == Error(SpellNotFound(name)))
      && (r.Success? ==>
            Accessible(cols, getFails, allowed, name) && name in registry && registry[name].signature.Some? &&
            call(registry[name], Overridden(arguments, registry[name].signature.value)) == Returned(r.result))
  {
    if name in registry && registry[name].signature.Some? {
      WithContextIsOverride(arguments, registry[name].signature.value);
    }
  }

  /** An empty allow-list denies every spell, registered or not. */
  lemma EmptyAllowListDeniesAll(registry: Registry, cols: map<string, Collection>, getFails: set<string>,
                                name: string, arguments: map<string, Arg>, call: Caller, sigError: (string, string))
    ensures Execute(registry, cols, getFails, Some([]), name, arguments, call, sigError) == Error(PermissionDenied(name))
  {
    AccessFailsClosed(cols, getFails, [], name);
  }

  // ---------------------------------------------------------------------
  // The toolset

  class Grimorium {
    /** `self.spell_sync`. */
    const spellSync: SpellSync
    /** `self._strict_mode`: load only collections with a manifest. */
    const strictMode: bool
    /** `self._initialized`. */
    var initialized: bool

    /** `Grimorium(...)`: a fresh `SpellSync` over `store`, then, when
        `autoInitialize` is set, the synchronous initialization, whose
        failure is swallowed and leaves the toolset uninitialized. */
    constructor(store: VectorStore, allowedCollections: Option<seq<string>>, masterIndex: string, dbFolder: string,
                strictMode: bool, autoInitialize: bool, root: Root, md5: seq<Byte> -> Digest)
      modifies store
      ensures fresh(spellSync) && spellSync.store == store && spellSync.allowedCollections == allowedCollections
      ensures spellSync.masterIndex == masterIndex && spellSync.dbFolder == dbFolder && this.strictMode == strictMode
      ensures initialized == (autoInitialize && Discover(root, strictMode, map[]).Ok?)
      ensures initialized ==> (spellSync.registry == Discover(root, strictMode, map[]).value &&
        store.collections == Synced(old(store.collections), spellSync.registry, md5, store.createFails, store.getFails, store.upsertFails))
      ensures !initialized ==> spellSync.registry == map[] && store.collections == old(store.collections) && store.upserts == old(store.upserts)
    {
      spellSync := new SpellSync(store, allowedCollections, masterIndex, dbFolder);
      this.strictMode := strictMode;
      initialized := false;
      new;
      if autoInitialize {
        var raised := SyncInitialize(root, md5);
      }
    }

    /** `_sync_initialize()`: discovery into the registry, then the spell
        sync. A discovery that raises propagates and leaves the toolset
        uninitialized and the store untouched; once initialized, nothing
        happens. */
    method SyncInitialize(root: Root, md5: seq<Byte> -> Digest) returns (raised: bool)
      modifies this, spellSync, spellSync.store
      ensures old(initialized) ==> !raised && initialized && unchanged(spellSync, spellSync.store)
      ensures !old(initialized) ==>
        && raised == Discover(root, strictMode, old(spellSync.registry)).Raised?
        && initialized == !raised
        && (raised ==> unchanged(spellSync, spellSync.store))
        && (!raised ==> (spellSync.registry == Discover(root, strictMode, old(spellSync.registry)).value &&
              spellSync.store.collections == Synced(old(spellSync.store.collections), spellSync.registry, md5,
                spellSync.store.createFails, spellSync.store.getFails, spellSync.store.upsertFails)))
    {
      if initialized {
        return false;
      }
      var found := DiscoverAndLoadSpells(root, spellSync.registry, strictMode);
      if found.Raised? {
        return true;
      }
      spellSync.registry := found.value;
      spellSync.SyncSpells(md5);
      initialized := true;
      raised := false;
    }

    /** `initialize()`: as `_sync_initialize`, followed by the asynchronous
        metadata sync over the store the spell sync left; the toolset is
        initialized exactly when that does not raise. If it raises, the
        registry and the spell sync stay done but the toolset stays
        uninitialized. */
    method Initialize(root: Root, md5: seq<Byte> -> Digest, generate: string -> Option<string>) returns (raised: bool)
      modifies this, spellSync, spellSync.store
      ensures old(initialized) ==> !raised && initialized && unchanged(spellSync, spellSync.store)
      ensures !old(initialized) ==>
        && initialized == !raised
        && (Discover(root, strictMode, old(spellSync.registry)).Raised? ==> raised && unchanged(spellSync, spellSync.store))
        && (Discover(root, strictMode, old(spellSync.registry)).Ok? ==>
              && spellSync.registry == Discover(root, strictMode, old(spellSync.registry)).value
              && (raised, spellSync.store.collections)
                 == MetadataSyncAsync(Synced(old(spellSync.store.collections), spellSync.registry, md5,
                                             spellSync.store.createFails, spellSync.store.getFails, spellSync.store.upsertFails),
                                      spellSync.store.createFails, spellSync.store.getFails, spellSync.store.upsertFails,
                                      spellSync.masterIndex, spellSync.dbFolder, root, md5, generate)
              && (spellSync.masterIndex in spellSync.store.createFails || !root.Listing? ==> raised))
    {
      if initialized {
        return false;
      }
      var found := DiscoverAndLoadSpells(root, spellSync.registry, strictMode);
      if found.Raised? {
        return true;
      }
      spellSync.registry := found.value;
      spellSync.SyncSpells(md5);
      var writes;
      raised, writes := spellSync.SyncGrimoriumsMetadataAsync(root, md5, generate);
      if !raised {
        initialized := true;
      }
    }

    /** `discover_grimoriums(query)`; `answer` is what querying the master
        index returns. */
    method DiscoverGrimoriums(query: string, answer: Option<Hits>) returns (r: Result<Response>)
      modifies spellSync.store
      ensures !initialized ==> r == Raised(NotInitialized) && unchanged(spellSync.store)
      ensures initialized ==>
        && r == Ok(GrimoriumsResponse(RelevantGrimoriums(query, if spellSync.masterIndex in spellSync.store.createFails then None else answer)))
        && spellSync.store.upserts == old(spellSync.store.upserts)
        && spellSync.store.collections ==
             if query != "" && spellSync.masterIndex !in spellSync.store.createFails && spellSync.masterIndex !in old(spellSync.store.collections)
             then old(spellSync.store.collections)[spellSync.masterIndex := map[]] else old(spellSync.store.collections)
    {
      if !initialized {
        return Raised(NotInitialized);
      }
      var results := spellSync.FindRelevantGrimoriums(query, answer);
      if results == [] {
        return Ok(NotFound(NoGrimoriums));
      }
      var simple := Simplify(results);
      return Ok(GrimoriumsFound(simple, NextStep));
    }

    /** `discover_spells(grimorium_id, query)`. */
    method DiscoverSpells(id: string, query: string, search: Searcher) returns (r: Result<Response>)
      ensures !initialized ==> r == Raised(NotInitialized)
      ensures initialized ==> r == Ok(SpellsResponse(id, query, SpellsWithin(id, query, spellSync.allowedCollections, search), spellSync.registry))
    {
      if !initialized {
        return Raised(NotInitialized);
      }
      var found := spellSync.FindSpellsWithinGrimorium(id, query, search);
      if found == [] {
        return Ok(NotFound(NoSpellsMessage(id, query)));
      }
      var detailed := DetailSpells(spellSync.registry, found);
      return Ok(SpellsFound(id, detailed));
    }

    /** `execute_spell(spell_name, arguments, tool_context)`; `call` runs
        the spell. */
    method ExecuteSpell(name: string, arguments: map<string, Arg>, call: Caller, sigError: (string, string)) returns (r: Result<Response>)
      ensures !initialized ==> r == Raised(NotInitialized)
      ensures initialized ==> r == Ok(Execute(spellSync.registry, spellSync.store.collections, spellSync.store.getFails,
                                              spellSync.allowedCollections, name, arguments, call, sigError))
    {
      if !initialized {
        return Raised(NotInitialized);
      }
      var ok := spellSync.ValidateSpellAccess(name);
      if !ok {
        return Ok(Error(PermissionDenied(name)));
      }
      if name !in spellSync.registry {
        return Ok(Error(SpellNotFound(name)));
      }
      var f := spellSync.registry[name];
      if f.signature.None? {
        return Ok(Failure(sigError.0, sigError.1));
      }
      var callArgs := InjectContext(arguments, f.signature.value);
      match call(f, callArgs)
      case Returned(v) => return Ok(Success(v));
      case Threw(t, d) => return Ok(Failure(t, d));
    }
  }
}
