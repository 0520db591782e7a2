/** `discover_and_load_spells`: walk the collections under the `.magetools`
    root and register every admitted spell as `collection.name`. */
module Discovery {
  import opened Common
  import opened Manifests
  import opened Workspace

  /** The registry key of spell `name` in collection `collection`. */
  function QualifiedId(collection: string, name: string): string {
    collection + "." + name
  }

  /** Whether the file is imported at all: its name carries no hidden or
      private marker, it reads and parses, and importing it succeeds. */
  predicate FileLoads(f: PyFile) {
    !IsHiddenName(f.name) && f.ast.Some? && f.members.Some?
  }

  /** A spell member whose handling raises: it has no `__name__`, or the
      admission test raises. The rest of its file is then abandoned. */
  predicate Aborts(m: Member, manifest: Option<Manifest>) {
    m.isSpell && (m.obj.name.None? || IsSpellAllowed(m.obj.name.value, manifest).Raised?)
  }

  /** A spell member that is registered when the scan reaches it. */
  predicate Registers(m: Member, manifest: Option<Manifest>) {
    m.isSpell && m.obj.name.Some? && IsSpellAllowed(m.obj.name.value, manifest) == Ok(true)
  }

  /** The member loop of one file (the `for name, obj in inspect.getmembers`
      loop): admitted spells are written, anything else is passed over, and
      an exception ends the file with the writes made so far kept. */
  function ScanMembers(members: seq<Member>, collection: string, manifest: Option<Manifest>, reg: Registry): Registry
    decreases |members|
  {
    if members == [] then reg
    else
      var m := members[0];
      if Aborts(m, manifest) then reg
      else if Registers(m, manifest) then
        ScanMembers(members[1..], collection, manifest, reg[QualifiedId(collection, m.obj.name.value) := m.obj])
      else ScanMembers(members[1..], collection, manifest, reg)
  }

  function ScanFile(f: PyFile, collection: string, manifest: Option<Manifest>, reg: Registry): Registry {
    if FileLoads(f) then ScanMembers(f.members.value, collection, manifest, reg) else reg
  }

  function ScanFiles(files: seq<PyFile>, collection: string, manifest: Option<Manifest>, reg: Registry): Registry
    decreases |files|
  {
    if files == [] then reg
    else ScanFiles(files[1..], collection, manifest, ScanFile(files[0], collection, manifest, reg))
  }

  /** The two collection gates: a non-hidden directory is scanned unless
      strict mode finds no truthy manifest (default deny), or the manifest
      says `enabled` is falsy (in either mode). */
  predicate Admitted(e: Entry, strict: bool) {
    var manifest := LoadManifest(e.manifest);
    && e.isDir
    && !IsHiddenName(e.name)
    && !(strict && !ManifestTruthy(manifest))
    && !(ManifestTruthy(manifest) && !Truthy(Get(manifest.value, "enabled", JBool(true))))
  }

  function ScanCollection(e: Entry, strict: bool, reg: Registry): Registry {
    if Admitted(e, strict) then ScanFiles(e.files, e.name, LoadManifest(e.manifest), reg) else reg
  }

  function ScanCollections(entries: seq<Entry>, strict: bool, reg: Registry): Registry
    decreases |entries|
  {
    if entries == [] then reg
    else ScanCollections(entries[1..], strict, ScanCollection(entries[0], strict, reg))
  }

  /** The registry after a discovery pass: a missing root changes nothing,
      a root that cannot be listed raises. */
  function Discover(root: Root, strict: bool, reg: Registry): Result<Registry> {
    match root
    case Missing => Ok(reg)
    case Unreadable => Raised("OSError")
    case Listing(entries) => Ok(ScanCollections(entries, strict, reg))
  }

  /** `discover_and_load_spells(root, registry, strict_mode)`: the nested
      loops over collections, files and members, writing into the registry. */
  method DiscoverAndLoadSpells(root: Root, registry: Registry, strict: bool) returns (r: Result<Registry>)
    ensures r == Discover(root, strict, registry)
  {
    if root.Missing? {
      return Ok(registry);
    }
    if root.Unreadable? {
      return Raised("OSError");
    }
    var entries := root.entries;
    var reg := registry;
    var i := 0;
    while i < |entries|
      invariant 0 <= i <= |entries|
      invariant ScanCollections(entries[i..], strict, reg) == ScanCollections(entries, strict, registry)
    {
      var e := entries[i];
      assert entries[i..][1..] == entries[i + 1..];
      if !e.isDir || IsHiddenName(e.name) {
        i := i + 1;
        continue;
      }
      var manifest := LoadManifest(e.manifest);
      if strict && !ManifestTruthy(manifest) {
        i := i + 1;
        continue;
      }
      if ManifestTruthy(manifest) && !Truthy(Get(manifest.value, "enabled", JBool(true))) {
        i := i + 1;
        continue;
      }
      reg := LoadFiles(e.files, e.name, manifest, reg);
      i := i + 1;
    }
    return Ok(reg);
  }

  /** The loop over the files of an admitted collection. */
  method LoadFiles(files: seq<PyFile>, c: string, manifest: Option<Manifest>, registry: Registry) returns (reg: Registry)
    ensures reg == ScanFiles(files, c, manifest, registry)
  {
    reg := registry;
    var j := 0;
    while j < |files|
      invariant 0 <= j <= |files|
      invariant ScanFiles(files[j..], c, manifest, reg) == ScanFiles(files, c, manifest, registry)
    {
      var f := files[j];
      assert files[j..][1..] == files[j + 1..];
      if IsHiddenName(f.name) || f.ast.None? || f.members.None? {
        j := j + 1;
        continue;
      }
      reg := LoadMembers(f.members.value, c, manifest, reg);
      j := j + 1;
    }
  }

  /** The loop over the members of an imported file; an exception ends it. */
  method LoadMembers(members: seq<Member>, c: string, manifest: Option<Manifest>, registry: Registry) returns (reg: Registry)
    ensures reg == ScanMembers(members, c, manifest, registry)
  {
    reg := registry;
    var k := 0;
    while k < |members|
      invariant 0 <= k <= |members|
      invariant ScanMembers(members[k..], c, manifest, reg) == ScanMembers(members, c, manifest, registry)
    {
      var m := members[k];
      assert members[k..][1..] == members[k + 1..];
      if m.isSpell {
        if m.obj.name.None? {
          return;
        }
        var spellName := m.obj.name.value;
        var allowed := IsSpellAllowed(spellName, manifest);
        if allowed.Raised? {
          return;
        }
        if allowed.value {
          reg := reg[QualifiedId(c, spellName) := m.obj];
        }
      }
      k := k + 1;
    }
  }

  // ---------------------------------------------------------------------
  // Properties of a discovery pass

  /** Which registrations a file list, or a collection list, can make. */
  ghost predicate MemberWrites(ms: seq<Member>, c: string, manifest: Option<Manifest>, k: string, v: SpellFn) {
    exists j :: 0 <= j < |ms| && Registers(ms[j], manifest) && k == QualifiedId(c, ms[j].obj.name.value) && v == ms[j].obj
  }

  ghost predicate FileWrites(files: seq<PyFile>, c: string, manifest: Option<Manifest>, k: string, v: SpellFn) {
    exists i :: 0 <= i < |files| && FileLoads(files[i]) && MemberWrites(files[i].members.value, c, manifest, k, v)
  }

  ghost predicate CollectionWrites(entries: seq<Entry>, strict: bool, k: string, v: SpellFn) {
    exists i :: 0 <= i < |entries| && Admitted(entries[i], strict)
      && FileWrites(entries[i].files, entries[i].name, LoadManifest(entries[i].manifest), k, v)
  }

  lemma {:induction false} ScanMembersSound(ms: seq<Member>, c: string, manifest: Option<Manifest>, reg: Registry)
    ensures var r := ScanMembers(ms, c, manifest, reg);
      forall k :: k in r ==> (k in reg && r[k] == reg[k]) || MemberWrites(ms, c, manifest, k, r[k])
    decreases |ms|
  {
    if ms != [] && !Aborts(ms[0], manifest) {
      var m := ms[0];
      var next := if Registers(m, manifest) then reg[QualifiedId(c, m.obj.name.value) := m.obj] else reg;
      ScanMembersSound(ms[1..], c, manifest, next);
      var r := ScanMembers(ms, c, manifest, reg);
      assert r == ScanMembers(ms[1..], c, manifest, next);
      forall k | k in r && !(k in reg && r[k] == reg[k])
        ensures MemberWrites(ms, c, manifest, k, r[k])
      {
        if k in next && r[k] == next[k] {
          assert Registers(m, manifest) && k == QualifiedId(c, m.obj.name.value) && r[k] == m.obj;
          assert ms[0] == m;
        } else {
          var j :| 0 <= j < |ms[1..]| && Registers(ms[1..][j], manifest)
            && k == QualifiedId(c, ms[1..][j].obj.name.value) && r[k] == ms[1..][j].obj;
          assert ms[j + 1] == ms[1..][j];
        }
      }
    }
  }

  lemma {:induction false} ScanFilesSound(files: seq<PyFile>, c: string, manifest: Option<Manifest>, reg: Registry)
    ensures var r := ScanFiles(files, c, manifest, reg);
      forall k :: k in r ==> (k in reg && r[k] == reg[k]) || FileWrites(files, c, manifest, k, r[k])
    decreases |files|
  {
    if files != [] {
      var f := files[0];
      var next := ScanFile(f, c, manifest, reg);
      if FileLoads(f) {
        ScanMembersSound(f.members.value, c, manifest, reg);
      }
      ScanFilesSound(files[1..], c, manifest, next);
      var r := ScanFiles(files, c, manifest, reg);
      forall k | k in r && !(k in reg && r[k] == reg[k])
        ensures FileWrites(files, c, manifest, k, r[k])
      {
        if k in next && r[k] == next[k] {
          assert files[0] == f && FileLoads(f);
        } else {
          var i :| 0 <= i < |files[1..]| && FileLoads(files[1..][i])
            && MemberWrites(files[1..][i].members.value, c, manifest, k, r[k]);
          assert files[i + 1] == files[1..][i];
        }
      }
    }
  }

  lemma {:induction false} ScanCollectionsSound(entries: seq<Entry>, strict: bool, reg: Registry)
    ensures var r := ScanCollections(entries, strict, reg);
      forall k :: k in r ==> (k in reg && r[k] == reg[k]) || CollectionWrites(entries, strict, k, r[k])
    decreases |entries|
  {
    if entries != [] {
      var e := entries[0];
      var next := ScanCollection(e, strict, reg);
      if Admitted(e, strict) {
        ScanFilesSound(e.files, e.name, LoadManifest(e.manifest), reg);
      }
      ScanCollectionsSound(entries[1..], strict, next);
      var r := ScanCollections(entries, strict, reg);
      forall k | k in r && !(k in reg && r[k] == reg[k])
        ensures CollectionWrites(entries, strict, k, r[k])
      {
        if k in next && r[k] == next[k] {
          assert entries[0] == e && Admitted(e, strict);
        } else {
          var i :| 0 <= i < |entries[1..]| && Admitted(entries[1..][i], strict)
            && FileWrites(entries[1..][i].files, entries[1..][i].name, LoadManifest(entries[1..][i].manifest), k, r[k]);
          assert entries[i + 1] == entries[1..][i];
        }
      }
    }
  }

  /** Discovery writes only keys `collection + "." + obj.__name__` taken from
      spell members that pass admission, in non-hidden files that load, in
      non-hidden collection directories that pass both gates; everything
      else in the registry is left as it was. */
  lemma DiscoveryWritesOnlyAdmittedSpells(root: Root, strict: bool, reg: Registry)
    ensures Discover(root, strict, reg).Ok? ==>
      var r := Discover(root, strict, reg).value;
      forall k :: k in r ==>
        (k in reg && r[k] == reg[k]) || (root.Listing? && CollectionWrites(root.entries, strict, k, r[k]))
  {
    if root.Listing? {
      ScanCollectionsSound(root.entries, strict, reg);
    }
  }

  lemma {:induction false} ScanMembersGrows(ms: seq<Member>, c: string, manifest: Option<Manifest>, reg: Registry)
    ensures reg.Keys <= ScanMembers(ms, c, manifest, reg).Keys
    decreases |ms|
  {
    if ms != [] && !Aborts(ms[0], manifest) {
      var m := ms[0];
      ScanMembersGrows(ms[1..], c, manifest, if Registers(m, manifest) then reg[QualifiedId(c, m.obj.name.value) := m.obj] else reg);
    }
  }

  lemma {:induction false} ScanFilesGrows(files: seq<PyFile>, c: string, manifest: Option<Manifest>, reg: Registry)
    ensures reg.Keys <= ScanFiles(files, c, manifest, reg).Keys
    decreases |files|
  {
    if files != [] {
      if FileLoads(files[0]) {
        ScanMembersGrows(files[0].members.value, c, manifest, reg);
      }
      ScanFilesGrows(files[1..], c, manifest, ScanFile(files[0], c, manifest, reg));
    }
  }

  lemma {:induction false} ScanCollectionsGrows(entries: seq<Entry>, strict: bool, reg: Registry)
    ensures reg.Keys <= ScanCollections(entries, strict, reg).Keys
    decreases |entries|
  {
    if entries != [] {
      var e := entries[0];
      if Admitted(e, strict) {
        ScanFilesGrows(e.files, e.name, LoadManifest(e.manifest), reg);
      }
      ScanCollectionsGrows(entries[1..], strict, ScanCollection(e, strict, reg));
    }
  }

  lemma {:induction false} ScanFilesAppend(a: seq<PyFile>, b: seq<PyFile>, c: string, manifest: Option<Manifest>, reg: Registry)
    ensures ScanFiles(a + b, c, manifest, reg) == ScanFiles(b, c, manifest, ScanFiles(a, c, manifest, reg))
    decreases |a|
  {
    if a == [] {
      assert a + b == b;
    } else {
      assert (a + b)[1..] == a[1..] + b;
      ScanFilesAppend(a[1..], b, c, manifest, ScanFile(a[0], c, manifest, reg));
    }
  }

  lemma {:induction false} ScanCollectionsAppend(a: seq<Entry>, b: seq<Entry>, strict: bool, reg: Registry)
    ensures ScanCollections(a + b, strict, reg) == ScanCollections(b, strict, ScanCollections(a, strict, reg))
    decreases |a|
  {
    if a == [] {
      assert a + b == b;
    } else {
      assert (a + b)[1..] == a[1..] + b;
      ScanCollectionsAppend(a[1..], b, strict, ScanCollection(a[0], strict, reg));
    }
  }

  /** A spell member is registered when its collection is admitted, its
      file loads, admission answers yes, and no spell member listed before
      it in the same file raises. */
  lemma {:induction false} ScanMembersComplete(ms: seq<Member>, c: string, manifest: Option<Manifest>, reg: Registry, j: nat)
    requires j < |ms| && Registers(ms[j], manifest)
    requires forall l :: 0 <= l < j ==> !Aborts(ms[l], manifest)
    ensures QualifiedId(c, ms[j].obj.name.value) in ScanMembers(ms, c, manifest, reg)
    decreases |ms|
  {
    var m := ms[0];
    var next := if Registers(m, manifest) then reg[QualifiedId(c, m.obj.name.value) := m.obj] else reg;
    if j == 0 {
      ScanMembersGrows(ms[1..], c, manifest, next);
    } else {
      assert !Aborts(ms[0], manifest);
      ScanMembersComplete(ms[1..], c, manifest, next, j - 1);
    }
  }

  lemma DiscoveryRegistersAdmittedSpells(entries: seq<Entry>, strict: bool, reg: Registry, i: nat, fi: nat, j: nat)
    requires i < |entries| && Admitted(entries[i], strict)
    requires fi < |entries[i].files| && FileLoads(entries[i].files[fi])
    requires j < |entries[i].files[fi].members.value|
    requires Registers(entries[i].files[fi].members.value[j], LoadManifest(entries[i].manifest))
    requires forall l :: 0 <= l < j ==> !Aborts(entries[i].files[fi].members.value[l], LoadManifest(entries[i].manifest))
    ensures QualifiedId(entries[i].name, entries[i].files[fi].members.value[j].obj.name.value)
            in ScanCollections(entries, strict, reg)
  {
    var e := entries[i];
    var manifest := LoadManifest(e.manifest);
    var f := e.files[fi];
    var key := QualifiedId(e.name, f.members.value[j].obj.name.value);
    assert entries == entries[..i] + ([e] + entries[i + 1..]);
    ScanCollectionsAppend(entries[..i], [e] + entries[i + 1..], strict, reg);
    var before := ScanCollections(entries[..i], strict, reg);
    assert ([e] + entries[i + 1..])[1..] == entries[i + 1..];
    var mid := ScanCollection(e, strict, before);
    assert e.files == e.files[..fi] + ([f] + e.files[fi + 1..]);
    ScanFilesAppend(e.files[..fi], [f] + e.files[fi + 1..], e.name, manifest, before);
    var beforeFile := ScanFiles(e.files[..fi], e.name, manifest, before);
    assert ([f] + e.files[fi + 1..])[1..] == e.files[fi + 1..];
    ScanMembersComplete(f.members.value, e.name, manifest, beforeFile, j);
    ScanFilesGrows(e.files[fi + 1..], e.name, manifest, ScanFile(f, e.name, manifest, beforeFile));
    ScanCollectionsGrows(entries[i + 1..], strict, mid);
  }

  /** A file that is hidden, fails to read or parse, or fails to import is
      skipped on its own: the pass gives the same registry as without it. */
  lemma FailingFileIsolated(files: seq<PyFile>, i: nat, c: string, manifest: Option<Manifest>, reg: Registry)
    requires i < |files| && !FileLoads(files[i])
    ensures ScanFiles(files, c, manifest, reg) == ScanFiles(files[..i] + files[i + 1..], c, manifest, reg)
  {
    assert files == files[..i] + ([files[i]] + files[i + 1..]);
    ScanFilesAppend(files[..i], [files[i]] + files[i + 1..], c, manifest, reg);
    ScanFilesAppend(files[..i], files[i + 1..], c, manifest, reg);
    assert ([files[i]] + files[i + 1..])[1..] == files[i + 1..];
  }

  /** A collection refused by a gate (not a directory, hidden, strict mode
      without a truthy manifest, or disabled) contributes nothing: the pass
      gives the same registry as without it. */
  lemma SkippedCollectionIsolated(entries: seq<Entry>, i: nat, strict: bool, reg: Registry)
    requires i < |entries| && !Admitted(entries[i], strict)
    ensures ScanCollections(entries, strict, reg) == ScanCollections(entries[..i] + entries[i + 1..], strict, reg)
  {
    assert entries == entries[..i] + ([entries[i]] + entries[i + 1..]);
    ScanCollectionsAppend(entries[..i], [entries[i]] + entries[i + 1..], strict, reg);
    ScanCollectionsAppend(entries[..i], entries[i + 1..], strict, reg);
    assert ([entries[i]] + entries[i + 1..])[1..] == entries[i + 1..];
  }

  /** Strict mode is default deny: a collection whose manifest is missing,
      unreadable, not an object, or the empty object is never scanned. A
      manifest with a falsy `enabled` blocks the collection in both modes. */
  lemma GatesRefuse(e: Entry, strict: bool)
    ensures strict && !ManifestTruthy(LoadManifest(e.manifest)) ==> !Admitted(e, strict)
    ensures e.manifest.Decoded? && e.manifest.value == Some(JObj(map[])) ==> !Admitted(e, true)
    ensures var m := LoadManifest(e.manifest);
      m.Some? && "enabled" in m.value && !Truthy(m.value["enabled"]) ==> !Admitted(e, strict)
  {
  }

  // Worked scenarios: one collection of two spell files under each policy.

  function Spell(name: string): SpellFn {
    SpellFn(Some(name), "magetools.discovered_spells.arcane." + name, None, None, None)
  }

  function SpellFile(name: string): PyFile {
    PyFile([], name + ".py", Some([]), Some(ModuleAst(None, [])), Some([Member(true, Spell(name))]))
  }

  /** A file holding one spell registers that spell exactly when admission
      answers yes. */
  lemma SpellFileScan(name: string, c: string, manifest: Option<Manifest>, reg: Registry)
    requires |name| > 0 && name[0] != '.' && name[0] != '_'
    requires IsSpellAllowed(name, manifest).Ok?
    ensures ScanFile(SpellFile(name), c, manifest, reg)
         == if IsSpellAllowed(name, manifest).value then reg[QualifiedId(c, name) := Spell(name)] else reg
  {
    var f := SpellFile(name);
    assert (name + ".py")[0] == name[0];
    assert FileLoads(f);
    var ms := f.members.value;
    assert ms[1..] == [];
    assert !Aborts(ms[0], manifest);
    assert ScanFile(f, c, manifest, reg) == ScanMembers(ms, c, manifest, reg);
    if IsSpellAllowed(name, manifest).value {
      assert Registers(ms[0], manifest);
      assert ScanMembers(ms, c, manifest, reg) == ScanMembers([], c, manifest, reg[QualifiedId(c, name) := Spell(name)]);
    } else {
      assert ScanMembers(ms, c, manifest, reg) == ScanMembers([], c, manifest, reg);
    }
  }

  /** Discovery over a root holding one admitted collection of two files is
      the scan of the first file followed by the scan of the second. */
  lemma ScenarioSteps(e: Entry, strict: bool, manifest: Option<Manifest>, r: Registry)
    requires |e.files| == 2 && Admitted(e, strict) && LoadManifest(e.manifest) == manifest
    requires ScanFile(e.files[1], e.name, manifest, ScanFile(e.files[0], e.name, manifest, map[])) == r
    ensures Discover(Listing([e]), strict, map[]) == Ok(r)
  {
    var m := LoadManifest(e.manifest);
    var r0 := ScanFile(e.files[0], e.name, m, map[]);
    assert e.files[1..][1..] == [];
    assert ScanFiles(e.files[1..], e.name, m, r0) == ScanFiles([], e.name, m, ScanFile(e.files[1], e.name, m, r0));
    assert ScanFiles(e.files, e.name, m, map[]) == r;
    assert [e][1..] == [];
    assert ScanCollections([e], strict, map[]) == ScanCollections([], strict, ScanCollection(e, strict, map[]));
  }

  /** Collection `arcane` with `spell_a.py` and `spell_b.py` and the
      manifest `{"whitelist": ["spell_a"]}` yields exactly
      `{"arcane.spell_a": spell_a}`, in both modes. */
  lemma ScenarioWhitelist(strict: bool)
    ensures var e := Entry("arcane", true, Decoded(Some(JObj(map["whitelist" := JArr([JStr("spell_a")])]))),
                          NoSummary, true, [SpellFile("spell_a"), SpellFile("spell_b")]);
      Discover(Listing([e]), strict, map[]) == Ok(map["arcane.spell_a" := Spell("spell_a")])
  {
    var e := Entry("arcane", true, Decoded(Some(JObj(map["whitelist" := JArr([JStr("spell_a")])]))),
                   NoSummary, true, [SpellFile("spell_a"), SpellFile("spell_b")]);
    var manifest := LoadManifest(e.manifest);
    assert JStr("spell_b") != JStr("spell_a");
    assert IsSpellAllowed("spell_b", manifest) == Ok(false);
    assert IsSpellAllowed("spell_a", manifest) == Ok(true);
    assert QualifiedId("arcane", "spell_a") == "arcane.spell_a";
    SpellFileScan("spell_a", "arcane", manifest, map[]);
    var r1 := map["arcane.spell_a" := Spell("spell_a")];
    SpellFileScan("spell_b", "arcane", manifest, r1);
    ScenarioSteps(e, strict, manifest, r1);
  }

  /** `{"enabled": false}` on a collection of valid spells
      registers nothing, in strict and in lenient mode. */
  lemma ScenarioDisabled(strict: bool)
    ensures var e := Entry("arcane", true, Decoded(Some(JObj(map["enabled" := JBool(false)]))),
                          NoSummary, true, [SpellFile("spell_a"), SpellFile("spell_b")]);
      Discover(Listing([e]), strict, map[]) == Ok(map[])
  {
  }

  /** Strict mode without a manifest registers nothing; lenient mode
      registers every spell of the collection. */
  lemma ScenarioNoManifest()
    ensures var e := Entry("arcane", true, NoFile, NoSummary, true, [SpellFile("spell_a"), SpellFile("spell_b")]);
      && Discover(Listing([e]), true, map[]) == Ok(map[])
      && Discover(Listing([e]), false, map[])
         == Ok(map["arcane.spell_a" := Spell("spell_a"), "arcane.spell_b" := Spell("spell_b")])
  {
    var e := Entry("arcane", true, NoFile, NoSummary, true, [SpellFile("spell_a"), SpellFile("spell_b")]);
    assert QualifiedId("arcane", "spell_a") == "arcane.spell_a";
    SpellFileScan("spell_a", "arcane", None, map[]);
    var r1 := map["arcane.spell_a" := Spell("spell_a")];
    var r2 := map["arcane.spell_a" := Spell("spell_a"), "arcane.spell_b" := Spell("spell_b")];
    SpellFileScan("spell_b", "arcane", None, r1);
    assert QualifiedId("arcane", "spell_b") == "arcane.spell_b";
    ScenarioSteps(e, false, None, r2);
  }
}
