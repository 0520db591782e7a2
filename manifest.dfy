/** The per-collection manifest: loading `manifest.json` and the admission
    policy that decides whether a spell may be registered under it. */
module Manifests {
  import opened Common

  /** A decoded JSON document, as `json.load` returns it. */
  datatype Json =
    | JNull
    | JBool(b: bool)
    | JNum(n: real)
    | JStr(s: string)
    | JArr(items: seq<Json>)
    | JObj(fields: map<string, Json>)

  /** Python truthiness of a decoded JSON value. */
  predicate Truthy(v: Json) {
    match v
    case JNull => false
    case JBool(b) => b
    case JNum(n) => n != 0.0
    case JStr(s) => s != ""
    case JArr(items) => items != []
    case JObj(fields) => fields != map[]
  }

  /** A manifest is the decoded JSON object (a Python `dict`). */
  type Manifest = map<string, Json>

  /** What the file system and the JSON decoder give for `manifest.json`. */
  datatype ManifestFile =
    | NoFile                          // the file does not exist
    | OpenFails                       // open() or reading raised
    | Decoded(value: Option<Json>)    // None: the text is not valid JSON

  /** `_load_manifest`: a manifest exists only when the file exists, decodes,
      and decodes to a JSON object; every failure reads as "no manifest". */
  function LoadManifest(f: ManifestFile): (m: Option<Manifest>)
    ensures m.Some? <==> f.Decoded? && f.value.Some? && f.value.value.JObj?
    ensures m.Some? ==> JObj(m.value) == f.value.value
  {
    match f
    case Decoded(Some(JObj(fields))) => Some(fields)
    case _ => None
  }

  /** `manifest` as a Python condition (`not manifest`): both a missing
      manifest and an empty object are falsy. */
  predicate ManifestTruthy(m: Option<Manifest>) {
    m.Some? && m.value != map[]
  }

  /** `manifest.get(key, default)`. */
  function Get(m: Manifest, key: string, default: Json): Json {
    if key in m then m[key] else default
  }

  /** `x in container` for a string `x` and a decoded JSON container: list
      membership, dictionary keys, or substring; any other value raises
      TypeError. */
  function PyContains(container: Json, x: string): (r: Result<bool>)
    ensures r.Raised? <==> container.JNull? || container.JBool? || container.JNum?
    ensures container.JArr? ==> r == Ok(JStr(x) in container.items)
  {
    match container
    case JArr(items) => Ok(JStr(x) in items)
    case JObj(fields) => Ok(x in fields)
    case JStr(s) => Ok(IsSubstring(x, s))
    case _ => Raised("TypeError")
  }

  /** `_is_spell_allowed(spell_name, manifest)`. */
  function IsSpellAllowed(name: string, manifest: Option<Manifest>): Result<bool> {
    match manifest
    case None => Ok(true)
    case Some(m) =>
      if !Truthy(Get(m, "enabled", JBool(true))) then Ok(false)
      else
        // `manifest.get("whitelist")` is None both for a missing key and for null
        var whitelist := Get(m, "whitelist", JNull);
        var blacklist := Get(m, "blacklist", JArr([]));
        var listed := if whitelist.JNull? then Ok(true) else PyContains(whitelist, name);
        match listed
        case Raised(e) => Raised(e)
        case Ok(false) => Ok(false)
        case Ok(true) =>
          match PyContains(blacklist, name)
          case Raised(e) => Raised(e)
          case Ok(blocked) => Ok(!blocked)
  }

  /** The manifest a policy file with list-valued fields decodes to. */
  function ListManifest(enabled: Option<bool>, whitelist: Option<seq<string>>, blacklist: Option<seq<string>>): Manifest {
    (if enabled.Some? then map["enabled" := JBool(enabled.value)] else map[])
    + (if whitelist.Some? then map["whitelist" := Strings(whitelist.value)] else map[])
    + (if blacklist.Some? then map["blacklist" := Strings(blacklist.value)] else map[])
  }

  function Strings(names: seq<string>): (j: Json)
    ensures j.JArr? && |j.items| == |names|
    ensures forall i :: 0 <= i < |names| ==> j.items[i] == JStr(names[i])
  {
    JArr(seq(|names|, i requires 0 <= i < |names| => JStr(names[i])))
  }

  lemma StringsMember(names: seq<string>, x: string)
    ensures JStr(x) in Strings(names).items <==> x in names
  {
    var j := Strings(names);
    if x in names {
      var i :| 0 <= i < |names| && names[i] == x;
      assert j.items[i] == JStr(x);
    }
  }

  /** The admission policy for a well-formed manifest: a spell is admitted
      exactly when the collection is enabled, the whitelist (if any) names
      it, and the blacklist does not. A disabled collection admits nothing;
      a blacklisted name is refused even when whitelisted. */
  lemma {:induction false} AdmissionPolicy(name: string, enabled: Option<bool>, whitelist: Option<seq<string>>, blacklist: Option<seq<string>>)
    ensures IsSpellAllowed(name, Some(ListManifest(enabled, whitelist, blacklist)))
         == Ok(enabled.GetOr(true)
               && (whitelist.None? || name in whitelist.value)
               && (blacklist.None? || name !in blacklist.value))
  {
    var m := ListManifest(enabled, whitelist, blacklist);
    assert Get(m, "enabled", JBool(true)) == JBool(enabled.GetOr(true));
    if whitelist.Some? {
      assert Get(m, "whitelist", JNull) == Strings(whitelist.value);
      StringsMember(whitelist.value, name);
    } else {
      assert "whitelist" !in m;
    }
    if blacklist.Some? {
      assert Get(m, "blacklist", JArr([])) == Strings(blacklist.value);
      StringsMember(blacklist.value, name);
    } else {
      assert "blacklist" !in m;
    }
  }

  /** Without a manifest every spell is admitted; a manifest whose `enabled`
      is falsy admits none, whatever its lists say. */
  lemma NoManifestOrDisabled(name: string, m: Manifest)
    ensures IsSpellAllowed(name, None) == Ok(true)
    ensures !Truthy(Get(m, "enabled", JBool(true))) ==> IsSpellAllowed(name, Some(m)) == Ok(false)
  {
  }

  /** The admission cases of `_is_spell_allowed`: whitelist
      hit, whitelist miss, blacklist hit, blacklist miss, blacklist beats
      whitelist, and `enabled: false` beats a whitelist hit. */
  lemma AdmissionExamples(n: string, m: string)
    requires n != m
    ensures IsSpellAllowed(n, Some(map["whitelist" := JArr([JStr(n)])])) == Ok(true)
    ensures IsSpellAllowed(n, Some(map["whitelist" := JArr([JStr(m)])])) == Ok(false)
    ensures IsSpellAllowed(n, Some(map["blacklist" := JArr([JStr(n)])])) == Ok(false)
    ensures IsSpellAllowed(n, Some(map["blacklist" := JArr([JStr(m)])])) == Ok(true)
    ensures IsSpellAllowed(n, Some(map["whitelist" := JArr([JStr(n)]), "blacklist" := JArr([JStr(n)])])) == Ok(false)
    ensures IsSpellAllowed(n, Some(map["enabled" := JBool(false), "whitelist" := JArr([JStr(n)])])) == Ok(false)
  {
    AdmissionPolicy(n, None, Some([n]), None);
    AdmissionPolicy(n, None, Some([m]), None);
    AdmissionPolicy(n, None, None, Some([n]));
    AdmissionPolicy(n, None, None, Some([m]));
    AdmissionPolicy(n, None, Some([n]), Some([n]));
    AdmissionPolicy(n, Some(false), Some([n]), None);
    assert Strings([n]) == JArr([JStr(n)]);
    assert Strings([m]) == JArr([JStr(m)]);
    assert ListManifest(None, Some([n]), None) == map["whitelist" := JArr([JStr(n)])];
    assert ListManifest(None, Some([m]), None) == map["whitelist" := JArr([JStr(m)])];
    assert ListManifest(None, None, Some([n])) == map["blacklist" := JArr([JStr(n)])];
    assert ListManifest(None, None, Some([m])) == map["blacklist" := JArr([JStr(m)])];
    assert ListManifest(None, Some([n]), Some([n])) == map["whitelist" := JArr([JStr(n)]), "blacklist" := JArr([JStr(n)])];
    assert ListManifest(Some(false), Some([n]), None) == map["enabled" := JBool(false), "whitelist" := JArr([JStr(n)])];
  }

  /** A whitelist or blacklist that is not a container makes the membership
      test raise TypeError instead of answering. */
  lemma MalformedListsRaise(name: string, v: Json)
    requires v.JNum? || v.JBool?
    ensures IsSpellAllowed(name, Some(map["whitelist" := v])).Raised?
    ensures IsSpellAllowed(name, Some(map["blacklist" := v])).Raised?
    ensures IsSpellAllowed(name, Some(map["blacklist" := JNull])).Raised?
  {
  }
}
