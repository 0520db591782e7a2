# magetools spell engine, modelled in Dafny

magetools lets an agent find and run "spells": Python functions marked as
tools. They live in collection folders ("grimoriums") under a `.magetools`
directory.

This project models the engine behind that. It covers these operations:

- **Discovery** (`discover_and_load_spells`) walks the collection folders.
  - A `manifest.json` gates each collection: strict mode, `enabled`, a
    whitelist and a blacklist.
  - Admitted spells are registered under `collection.name`.
- **Spell sync** (`sync_spells`) groups the registry into one vector-store
  collection per bucket. It writes only the spells whose docstring hash
  changed, in one upsert per bucket.
- **Metadata sync** (`sync_grimoriums_metadata` and its async variant) keeps
  a master index of collections.
  - Each collection gets a content hash.
  - Its summary is cached, or regenerated by a language model when stale.
  - The docstrings fed to the model are sanitized against prompt injection,
    and the end-of-data marker is escaped.
- **Search** covers three operations:
  - a deduplicated cross-collection spell search, ranked and cut at a
    distance threshold;
  - the grimorium search over the master index;
  - the search within one grimorium.
- **Access check**: an allow-list of collections decides which spells may
  run.
- **The `Grimorium` toolset** handles:
  - its initialization state;
  - the three agent tools (`discover_grimoriums`, `discover_spells`,
    `execute_spell`);
  - the injection of the tool context into a spell's arguments.

Code that works step by step is modelled as methods. Each method is proved
against a function that states what it computes:

- the `SpellSync` and `Grimorium` classes;
- the vector store, as a class whose collections and upsert log change in
  place;
- the loops of discovery, sync, hashing, sanitizing and searching.

Properties are lemmas about those functions. They cover:

- admission soundness and completeness;
- that the hash ignores listing order;
- that no injection keyword survives sanitizing;
- that the end marker never appears unescaped in the prompt data;
- that sync is idempotent and writes only registry spells;
- ranking, deduplication and threshold facts of the searches;
- the injection of the tool context.

The file system, the Python importer and parser, the vector store's
similarity search, md5 and the language model are inputs or function
parameters:

- A `Root` is the listing of the `.magetools` directory, with each file's
  bytes, parse result and members.
- `md5` is a function from bytes to a digest.
- `generate` is the language model: it gives a summary, or `None` when the
  call raises.
- A `Searcher` or `Option<Hits>` stands for a vector query.
- Sets of collection names say which store calls raise.
- A `Caller` runs a spell.

The model keeps five behaviours of the code that its docstrings and
comments do not spell out:

1. **Strict mode without a manifest.** A collection without a truthy
   manifest is skipped in strict mode whether or not it holds Python
   files. The warning at `spellsync.py:711-715` is logged only when it
   holds a public one, but the `continue` at line 716 applies in both
   cases.
2. **A folder that raises during metadata sync.** In both metadata syncs,
   the only `try` around a folder's processing guards the summary write
   (`spellsync.py:355-358`). The master index `get` and the cached
   summary's `read_text` are unguarded. So a failure of either, for any
   folder, aborts the whole sync and skips the final upsert. In the async
   variant it surfaces through `asyncio.gather`.
3. **Whitelist and blacklist checks.** The `_is_spell_allowed` docstring
   speaks of whitelisted and blacklisted spells. The code applies Python's
   `in` to whatever JSON value the manifest holds:
   - a list tests membership;
   - an object tests its keys;
   - a string tests for a substring;
   - a number, a boolean or `null` raises `TypeError`, which abandons the
     rest of that file.
4. **An empty allow-list.** `validate_spell_access` treats only `None` as
   "no restrictions", so an empty allow-list denies every spell.
   `find_spells_within_grimorium` tests the allow-list by truthiness, so
   an empty allow-list denies nothing there.
5. **Hidden files.** Only a file's own name is checked for a leading `.` or
   `_`. Files in hidden or private sub-directories are loaded and hashed.

## Model

The functions that define the model have rows saying what they compute; the lemmas and methods after them state what holds of those definitions.

| member | source | states |
|---|---|---|
| Common.Take | src/magetools/spellsync.py:502 | `s[:n]` is the prefix of `s` of length `min(n, |s|)` |
| Common.Split | src/magetools/spellsync.py:597 | `str.split` on one character yields at least one part and no part contains the separator |
| Common.Utf8 | src/magetools/spellsync.py:563 | UTF-8 encoding is at least one byte per character |
| Common.Utf8Char | src/magetools/spellsync.py:636 | one character encodes to one to four bytes |
| Common.SplitJoin | src/magetools/spellsync.py:597 | splitting `a + sep + b` with `sep` not in `a` yields `a` followed by the parts of `b` |
| Common.SplitNoSep | src/magetools/spellsync.py:597 | a string without the separator splits to itself alone |
| Common.SplitThird | src/magetools/spellsync.py:597-599 | the third part of `a.b.c.rest` is `c` |
| Common.PrefixedThird | src/magetools/spellsync.py:596-599 | a module name `magetools.discovered_spells.c.rest` starts with the prefix and its third part is `c` |
| Manifests.LoadManifest | src/magetools/spellsync.py:785-816 | a manifest exists exactly when the file exists, decodes and is a JSON object, and it is that object |
| Manifests.PyContains | src/magetools/spellsync.py:840-844 | `x in v` raises exactly for `null`, booleans and numbers, and on a list tests membership |
| Manifests.StringsMember | src/magetools/spellsync.py:840-844 | a name is in the decoded list exactly when it is among the names |
| Manifests.IsSpellAllowed | src/magetools/spellsync.py:819-847 | `_is_spell_allowed`: no manifest allows; a falsy `enabled` (default true) denies; otherwise the name must be in the whitelist when one is given and not in the blacklist (default empty), and a list that cannot be searched raises `TypeError` |
| Manifests.AdmissionPolicy | src/magetools/spellsync.py:819-847 | for list-valued policies a spell is allowed iff enabled (default true), whitelisted when a whitelist exists, and not blacklisted |
| Manifests.NoManifestOrDisabled | src/magetools/spellsync.py:828-833 | no manifest allows every spell; a falsy `enabled` denies every spell |
| Manifests.AdmissionExamples | src/magetools/spellsync.py:819-847 | whitelist hit/miss, blacklist hit/miss, blacklist beats whitelist, disabled beats whitelist |
| Manifests.MalformedListsRaise | src/magetools/spellsync.py:840-844 | a number or boolean whitelist or blacklist, or a `null` blacklist, makes the admission test raise |
| Discovery.Discover | src/magetools/spellsync.py:664-782 | the registry after discovery: unchanged for a missing root, `OSError` for a root that cannot be listed, otherwise every entry scanned in listing order |
| Discovery.Admitted | src/magetools/spellsync.py:698-721 | the collection gates: a visible directory, with a truthy manifest in strict mode, and not switched off by a falsy `enabled` |
| Discovery.ScanCollections | src/magetools/spellsync.py:697-782 | each admitted collection has its files scanned with its manifest, in listing order |
| Discovery.ScanFiles | src/magetools/spellsync.py:728-782 | each file that is visible, reads, parses and imports has its members scanned, in order |
| Discovery.ScanMembers | src/magetools/spellsync.py:759-775 | each admitted spell is written under `collection.name`; a member whose admission test raises ends the file and keeps the earlier writes |
| Discovery.DiscoverAndLoadSpells | src/magetools/spellsync.py:664-782 | the nested loops over collections, files and members produce `Discover`: a missing root changes nothing, an unlistable root raises `OSError`, otherwise every collection is scanned |
| Discovery.LoadFiles | src/magetools/spellsync.py:728-782 | the file loop of one collection produces `ScanFiles` |
| Discovery.LoadMembers | src/magetools/spellsync.py:759-775 | the member loop of one module produces `ScanMembers`, stopping at a member whose handling raises |
| Discovery.ScanMembersSound | src/magetools/spellsync.py:759-775 | every entry the member loop adds is an admitted spell stored under `collection.name` |
| Discovery.ScanFilesSound | src/magetools/spellsync.py:728-782 | every entry the file loop adds comes from a file that reads, parses and imports |
| Discovery.ScanCollectionsSound | src/magetools/spellsync.py:697-782 | every entry added comes from an admitted collection |
| Discovery.DiscoveryWritesOnlyAdmittedSpells | src/magetools/spellsync.py:664-782 | after discovery each registry entry is either the caller's or an admitted spell of an admitted collection |
| Discovery.ScanMembersGrows | src/magetools/spellsync.py:773-775 | the member loop never removes a registry key |
| Discovery.ScanFilesGrows | src/magetools/spellsync.py:728-782 | the file loop never removes a registry key |
| Discovery.ScanCollectionsGrows | src/magetools/spellsync.py:697-782 | discovery never removes a registry key |
| Discovery.ScanFilesAppend | src/magetools/spellsync.py:728 | scanning `a + b` is scanning `b` after `a` |
| Discovery.ScanCollectionsAppend | src/magetools/spellsync.py:697 | scanning collections `a + b` is scanning `b` after `a` |
| Discovery.ScanMembersComplete | src/magetools/spellsync.py:759-775 | an admitted spell is registered unless an earlier member of its file raised |
| Discovery.DiscoveryRegistersAdmittedSpells | src/magetools/spellsync.py:697-782 | every admitted spell of a loadable file of an admitted collection is registered unless an earlier member of that file raised |
| Discovery.FailingFileIsolated | src/magetools/spellsync.py:729-745 | a hidden, unreadable, unparsable or unimportable file contributes nothing and does not affect the others |
| Discovery.SkippedCollectionIsolated | src/magetools/spellsync.py:698-721 | a collection that fails a gate contributes nothing and does not affect the others |
| Discovery.GatesRefuse | src/magetools/spellsync.py:707-721 | strict mode refuses a collection without a truthy manifest, including an empty `{}`; a falsy `enabled` refuses it in either mode |
| Discovery.SpellFileScan | src/magetools/spellsync.py:759-775 | a one-spell file registers `collection.name` exactly when the manifest allows it |
| Discovery.ScenarioSteps | src/magetools/spellsync.py:697-782 | a root with one admitted two-file collection yields the two files' scans in order |
| Discovery.ScenarioWhitelist | src/magetools/spellsync.py:835-842 | a whitelist of `spell_a` registers only `arcane.spell_a` |
| Discovery.ScenarioDisabled | src/magetools/spellsync.py:719-721 | `enabled: false` registers nothing in either mode |
| Discovery.ScenarioNoManifest | src/magetools/spellsync.py:707-716 | without a manifest strict mode registers nothing and lenient mode registers both spells |
| SpellSyncing.BucketName | src/magetools/spellsync.py:590-603 | the spell's own collection attribute when set; else the third dotted part of a module under `magetools.discovered_spells.`; else `default_grimorium` |
| SpellSyncing.Staged | src/magetools/spellsync.py:629-647 | the records of a bucket whose stored hash is missing or differs from the current one, each with its document and metadata |
| SpellSyncing.SyncedBucket | src/magetools/spellsync.py:613-659 | a bucket's collection after processing: created empty when absent, and the staged records merged in when there are some and the upsert does not raise |
| SpellSyncing.Synced | src/magetools/spellsync.py:578-661 | the store after `sync_spells`: every bucket processed, a bucket whose creation raises skipped, other collections kept |
| SpellSyncing.DiscoveredSpellBucket | src/magetools/spellsync.py:590-599 | a spell of module `magetools.discovered_spells.c.stem` goes to bucket `c` |
| SpellSyncing.OtherSpellsDefaultBucket | src/magetools/spellsync.py:593-603 | a spell outside that package and without an override goes to `default_grimorium` |
| SpellSyncing.StagedAmongStep | src/magetools/spellsync.py:634-647 | staging one more spell adds its record exactly when its hash changed |
| SpellSyncing.StagedSkippedPartition | src/magetools/spellsync.py:634-647 | the staged and the skipped spells partition the bucket |
| SpellSyncing.UpsertedIffChanged | src/magetools/spellsync.py:617-647 | a spell is upserted iff its stored hash is missing or differs, with its docstring and `{name, hash}` metadata |
| SpellSyncing.FetchFailureUpsertsAll | src/magetools/spellsync.py:618-627 | when reading stored hashes raises, the whole bucket is upserted |
| SpellSyncing.SyncedRecordsCurrent | src/magetools/spellsync.py:578-661 | when no create or upsert fails, every registry spell ends up in its bucket with its current hash |
| SpellSyncing.SyncedBucketCurrent | src/magetools/spellsync.py:613-650 | after its bucket is processed, a spell's stored hash is current |
| SpellSyncing.SyncIsIdempotent | src/magetools/spellsync.py:578-661 | a second sync stages nothing and leaves the store unchanged |
| SpellSyncing.SyncedStoreNoop | src/magetools/spellsync.py:610-659 | buckets that stage nothing leave the store unchanged |
| SpellSyncing.ResyncStagesNothing | src/magetools/spellsync.py:629-647 | after a sync, no bucket has anything to stage |
| SpellSyncing.SyncWritesOnlyRegistrySpells | src/magetools/spellsync.py:578-661 | sync never drops a collection; new collections are registry buckets holding only their spells; every changed record is a registry spell of that bucket |
| SpellSyncing.SyncedBucketWithin | src/magetools/spellsync.py:613-659 | processing a bucket changes or adds only records of that bucket |
| SpellSyncing.GroupedStep | src/magetools/spellsync.py:605-607 | grouping one more spell adds it to its bucket's set |
| SpellSyncing.GroupedAll | src/magetools/spellsync.py:587-607 | grouping the whole registry yields exactly the buckets and their members |
| SpellSyncing.SyncedStoreUntouched | src/magetools/spellsync.py:610-659 | buckets not yet processed are unchanged |
| SpellSyncing.SyncedStoreStep | src/magetools/spellsync.py:613-659 | processing one more bucket updates only that collection, or nothing when creating it raises |
| SpellSyncing.SyncedNothing | src/magetools/spellsync.py:582-584 | an empty registry leaves the store unchanged |
| SpellSyncing.BatchesOfStep | src/magetools/spellsync.py:649-650 | the upsert log stays one call per changed bucket, carrying exactly its staged records |
| SpellSyncing.CallsStagedStep | src/magetools/spellsync.py:649-650 | each logged upsert carries the non-empty staged records of a processed bucket |
| SpellSyncing.CallsDistinctStep | src/magetools/spellsync.py:610-650 | no bucket is upserted twice |
| SpellSyncing.CallsCoverStep | src/magetools/spellsync.py:649-650 | every processed bucket with staged records has its upsert |
| Store.BatchRecords | src/magetools/spellsync.py:650 | an upsert's keys are exactly the ids passed |
| Store.BatchRecordsAppend | src/magetools/spellsync.py:645-647 | appending one id, document and metadata adds its record |
| Store.VectorStore.constructor | src/magetools/spellsync.py:32-101 | a store with the given collections and failing calls, and an empty upsert log |
| Store.VectorStore.GetOrCreateCollection | src/magetools/spellsync.py:103-108 | creates a missing collection empty; fails exactly for the failing names |
| Store.VectorStore.Get | src/magetools/spellsync.py:619 | returns the collection, or nothing when `get` raises |
| Store.VectorStore.Upsert | src/magetools/spellsync.py:650 | logs the call and, unless it raises, merges the records into the collection |
| ContentHash.FileFeed | src/magetools/spellsync.py:558-567 | the bytes one file feeds to md5: nothing for a hidden or private name, else the UTF-8 name, then the content when it can be read |
| ContentHash.GrimoriumHash | src/magetools/spellsync.py:553-568 | md5 of the bytes fed by the files sorted by path |
| ContentHash.PathOrderIsStrictTotal | src/magetools/spellsync.py:557 | the order `sorted` uses on paths is a strict total order |
| ContentHash.FileOrderUsable | src/magetools/spellsync.py:557 | on distinct paths the file order is a strict weak order that is total |
| ContentHash.FeedAppend | src/magetools/spellsync.py:558-567 | the bytes fed for `a + b` are those for `a` then those for `b` |
| ContentHash.FeedPrefix | src/magetools/spellsync.py:558-567 | each loop pass feeds one file's name and content |
| ContentHash.ComputeGrimoriumHash | src/magetools/spellsync.py:553-568 | the loop's digest is md5 of the names and contents of the public files in path order |
| ContentHash.HashIgnoresListingOrder | src/magetools/spellsync.py:557 | the hash does not depend on the order `rglob` lists the files in |
| ContentHash.FeedSkipsHidden | src/magetools/spellsync.py:559-560 | a hidden or private file feeds nothing wherever it sorts |
| ContentHash.HashIgnoresHiddenFiles | src/magetools/spellsync.py:559-560 | adding a hidden or private file does not change the hash |
| ContentHash.SortTwo | src/magetools/spellsync.py:557 | two files already in path order stay in order |
| ContentHash.FeedTwo | src/magetools/spellsync.py:558-567 | two files feed the first's bytes then the second's |
| ContentHash.HashKeepsNoFileBoundaries | src/magetools/spellsync.py:563-565 | file `a.py` holding `b.py…` hashes like `a.py` empty plus `b.py` holding the rest: names and contents are fed without separators |
| ContentHash.MergedFeed | src/magetools/spellsync.py:563-565 | the bytes fed for the single file |
| ContentHash.SplitFeed | src/magetools/spellsync.py:563-565 | the bytes fed for the two files |
| Sanitize.Redact | src/magetools/spellsync.py:497-499 | `re.sub` of one escaped keyword, ignoring case: each leftmost non-overlapping match becomes `[REDACTED]` |
| Sanitize.Sanitized | src/magetools/spellsync.py:478-502 | empty text stays empty; otherwise every keyword is redacted in turn, then the text is cut to 1000 characters |
| Sanitize.KeywordsNonEmpty | src/magetools/spellsync.py:487-493 | every injection keyword has at least ten characters |
| Sanitize.SanitizeDocstring | src/magetools/spellsync.py:478-502 | the result is the redacted text cut to 1000 characters, and empty text stays empty |
| Sanitize.KeywordsSafe | src/magetools/spellsync.py:487-493 | no keyword contains a bracket, so no keyword can match across a `[REDACTED]` |
| Sanitize.SameWindow | src/magetools/spellsync.py:497-499 | a case-insensitive match depends only on the characters under the window |
| Sanitize.MatchShift | src/magetools/spellsync.py:497-499 | matching in the tail at `p` is matching in the text at `p + 1` |
| Sanitize.NoMatchBeforeShift | src/magetools/spellsync.py:497-499 | no match in the tail before `n` and none at 0 means none before `n + 1` |
| Sanitize.RedactStep | src/magetools/spellsync.py:497-499 | without a match at 0, the first character is kept |
| Sanitize.RedactMatchStep | src/magetools/spellsync.py:497-499 | a match at 0 becomes `[REDACTED]` and scanning resumes after it |
| Sanitize.FirstMatch | src/magetools/spellsync.py:497-499 | the position of the leftmost match is within the text, or -1 |
| Sanitize.FirstMatchStep | src/magetools/spellsync.py:497-499 | without a match at 0, the leftmost match is one past the tail's |
| Sanitize.FirstMatchIsFirst | src/magetools/spellsync.py:497-499 | `FirstMatch` is a match and no match starts before it |
| Sanitize.RedactAtFirstMatch | src/magetools/spellsync.py:497-499 | `re.sub` keeps the text up to the leftmost match, replaces it, and continues after it; without a match the text is unchanged |
| Sanitize.RedactSplit | src/magetools/spellsync.py:497-499 | the same, returning the match position |
| Sanitize.BracketBlocks | src/magetools/spellsync.py:497-499 | a bracket inside the window rules out a keyword match |
| Sanitize.MarkerBreaks | src/magetools/spellsync.py:497-499 | clean text joined by `[REDACTED]` stays clean |
| Sanitize.RedactCleans | src/magetools/spellsync.py:495-499 | after `re.sub` with a keyword, the keyword occurs nowhere, in any letter case |
| Sanitize.RedactKeepsClean | src/magetools/spellsync.py:495-499 | redacting one keyword never creates a match of another |
| Sanitize.RedactAllKeepsClean | src/magetools/spellsync.py:495-499 | the keyword loop keeps clean text clean |
| Sanitize.RedactAllCleans | src/magetools/spellsync.py:495-499 | after the loop no keyword occurs |
| Sanitize.NoKeywordSurvives | src/magetools/spellsync.py:478-502 | no injection keyword occurs in a sanitized docstring, even after truncation |
| Sanitize.RedactAllIdentity | src/magetools/spellsync.py:495-499 | text with no keyword passes the loop unchanged |
| Sanitize.HarmlessDocUnchanged | src/magetools/spellsync.py:478-502 | a short docstring with no keyword is returned as it is |
| Sanitize.RedactIgnoresCase | src/magetools/spellsync.py:497-499 | a keyword in any ASCII letter case is replaced whole |
| Sanitize.MatchExample | src/magetools/spellsync.py:497-499 | "You Are Now" inside parentheses matches "you are now" at its position and not before |
| Summaries.SpellDocs | src/magetools/spellsync.py:453-476 | the list `_extract_spell_docs` returns: each file's lines, in `rglob` order |
| Summaries.Prompt | src/magetools/spellsync.py:514-545 | the prompt: the advisory text with the collection name, then the tool data between `START_TOOL_DATA` and `END_TOOL_DATA` |
| Summaries.DefDocsAppend | src/magetools/spellsync.py:466-473 | the docs of `a + b` definitions are those of `a` then `b` |
| Summaries.SpellDocsAppend | src/magetools/spellsync.py:456-476 | the docs of `a + b` files are those of `a` then `b` |
| Summaries.DefDocsPrefix | src/magetools/spellsync.py:466-473 | each definition contributes its `Spell name: doc` line |
| Summaries.SpellDocsPrefix | src/magetools/spellsync.py:456-476 | each file contributes its lines |
| Summaries.ParsedFileDocs | src/magetools/spellsync.py:462-473 | one parsed file yields its module line then its definition lines, sanitized, skipping empty docstrings |
| Summaries.ExtractSpellDocs | src/magetools/spellsync.py:453-476 | the loop yields the lines of every public parsable file in listing order |
| Summaries.DefDocsEmpty | src/magetools/spellsync.py:466-473 | definitions yield no line iff none has a non-empty docstring |
| Summaries.NoDocsIff | src/magetools/spellsync.py:453-476 | there are no docs iff no file is public, parsable and documented |
| Summaries.SkippedFileContributesNothing | src/magetools/spellsync.py:457-475 | a hidden or unparsable file adds nothing |
| Summaries.ToolData | src/magetools/spellsync.py:512 | the joined escaped docs, cut to 8000 characters |
| Summaries.GenerateGrimoriumSummary | src/magetools/spellsync.py:504-551 | the model's answer to the prompt, or the fallback text when the call raises |
| Summaries.EscapeKeepsPrefix | src/magetools/spellsync.py:510 | escaping cannot create a prefix without `E` that was not there |
| Summaries.NoMarkerInsideEscaped | src/magetools/spellsync.py:510 | no end marker starts inside an escaped marker |
| Summaries.MarkerAfterE | src/magetools/spellsync.py:510 | a helper on where the end marker can start |
| Summaries.EscapeEscapes | src/magetools/spellsync.py:510 | after escaping, every end marker is an escaped marker |
| Summaries.JoinKeepsEscaped | src/magetools/spellsync.py:512 | joining escaped text with the separator stays escaped |
| Summaries.JoinEscaped | src/magetools/spellsync.py:512 | the joined docs are escaped |
| Summaries.ToolDataEscaped | src/magetools/spellsync.py:509-512 | every end marker in the tool data is escaped, except one cut by the 8000-character truncation |
| MetadataSync.IsStale | src/magetools/spellsync.py:332 | `stored_hash and stored_hash != current_hash` |
| MetadataSync.Describe | src/magetools/spellsync.py:334-358 | the cached summary when there is one and the hash is not stale; otherwise a new summary when the folder has docstrings, written back when the file is writable; otherwise nothing |
| MetadataSync.ProcessFolder | src/magetools/spellsync.py:317-371 | one folder's result (id, description or the placeholder, metadata with id, top-level spell count and current hash), or the exception the master index read or the summary read raises |
| MetadataSync.Gather | src/magetools/spellsync.py:317-371 | the sequential loop: the results in order up to the first folder that raises, and whether one did |
| MetadataSync.GatherAsync | src/magetools/spellsync.py:440-447 | the async gather: the result of every folder that did not raise, and whether any raised |
| MetadataSync.Folders | src/magetools/spellsync.py:305-311 | only visible directories other than the database folder are processed |
| MetadataSync.TopLevelCount | src/magetools/spellsync.py:368 | the spell count is at most the number of files |
| MetadataSync.StoredHash | src/magetools/spellsync.py:326-329 | reading the stored hash raises exactly when the master index `get` raises or the folder's record has no metadata |
| MetadataSync.FolderRaisesIff | src/magetools/spellsync.py:317-335 | a folder raises exactly when the master index `get` raises, its record has no metadata, or its cached summary is read (present, hash not stale) and reading raises |
| MetadataSync.MasterGetFailureAborts | src/magetools/spellsync.py:317-374 | a master index whose `get` raises aborts the whole sync when there is a folder: the sequential loop gathers nothing and raises, and the async gather raises |
| MetadataSync.GatherAppend | src/magetools/spellsync.py:317-371 | one more folder appends its result, or marks the sync raised |
| MetadataSync.GatherAsyncAppend | src/magetools/spellsync.py:440-447 | one more outcome is gathered even after an earlier raise, and a raise marks the whole gather raised |
| MetadataSync.GatherAsyncRaisesIff | src/magetools/spellsync.py:440 | the gathered call raises exactly when some folder raised |
| MetadataSync.GatherAsyncCount | src/magetools/spellsync.py:440-447 | without a raise, the gather has one result per folder |
| MetadataSync.GatherPrefix | src/magetools/spellsync.py:317-371 | the loop that stopped at a raise, or ran to the end, gathered the whole list |
| MetadataSync.GatherStopsAtRaise | src/magetools/spellsync.py:317-371 | folders after a raising one change nothing |
| MetadataSync.StaleIff | src/magetools/spellsync.py:332 | stale iff the stored hash is truthy and differs from the current one |
| MetadataSync.NewFolderNotStale | src/magetools/spellsync.py:326-332 | a folder never indexed, or stored without a hash, is not stale |
| MetadataSync.CachedSummaryReused | src/magetools/spellsync.py:334-358 | a non-empty cached summary of a fresh folder is used and nothing is written; a write happens only otherwise |
| MetadataSync.ModelAskedOnlyWithDocs | src/magetools/spellsync.py:348-353 | without docstrings the model is not consulted |
| MetadataSync.FolderResultShape | src/magetools/spellsync.py:317-371 | each result has the folder's id, a non-empty description and the current hash |
| MetadataSync.StaleSummaryRegenerated | src/magetools/spellsync.py:332-361 | a stale folder with docstrings is re-summarized even when a cached summary exists |
| MetadataSync.GatherComplete | src/magetools/spellsync.py:317-371 | without a raise every folder yields one result, in order |
| MetadataSync.AsyncSameEntries | src/magetools/spellsync.py:377-451 | the async variant raises iff the sequential one does, and otherwise gathers the same entries |
| SpellSyncs.ReadHashes | src/magetools/spellsync.py:620-625 | the loop collects the stored `hash` of every record that has one |
| SpellSyncs.StageSpells | src/magetools/spellsync.py:629-647 | the staged ids, documents and metadatas are exactly the spells whose hash changed |
| SpellSyncs.GroupBuckets | src/magetools/spellsync.py:587-607 | the grouping loop yields every spell in its bucket |
| SpellSyncs.ProcessFolderStep | src/magetools/spellsync.py:317-371 | one folder's pass yields `ProcessFolder` |
| SpellSyncs.DescribeFolder | src/magetools/spellsync.py:334-358 | the cached or regenerated description, and the summary written |
| SpellSyncs.RecordWrite | src/magetools/spellsync.py:355-358 | summary writes are logged in folder order |
| SpellSyncs.GatherFolders | src/magetools/spellsync.py:317-371 | the sequential loop gathers the folders until one raises |
| SpellSyncs.GatherLoop | src/magetools/spellsync.py:317-371 | the loop processes each folder in order and stops at the first raise |
| SpellSyncs.GatherNext | src/magetools/spellsync.py:317-371 | one pass of the loop extends the gathered results |
| SpellSyncs.GatherAllFolders | src/magetools/spellsync.py:440-447 | the async variant processes every folder, then gathers |
| SpellSyncs.GatherAllLoop | src/magetools/spellsync.py:440-447 | every folder is processed |
| SpellSyncs.GatherAllNext | src/magetools/spellsync.py:440-447 | one more folder is gathered |
| SpellSyncs.AppendHits | src/magetools/spellsync.py:148-154 | a collection's hits are appended as `(id, distance)` pairs in order |
| SpellSyncs.MergeMatches | src/magetools/spellsync.py:160-166 | the dedup loop keeps each id's least distance, in first-seen order |
| SpellSyncs.MetadataSyncAsync | src/magetools/spellsync.py:377-451 | the async metadata sync raises when creating the master index raises or the root cannot be listed; it adds the master index if missing and changes no other collection |
| SpellSyncs.MetadataSyncAsyncRaisesIff | src/magetools/spellsync.py:377-451 | once the master index exists and the root is listed, the sync raises exactly when some folder raises, or there are folders and the final upsert raises |
| SpellSyncs.EmptyRootMetadataSyncSucceeds | src/magetools/spellsync.py:377-451 | with a creatable master index, a listed root without collections never raises, so `initialize` on it ends initialized |
| SpellSyncs.SpellSync.constructor | src/magetools/spellsync.py:32-101 | an empty registry over the given store and allow-list |
| SpellSyncs.SpellSync.SyncBucket | src/magetools/spellsync.py:613-659 | one bucket: created, hashes read, changed spells upserted once; failures skip the rest of the bucket |
| SpellSyncs.SpellSync.SyncSpells | src/magetools/spellsync.py:578-661 | the store ends as `Synced` says, and the upserts are one per changed bucket, carrying exactly its staged records |
| SpellSyncs.SpellSync.SyncGrimoriumsMetadata | src/magetools/spellsync.py:292-375 | the master index is created, folders processed until one raises, then one upsert of all results if none raised |
| SpellSyncs.SpellSync.SyncGrimoriumsMetadataAsync | src/magetools/spellsync.py:377-451 | the same, with every folder processed before gathering; its raise and the collections afterwards are `MetadataSyncAsync` of the collections before |
| SpellSyncs.SpellSync.FinishMetadataSync | src/magetools/spellsync.py:373-374 | one upsert, only when no folder raised and there are results |
| SpellSyncs.SpellSync.CollectMatches | src/magetools/spellsync.py:127-157 | the hits of every allowed, queryable collection, in listing order |
| SpellSyncs.SpellSync.FindMatchingSpells | src/magetools/spellsync.py:110-190 | at most five ids: deduplicated, nearest first, at or under the threshold |
| SpellSyncs.SpellSync.FindRelevantGrimoriums | src/magetools/spellsync.py:192-229 | the grimoriums at or under the threshold, nearest first; an empty query touches nothing |
| SpellSyncs.SpellSync.FindSpellsWithinGrimorium | src/magetools/spellsync.py:231-260 | the ids at or under the threshold in store order, nothing for a denied grimorium |
| SpellSyncs.SpellSync.ValidateSpellAccess | src/magetools/spellsync.py:262-290 | true iff there is no allow-list or some listed collection is readable and holds the spell |
| SpellSyncs.SpellSync.SyncNext | src/magetools/spellsync.py:610-659 | one more bucket processed keeps the sync invariant |
| SpellSyncs.SpellSync.SyncBuckets | src/magetools/spellsync.py:610-659 | all buckets processed |
| Search.Collected | src/magetools/spellsync.py:127-157 | `all_matches`: the pairs of each allowed collection's answer, in listing order |
| Search.MinMap | src/magetools/spellsync.py:160-166 | the dedup map: an id takes a distance when it is new or strictly smaller than the kept one |
| Search.FirstSeen | src/magetools/spellsync.py:160-169 | the map's key order: each id at its first occurrence |
| Search.Best | src/magetools/spellsync.py:169-190 | the first five ids of the pairs ranked by distance and cut at the threshold |
| Search.MatchingSpells | src/magetools/spellsync.py:110-190 | `find_matching_spells`: nothing for an invalid query or a failing listing, else `Best` of the collected pairs |
| Search.RelevantScan | src/magetools/spellsync.py:209-223 | the scan over the master index hits: the matches at or under the threshold in order, or the `IndexError` a short list raises |
| Search.RelevantGrimoriums | src/magetools/spellsync.py:192-229 | `find_relevant_grimoriums`: nothing for an empty query, a failing index or an indexing error, else the scan sorted by distance |
| Search.SpellsWithin | src/magetools/spellsync.py:231-260 | `find_spells_within_grimorium`: nothing when denied or when the query fails, else the kept ids in store order |
| Search.Accessible | src/magetools/spellsync.py:262-290 | `validate_spell_access`: no allow-list, or some listed collection that exists, answers `get` and holds the spell |
| Search.HitPairs | src/magetools/spellsync.py:148-154 | the pairs appended before indexing the distances raises: exactly `min(|ids|, |distances|)` of them, each id with its distance |
| Search.MinMapIsMin | src/magetools/spellsync.py:160-166 | the dedup map holds every id, each with its least distance |
| Search.FirstSeenOrder | src/magetools/spellsync.py:160-166 | the dict's key order: each id once, ordered by first occurrence |
| Search.FirstSeenMerged | src/magetools/spellsync.py:160-169 | every key in that order is in the map |
| Search.Within | src/magetools/spellsync.py:175-177 | the threshold filter never lengthens the list |
| Search.WithinMembers | src/magetools/spellsync.py:175-177 | a match survives iff it is at or under the threshold |
| Search.WithinPairwise | src/magetools/spellsync.py:175-177 | filtering keeps pairwise relations |
| Search.MergedFacts | src/magetools/spellsync.py:160-166 | the merged items are the map's entries, distinct, in first-seen order |
| Search.RankedContents | src/magetools/spellsync.py:169 | sorting keeps exactly the merged entries, one per id |
| Search.RankedOrder | src/magetools/spellsync.py:169 | sorted by distance, ties in first-seen order (a stable sort) |
| Search.KeptFacts | src/magetools/spellsync.py:169-177 | the filtered list is every id at or under the threshold, once, by distance then first appearance |
| Search.MergedIds | src/magetools/spellsync.py:160-166 | the map's keys are the ids seen |
| Search.BestPrefix | src/magetools/spellsync.py:190 | the result is the first five filtered ids |
| Search.BestIsRanked | src/magetools/spellsync.py:110-190 | at most five distinct ids, within the threshold, nearest first, ties by first appearance |
| Search.BestIsComplete | src/magetools/spellsync.py:110-190 | an id within the threshold is left out only when five ids at least as near are returned |
| Search.FirstIndexDistinct | src/magetools/spellsync.py:160-166 | distinct ids first appear at distinct positions |
| Search.FirstIndexBound | src/magetools/spellsync.py:160-166 | an id seen first appears within the list |
| Search.CollectedSkipsUnlisted | src/magetools/spellsync.py:131-133 | every collected hit comes from an allowed collection's answer |
| Search.InvalidQueryGivesNothing | src/magetools/spellsync.py:112-125 | a missing, empty or blank query, or a failing listing, returns nothing |
| Search.EmptyAllowListSearchesNothing | src/magetools/spellsync.py:131-133 | an empty allow-list searches no collection |
| Search.DuplicateMergedExample | src/magetools/spellsync.py:160-190 | an id found at 0.1 and 0.05 is kept once at 0.05 |
| Search.RelevantScanWithin | src/magetools/spellsync.py:209-223 | the scan keeps every hit at or under the threshold and none above it, and each kept match is built from a scanned hit |
| Search.RelevantScanStaysRaised | src/magetools/spellsync.py:209-229 | an indexing error ends the scan |
| Search.RelevantGrimoriumsRanked | src/magetools/spellsync.py:192-229 | each result is built from one of the master index hits, every hit at or under the threshold is returned, none above it, in ascending distance |
| Search.WithinScanStaysRaised | src/magetools/spellsync.py:249-260 | an indexing error ends the scan |
| Search.KeptIndices | src/magetools/spellsync.py:251-254 | the kept hit indices are increasing, within the threshold, and none is skipped |
| Search.WithinScanKept | src/magetools/spellsync.py:249-256 | the scan returns the ids at those indices |
| Search.SpellsWithinFacts | src/magetools/spellsync.py:231-260 | a denied grimorium is not queried; otherwise the kept ids in store order |
| Search.AccessFailsClosed | src/magetools/spellsync.py:262-290 | an empty allow-list, or one whose collections are all missing or unreadable, denies |
| Sorting.Insert | src/magetools/spellsync.py:169 | insertion adds one element and keeps the rest |
| Sorting.Sort | src/magetools/spellsync.py:169 | `sorted` is a permutation |
| Sorting.ByKeyIsStrictWeakOrder | src/magetools/spellsync.py:169 | comparing by a real key is a strict weak order |
| Sorting.InsertSorted | src/magetools/spellsync.py:169 | insertion keeps a list sorted |
| Sorting.SortSorted | src/magetools/spellsync.py:169 | `sorted` sorts |
| Sorting.InsertStable | src/magetools/spellsync.py:169 | insertion keeps ties in order |
| Sorting.SortStable | src/magetools/spellsync.py:169 | `sorted` is stable |
| Sorting.HeadIsLeast | src/magetools/spellsync.py:557 | the head of a sorted list is least |
| Sorting.SortedHeadsEqual | src/magetools/spellsync.py:557 | two sorted permutations of a totally ordered list share their head |
| Sorting.SortedUnique | src/magetools/spellsync.py:557 | two sorted permutations of a totally ordered list are equal |
| Sorting.SortOrderIndependent | src/magetools/spellsync.py:557 | `sorted` of a totally ordered list does not depend on its input order |
| Sorting.LexAsymmetric | src/magetools/spellsync.py:557 | lexicographic order is asymmetric |
| Sorting.LexTransitive | src/magetools/spellsync.py:557 | lexicographic order is transitive |
| Sorting.LexTotal | src/magetools/spellsync.py:557 | lexicographic order over a total order is total |
| Sorting.LexIsStrictTotalOrder | src/magetools/spellsync.py:557 | lexicographic order over a strict total order is one too |
| Sorting.ThroughKey | src/magetools/spellsync.py:557 | comparing by a key that is injective on a list is usable for sorting it |
| Grimoriums.SpellEntries | src/magetools/grimorium.py:232-240 | the `detailed_spells` dictionary built over the found ids in order |
| Grimoriums.WithContext | src/magetools/grimorium.py:282-291 | the call arguments after the injection loop over the parameters in order |
| Grimoriums.Failure | src/magetools/grimorium.py:302-316 | a `TypeError` becomes "Failed to call spell. Please check arguments. details: …"; any other exception "Execution failed: …" with its type name |
| Grimoriums.Execute | src/magetools/grimorium.py:263-316 | `execute_spell` once initialized: permission denied, then spell not found, then the call's result or its failure |
| Grimoriums.Simplify | src/magetools/grimorium.py:200-208 | the loop builds one brief per match, in order |
| Grimoriums.BriefsTruncate | src/magetools/grimorium.py:202-208 | each brief keeps the match's id and order, and shows the first 200 or fewer characters of the description followed by `...` |
| Grimoriums.GrimoriumsResponseRanked | src/magetools/grimorium.py:188-214 | "not found" iff nothing is relevant; otherwise briefs of the relevant grimoriums, all within the threshold, nearest first |
| Grimoriums.Description | src/magetools/grimorium.py:237 | the docstring, or `No description.` when it is missing or empty |
| Grimoriums.SpellEntriesAre | src/magetools/grimorium.py:232-240 | the detailed spells are exactly the found ids that are registered with a readable signature, each with its signature and description |
| Grimoriums.DetailSpells | src/magetools/grimorium.py:232-240 | the detail loop builds `SpellEntries`, skipping ids whose lookup or signature raises |
| Grimoriums.SpellsResponseFacts | src/magetools/grimorium.py:224-246 | no found spell gives "not found" naming grimorium and query; otherwise the grimorium's found spells only |
| Grimoriums.AnnotatedNamesAre | src/magetools/grimorium.py:285-291 | the annotated names are those of parameters annotated with `ToolContext` |
| Grimoriums.WithContextIsOverride | src/magetools/grimorium.py:282-291 | the injection loop sets the context under every annotated parameter, and under `tool_context` when the spell has that parameter and the agent did not pass it; every other argument is passed unchanged |
| Grimoriums.InjectedStep | src/magetools/grimorium.py:285-291 | one pass of the loop injects at most its own parameter |
| Grimoriums.OverriddenStep | src/magetools/grimorium.py:285-291 | one pass keeps the order-free account |
| Grimoriums.InjectContext | src/magetools/grimorium.py:282-291 | the loop over a copy of the arguments computes `WithContext` |
| Grimoriums.ExecuteGuards | src/magetools/grimorium.py:263-300 | the allow-list is checked before the registry; success only for an allowed, registered spell whose call with the injected arguments returned |
| Grimoriums.EmptyAllowListDeniesAll | src/magetools/grimorium.py:263-269 | an empty allow-list denies every spell |
| Grimoriums.Grimorium.constructor | src/magetools/grimorium.py:38-122 | a fresh `SpellSync`; with auto-initialize, discovery and sync run, and a failure is swallowed and leaves it uninitialized |
| Grimoriums.Grimorium.SyncInitialize | src/magetools/grimorium.py:124-139 | does nothing once initialized; otherwise discovery then spell sync, and initialized iff discovery did not raise |
| Grimoriums.Grimorium.Initialize | src/magetools/grimorium.py:146-173 | does nothing once initialized; a raising discovery leaves everything unchanged; otherwise discovery, spell sync, then the async metadata sync over the store the spell sync left, with the raise and the store as `MetadataSyncAsync` gives them, and initialized exactly when that does not raise |
| Grimoriums.Grimorium.DiscoverGrimoriums | src/magetools/grimorium.py:175-214 | `RuntimeError` before initialization; otherwise the response for the relevant grimoriums |
| Grimoriums.Grimorium.DiscoverSpells | src/magetools/grimorium.py:216-246 | `RuntimeError` before initialization; otherwise the response for the spells found within the grimorium |
| Grimoriums.Grimorium.ExecuteSpell | src/magetools/grimorium.py:248-316 | `RuntimeError` before initialization; otherwise permission denied, not found, a `TypeError` or other failure message, or the spell's result |

## Left out

- The file system, `ast.parse`, the importer and `inspect.getmembers` are
  inputs. A `PyFile` carries what reading, parsing and importing a file
  return. `getattr(obj, "_grimorium_spell")` is a boolean per member.
- `sys.modules` registration, the module attribute naming the collection,
  and everything else import does as a side effect are left out.
- The vector store's embeddings and similarity search are inputs. A
  `Searcher` or an `Option<Hits>` gives each query's answer, and distances
  are `real`s. `n_results` (the top five per query) is left to the store.
- `list_collections` is an input listing, in the store's order.
- Logging, including the debug near-miss report of `find_matching_spells`,
  is left out.
- md5 is a parameter. Only the bytes fed to the hasher are modelled.
- `SpellSync.close`, the pickling hooks, `get_grimorium_collection`'s
  embedding function and the adapter and configuration wiring are left out.
  This covers `get_config`, the database path, the choice of default
  provider, and the `Grimorium` root auto-detection from the caller's
  stack frame. `constants.py`, `config.py` and `interfaces.py` are not
  part of this model.
- `Grimorium.get_tools`, `from_config`, `get_auth_config`, `usage_guide`,
  `close` and the `registry` property are plumbing for the agent framework.
  They are left out.
- Concurrency: the semaphore, `asyncio.gather` and `to_thread`. The async
  metadata sync is modelled as processing every folder before gathering.
  `execute_spell` awaiting a coroutine or a thread is the `Caller`
  parameter.
- Grimoriums.Grimorium.Initialize: the summary files written during its
  metadata sync are not stated. The contract of
  `SyncGrimoriumsMetadataAsync` states them.
- Grimoriums.Grimorium.ExecuteSpell: spell arguments and results are JSON
  values, and `inspect.signature` raising is a parameter. A `TypeError` is
  recognised by its type name only, so subclasses of `TypeError` are not
  modelled.
- Grimoriums.DetailSpells: `str(inspect.signature(...))` is kept as the
  parameter list, not its text. `inspect.getdoc`'s indentation cleaning
  and inherited docstrings are not modelled.
- Python dictionaries are maps, so key order is not modelled. This affects
  the registry, the spells dictionary of `discover_spells` and the call
  arguments. It leaves unmodelled the order in which buckets are synced,
  and the order of the ids within one bucket's upsert.
- Sanitize.Redact: `re.IGNORECASE` is modelled for ASCII letters only.
  Unicode case folding is left out.
- `validate_spell_access`: the outer `try` around iterating the allow-list
  is left out, because a list of names cannot fail to iterate.
- A master index `get` that raises, or a cached summary whose `read_text`
  raises, makes the folder raise. The exception is kept only as a type
  name.
- The store answers every `get` on one collection alike, so the metadata
  syncs ask the master index once for all folders.
- Non-string queries to `find_matching_spells` are left out. The query is
  an `Option<string>`, and `None` stands for any non-string.
- Grimoriums.Grimorium.constructor: the log messages of a failed
  auto-initialization are left out.
- Discovery.DiscoverAndLoadSpells: with `registry=None`, discovery imports
  the files but registers nothing (`spellsync.py:773`). The model always
  takes a registry, as both callers in `grimorium.py` pass one.
