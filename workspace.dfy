/** The `.magetools` directory tree and the spell objects found in it, as
    the core sees them once file reading, parsing and importing are taken
    as given. Each record holds what the corresponding Python call returns
    (or `None` where it raises). */
module Workspace {
  import opened Common
  import opened Manifests

  /** One parameter of a spell's signature: its name and whether it is
      annotated with `ToolContext`. */
  datatype Param = Param(name: string, annotatedToolContext: bool)

  /** A function object carrying the spell marker.
      - `name`: its `__name__` (None when the attribute is missing);
      - `moduleName`: its `__module__` ("" when None);
      - `collectionAttr`: the explicit collection override attribute, if set;
      - `doc`: its `__doc__`;
      - `signature`: `inspect.signature` (None when that raises). */
  datatype SpellFn = SpellFn(
    name: Option<string>,
    moduleName: string,
    collectionAttr: Option<string>,
    doc: Option<string>,
    signature: Option<seq<Param>>)

  /** One `(name, obj)` pair of `inspect.getmembers(module)`, in that order;
      `isSpell` is `getattr(obj, "_grimorium_spell", False) is True`. */
  datatype Member = Member(isSpell: bool, obj: SpellFn)

  /** The documentation `ast` finds in a module: the module docstring and,
      in `ast.walk` order, each function or class definition with its
      docstring. */
  datatype ModuleAst = ModuleAst(moduleDoc: Option<string>, defs: seq<(string, Option<string>)>)

  /** A `*.py` file yielded by `rglob` inside a collection directory.
      - `dirs`, `name`: path relative to the collection directory;
      - `bytes`: `read_bytes()` (None when it raises);
      - `ast`: reading the text and `ast.parse` (None on any error);
      - `members`: importing the module and listing its members (None when
        the import raises). */
  datatype PyFile = PyFile(
    dirs: seq<string>,
    name: string,
    bytes: Option<seq<Byte>>,
    ast: Option<ModuleAst>,
    members: Option<seq<Member>>)
  {
    /** The path relative to the collection directory, as path components. */
    function Path(): seq<string> { dirs + [name] }
  }

  /** The cached `grimorium_summary.md` of a collection: absent, present
      with the text `read_text` returns, or present but raising when read
      (an I/O or decoding error). */
  datatype SummaryFile = NoSummary | Cached(text: string) | UnreadableSummary

  /** An entry of the `.magetools` directory: a collection when it is a
      directory. `files` lists what `rglob("*.py")` yields, in file-system
      order; `summary` is the cached summary file, and `summaryWritable`
      says whether writing it succeeds. */
  datatype Entry = Entry(
    name: string,
    isDir: bool,
    manifest: ManifestFile,
    summary: SummaryFile,
    summaryWritable: bool,
    files: seq<PyFile>)

  /** The `.magetools` root: missing, present but not listable, or listed. */
  datatype Root = Missing | Unreadable | Listing(entries: seq<Entry>)

  /** A registry maps qualified spell ids to spell objects. */
  type Registry = map<string, SpellFn>
}
