/** `_compute_grimorium_hash`: the md5 digest of a collection's Python files,
    taken in sorted path order, that decides whether a cached summary is
    stale. md5 itself is a parameter: only its determinism matters. */
module ContentHash {
  import opened Common
  import opened Sorting
  import opened Workspace

  /** Python's order on characters: by code point. */
  function CharOrder(): (char, char) -> bool {
    (x: char, y: char) => x < y
  }

  /** Python's order on `str`: code point by code point, a prefix first. */
  function StrOrder(): (string, string) -> bool {
    LexOrder(CharOrder())
  }

  /** The order of `sorted` on paths: part by part, each part as a `str`. */
  function PathOrder(): (seq<string>, seq<string>) -> bool {
    LexOrder(StrOrder())
  }

  /** Files ordered by their path below the collection directory. */
  function FileOrder(): (PyFile, PyFile) -> bool {
    Through((f: PyFile) => f.Path(), PathOrder())
  }

  lemma PathOrderIsStrictTotal()
    ensures StrictTotalOrder(StrOrder()) && StrictTotalOrder(PathOrder())
  {
    LexIsStrictTotalOrder(CharOrder());
    LexIsStrictTotalOrder(StrOrder());
  }

  /** No two entries of a listing share a path (as in any directory walk). */
  predicate UniquePaths(files: seq<PyFile>) {
    forall i, j :: 0 <= i < |files| && 0 <= j < |files| && files[i].Path() == files[j].Path() ==> files[i] == files[j]
  }

  lemma FileOrderUsable(files: seq<PyFile>)
    requires UniquePaths(files)
    ensures StrictWeakOrder(FileOrder()) && TotalOn(files, FileOrder())
  {
    PathOrderIsStrictTotal();
    ThroughKey((f: PyFile) => f.Path(), PathOrder(), files);
  }

  /** `sorted(folder.rglob("*.py"))`. */
  function SortedFiles(files: seq<PyFile>): seq<PyFile> {
    Sort(files, FileOrder())
  }

  /** What the hasher is fed for one file: nothing for a hidden or private
      file name; otherwise the UTF-8 file name, then the file's bytes when
      they can be read (when reading fails the name has been fed already). */
  function FileFeed(f: PyFile): seq<Byte> {
    if IsHiddenName(f.name) then []
    else Utf8(f.name) + (if f.bytes.Some? then f.bytes.value else [])
  }

  /** What the hasher is fed for a list of files, in list order. */
  function Feed(files: seq<PyFile>): seq<Byte> {
    if files == [] then [] else FileFeed(files[0]) + Feed(files[1..])
  }

  /** The digest of a collection whose `rglob` yields `files`. */
  function GrimoriumHash(files: seq<PyFile>, md5: seq<Byte> -> Digest): Digest {
    md5(Feed(SortedFiles(files)))
  }

  lemma {:induction false} FeedAppend(a: seq<PyFile>, b: seq<PyFile>)
    ensures Feed(a + b) == Feed(a) + Feed(b)
    decreases |a|
  {
    if a == [] {
      assert a + b == b;
    } else {
      assert (a + b)[1..] == a[1..] + b;
      FeedAppend(a[1..], b);
    }
  }

  lemma FeedPrefix(s: seq<PyFile>, i: nat)
    requires i < |s|
    ensures Feed(s[..i + 1]) == Feed(s[..i]) + FileFeed(s[i])
  {
    assert s[..i + 1] == s[..i] + [s[i]];
    FeedAppend(s[..i], [s[i]]);
    assert Feed([s[i]]) == FileFeed(s[i]) + Feed([]);
  }

  /** `_compute_grimorium_hash(folder)`: one md5 hasher updated file by file
      in sorted path order. The hasher's state is the byte string fed to it
      so far. */
  method ComputeGrimoriumHash(files: seq<PyFile>, md5: seq<Byte> -> Digest) returns (digest: Digest)
    ensures digest == GrimoriumHash(files, md5)
  {
    var pyFiles := SortedFiles(files);
    var fed: seq<Byte> := [];
    for i := 0 to |pyFiles|
      invariant fed == Feed(pyFiles[..i])
    {
      var f := pyFiles[i];
      FeedPrefix(pyFiles, i);
      if !IsHiddenName(f.name) {
        var name := Utf8(f.name);
        ghost var before := fed;
        fed := fed + name;
        if f.bytes.Some? {
          AppendAssoc(before, name, f.bytes.value);
          fed := fed + f.bytes.value;
          assert FileFeed(f) == name + f.bytes.value;
        } else {
          assert FileFeed(f) == name + [] == name;
        }
      } else {
        assert FileFeed(f) == [] && fed + [] == fed;
      }
    }
    assert pyFiles[..|pyFiles|] == pyFiles;
    digest := md5(fed);
  }

  /** The digest does not depend on the order in which the directory walk
      yields the files. */
  lemma HashIgnoresListingOrder(files: seq<PyFile>, other: seq<PyFile>, md5: seq<Byte> -> Digest)
    requires UniquePaths(files) && multiset(files) == multiset(other)
    ensures GrimoriumHash(files, md5) == GrimoriumHash(other, md5)
  {
    FileOrderUsable(files);
    SortOrderIndependent(files, other, FileOrder());
  }

  lemma {:induction false} FeedSkipsHidden(h: PyFile, s: seq<PyFile>)
    requires IsHiddenName(h.name)
    ensures Feed(Insert(h, s, FileOrder())) == Feed(s)
    decreases |s|
  {
    if s != [] && FileOrder()(s[0], h) {
      FeedSkipsHidden(h, s[1..]);
    }
  }

  /** A file whose name starts with "." or "_" does not affect the digest,
      wherever it sits in the tree. */
  lemma HashIgnoresHiddenFiles(files: seq<PyFile>, h: PyFile, md5: seq<Byte> -> Digest)
    requires IsHiddenName(h.name) && UniquePaths(files + [h])
    ensures GrimoriumHash(files + [h], md5) == GrimoriumHash(files, md5)
  {
    var all := files + [h];
    assert multiset(all) == multiset([h] + files);
    HashIgnoresListingOrder(all, [h] + files, md5);
    assert ([h] + files)[1..] == files;
    FeedSkipsHidden(h, SortedFiles(files));
  }

  lemma SortTwo(a: PyFile, b: PyFile)
    requires FileOrder()(a, b)
    ensures SortedFiles([a, b]) == [a, b]
  {
    assert [a, b][1..] == [b];
    assert Sort([b][1..], FileOrder()) == [];
    assert Sort([b], FileOrder()) == [b];
    assert !FileOrder()(b, a) by {
      PathOrderIsStrictTotal();
    }
  }

  lemma FeedTwo(a: PyFile, b: PyFile)
    ensures Feed([a, b]) == FileFeed(a) + FileFeed(b)
  {
    assert [a, b][1..] == [b];
    assert Feed([b]) == FileFeed(b) + Feed([]);
  }

  /** The digest depends only on what is fed, which keeps no file
      boundaries: moving the tail of `a.py` into a new file `b.py`, when
      that tail starts with the bytes "b.py", leaves the digest unchanged. */
  lemma HashKeepsNoFileBoundaries(md5: seq<Byte> -> Digest, tail: seq<Byte>)
    ensures GrimoriumHash([PyFile([], "a.py", Some(Utf8("b.py") + tail), None, None)], md5)
         == GrimoriumHash([PyFile([], "a.py", Some([]), None, None), PyFile([], "b.py", Some(tail), None, None)], md5)
  {
    MergedFeed(tail);
    SplitFeed(tail);
    AppendAssoc(Utf8("a.py"), Utf8("b.py"), tail);
  }

  /** What is fed for the one file `a.py` holding "b.py" and `tail`. */
  lemma MergedFeed(tail: seq<Byte>)
    ensures Feed(SortedFiles([PyFile([], "a.py", Some(Utf8("b.py") + tail), None, None)]))
         == Utf8("a.py") + (Utf8("b.py") + tail)
  {
    var merged := PyFile([], "a.py", Some(Utf8("b.py") + tail), None, None);
    assert SortedFiles([merged]) == [merged];
    assert Feed([merged]) == FileFeed(merged) + Feed([]);
  }

  /** What is fed for the empty `a.py` and the file `b.py` holding `tail`. */
  lemma SplitFeed(tail: seq<Byte>)
    ensures Feed(SortedFiles([PyFile([], "a.py", Some([]), None, None), PyFile([], "b.py", Some(tail), None, None)]))
         == Utf8("a.py") + Utf8("b.py") + tail
  {
    var a := PyFile([], "a.py", Some([]), None, None);
    var b := PyFile([], "b.py", Some(tail), None, None);
    assert LexLess("a.py", "b.py", CharOrder());
    assert PathOrder()(["a.py"], ["b.py"]);
    assert a.Path() == ["a.py"] && b.Path() == ["b.py"];
    SortTwo(a, b);
    FeedTwo(a, b);
    assert FileFeed(a) == Utf8("a.py") + [];
  }
}
