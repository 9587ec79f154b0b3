/** The directory-tree builder of api/tools/codemap.py (`FileNode`,
    `build_directory_tree`, `generate_codemap_data`).

    The filesystem is an input value: a directory snapshot as `os.scandir`
    would show it, with the ways enumeration and `stat` can fail made
    explicit. `DirNode` is the tree the builder produces, `BuildNode` is the
    builder's loop, which appends children one at a time, proved to produce it. */
module Codemap {
  import opened Text

  /** How enumerating one directory goes. */
  datatype Listing =
    | Listed           // `os.scandir` succeeds and every entry is handled
    | Unreadable       // `os.scandir` raises (permission denied, not a directory, gone)
    | StopsAt(k: nat)  // an exception is raised while the k-th sorted entry is handled

  /** A filesystem entry. `stat == None` means `entry.stat()` raises. */
  datatype Entry =
    | DirEntry(name: string, entries: seq<Entry>, listing: Listing)
    | FileEntry(name: string, stat: Option<nat>)

  /** The `type` field of a node: "directory" or "file". */
  datatype Kind = Directory | File

  /** The `FileNode` dataclass. */
  datatype FileNode = FileNode(name: string, path: string, kind: Kind, size: nat, children: seq<FileNode>)

  /** Build and cache directories that are never descended into. */
  const Excluded: seq<string> := ["__pycache__", "node_modules", "dist", "build", "venv", "env"]

  predicate Hidden(name: string)
  {
    |name| > 0 && name[0] == '.'
  }

  /** An entry the builder keeps. */
  predicate Admissible(name: string)
  {
    !Hidden(name) && name !in Excluded
  }

  // ---------------------------------------------------------------------------
  // Sorting: `sorted(entries, key=lambda e: (not e.is_dir(), e.name.lower()))`

  /** The sort key order: `False < True` on the first component, so directories
      come first; then lower-cased names. */
  predicate KeyLe(x: Entry, y: Entry)
  {
    || (x.DirEntry? && !y.DirEntry?)
    || (x.DirEntry? == y.DirEntry? && LexLe(Lower(x.name), Lower(y.name)))
  }

  lemma KeyLeTotal(x: Entry, y: Entry)
    ensures KeyLe(x, y) || KeyLe(y, x)
  {
    LexLeTotal(Lower(x.name), Lower(y.name));
  }

  lemma KeyLeTrans(x: Entry, y: Entry, z: Entry)
    requires KeyLe(x, y) && KeyLe(y, z)
    ensures KeyLe(x, z)
  {
    if x.DirEntry? == y.DirEntry? == z.DirEntry? {
      LexLeTrans(Lower(x.name), Lower(y.name), Lower(z.name));
    }
  }

  predicate SortedByKey(s: seq<Entry>)
  {
    forall i, j :: 0 <= i < j < |s| ==> KeyLe(s[i], s[j])
  }

  /** Inserts `x` into a sorted sequence after every element whose key is not
      above its own, so equal keys keep their original order (Python's sort is
      stable). */
  function Insert(t: seq<Entry>, x: Entry): seq<Entry>
  {
    if t == [] then [x]
    else if KeyLe(t[|t| - 1], x) then t + [x]
    else Insert(t[..|t| - 1], x) + [t[|t| - 1]]
  }

  /** Appending an element no smaller than any other keeps a sequence sorted. */
  lemma SnocSorted(s: seq<Entry>, y: Entry)
    requires SortedByKey(s)
    requires forall i :: 0 <= i < |s| ==> KeyLe(s[i], y)
    ensures SortedByKey(s + [y])
  {
    var r := s + [y];
    forall i, j | 0 <= i < j < |r|
      ensures KeyLe(r[i], r[j])
    {
      if j < |s| {
        assert r[i] == s[i] && r[j] == s[j];
      } else {
        assert r[i] == s[i] && r[j] == y;
      }
    }
  }

  lemma {:induction false} InsertSorted(t: seq<Entry>, x: Entry)
    requires SortedByKey(t)
    ensures SortedByKey(Insert(t, x))
    ensures multiset(Insert(t, x)) == multiset(t) + multiset{x}
  {
    if t != [] {
      var last := t[|t| - 1];
      var init := t[..|t| - 1];
      assert t == init + [last];
      if KeyLe(last, x) {
        forall i | 0 <= i < |t|
          ensures KeyLe(t[i], x)
        {
          if i < |t| - 1 { KeyLeTrans(t[i], last, x); }
        }
        SnocSorted(t, x);
      } else {
        KeyLeTotal(last, x);
        assert SortedByKey(init);
        InsertSorted(init, x);
        var r := Insert(init, x);
        forall i | 0 <= i < |r|
          ensures KeyLe(r[i], last)
        {
          assert r[i] in multiset(r);
          if r[i] != x {
            assert r[i] in multiset(init);
            var k :| 0 <= k < |init| && init[k] == r[i];
            assert t[k] == r[i];
          }
        }
        SnocSorted(r, last);
        assert Insert(t, x) == r + [last];
      }
    }
  }

  /** `sorted(...)` on the listing, by insertion. */
  function SortEntries(s: seq<Entry>): (r: seq<Entry>)
    ensures SortedByKey(r)
    ensures multiset(r) == multiset(s)
    ensures |r| == |s| && forall x :: x in r ==> x in s
  {
    if s == [] then []
    else
      var init := SortEntries(s[..|s| - 1]);
      SortStep(s, init);
      Insert(init, s[|s| - 1])
  }

  /** Inserting the last entry into the sorted rest sorts the whole. */
  lemma SortStep(s: seq<Entry>, init: seq<Entry>)
    requires s != [] && SortedByKey(init) && multiset(init) == multiset(s[..|s| - 1])
    ensures SortedByKey(Insert(init, s[|s| - 1]))
    ensures multiset(Insert(init, s[|s| - 1])) == multiset(s)
    ensures |Insert(init, s[|s| - 1])| == |s|
    ensures forall x :: x in Insert(init, s[|s| - 1]) ==> x in s
  {
    assert s == s[..|s| - 1] + [s[|s| - 1]];
    InsertSorted(init, s[|s| - 1]);
    var r := Insert(init, s[|s| - 1]);
    assert |multiset(r)| == |multiset(s)|;
    forall x | x in r
      ensures x in s
    {
      assert x in multiset(r);
      assert x in multiset(s);
    }
  }

  // ---------------------------------------------------------------------------
  // Relative paths: `os.path.relpath(p, root_path)` for `p` inside the scan root

  /** The path of the entry reached from the scan root through the segments `rel`. */
  function RelPath(rel: seq<string>): string
  {
    if rel == [] then "." else Join('/', rel)
  }

  /** `os.path.join` of a relative path and one more name, where "." is the scan root. */
  function ChildRelPath(parent: string, name: string): string
  {
    if parent == "." then name else parent + "/" + name
  }

  lemma {:induction false} JoinSnoc(sep: char, parts: seq<string>, x: string)
    requires parts != []
    ensures Join(sep, parts + [x]) == Join(sep, parts) + [sep] + x
  {
    if |parts| > 1 {
      assert (parts + [x])[1..] == parts[1..] + [x];
      JoinSnoc(sep, parts[1..], x);
    }
  }

  lemma JoinHasSeparator(sep: char, parts: seq<string>)
    requires |parts| >= 2
    ensures sep in Join(sep, parts)
  {
    assert Join(sep, parts) == parts[0] + [sep] + Join(sep, parts[1..]);
    assert Join(sep, parts)[|parts[0]|] == sep;
  }

  /** A child's relative path is its parent's joined with its name. */
  lemma RelPathChild(rel: seq<string>, name: string)
    requires rel != ["."]
    ensures RelPath(rel + [name]) == ChildRelPath(RelPath(rel), name)
  {
    if rel == [] {
      assert [] + [name] == [name];
    } else {
      JoinSnoc('/', rel, name);
      if |rel| >= 2 {
        JoinHasSeparator('/', rel);
        assert RelPath(rel) != ".";
      } else {
        assert RelPath(rel) == rel[0];
      }
    }
  }

  // ---------------------------------------------------------------------------
  // The tree the builder produces

  function StatSize(stat: Option<nat>): nat
  {
    match stat
    case Some(n) => n
    case None => 0
  }

  /** How many sorted entries are handled before enumeration stops. */
  function ScanLimit(listing: Listing, n: nat): (m: nat)
    ensures m <= n
  {
    match listing
    case Listed => n
    case Unreadable => 0
    case StopsAt(k) => if k < n then k else n
  }

  /** The entries of a directory that the builder's loop gets to handle, in order. */
  function Handled(e: Entry): (s: seq<Entry>)
    requires e.DirEntry?
    ensures SortedByKey(s)
    ensures forall x :: x in s ==> x in e.entries
  {
    var all := SortEntries(e.entries);
    var s := all[..ScanLimit(e.listing, |all|)];
    assert forall x :: x in s ==> x in all && x in multiset(e.entries);
    s
  }

  /** The node for one admissible entry of the directory whose path is `rel`. */
  function EntryNode(x: Entry, rel: seq<string>): FileNode
    decreases x, 2
  {
    match x
    case DirEntry(n, _, _) => DirNode(n, rel + [n], x)
    case FileEntry(n, stat) => FileNode(n, RelPath(rel + [n]), File, StatSize(stat), [])
  }

  /** The node `build_directory_tree` returns for the directory `e` at `rel`,
      displayed as `name`. An `e` that is not a directory cannot be scanned
      and gives a directory node without children. */
  function DirNode(name: string, rel: seq<string>, e: Entry): FileNode
    decreases e, 1
  {
    FileNode(name, RelPath(rel), Directory, 0,
             if e.DirEntry? then Children(e, Handled(e), rel) else [])
  }

  /** The children appended for the entries `es` of `parent`, in order. */
  function Children(parent: Entry, es: seq<Entry>, rel: seq<string>): seq<FileNode>
    requires parent.DirEntry?
    requires forall x :: x in es ==> x in parent.entries
    decreases parent, 0, |es|
  {
    if es == [] then []
    else
      var x := es[|es| - 1];
      assert x in parent.entries;
      assert forall y :: y in es[..|es| - 1] ==> y in es;
      Children(parent, es[..|es| - 1], rel) + (if Admissible(x.name) then [EntryNode(x, rel)] else [])
  }

  /** One more handled entry adds at most its own node at the end. */
  lemma ChildrenStep(parent: Entry, es: seq<Entry>, i: nat, rel: seq<string>)
    requires parent.DirEntry? && i < |es|
    requires forall x :: x in es ==> x in parent.entries
    ensures forall x :: x in es[..i] ==> x in parent.entries
    ensures Children(parent, es[..i + 1], rel)
         == Children(parent, es[..i], rel) + (if Admissible(es[i].name) then [EntryNode(es[i], rel)] else [])
  {
    assert forall x :: x in es[..i] ==> x in es;
    assert forall x :: x in es[..i + 1] ==> x in es;
    assert es[..i + 1][..i] == es[..i];
  }

  // ---------------------------------------------------------------------------
  // The builder

  /** The body of `build_directory_tree` for the directory `e`: a directory
      node whose children are appended by the scan, none when `os.scandir`
      raises at once. */
  method BuildNode(name: string, rel: seq<string>, e: Entry) returns (node: FileNode)
    ensures node == DirNode(name, rel, e)
    decreases e, 1
  {
    var children: seq<FileNode> := [];
    if e.DirEntry? && e.listing != Unreadable {
      children := ScanChildren(e, rel);
    }
    node := FileNode(name, RelPath(rel), Directory, 0, children);
  }

  /** The `try` block of `build_directory_tree`: scan, sort, filter, recurse into
      directories, stat files, and stop quietly at the first exception. */
  method ScanChildren(e: Entry, rel: seq<string>) returns (children: seq<FileNode>)
    requires e.DirEntry? && e.listing != Unreadable
    ensures children == Children(e, Handled(e), rel)
    decreases e, 0
  {
    children := [];
    var entries := SortEntries(e.entries);
    var i := 0;
    while i < |entries|
      invariant i <= |entries|
      invariant e.listing.StopsAt? ==> i <= e.listing.k
      invariant forall x :: x in entries[..i] ==> x in e.entries
      invariant children == Children(e, entries[..i], rel)
    {
      if e.listing == StopsAt(i) {
        break;
      }
      var x := entries[i];
      assert x in e.entries;
      ChildrenStep(e, entries, i, rel);
      ghost var next := if Admissible(x.name) then [EntryNode(x, rel)] else [];
      if !Hidden(x.name) && x.name !in Excluded {
        if x.DirEntry? {
          var child := BuildNode(x.name, rel + [x.name], x);
          assert [child] == next;
          children := children + [child];
        } else {
          var size := if x.stat.Some? then x.stat.value else 0;
          var leaf := FileNode(x.name, RelPath(rel + [x.name]), File, size, []);
          assert [leaf] == next;
          children := children + [leaf];
        }
      } else {
        assert next == [];
        assert children == children + next;
      }
      assert children == Children(e, entries[..i + 1], rel);
      i := i + 1;
    }
    assert entries[..i] == Handled(e);
  }

  /** The root's display name: the basename of the scanned path, or "root". */
  function RootName(path: string): (r: string)
    ensures r != []
    ensures '/' !in r
    ensures Basename(path) != [] ==> r == Basename(path)
    ensures Basename(path) == [] ==> r == "root"
  {
    var b := Basename(path);
    if b == [] then "root" else b
  }

  /** `build_directory_tree(path)` with the scan root left at its default,
      `path` itself; `fs` is what is found at `path`. */
  method BuildDirectoryTree(path: string, fs: Entry) returns (node: FileNode)
    ensures node == DirNode(RootName(path), [], fs)
    ensures node.name == RootName(path) && node.path == "." && node.kind == Directory
  {
    node := BuildNode(RootName(path), [], fs);
  }

  /** `generate_codemap_data(repo_path)`. */
  method GenerateCodemapData(repoPath: string, fs: Entry) returns (node: FileNode)
    ensures node == DirNode(RootName(repoPath), [], fs)
  {
    node := BuildDirectoryTree(repoPath, fs);
  }
}
