/** What `build_directory_tree` guarantees about the tree it returns: sibling
    order, exclusion of hidden and build directories, relative paths, leaf
    files, one child per admissible entry, and how a failed scan truncates. */
module CodemapTreeFacts {
  import opened Text
  import opened Codemap

  // ---------------------------------------------------------------------------
  // Properties of a whole tree

  /** Directories before files; within one kind, lower-cased names non-decreasing. */
  predicate InOrder(a: FileNode, b: FileNode)
  {
    && (a.kind == File ==> b.kind == File)
    && (a.kind == b.kind ==> LexLe(Lower(a.name), Lower(b.name)))
  }

  predicate ChildrenSorted(cs: seq<FileNode>)
  {
    forall i, j :: 0 <= i < j < |cs| ==> InOrder(cs[i], cs[j])
  }

  /** Every node's children are sorted. */
  predicate SortedEverywhere(n: FileNode)
  {
    && ChildrenSorted(n.children)
    && forall i :: 0 <= i < |n.children| ==> SortedEverywhere(n.children[i])
  }

  /** No node below `n` is hidden or in the exclusion set. */
  predicate NoneExcluded(n: FileNode)
  {
    forall i :: 0 <= i < |n.children| ==> Admissible(n.children[i].name) && NoneExcluded(n.children[i])
  }

  /** File nodes have no children; directory nodes keep the default size 0. */
  predicate FilesAreLeaves(n: FileNode)
  {
    && (n.kind == File ==> n.children == [])
    && (n.kind == Directory ==> n.size == 0)
    && forall i :: 0 <= i < |n.children| ==> FilesAreLeaves(n.children[i])
  }

  /** `n` is reached from the scan root through `rel`, its path says so, and
      each child's path is `n`'s path joined with the child's name. */
  predicate PathsFrom(n: FileNode, rel: seq<string>)
  {
    && n.path == RelPath(rel)
    && forall i :: 0 <= i < |n.children| ==>
         && n.children[i].path == ChildRelPath(n.path, n.children[i].name)
         && PathsFrom(n.children[i], rel + [n.children[i].name])
  }

  // ---------------------------------------------------------------------------
  // Where children come from

  /** Every child is the node of an admissible entry among those handled. */
  lemma {:induction false} ChildrenOrigin(parent: Entry, es: seq<Entry>, rel: seq<string>)
    requires parent.DirEntry? && forall x :: x in es ==> x in parent.entries
    ensures forall c :: c in Children(parent, es, rel) ==>
              exists x :: x in es && Admissible(x.name) && c == EntryNode(x, rel)
    decreases |es|
  {
    if es != [] {
      var init := es[..|es| - 1];
      assert forall x :: x in init ==> x in es;
      ChildrenOrigin(parent, init, rel);
    }
  }

  /** The node of an entry carries the entry's name and kind; a directory's is
      the subtree built for it, a file's is a leaf sized by `stat`, or 0. */
  lemma EntryNodeShape(x: Entry, rel: seq<string>)
    ensures EntryNode(x, rel).name == x.name
    ensures EntryNode(x, rel).kind == Directory <==> x.DirEntry?
    ensures EntryNode(x, rel).path == RelPath(rel + [x.name])
    ensures x.DirEntry? ==> EntryNode(x, rel) == DirNode(x.name, rel + [x.name], x)
    ensures x.FileEntry? ==> EntryNode(x, rel).children == [] && EntryNode(x, rel).size == StatSize(x.stat)
  {
  }

  // ---------------------------------------------------------------------------
  // The tree invariants, by induction over the filesystem

  lemma {:induction false} DirNodeInvariants(name: string, rel: seq<string>, e: Entry)
    requires rel != ["."]
    ensures SortedEverywhere(DirNode(name, rel, e))
    ensures NoneExcluded(DirNode(name, rel, e))
    ensures FilesAreLeaves(DirNode(name, rel, e))
    ensures PathsFrom(DirNode(name, rel, e), rel)
    decreases e, 1
  {
    if e.DirEntry? {
      ChildrenInvariants(e, Handled(e), rel);
    }
  }

  /** The children of entries whose keys are all at most `z`'s come before `z`'s node. */
  lemma ChildrenBefore(parent: Entry, es: seq<Entry>, z: Entry, rel: seq<string>)
    requires parent.DirEntry? && forall x :: x in es ==> x in parent.entries
    requires forall k :: 0 <= k < |es| ==> KeyLe(es[k], z)
    ensures forall c :: c in Children(parent, es, rel) ==> InOrder(c, EntryNode(z, rel))
  {
    ChildrenOrigin(parent, es, rel);
    EntryNodeShape(z, rel);
    forall c | c in Children(parent, es, rel)
      ensures InOrder(c, EntryNode(z, rel))
    {
      var x :| x in es && Admissible(x.name) && c == EntryNode(x, rel);
      var k :| 0 <= k < |es| && es[k] == x;
      EntryNodeShape(x, rel);
    }
  }

  lemma SortedSnoc(cs: seq<FileNode>, last: FileNode)
    requires ChildrenSorted(cs)
    requires forall c :: c in cs ==> InOrder(c, last)
    ensures ChildrenSorted(cs + [last])
  {
    var r := cs + [last];
    forall i, j | 0 <= i < j < |r|
      ensures InOrder(r[i], r[j])
    {
      if j < |cs| {
        assert r[i] == cs[i] && r[j] == cs[j];
      } else {
        assert r[i] == cs[i] && cs[i] in cs && r[j] == last;
      }
    }
  }

  /** Children of sorted entries are sorted, one more entry at a time. */
  lemma AppendInOrder(parent: Entry, es: seq<Entry>, rel: seq<string>)
    requires parent.DirEntry? && forall x :: x in es ==> x in parent.entries
    requires es != [] && SortedByKey(es)
    requires ChildrenSorted(Children(parent, es[..|es| - 1], rel))
    ensures forall x :: x in es[..|es| - 1] ==> x in parent.entries
    ensures ChildrenSorted(Children(parent, es, rel))
  {
    var init := es[..|es| - 1];
    var z := es[|es| - 1];
    assert forall x :: x in init ==> x in es;
    var before := Children(parent, init, rel);
    if Admissible(z.name) {
      var last := EntryNode(z, rel);
      forall k | 0 <= k < |init|
        ensures KeyLe(init[k], z)
      {
        assert init[k] == es[k];
      }
      ChildrenBefore(parent, init, z, rel);
      SortedSnoc(before, last);
      assert Children(parent, es, rel) == before + [last];
    } else {
      assert Children(parent, es, rel) == before;
    }
  }

  lemma {:induction false} ChildrenInvariants(parent: Entry, es: seq<Entry>, rel: seq<string>)
    requires parent.DirEntry? && forall x :: x in es ==> x in parent.entries
    requires rel != ["."]
    requires SortedByKey(es)
    ensures ChildrenSorted(Children(parent, es, rel))
    ensures forall c :: c in Children(parent, es, rel) ==>
              && Admissible(c.name)
              && c.path == ChildRelPath(RelPath(rel), c.name)
              && SortedEverywhere(c) && NoneExcluded(c) && FilesAreLeaves(c)
              && PathsFrom(c, rel + [c.name])
    decreases parent, 0, |es|
  {
    if es != [] {
      var init := es[..|es| - 1];
      var z := es[|es| - 1];
      assert forall x :: x in init ==> x in es;
      assert z in parent.entries;
      ChildrenInvariants(parent, init, rel);
      AppendInOrder(parent, es, rel);
      if Admissible(z.name) {
        EntryNodeInvariants(z, rel);
        EntryNodeShape(z, rel);
        assert Children(parent, es, rel) == Children(parent, init, rel) + [EntryNode(z, rel)];
      } else {
        assert Children(parent, es, rel) == Children(parent, init, rel);
      }
    }
  }

  lemma {:induction false} EntryNodeInvariants(x: Entry, rel: seq<string>)
    requires rel != ["."] && Admissible(x.name)
    ensures EntryNode(x, rel).path == ChildRelPath(RelPath(rel), x.name)
    ensures SortedEverywhere(EntryNode(x, rel))
    ensures NoneExcluded(EntryNode(x, rel))
    ensures FilesAreLeaves(EntryNode(x, rel))
    ensures PathsFrom(EntryNode(x, rel), rel + [x.name])
    decreases x, 2
  {
    RelPathChild(rel, x.name);
    assert rel + [x.name] != ["."];
    if x.DirEntry? {
      DirNodeInvariants(x.name, rel + [x.name], x);
    }
  }

  /** The tree `build_directory_tree(path)` returns: named after the path, at
      ".", a directory, and every invariant holds throughout. */
  lemma BuiltTreeInvariants(path: string, fs: Entry)
    ensures DirNode(RootName(path), [], fs).name == RootName(path)
    ensures DirNode(RootName(path), [], fs).path == "."
    ensures DirNode(RootName(path), [], fs).kind == Directory
    ensures SortedEverywhere(DirNode(RootName(path), [], fs))
    ensures NoneExcluded(DirNode(RootName(path), [], fs))
    ensures FilesAreLeaves(DirNode(RootName(path), [], fs))
    ensures PathsFrom(DirNode(RootName(path), [], fs), [])
  {
    DirNodeInvariants(RootName(path), [], fs);
  }

  // ---------------------------------------------------------------------------
  // One child per admissible entry

  /** The number of entries the builder keeps. */
  function CountAdmissible(es: seq<Entry>): nat
  {
    if es == [] then 0
    else CountAdmissible(es[..|es| - 1]) + (if Admissible(es[|es| - 1].name) then 1 else 0)
  }

  lemma {:induction false} ChildrenCount(parent: Entry, es: seq<Entry>, rel: seq<string>)
    requires parent.DirEntry? && forall x :: x in es ==> x in parent.entries
    ensures |Children(parent, es, rel)| == CountAdmissible(es)
    decreases |es|
  {
    if es != [] {
      var init := es[..|es| - 1];
      assert forall x :: x in init ==> x in es;
      ChildrenCount(parent, init, rel);
    }
  }

  lemma {:induction false} ChildrenComplete(parent: Entry, es: seq<Entry>, rel: seq<string>)
    requires parent.DirEntry? && forall x :: x in es ==> x in parent.entries
    ensures forall x :: x in es && Admissible(x.name) ==> EntryNode(x, rel) in Children(parent, es, rel)
    decreases |es|
  {
    if es != [] {
      var init := es[..|es| - 1];
      assert forall x :: x in init ==> x in es;
      assert forall x :: x in es ==> x in init || x == es[|es| - 1];
      ChildrenComplete(parent, init, rel);
    }
  }

  lemma {:induction false} ChildrenAppend(parent: Entry, a: seq<Entry>, b: seq<Entry>, rel: seq<string>)
    requires parent.DirEntry? && forall x :: x in a + b ==> x in parent.entries
    ensures forall x :: x in a ==> x in parent.entries
    ensures forall x :: x in b ==> x in parent.entries
    ensures Children(parent, a + b, rel) == Children(parent, a, rel) + Children(parent, b, rel)
    decreases |b|
  {
    assert forall x :: x in a ==> x in a + b;
    assert forall x :: x in b ==> x in a + b;
    if b == [] {
      assert a + b == a;
    } else {
      var binit := b[..|b| - 1];
      assert (a + b)[..|a + b| - 1] == a + binit;
      assert forall x :: x in a + binit ==> x in a + b;
      assert forall x :: x in binit ==> x in b;
      ChildrenAppend(parent, a, binit, rel);
    }
  }

  /** Taking one element out of a sequence takes it out of its multiset. */
  lemma RemoveAt(s: seq<Entry>, k: nat)
    requires k < |s|
    ensures s == s[..k] + [s[k]] + s[k + 1..]
    ensures multiset(s[..k] + s[k + 1..]) == multiset(s) - multiset{s[k]}
  {
    assert s == s[..k] + [s[k]] + s[k + 1..];
    assert multiset(s) == multiset(s[..k]) + multiset{s[k]} + multiset(s[k + 1..]);
    assert multiset(s[..k] + s[k + 1..]) == multiset(s[..k]) + multiset(s[k + 1..]);
  }

  /** The children of a sequence split around one element, with and without it. */
  lemma ChildrenAround(parent: Entry, s: seq<Entry>, k: nat, rel: seq<string>)
    requires parent.DirEntry? && forall x :: x in s ==> x in parent.entries
    requires k < |s|
    ensures forall x :: x in s[..k] + s[k + 1..] ==> x in parent.entries
    ensures forall x :: x in s[..k] ==> x in parent.entries
    ensures forall x :: x in s[k + 1..] ==> x in parent.entries
    ensures multiset(Children(parent, s, rel))
         == multiset(Children(parent, s[..k] + s[k + 1..], rel)) + multiset(Children(parent, [s[k]], rel))
  {
    var lo, z, hi := s[..k], s[k], s[k + 1..];
    assert s == (lo + [z]) + hi;
    assert forall x :: x in lo + hi ==> x in s;
    ChildrenAppend(parent, lo + [z], hi, rel);
    ChildrenAppend(parent, lo, [z], rel);
    ChildrenAppend(parent, lo, hi, rel);
    var clo, cz, chi := Children(parent, lo, rel), Children(parent, [z], rel), Children(parent, hi, rel);
    assert Children(parent, s, rel) == clo + cz + chi;
    assert Children(parent, lo + hi, rel) == clo + chi;
    assert multiset(clo + cz + chi) == multiset(clo) + multiset(cz) + multiset(chi);
    assert multiset(clo + chi) == multiset(clo) + multiset(chi);
  }

  /** Reordering the entries only reorders the children. */
  lemma {:induction false} ChildrenPermutation(parent: Entry, s: seq<Entry>, t: seq<Entry>, rel: seq<string>)
    requires parent.DirEntry?
    requires forall x :: x in s ==> x in parent.entries
    requires multiset(s) == multiset(t)
    ensures forall x :: x in t ==> x in parent.entries
    ensures multiset(Children(parent, s, rel)) == multiset(Children(parent, t, rel))
    decreases |t|
  {
    assert forall x :: x in t ==> x in multiset(s);
    if t != [] {
      var n := |t| - 1;
      var z := t[n];
      RemoveAt(t, n);
      assert t[..n] + t[n + 1..] == t[..n];
      assert z in multiset(s);
      var k :| 0 <= k < |s| && s[k] == z;
      RemoveAt(s, k);
      ChildrenAround(parent, s, k, rel);
      ChildrenPermutation(parent, s[..k] + s[k + 1..], t[..n], rel);
      ChildrenAround(parent, t, n, rel);
    }
  }

  /** A directory read completely has one child per admissible entry: the
      children are the nodes of the admissible entries, each as often as it is
      listed, whatever order `os.scandir` lists them in. */
  lemma ReadableDirectoryChildren(name: string, rel: seq<string>, e: Entry)
    requires e.DirEntry? && e.listing == Listed
    ensures multiset(DirNode(name, rel, e).children) == multiset(Children(e, e.entries, rel))
    ensures |DirNode(name, rel, e).children| == CountAdmissible(e.entries)
    ensures forall x :: x in e.entries && Admissible(x.name) ==> EntryNode(x, rel) in DirNode(name, rel, e).children
    ensures forall c :: c in DirNode(name, rel, e).children ==>
              exists x :: x in e.entries && Admissible(x.name) && c == EntryNode(x, rel)
  {
    var hs := Handled(e);
    assert hs == SortEntries(e.entries);
    ChildrenPermutation(e, hs, e.entries, rel);
    ChildrenCount(e, e.entries, rel);
    ChildrenComplete(e, e.entries, rel);
    ChildrenOrigin(e, e.entries, rel);
    var cs := DirNode(name, rel, e).children;
    forall x | x in e.entries && Admissible(x.name)
      ensures EntryNode(x, rel) in cs
    {
      assert EntryNode(x, rel) in multiset(Children(e, e.entries, rel));
    }
    forall c | c in cs
      ensures exists x :: x in e.entries && Admissible(x.name) && c == EntryNode(x, rel)
    {
      assert c in multiset(Children(e, e.entries, rel));
      assert c in Children(e, e.entries, rel);
    }
  }

  // ---------------------------------------------------------------------------
  // Failed scans

  lemma {:induction false} ChildrenPrefix(parent: Entry, s: seq<Entry>, m: nat, rel: seq<string>)
    requires parent.DirEntry? && forall x :: x in s ==> x in parent.entries
    requires m <= |s|
    ensures forall x :: x in s[..m] ==> x in parent.entries
    ensures Children(parent, s[..m], rel) <= Children(parent, s, rel)
  {
    assert s == s[..m] + s[m..];
    ChildrenAppend(parent, s[..m], s[m..], rel);
  }

  /** No error escapes: a directory whose scan fails is still a directory node.
      Its children are a prefix of those a complete scan would give, none at all
      when the directory cannot be listed, and otherwise those of the sorted
      entries before the failure point. */
  lemma FailedScanKeepsPrefix(name: string, rel: seq<string>, e: Entry)
    requires e.DirEntry?
    ensures DirNode(name, rel, e).kind == Directory
    ensures DirNode(name, rel, e).children <= Children(e, SortEntries(e.entries), rel)
    ensures e.listing == Unreadable ==> DirNode(name, rel, e).children == []
    ensures e.listing.StopsAt? && e.listing.k <= |e.entries| ==>
              |DirNode(name, rel, e).children| == CountAdmissible(SortEntries(e.entries)[..e.listing.k])
  {
    var all := SortEntries(e.entries);
    ChildrenPrefix(e, all, ScanLimit(e.listing, |all|), rel);
    if e.listing.StopsAt? && e.listing.k <= |e.entries| {
      ChildrenCount(e, Handled(e), rel);
    }
  }

  /** A root that is not a directory gives a childless directory node. */
  lemma NonDirectoryRoot(path: string, fs: Entry)
    requires fs.FileEntry?
    ensures DirNode(RootName(path), [], fs) == FileNode(RootName(path), ".", Directory, 0, [])
  {
  }
}
