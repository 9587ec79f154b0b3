/** The Mermaid mindmap renderer of api/tools/codemap.py
    (`generate_mermaid_codemap` and its inner `_add_nodes`).

    `AddNodes` is `_add_nodes` with the captured `content` string passed in and
    returned; `Lines` is what one call appends. The output is then described a
    second way, independently of the recursion's cut-off: the preorder list of
    all directories (`DirPreorder`), restricted to depth at most `MaxDepth`. */
module Mindmap {
  import opened Codemap

  /** `_add_nodes` returns at once when `level > LevelCutoff`. */
  const LevelCutoff: nat := 3

  /** The children of a node at `level` sit at depth `level + 1`, so the deepest
      directories shown are at depth `LevelCutoff + 1` below the root. */
  const MaxDepth: nat := LevelCutoff + 1

  /** `n` spaces. */
  function Spaces(n: nat): (r: string)
    ensures |r| == n
  {
    seq(n, _ => ' ')
  }

  /** The first two lines: the diagram type and the root. */
  function Header(rootName: string): string
  {
    "mindmap\n" + "  root((" + rootName + "))\n"
  }

  /** The line for a directory at `depth`: `"    " * depth`, the name, a newline. */
  function Line(depth: nat, name: string): string
  {
    Spaces(4 * depth) + name + "\n"
  }

  // ---------------------------------------------------------------------------
  // The renderer

  /** What `_add_nodes(n, level)` appends to `content`. */
  function Lines(n: FileNode, level: nat): string
    decreases n, 1
  {
    if level > LevelCutoff then [] else LinesUpTo(n, level, |n.children|)
  }

  /** What the loop of `_add_nodes(n, level)` has appended after the first `i`
      children: a line and the lines below it for each directory, nothing for
      a file. */
  function LinesUpTo(n: FileNode, level: nat, i: nat): string
    requires i <= |n.children|
    decreases n, 0, i
  {
    if i == 0 then []
    else
      var c := n.children[i - 1];
      LinesUpTo(n, level, i - 1)
        + (if c.kind == Directory then Line(level + 1, c.name) + Lines(c, level + 1) else [])
  }

  /** `_add_nodes(parent, level)`, appending to `content`. */
  method AddNodes(parent: FileNode, level: nat, content: string) returns (out: string)
    ensures out == content + Lines(parent, level)
    decreases parent
  {
    out := content;
    if level > LevelCutoff {
      return;
    }
    var i := 0;
    while i < |parent.children|
      invariant i <= |parent.children|
      invariant out == content + LinesUpTo(parent, level, i)
    {
      var child := parent.children[i];
      var prefix := Spaces(4 * (level + 1));
      if child.kind == Directory {
        var contentLine := prefix + child.name + "\n";
        out := out + contentLine;
        out := AddNodes(child, level + 1, out);
      }
      i := i + 1;
    }
  }

  /** `generate_mermaid_codemap(node)`: the header, then one line per directory
      at depth 1 to `MaxDepth` below the root, in preorder, indented four
      spaces per level of depth. Files and deeper directories leave no trace. */
  method GenerateMermaidCodemap(node: FileNode) returns (content: string)
    ensures content == Header(node.name) + Render(Bounded(DirPreorder(node, 1)))
  {
    content := "mindmap\n";
    content := content + "  root((" + node.name + "))\n";
    content := AddNodes(node, 0, content);
    LinesArePreorder(node, 0);
  }

  // ---------------------------------------------------------------------------
  // The reference: all directories in preorder, then a depth filter

  /** A directory to be drawn at `depth` with label `name`. */
  datatype Label = Label(depth: nat, name: string)

  /** The directories below `n`, reached through directories only, in preorder;
      `n`'s children are at depth `d`. No depth limit. */
  function DirPreorder(n: FileNode, d: nat): seq<Label>
    decreases n, 1
  {
    PreorderUpTo(n, d, |n.children|)
  }

  function PreorderUpTo(n: FileNode, d: nat, i: nat): seq<Label>
    requires i <= |n.children|
    decreases n, 0, i
  {
    if i == 0 then []
    else
      var c := n.children[i - 1];
      PreorderUpTo(n, d, i - 1)
        + (if c.kind == Directory then [Label(d, c.name)] + DirPreorder(c, d + 1) else [])
  }

  /** The labels at depth at most `MaxDepth`, in order. */
  function Bounded(ls: seq<Label>): seq<Label>
  {
    if ls == [] then []
    else (if ls[0].depth <= MaxDepth then [ls[0]] else []) + Bounded(ls[1..])
  }

  /** The filter keeps exactly the labels at depth at most `MaxDepth`. */
  lemma {:induction false} BoundedMembers(ls: seq<Label>)
    ensures forall l :: l in Bounded(ls) ==> l in ls && l.depth <= MaxDepth
    ensures forall l :: l in ls && l.depth <= MaxDepth ==> l in Bounded(ls)
  {
    if ls != [] {
      BoundedMembers(ls[1..]);
      assert forall l :: l in ls ==> l == ls[0] || l in ls[1..];
      assert forall l :: l in ls[1..] ==> l in ls;
    }
  }

  /** One line per label. */
  function Render(ls: seq<Label>): string
  {
    if ls == [] then [] else Line(ls[0].depth, ls[0].name) + Render(ls[1..])
  }

  lemma {:induction false} BoundedAppend(a: seq<Label>, b: seq<Label>)
    ensures Bounded(a + b) == Bounded(a) + Bounded(b)
  {
    if a == [] {
      assert a + b == b;
    } else {
      var h := if a[0].depth <= MaxDepth then [a[0]] else [];
      calc {
        Bounded(a + b);
        { assert (a + b)[0] == a[0]; assert (a + b)[1..] == a[1..] + b; }
        h + Bounded(a[1..] + b);
        { BoundedAppend(a[1..], b); }
        h + (Bounded(a[1..]) + Bounded(b));
        (h + Bounded(a[1..])) + Bounded(b);
        Bounded(a) + Bounded(b);
      }
    }
  }

  lemma {:induction false} RenderAppend(a: seq<Label>, b: seq<Label>)
    ensures Render(a + b) == Render(a) + Render(b)
  {
    if a == [] {
      assert a + b == b;
    } else {
      var h := Line(a[0].depth, a[0].name);
      calc {
        Render(a + b);
        { assert (a + b)[0] == a[0]; assert (a + b)[1..] == a[1..] + b; }
        h + Render(a[1..] + b);
        { RenderAppend(a[1..], b); }
        h + (Render(a[1..]) + Render(b));
        (h + Render(a[1..])) + Render(b);
        Render(a) + Render(b);
      }
    }
  }

  /** Every label below `n` is at least as deep as `n`'s children. */
  lemma {:induction false} PreorderDepths(n: FileNode, d: nat)
    ensures forall l :: l in DirPreorder(n, d) ==> l.depth >= d
    decreases n, 1
  {
    PreorderUpToDepths(n, d, |n.children|);
  }

  lemma {:induction false} PreorderUpToDepths(n: FileNode, d: nat, i: nat)
    requires i <= |n.children|
    ensures forall l :: l in PreorderUpTo(n, d, i) ==> l.depth >= d
    decreases n, 0, i
  {
    if i > 0 {
      PreorderUpToDepths(n, d, i - 1);
      PreorderDepths(n.children[i - 1], d + 1);
    }
  }

  lemma BoundedTooDeep(ls: seq<Label>)
    requires forall l :: l in ls ==> l.depth > MaxDepth
    ensures Bounded(ls) == []
  {
    BoundedMembers(ls);
    if Bounded(ls) != [] {
      assert Bounded(ls)[0] in Bounded(ls);
    }
  }

  /** `_add_nodes(n, level)` appends exactly the rendering of the directories
      below `n` that are at most `MaxDepth` deep, in preorder. */
  lemma {:induction false} LinesArePreorder(n: FileNode, level: nat)
    ensures Lines(n, level) == Render(Bounded(DirPreorder(n, level + 1)))
    decreases n, 1
  {
    if level > LevelCutoff {
      PreorderDepths(n, level + 1);
      BoundedTooDeep(DirPreorder(n, level + 1));
    } else {
      LinesUpToArePreorder(n, level, |n.children|);
    }
  }

  lemma {:induction false} LinesUpToArePreorder(n: FileNode, level: nat, i: nat)
    requires level <= LevelCutoff && i <= |n.children|
    ensures LinesUpTo(n, level, i) == Render(Bounded(PreorderUpTo(n, level + 1, i)))
    decreases n, 0, i
  {
    if i > 0 {
      var j: nat :| j + 1 == i;
      LinesUpToArePreorder(n, level, j);
      LinesUpToStep(n, level, j);
    }
  }

  /** One more child of `n` keeps the two descriptions equal. */
  lemma LinesUpToStep(n: FileNode, level: nat, j: nat)
    requires level <= LevelCutoff && j < |n.children|
    requires LinesUpTo(n, level, j) == Render(Bounded(PreorderUpTo(n, level + 1, j)))
    ensures LinesUpTo(n, level, j + 1) == Render(Bounded(PreorderUpTo(n, level + 1, j + 1)))
    decreases n, 0, j
  {
    var c := n.children[j];
    var before := PreorderUpTo(n, level + 1, j);
    if c.kind == Directory {
      var below := DirPreorder(c, level + 2);
      assert PreorderUpTo(n, level + 1, j + 1) == before + ([Label(level + 1, c.name)] + below);
      assert LinesUpTo(n, level, j + 1) == LinesUpTo(n, level, j) + (Line(level + 1, c.name) + Lines(c, level + 1));
      LinesArePreorder(c, level + 1);
      RenderBoundedStep(before, Label(level + 1, c.name), below);
    } else {
      assert PreorderUpTo(n, level + 1, j + 1) == before;
      assert LinesUpTo(n, level, j + 1) == LinesUpTo(n, level, j);
    }
  }

  /** Rendering the filtered preorder after one more shallow directory and its
      subtree appends that directory's line and then the subtree's rendering. */
  lemma RenderBoundedStep(before: seq<Label>, lab: Label, below: seq<Label>)
    requires lab.depth <= MaxDepth
    ensures Render(Bounded(before + ([lab] + below)))
         == Render(Bounded(before)) + (Line(lab.depth, lab.name) + Render(Bounded(below)))
  {
    BoundedAppend(before, [lab] + below);
    assert ([lab] + below)[1..] == below;
    RenderAppend(Bounded(before), [lab] + Bounded(below));
    assert ([lab] + Bounded(below))[1..] == Bounded(below);
  }

  /** The diagram shows a directory exactly when it is at most `MaxDepth` deep
      and reached through directories; deeper ones are dropped without a marker. */
  lemma DiagramDepths(node: FileNode)
    ensures forall l :: l in Bounded(DirPreorder(node, 1)) ==> 1 <= l.depth <= MaxDepth && l in DirPreorder(node, 1)
    ensures forall l :: l in DirPreorder(node, 1) && l.depth <= MaxDepth ==> l in Bounded(DirPreorder(node, 1))
    ensures (forall l :: l in DirPreorder(node, 1) ==> l.depth <= MaxDepth) ==> Bounded(DirPreorder(node, 1)) == DirPreorder(node, 1)
  {
    PreorderDepths(node, 1);
    BoundedMembers(DirPreorder(node, 1));
    if forall l :: l in DirPreorder(node, 1) ==> l.depth <= MaxDepth {
      BoundedKeepsShallow(DirPreorder(node, 1));
    }
  }

  lemma {:induction false} BoundedKeepsShallow(ls: seq<Label>)
    requires forall l :: l in ls ==> l.depth <= MaxDepth
    ensures Bounded(ls) == ls
  {
    if ls != [] {
      assert ls[0] in ls;
      forall l | l in ls[1..]
        ensures l.depth <= MaxDepth
      {
        assert l in ls;
      }
      BoundedKeepsShallow(ls[1..]);
      assert [ls[0]] + ls[1..] == ls;
    }
  }
}
