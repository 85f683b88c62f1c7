/**
  The ancestor path of the click handler: starting at the clicked node, the
  handler follows `parent` links up to the root and prepends every node it
  passes, giving the nodes from the root down to the clicked one. The page
  computes it twice, once for the nodes to colour and once for the edges.
 */
module Paths {
  import opened LinkedTree

  /** Every element after the first is a child (by its `parent` link) of the one before it. */
  ghost predicate ParentChain(p: seq<Node>)
    reads set n | n in p
  {
    forall i, j :: 0 <= i && j == i + 1 && j < |p| ==> p[j].parent == p[i]
  }

  /** The nodes of a well-formed subtree are roots of well-formed subtrees inside it. */
  lemma {:induction false} SubtreeValid(t: Node, a: Node)
    requires t.Valid() && a in t.Repr
    ensures a.Valid() && a.Repr <= t.Repr
    decreases t.Repr
  {
    if a != t {
      if t.left != null && a in t.left.Repr {
        SubtreeValid(t.left, a);
      } else {
        SubtreeValid(t.right, a);
      }
    }
  }

  /** The nodes met going down child links from `t` to `n`, both included. */
  ghost function PathTo(t: Node, n: Node): (p: seq<Node>)
    requires t.Valid() && n in t.Repr
    reads t, t.Repr
    decreases t.Repr
    ensures p != [] && p[0] == t && p[|p| - 1] == n
    ensures forall i :: 0 <= i < |p| ==> p[i] in t.Repr
  {
    if n == t then [t]
    else if t.left != null && n in t.left.Repr then [t] + PathTo(t.left, n)
    else [t] + PathTo(t.right, n)
  }

  /**
    The path has no repetitions and goes from parent to child at every step,
    in both directions of the link: the next node's `parent` is the node
    before it, which has it as its left or its right child.
   */
  lemma {:induction false} PathShape(t: Node, n: Node)
    requires t.Valid() && n in t.Repr
    ensures var p := PathTo(t, n);
      && (forall i, j :: 0 <= i < j < |p| ==> p[i] != p[j])
      && ParentChain(p)
      && (forall i, j :: 0 <= i && j == i + 1 && j < |p| ==> p[i].left == p[j] || p[i].right == p[j])
    decreases t.Repr
  {
    if n != t {
      var c := if t.left != null && n in t.left.Repr then t.left else t.right;
      PathShape(c, n);
      var q := PathTo(c, n);
      assert PathTo(t, n) == [t] + q;
      assert t !in q;
    }
  }

  /**
    Every node of a subtree other than its root has a parent in the subtree,
    of which it is the left or the right child, and its path is its parent's
    path followed by itself.
   */
  lemma {:induction false} ParentStep(t: Node, n: Node)
    requires t.Valid() && n in t.Repr
    ensures n != t ==>
      && n.parent != null && n.parent in t.Repr
      && (n.parent.left == n || n.parent.right == n)
      && PathTo(t, n) == PathTo(t, n.parent) + [n]
    decreases t.Repr
  {
    if n != t {
      var c := if t.left != null && n in t.left.Repr then t.left else t.right;
      if n != c {
        ParentStep(c, n);
        assert t !in c.Repr;
        if c == t.right {
          assert n.parent !in t.left.Repr by {
            assert t.left.Repr !! t.right.Repr;
          }
        }
      }
    }
  }

  /** In a whole tree, whose root has no parent, the root is the only node without one. */
  lemma OnlyRootIsParentless(t: Node, n: Node)
    requires t.Valid() && t.parent == null && n in t.Repr
    ensures n.parent == null <==> n == t
  {
    ParentStep(t, n);
  }

  /**
    The links of a well-formed tree agree: the root has no parent, and every
    other node has a parent in the tree that holds it in exactly one of its
    two child slots.
   */
  lemma TreeLinks(tree: BinaryTree)
    requires tree.Valid()
    ensures tree.root != null ==> tree.root.parent == null
    ensures forall n :: n in tree.Repr && n != tree.root ==>
      && n.parent != null && n.parent in tree.Repr
      && ((n.parent.left == n) != (n.parent.right == n))
  {
    forall n | n in tree.Repr && n != tree.root
      ensures n.parent != null && n.parent in tree.Repr
      ensures (n.parent.left == n) != (n.parent.right == n)
    {
      ParentStep(tree.root, n);
      SubtreeValid(tree.root, n.parent);
    }
  }

  /**
    The ancestor path is the only one: any sequence of nodes of the tree that
    starts at a node without parent, follows `parent` links in reverse and
    ends at `n` is the path from the root to `n`.
   */
  lemma {:induction false} PathUnique(t: Node, n: Node, p: seq<Node>)
    requires t.Valid() && t.parent == null && n in t.Repr
    requires p != [] && p[0].parent == null && p[|p| - 1] == n && ParentChain(p)
    requires forall i :: 0 <= i < |p| ==> p[i] in t.Repr
    ensures p == PathTo(t, n)
    decreases |p|
  {
    ParentStep(t, n);
    if |p| > 1 {
      var q := p[..|p| - 1];
      assert q[|q| - 1] == n.parent;
      PathUnique(t, n.parent, q);
      assert p == q + [n];
    }
  }

  /** The nodes whose subtree contains `n`, other than `n` itself. */
  ghost function ProperAncestors(t: Node, n: Node): set<Node>
    reads t, t.Repr
  {
    set a | a in t.Repr && a != n && n in a.Repr
  }

  /** The depth of `n` below `t`: its number of proper ancestors. */
  ghost function Depth(t: Node, n: Node): nat
    reads t, t.Repr
  {
    |ProperAncestors(t, n)|
  }

  /** The path holds exactly the nodes whose subtree contains `n`. */
  lemma {:induction false} PathElements(t: Node, n: Node)
    requires t.Valid() && n in t.Repr
    ensures forall a :: a in PathTo(t, n) <==> a in t.Repr && n in a.Repr
    decreases t.Repr
  {
    forall a | a in t.Repr && n in a.Repr
      ensures a in PathTo(t, n)
    {
      if a != t {
        var c := if t.left != null && a in t.left.Repr then t.left else t.right;
        SubtreeValid(c, a);
        PathElements(c, n);
      }
    }
    forall a | a in PathTo(t, n)
      ensures a in t.Repr && n in a.Repr
    {
      if a != t {
        var c := if t.left != null && n in t.left.Repr then t.left else t.right;
        PathElements(c, n);
      } else {
        assert n in t.Repr;
      }
    }
  }

  /** A sequence without repetitions has as many distinct elements as it is long. */
  lemma {:induction false} DistinctCount(p: seq<Node>)
    requires forall i, j :: 0 <= i < j < |p| ==> p[i] != p[j]
    ensures |set a | a in p| == |p|
  {
    if p != [] {
      DistinctCount(p[1..]);
      assert (set a | a in p) == {p[0]} + (set a | a in p[1..]);
      assert p[0] !in p[1..];
    }
  }

  /** The path to `n` is one node longer than the depth of `n`. */
  lemma PathLength(t: Node, n: Node)
    requires t.Valid() && n in t.Repr
    ensures |PathTo(t, n)| == Depth(t, n) + 1
  {
    var p := PathTo(t, n);
    PathElements(t, n);
    PathShape(t, n);
    DistinctCount(p);
    assert (set a | a in p) == ProperAncestors(t, n) + {n};
  }

  /**
    The first loop of the click handler: prepend the current node and move to
    its parent while it has one, then prepend the parentless node reached.
    The result is the path from the root of `tree` to `d`.
   */
  method AncestorsOf(d: Node, ghost tree: BinaryTree) returns (ancestors: seq<Node>)
    requires tree.Valid() && d in tree.Repr
    ensures ancestors == PathTo(tree.root, d)
  {
    ghost var root := tree.root;
    ancestors := [];
    var current := d;
    while current.parent != null
      invariant current in root.Repr
      invariant PathTo(root, d) == PathTo(root, current) + ancestors
      decreases |PathTo(root, current)|
    {
      StepUp(root, current, ancestors);
      ancestors := [current] + ancestors;
      current := current.parent;
    }
    OnlyRootIsParentless(root, current);
    ancestors := [current] + ancestors;
  }

  /**
    One step up in a whole tree: a node with a parent is reached from the root
    through that parent, so the path to it is the path to the parent and then
    the node itself, and the path to the parent is shorter.
   */
  lemma StepUp(t: Node, n: Node, below: seq<Node>)
    requires t.Valid() && t.parent == null && n in t.Repr && n.parent != null
    ensures n.parent in t.Repr
    ensures PathTo(t, n) + below == PathTo(t, n.parent) + ([n] + below)
    ensures |PathTo(t, n.parent)| < |PathTo(t, n)|
  {
    ParentStep(t, n);
  }

  /** The same step, for the second loop, which keeps the path built so far with its first node at the front. */
  lemma Unshift(t: Node, path: seq<Node>)
    requires t.Valid() && t.parent == null && path != [] && path[0] in t.Repr && path[0].parent != null
    ensures path[0].parent in t.Repr
    ensures PathTo(t, path[0]) + path[1..] == PathTo(t, path[0].parent) + path
    ensures |PathTo(t, path[0].parent)| < |PathTo(t, path[0])|
  {
    StepUp(t, path[0], path[1..]);
    assert path == [path[0]] + path[1..];
  }

  /**
    The second loop of the click handler: start from `[d]` and prepend the
    parent of the first element while it has one. The result is again the
    path from the root of `tree` to `d`.
   */
  method PathToRoot(d: Node, ghost tree: BinaryTree) returns (path: seq<Node>)
    requires tree.Valid() && d in tree.Repr
    ensures path == PathTo(tree.root, d)
  {
    ghost var root := tree.root;
    path := [d];
    while path[0].parent != null
      invariant path != [] && path[0] in root.Repr
      invariant PathTo(root, d) == PathTo(root, path[0]) + path[1..]
      decreases |PathTo(root, path[0])|
    {
      Unshift(root, path);
      path := [path[0].parent] + path;
    }
    OnlyRootIsParentless(root, path[0]);
  }

  /**
    Both paths of a click: the nodes to colour and the edges to colour run
    over the same nodes, from the parentless root down to the clicked node,
    and there are depth + 1 of them.
   */
  method Click(d: Node, ghost tree: BinaryTree) returns (ancestors: seq<Node>, path: seq<Node>)
    requires tree.Valid() && d in tree.Repr
    ensures ancestors == path == PathTo(tree.root, d)
    ensures ancestors[0] == tree.root && ancestors[0].parent == null && ancestors[|ancestors| - 1] == d
    ensures |ancestors| == Depth(tree.root, d) + 1
  {
    ancestors := AncestorsOf(d, tree);
    path := PathToRoot(d, tree);
    PathLength(tree.root, d);
  }
}
