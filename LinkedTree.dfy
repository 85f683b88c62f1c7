/**
  The linked binary tree of the page: `Node` objects with `left`, `right` and a
  `parent` back-reference, and a `BinaryTree` holding the root. Insertion
  mutates the links in place; the abstract value of a well-formed tree is the
  `Tree` of module TreeSpec, and every mutating method is specified by the
  matching function there.
 */
module LinkedTree {
  import opened TreeSpec

  class Node {
    const value: string
    var parent: Node?
    var left: Node?
    var right: Node?
    /** The nodes of the subtree rooted here. */
    ghost var Repr: set<Node>

    /**
      The subtree rooted here is well formed: its children point back here
      through `parent`, the two subtrees are disjoint and do not contain this
      node (so there is no cycle), and a right child exists only beside a left one.
     */
    ghost predicate Valid()
      reads this, Repr
      decreases Repr
    {
      && this in Repr
      && (right != null ==> left != null)
      && (left != null ==>
            && left in Repr && left.Repr <= Repr && this !in left.Repr
            && left.parent == this && left.Valid())
      && (right != null ==>
            && right in Repr && right.Repr <= Repr && this !in right.Repr
            && right.parent == this && right.Valid())
      && (left != null && right != null ==> left.Repr !! right.Repr)
      && (forall n :: n in Repr ==>
            n == this || (left != null && n in left.Repr) || (right != null && n in right.Repr))
    }

    /** The abstract value of the subtree rooted here. */
    ghost function Model(): (t: Tree)
      reads this, Repr
      requires Valid()
      decreases Repr
      ensures t.Branch? && t.value == value
    {
      Branch(value,
             if left == null then Leaf else left.Model(),
             if right == null then Leaf else right.Model())
    }

    /** `new Node(value)`: a detached node with no children and no parent. */
    constructor (value: string)
      ensures this.value == value && parent == null && left == null && right == null
      ensures Valid() && Repr == {this} && Model() == Single(value)
    {
      this.value := value;
      parent := null;
      left := null;
      right := null;
      Repr := {this};
    }
  }

  /** A node that was just created and is not linked to anything yet. */
  ghost predicate Detached(node: Node)
    reads node
  {
    node.parent == null && node.left == null && node.right == null && node.Repr == {node}
  }

  /**
    Between the two states, `node` was linked below `p` as a leaf: into `p`'s
    left slot if that was empty, otherwise into its then empty right slot. No
    other child link of a node in `nodes` changed, no parent link in `nodes` changed.
   */
  twostate predicate LinkedAsLeaf(nodes: set<Node>, p: Node, new node: Node)
    reads nodes, node
  {
    && p in nodes
    && node.parent == p && node.left == null && node.right == null
    && (old(p.left) == null ==> p.left == node && p.right == old(p.right))
    && (old(p.left) != null ==> old(p.right) == null && p.left == old(p.left) && p.right == node)
    && (forall n :: n in nodes && n != p ==> n.left == old(n.left) && n.right == old(n.right))
    && (forall n :: n in nodes ==> n.parent == old(n.parent))
  }

  /** The number of nodes of a well-formed subtree is the size of its abstract value. */
  lemma {:induction false} ReprSize(n: Node)
    requires n.Valid()
    ensures |n.Repr| == Size(n.Model())
    decreases n.Repr
  {
    var l := if n.left != null then n.left.Repr else {};
    var r := if n.right != null then n.right.Repr else {};
    if n.left != null { ReprSize(n.left); }
    if n.right != null { ReprSize(n.right); }
    assert n.Repr == {n} + l + r;
    assert |{n} + l| == 1 + |l|;
    assert l !! r;
  }

  /**
    Node `r` had two children and `node` was linked as a leaf somewhere in the
    subtree chosen by the flip at index `k` (left when true), the other subtree
    staying untouched: then the subtree of `r` is well formed again, its value is
    what `InsertSpec` prescribes for `r`, and `node` was linked as a leaf within it.
   */
  twostate lemma Reassembled(r: Node, new node: Node, new p: Node, new coin: nat -> bool, new k: nat, new k': nat)
    requires old(r.Valid()) && old(r.left) != null && old(r.right) != null && node !in old(r.Repr)
    requires r.left == old(r.left) && r.right == old(r.right) && r.parent == old(r.parent)
    requires r.Repr == old(r.Repr) + {node}
    requires coin(k) ==>
      && r.left.Valid() && r.left.Repr == old(r.left.Repr) + {node}
      && (r.left.Model(), k') == InsertSpec(old(r.left.Model()), node.value, coin, k + 1)
      && p in old(r.left.Repr) && LinkedAsLeaf(old(r.left.Repr), p, node)
      && unchanged(old(r.right.Repr))
    requires !coin(k) ==>
      && r.right.Valid() && r.right.Repr == old(r.right.Repr) + {node}
      && (r.right.Model(), k') == InsertSpec(old(r.right.Model()), node.value, coin, k + 1)
      && p in old(r.right.Repr) && LinkedAsLeaf(old(r.right.Repr), p, node)
      && unchanged(old(r.left.Repr))
    ensures r.Valid()
    ensures (r.Model(), k') == InsertSpec(old(r.Model()), node.value, coin, k)
    ensures p in old(r.Repr) && LinkedAsLeaf(old(r.Repr), p, node)
  {
    var o := if coin(k) then r.right else r.left;
    assert o.Valid() && o.Model() == old(o.Model());
    assert r.Valid();
    InsertSpecDescends(r.value, old(r.left.Model()), old(r.right.Model()), node.value, coin, k);
  }

  class BinaryTree {
    var root: Node?
    /** The nodes of the tree. */
    ghost var Repr: set<Node>

    /** The tree is empty, or its root has no parent and heads a well-formed subtree of all its nodes. */
    ghost predicate Valid()
      reads this, Repr
    {
      && (root == null ==> Repr == {})
      && (root != null ==> root in Repr && root.Repr == Repr && root.parent == null && root.Valid())
    }

    /** The abstract value of the tree. */
    ghost function Model(): Tree
      reads this, Repr
      requires Valid()
    {
      if root == null then Leaf else root.Model()
    }

    /** `new BinaryTree(node)`: the tree rooted at `node`, or the empty tree. */
    constructor (node: Node?)
      requires node != null ==> node.Valid() && node.parent == null
      ensures Valid() && root == node
      ensures Repr == (if node == null then {} else node.Repr)
    {
      root := node;
      Repr := if node == null then {} else node.Repr;
    }

    /** `clear()`: the tree becomes empty; no node is changed. */
    method Clear()
      modifies this
      ensures Valid() && root == null && Repr == {} && Model() == Leaf
    {
      root := null;
      Repr := {};
    }

    /**
      `insert(node)` called with the tree's root: an empty tree gets `node` as
      its root; otherwise `node` is linked as a leaf below one existing node and
      nothing else changes. Flips are drawn from `coin` starting at index `k`;
      `k'` is the index of the next unused flip.
     */
    method Insert(node: Node, coin: nat -> bool, k: nat) returns (k': nat, ghost p: Node?)
      requires Valid() && Detached(node) && node !in Repr
      modifies this, Repr, node
      ensures Valid() && Repr == old(Repr) + {node}
      ensures (Model(), k') == InsertSpec(old(Model()), node.value, coin, k)
      ensures old(root) == null ==> root == node && p == null && Detached(node)
      ensures old(root) != null ==> root == old(root) && p != null && p in old(Repr) && LinkedAsLeaf(old(Repr), p, node)
    {
      if root == null {
        root := node;
        Repr := {node};
        k', p := k, null;
        return;
      }
      k', p := InsertAt(node, root, coin, k);
      Repr := Repr + {node};
    }

    /**
      The base case of `insert` at a subtree root `r` with a free slot: `node`
      goes into the left slot if that is empty, otherwise into the right one.
     */
    method Attach(node: Node, r: Node, ghost coin: nat -> bool, ghost k: nat)
      requires r.Valid() && Detached(node) && node !in r.Repr && (r.left == null || r.right == null)
      modifies r, node
      ensures r.Valid() && r.Repr == old(r.Repr) + {node}
      ensures (r.Model(), k) == InsertSpec(old(r.Model()), node.value, coin, k)
      ensures LinkedAsLeaf(old(r.Repr), r, node)
    {
      if r.left == null {
        r.left := node;
      } else {
        ghost var lm := r.left.Model();
        r.right := node;
        assert r.left.Model() == lm;
      }
      node.parent := r;
      r.Repr := r.Repr + {node};
      assert node.Valid() && node.Model() == Single(node.value);
    }

    /**
      The recursive part of `insert`, at a non-null subtree root `r`: fill `r`'s
      left slot if empty, else its right slot if empty, else go on into the left
      subtree when the flip at index `k` is true and into the right one otherwise.
     */
    method InsertAt(node: Node, r: Node, coin: nat -> bool, k: nat) returns (k': nat, ghost p: Node)
      requires r.Valid() && Detached(node) && node !in r.Repr
      modifies r.Repr, node
      ensures r.Valid() && r.Repr == old(r.Repr) + {node}
      ensures (r.Model(), k') == InsertSpec(old(r.Model()), node.value, coin, k)
      ensures p in old(r.Repr) && LinkedAsLeaf(old(r.Repr), p, node)
      decreases r.Repr
    {
      if r.left == null || r.right == null {
        Attach(node, r, coin, k);
        k', p := k, r;
      } else {
        var next := if coin(k) then r.left else r.right;
        k', p := InsertAt(node, next, coin, k + 1);
        r.Repr := r.Repr + {node};
        Reassembled(r, node, p, coin, k, k');
      }
    }
  }

  /**
    The insertion loop of `creatBinaryTree`: a fresh tree, then one fresh node
    per token, inserted in input order. The result has one node per token, and
    their values are exactly the tokens.
   */
  method CreateBinaryTree(values: seq<string>, coin: nat -> bool) returns (tree: BinaryTree)
    ensures fresh(tree) && fresh(tree.Repr) && tree.Valid()
    ensures tree.Model() == BuildSpec(values, coin).0
    ensures |tree.Repr| == |values|
    ensures Values(tree.Model()) == multiset(values)
    ensures values != [] ==> tree.root != null && tree.root.value == values[0]
  {
    tree := new BinaryTree(null);
    var k := 0;
    for i := 0 to |values|
      invariant fresh(tree.Repr) && tree.Valid()
      invariant (tree.Model(), k) == BuildSpec(values[..i], coin)
    {
      var node := new Node(values[i]);
      assert values[..i + 1][..i] == values[..i];
      ghost var p;
      k, p := tree.Insert(node, coin, k);
    }
    assert values[..|values|] == values;
    BuildContents(values, coin);
    if tree.root != null {
      ReprSize(tree.root);
    }
  }
}
