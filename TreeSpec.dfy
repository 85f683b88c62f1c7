/**
  The abstract value of the linked binary tree and the placement rule of
  `BinaryTree.insert`: a new value goes into the first empty child slot of the
  visited node, left before right, and when both slots are full the descent
  continues into the left or the right subtree according to a coin flip.

  The coin flips (`Math.random() < 0.5` in the page) are an explicit oracle:
  `coin(k)` is the outcome of the k-th flip, true meaning "go left", and every
  operation returns the index of the next unused flip.
 */
module TreeSpec {

  datatype Tree = Leaf | Branch(value: string, left: Tree, right: Tree)

  /** A tree holding just `x`: what a freshly created node looks like. */
  function Single(x: string): Tree
  {
    Branch(x, Leaf, Leaf)
  }

  /** Number of nodes. */
  function Size(t: Tree): nat
  {
    match t
    case Leaf => 0
    case Branch(_, l, r) => 1 + Size(l) + Size(r)
  }

  /** The values stored in the nodes, with repetitions. */
  function Values(t: Tree): multiset<string>
  {
    match t
    case Leaf => multiset{}
    case Branch(v, l, r) => multiset{v} + Values(l) + Values(r)
  }

  /** No node has a right child without a left child. */
  predicate LeftFirst(t: Tree)
  {
    match t
    case Leaf => true
    case Branch(_, l, r) => (r.Branch? ==> l.Branch?) && LeftFirst(l) && LeftFirst(r)
  }

  /**
    Where `insert` puts `x` in `t`, and how many coin flips it has used once done
    (counting from `k`). An empty tree gets `x` as its root.
   */
  function InsertSpec(t: Tree, x: string, coin: nat -> bool, k: nat): (Tree, nat)
  {
    match t
    case Leaf => (Single(x), k)
    case Branch(v, l, r) =>
      if l == Leaf then (Branch(v, Single(x), r), k)
      else if r == Leaf then (Branch(v, l, Single(x)), k)
      else if coin(k) then
        var (l', k') := InsertSpec(l, x, coin, k + 1);
        (Branch(v, l', r), k')
      else
        var (r', k') := InsertSpec(r, x, coin, k + 1);
        (Branch(v, l, r'), k')
  }

  /** One step of `InsertSpec` at a node whose two slots are full. */
  lemma InsertSpecDescends(v: string, l: Tree, r: Tree, x: string, coin: nat -> bool, k: nat)
    requires l.Branch? && r.Branch?
    ensures InsertSpec(Branch(v, l, r), x, coin, k) ==
      if coin(k) then (Branch(v, InsertSpec(l, x, coin, k + 1).0, r), InsertSpec(l, x, coin, k + 1).1)
      else (Branch(v, l, InsertSpec(r, x, coin, k + 1).0), InsertSpec(r, x, coin, k + 1).1)
  {
  }

  /**
    The trees that random descent can produce, without the coin: the new leaf
    fills the left slot of the visited node if empty, else its right slot if
    empty, and only a node with both slots full is passed through, into either
    subtree.
   */
  predicate PlacedByDescent(t: Tree, t': Tree, x: string)
  {
    match t
    case Leaf => t' == Single(x)
    case Branch(v, l, r) =>
      if l == Leaf then t' == Branch(v, Single(x), r)
      else if r == Leaf then t' == Branch(v, l, Single(x))
      else
        t'.Branch? && t'.value == v &&
        ((PlacedByDescent(l, t'.left, x) && t'.right == r) ||
         (t'.left == l && PlacedByDescent(r, t'.right, x)))
  }

  /**
    `t'` is `t` with exactly one empty slot (or the empty root) now holding a
    new leaf with value `x`: no existing link is overwritten and every other
    node keeps its value and children.
   */
  predicate AddsOneLeaf(t: Tree, t': Tree, x: string)
  {
    match t
    case Leaf => t' == Single(x)
    case Branch(v, l, r) =>
      t'.Branch? && t'.value == v &&
      ((AddsOneLeaf(l, t'.left, x) && t'.right == r) ||
       (t'.left == l && AddsOneLeaf(r, t'.right, x)))
  }

  /** Whatever the coins say, `insert` places the value by descent, and uses flips only forward. */
  lemma {:induction false} InsertIsDescent(t: Tree, x: string, coin: nat -> bool, k: nat)
    ensures PlacedByDescent(t, InsertSpec(t, x, coin, k).0, x)
    ensures InsertSpec(t, x, coin, k).1 >= k
  {
    match t
    case Leaf =>
    case Branch(v, l, r) =>
      if l != Leaf && r != Leaf {
        if coin(k) {
          InsertIsDescent(l, x, coin, k + 1);
        } else {
          InsertIsDescent(r, x, coin, k + 1);
        }
      }
  }

  /** `insert` reads only the flips from index `k` on. */
  lemma {:induction false} InsertUsesLaterFlips(t: Tree, x: string, c1: nat -> bool, c2: nat -> bool, k: nat)
    requires forall i :: i >= k ==> c1(i) == c2(i)
    ensures InsertSpec(t, x, c1, k) == InsertSpec(t, x, c2, k)
  {
    match t
    case Leaf =>
    case Branch(v, l, r) =>
      if l != Leaf && r != Leaf {
        InsertUsesLaterFlips(l, x, c1, c2, k + 1);
        InsertUsesLaterFlips(r, x, c1, c2, k + 1);
      }
  }

  /**
    Every tree random descent can produce is produced by `insert` for some
    outcome of the coin flips: the coin is the only source of choice.
   */
  lemma {:induction false} DescentIsInsert(t: Tree, t': Tree, x: string, k: nat) returns (coin: nat -> bool)
    requires PlacedByDescent(t, t', x)
    ensures InsertSpec(t, x, coin, k).0 == t'
  {
    coin := (i: nat) => true;
    match t
    case Leaf =>
    case Branch(v, l, r) =>
      if l != Leaf && r != Leaf {
        var goLeft := PlacedByDescent(l, t'.left, x) && t'.right == r;
        var sub := DescentIsInsert(if goLeft then l else r, if goLeft then t'.left else t'.right, x, k + 1);
        coin := (i: nat) => if i == k then goLeft else sub(i);
        InsertUsesLaterFlips(if goLeft then l else r, x, coin, sub, k + 1);
        assert t' == Branch(v, t'.left, t'.right);
      }
  }

  /** Placement by descent only ever adds one leaf. */
  lemma {:induction false} DescentAddsOneLeaf(t: Tree, t': Tree, x: string)
    requires PlacedByDescent(t, t', x)
    ensures AddsOneLeaf(t, t', x)
  {
    match t
    case Leaf =>
    case Branch(v, l, r) =>
      if l == Leaf {
        assert AddsOneLeaf(l, t'.left, x);
      } else if r == Leaf {
        assert AddsOneLeaf(r, t'.right, x);
      } else if PlacedByDescent(l, t'.left, x) && t'.right == r {
        DescentAddsOneLeaf(l, t'.left, x);
      } else {
        DescentAddsOneLeaf(r, t'.right, x);
      }
  }

  /** Adding one leaf adds one node and one occurrence of its value. */
  lemma {:induction false} AddsOneLeafCounts(t: Tree, t': Tree, x: string)
    requires AddsOneLeaf(t, t', x)
    ensures Size(t') == Size(t) + 1
    ensures Values(t') == Values(t) + multiset{x}
  {
    match t
    case Leaf =>
    case Branch(v, l, r) =>
      if AddsOneLeaf(l, t'.left, x) && t'.right == r {
        AddsOneLeafCounts(l, t'.left, x);
      } else {
        AddsOneLeafCounts(r, t'.right, x);
      }
  }

  /** Placement by descent keeps "left before right" everywhere. */
  lemma {:induction false} DescentKeepsLeftFirst(t: Tree, t': Tree, x: string)
    requires LeftFirst(t) && PlacedByDescent(t, t', x)
    ensures LeftFirst(t')
  {
    match t
    case Leaf =>
    case Branch(v, l, r) =>
      if l != Leaf && r != Leaf {
        if PlacedByDescent(l, t'.left, x) && t'.right == r {
          DescentKeepsLeftFirst(l, t'.left, x);
        } else {
          DescentKeepsLeftFirst(r, t'.right, x);
        }
      }
  }

  /**
    One insertion: exactly one new leaf holding `x`, one more node, one more
    occurrence of `x`, "left before right" kept, and the root value unchanged
    unless the tree was empty.
   */
  lemma {:induction false} InsertAddsOneLeaf(t: Tree, x: string, coin: nat -> bool, k: nat)
    requires LeftFirst(t)
    ensures var t' := InsertSpec(t, x, coin, k).0;
      && AddsOneLeaf(t, t', x)
      && Size(t') == Size(t) + 1
      && Values(t') == Values(t) + multiset{x}
      && LeftFirst(t')
      && t'.Branch?
      && t'.value == (if t.Leaf? then x else t.value)
  {
    var t' := InsertSpec(t, x, coin, k).0;
    InsertIsDescent(t, x, coin, k);
    DescentAddsOneLeaf(t, t', x);
    AddsOneLeafCounts(t, t', x);
    DescentKeepsLeftFirst(t, t', x);
  }

  /**
    The tree the build loop produces from `values` (inserted in input order,
    starting from an empty tree and the first coin flip), with the index of the
    next unused flip.
   */
  function BuildSpec(values: seq<string>, coin: nat -> bool): (Tree, nat)
  {
    if values == [] then (Leaf, 0)
    else
      var (t, k) := BuildSpec(values[..|values| - 1], coin);
      InsertSpec(t, values[|values| - 1], coin, k)
  }

  /**
    Building from N tokens gives N nodes whose values are exactly the tokens,
    "left before right" everywhere, and the first token at the root.
   */
  lemma {:induction false} BuildContents(values: seq<string>, coin: nat -> bool)
    ensures var t := BuildSpec(values, coin).0;
      && Size(t) == |values|
      && Values(t) == multiset(values)
      && LeftFirst(t)
      && (values == [] <==> t == Leaf)
      && (values != [] ==> t.value == values[0])
  {
    if values != [] {
      var front := values[..|values| - 1];
      var (t, k) := BuildSpec(front, coin);
      BuildContents(front, coin);
      InsertAddsOneLeaf(t, values[|values| - 1], coin, k);
      assert values == front + [values[|values| - 1]];
      if front != [] {
        assert front[0] == values[0];
      }
    }
  }

  /**
    With one to three tokens the shape is forced, whatever the coins: the first
    is the root, the second its left child, the third its right child.
   */
  lemma BuildUpToThree(values: seq<string>, coin: nat -> bool)
    requires 1 <= |values| <= 3
    ensures BuildSpec(values, coin).0 ==
      Branch(values[0],
             if |values| >= 2 then Single(values[1]) else Leaf,
             if |values| == 3 then Single(values[2]) else Leaf)
  {
    assert BuildSpec(values[..1], coin) == (Single(values[0]), 0);
    if |values| >= 2 {
      assert BuildSpec(values[..2], coin) == (Branch(values[0], Single(values[1]), Leaf), 0);
      if |values| == 3 {
        assert values[..3] == values;
      } else {
        assert values[..2] == values;
      }
    } else {
      assert values[..1] == values;
    }
  }
}
