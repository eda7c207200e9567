// What the invariants of a red-black tree mean for the links a reader of the tree can follow.
module RbTheorems {
  import opened RbNodes
  import opened RbTree

  // the subtree at x, read off the left and right links
  ghost function InOrder(t: Tree, x: Node): seq<Node>
    requires t.Shape() && (x == t.sentinel || x in t.nodes)
    reads t, t.nodes
    decreases if x == t.sentinel then 0 else x.hi - x.lo
  {
    if x == t.sentinel then []
    else
      assert t.LinkOk(x);
      assert x.left != t.sentinel ==> t.LinkOk(x.left);
      assert x.right != t.sentinel ==> t.LinkOk(x.right);
      InOrder(t, x.left) + [x] + InOrder(t, x.right)
  }

  lemma SliceAround<T>(s: seq<T>, lo: int, i: int, hi: int)
    requires 0 <= lo <= i < hi <= |s|
    ensures s[lo..hi] == s[lo..i] + [s[i]] + s[i + 1..hi]
  {
  }

  lemma {:induction false} InOrderIsSlice(t: Tree, x: Node)
    requires t.Shape() && x in t.nodes
    ensures t.LinkOk(x) && InOrder(t, x) == t.order[x.lo..x.hi]
    decreases x.hi - x.lo
  {
    assert t.LinkOk(x) && t.order[x.ix] == x;
    SliceAround(t.order, x.lo, x.ix, x.hi);
    if x.left != t.sentinel { assert t.LinkOk(x.left); InOrderIsSlice(t, x.left); }
    if x.right != t.sentinel { assert t.LinkOk(x.right); InOrderIsSlice(t, x.right); }
  }

  lemma OrderIsInOrder(t: Tree)
    requires t.Shape()
    ensures InOrder(t, t.root) == t.order
  {
    if t.root != t.sentinel { InOrderIsSlice(t, t.root); }
  }

  // every downward path from x to the sentinel meets exactly k black nodes, and no red node on it has a red child
  ghost predicate EveryPath(t: Tree, x: Node, k: int)
    requires t.Shape() && (x == t.sentinel || x in t.nodes)
    reads t, t.nodes, t.sentinel
    decreases if x == t.sentinel then 0 else x.hi - x.lo
  {
    if x == t.sentinel then k == 0
    else
      assert t.LinkOk(x);
      assert x.left != t.sentinel ==> t.LinkOk(x.left);
      assert x.right != t.sentinel ==> t.LinkOk(x.right);
      var below := if x.red then k else k - 1;
      && (x.red ==> !x.left.red && !x.right.red)
      && EveryPath(t, x.left, below) && EveryPath(t, x.right, below)
  }

  lemma {:induction false} PathsAreBalanced(t: Tree, x: Node)
    requires t.Valid() && (x == t.sentinel || x in t.nodes)
    ensures EveryPath(t, x, t.H(x))
    decreases if x == t.sentinel then 0 else x.hi - x.lo
  {
    if x != t.sentinel {
      assert t.LinkOk(x) && t.BlackOk(x) && t.RedOk(x, t.sentinel);
      assert x.left != t.sentinel ==> t.LinkOk(x.left);
      assert x.right != t.sentinel ==> t.LinkOk(x.right);
      PathsAreBalanced(t, x.left);
      PathsAreBalanced(t, x.right);
    }
  }

  ghost function Height(t: Tree, x: Node): nat
    requires t.Shape() && (x == t.sentinel || x in t.nodes)
    reads t, t.nodes
    decreases if x == t.sentinel then 0 else x.hi - x.lo
  {
    if x == t.sentinel then 0
    else
      assert t.LinkOk(x);
      assert x.left != t.sentinel ==> t.LinkOk(x.left);
      assert x.right != t.sentinel ==> t.LinkOk(x.right);
      var l, r := Height(t, x.left), Height(t, x.right);
      1 + (if l < r then r else l)
  }

  function Pow2(n: nat): nat
  {
    if n == 0 then 1 else 2 * Pow2(n - 1)
  }

  // a black height of b forces at least 2^b - 1 nodes and allows a height of at most 2b, 2b + 1 below a red node
  lemma {:induction false} BlackHeightBounds(t: Tree, x: Node)
    requires t.Valid() && x in t.nodes
    ensures t.LinkOk(x) && x.bh >= 0
    ensures Pow2(x.bh) <= x.hi - x.lo + 1
    ensures Height(t, x) <= 2 * x.bh + (if x.red then 1 else 0)
    decreases x.hi - x.lo
  {
    assert t.LinkOk(x) && t.BlackOk(x) && t.RedOk(x, t.sentinel);
    assert Pow2(0) == 1;
    if x.left != t.sentinel { assert t.LinkOk(x.left); BlackHeightBounds(t, x.left); }
    if x.right != t.sentinel { assert t.LinkOk(x.right); BlackHeightBounds(t, x.right); }
  }

  lemma {:induction false} Pow2Adds(a: nat, b: nat)
    ensures Pow2(a + b) == Pow2(a) * Pow2(b)
  {
    if a > 0 { Pow2Adds(a - 1, b); }
  }

  lemma {:induction false} Pow2Grows(a: nat, b: nat)
    requires a <= b
    ensures 1 <= Pow2(a) <= Pow2(b)
    decreases b
  {
    if b > 0 { Pow2Grows(if a < b then a else b - 1, b - 1); }
  }

  lemma SquaresGrow(p: nat, m: nat)
    requires p <= m
    ensures p * p <= m * m
  {
    assert p * p <= p * m;
    assert p * m <= m * m;
  }

  // the height is at most 2 log2 (n + 1)
  lemma HeightIsLogarithmic(t: Tree)
    requires t.Valid()
    ensures Pow2(Height(t, t.root)) <= (|t.order| + 1) * (|t.order| + 1)
  {
    if t.root != t.sentinel {
      BlackHeightBounds(t, t.root);
      var b := t.root.bh;
      Pow2Grows(Height(t, t.root), 2 * b);
      Pow2Adds(b, b);
      SquaresGrow(Pow2(b), |t.order| + 1);
    }
  }
}
