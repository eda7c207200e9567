// The red-black tree: rotations, insertion and deletion with their fixup loops, and the successor.
module RbNodes {
  import opened Base

  class Node {
    var key: uint64
    var left: Node?
    var right: Node?
    var parent: Node?
    var red: bool
    var str: seq<byte>

    // position in the in-order sequence, the slice [lo, hi) of that sequence held by the subtree,
    // and the number of black nodes on every path down to the sentinel
    ghost var ix: int
    ghost var lo: int
    ghost var hi: int
    ghost var bh: int

    constructor () { }

    function Content(): Item
      reads this`key, this`str
    {
      Item(key, str)
    }
  }

  // what a comparator looks at: the key, and the string of a node embedded in a string node
  datatype Item = Item(key: uint64, str: seq<byte>)

  // the three insertion callbacks that are plugged into a tree
  datatype Comparator = ByKey | ByTimer | ByString

  function Signed(k: uint64): int
  {
    if k < 0x8000_0000_0000_0000 then k else k - 0x1_0000_0000_0000_0000
  }

  // the difference of two unsigned 64-bit words, read back as a signed word
  function SignedDiff(a: uint64, b: uint64): int
  {
    Signed((a - b) % 0x1_0000_0000_0000_0000)
  }

  function MemCmp(a: seq<byte>, b: seq<byte>): int
    requires |a| == |b|
  {
    if a == [] then 0
    else if a[0] != b[0] then a[0] - b[0]
    else MemCmp(a[1..], b[1..])
  }

  // whether an insertion callback sends node a into the left subtree of node b
  predicate Less(how: Comparator, a: Item, b: Item)
  {
    match how
    case ByKey => a.key < b.key
    case ByTimer => SignedDiff(a.key, b.key) < 0
    case ByString =>
      if a.key != b.key then a.key < b.key
      else if |a.str| != |b.str| then |a.str| < |b.str|
      else MemCmp(a.str, b.str) < 0
  }
}

module RbTree {
  import opened Base
  import opened RbNodes

  class Tree {
    var root: Node
    const sentinel: Node
    const insert: Comparator
    ghost var order: seq<Node>
    ghost var nodes: set<Node>

    constructor (s: Node, i: Comparator)
      modifies s`red
      ensures sentinel == s && insert == i && order == [] && nodes == {}
      ensures Valid()
    {
      sentinel := s;
      insert := i;
      root := s;
      order, nodes := [], {};
      new;
      s.red := false;
    }

    // the left child holds the part of n's slice before n, the right child the part after n
    ghost predicate LeftOk(n: Node)
      requires n in nodes
      reads this, nodes`left, nodes`right, nodes`parent, nodes`ix, nodes`lo, nodes`hi
    {
      && n.left != null
      && (if n.lo == n.ix then n.left == sentinel
          else n.left in nodes && n.left.parent == n && n.left.lo == n.lo && n.left.hi == n.ix)
    }

    ghost predicate RightOk(n: Node)
      requires n in nodes
      reads this, nodes`left, nodes`right, nodes`parent, nodes`ix, nodes`lo, nodes`hi
    {
      && n.right != null
      && (if n.ix + 1 == n.hi then n.right == sentinel
          else n.right in nodes && n.right.parent == n && n.right.lo == n.ix + 1 && n.right.hi == n.hi)
    }

    // the root's parent link is never followed and may be stale
    ghost predicate UpOk(n: Node)
      requires n in nodes
      reads this, nodes`left, nodes`right, nodes`parent, nodes`ix, nodes`lo, nodes`hi
    {
      n == root || (n.parent != null && n.parent in nodes && (n.parent.left == n || n.parent.right == n))
    }

    ghost predicate LinkOk(n: Node)
      requires n in nodes
      reads this, nodes`left, nodes`right, nodes`parent, nodes`ix, nodes`lo, nodes`hi
    {
      && 0 <= n.lo <= n.ix < n.hi <= |order|
      && LeftOk(n) && RightOk(n) && UpOk(n)
    }

    ghost predicate Indexed()
      reads this, nodes`ix
    {
      && (forall i :: 0 <= i < |order| ==> order[i] in nodes && order[i].ix == i)
      && (forall n :: n in nodes ==> 0 <= n.ix < |order| && order[n.ix] == n)
    }

    ghost predicate Shape()
      reads this, nodes`left, nodes`right, nodes`parent, nodes`ix, nodes`lo, nodes`hi
    {
      && sentinel !in nodes
      && Indexed()
      && (if nodes == {} then root == sentinel && order == [] else root in nodes && root.lo == 0 && root.hi == |order|)
      && (forall n {:trigger LinkOk(n)} :: n in nodes ==> LinkOk(n))
    }

    // ---------- rotations ----------

    // n's links, when every child slot that held x now holds y and the moved subtree hangs below p
    twostate predicate Relinked(n: Node, x: Node, y: Node, moved: Node?, p: Node)
      reads n
    {
      && n.left == (if old(n.left) == x then y else old(n.left))
      && n.right == (if old(n.right) == x then y else old(n.right))
      && n.parent == (if n == moved then p else old(n.parent))
      && n.lo == old(n.lo) && n.hi == old(n.hi) && n.ix == old(n.ix)
    }

    // The links after a left rotation that lifts y, the right child of x, over x.
    twostate predicate RotatedLeft(x: Node)
      requires old(Shape()) && x in old(nodes) && old(x.right) in old(nodes)
      reads this, nodes
    {
      var y := old(x.right);
      && order == old(order) && nodes == old(nodes)
      && root == (if old(root) == x then y else old(root))
      && x.left == old(x.left) && x.right == old(y.left) && x.parent == y
      && x.lo == old(x.lo) && x.hi == y.ix && x.ix == old(x.ix)
      && y.left == x && y.right == old(y.right) && y.parent == old(x.parent)
      && y.lo == old(x.lo) && y.hi == old(y.hi) && y.ix == old(y.ix)
      && (forall n {:trigger Relinked(n, x, y, old(y.left), x)} :: n in nodes && n != x && n != y ==>
            Relinked(n, x, y, old(y.left), x))
    }

    twostate lemma LeftRotationKeepsShape(x: Node)
      requires old(Shape()) && x in old(nodes) && old(x.right) != sentinel
      requires old(LinkOk(x)) && RotatedLeft(x)
      ensures Shape()
    {
      var y := old(x.right);
      assert old(LinkOk(x) && LinkOk(y));
      forall n | n in nodes
        ensures LinkOk(n) && n.ix == old(n.ix)
      {
        assert old(LinkOk(n));
        if n != x && n != y { assert Relinked(n, x, y, old(y.left), x); }
        var l, r, p := n.left, n.right, n.parent;
        if l in nodes && l != x && l != y { assert Relinked(l, x, y, old(y.left), x); }
        if r in nodes && r != x && r != y { assert Relinked(r, x, y, old(y.left), x); }
        if p != null && p in nodes && p != x && p != y { assert Relinked(p, x, y, old(y.left), x); }
        if n != old(root) { assert old(LinkOk(n.parent)); }
      }
      if root != x && root != y { assert Relinked(root, x, y, old(y.left), x); }
    }

    // The links after a right rotation that lifts y, the left child of x, over x.
    twostate predicate RotatedRight(x: Node)
      requires old(Shape()) && x in old(nodes) && old(x.left) in old(nodes)
      reads this, nodes
    {
      var y := old(x.left);
      && order == old(order) && nodes == old(nodes)
      && root == (if old(root) == x then y else old(root))
      && x.right == old(x.right) && x.left == old(y.right) && x.parent == y
      && x.hi == old(x.hi) && x.lo == y.ix + 1 && x.ix == old(x.ix)
      && y.right == x && y.left == old(y.left) && y.parent == old(x.parent)
      && y.lo == old(y.lo) && y.hi == old(x.hi) && y.ix == old(y.ix)
      && (forall n {:trigger Relinked(n, x, y, old(y.right), x)} :: n in nodes && n != x && n != y ==>
            Relinked(n, x, y, old(y.right), x))
    }

    twostate lemma RightRotationKeepsShape(x: Node)
      requires old(Shape()) && x in old(nodes) && old(x.left) != sentinel
      requires old(LinkOk(x)) && RotatedRight(x)
      ensures Shape()
    {
      var y := old(x.left);
      assert old(LinkOk(x) && LinkOk(y));
      forall n | n in nodes
        ensures LinkOk(n) && n.ix == old(n.ix)
      {
        assert old(LinkOk(n));
        if n != x && n != y { assert Relinked(n, x, y, old(y.right), x); }
        var l, r, p := n.right, n.left, n.parent;
        if l in nodes && l != x && l != y { assert Relinked(l, x, y, old(y.right), x); }
        if r in nodes && r != x && r != y { assert Relinked(r, x, y, old(y.right), x); }
        if p != null && p in nodes && p != x && p != y { assert Relinked(p, x, y, old(y.right), x); }
        if n != old(root) { assert old(LinkOk(n.parent)); }
      }
      if root != x && root != y { assert Relinked(root, x, y, old(y.right), x); }
    }

    // The slot that held node - the root or a child field of its parent - now holds temp.
    method ReplaceChild(node: Node, temp: Node)
      requires Shape() && node in nodes
      modifies `root, nodes`left, nodes`right
      ensures root == (if old(root) == node then temp else old(root))
      ensures forall n :: n in nodes ==> n.left == (if old(n.left) == node then temp else old(n.left))
      ensures forall n :: n in nodes ==> n.right == (if old(n.right) == node then temp else old(n.right))
    {
      assert LinkOk(node);
      assert node != root ==> LinkOk(node.parent);
      forall n | n in nodes
        ensures n.left == node || n.right == node ==> node != root && n == node.parent && (n.left == node ==> n.right != node)
      {
        assert LinkOk(n);
      }
      if node == root {
        root := temp;
      } else if node == node.parent.left {
        node.parent.left := temp;
      } else {
        node.parent.right := temp;
      }
    }

    method LeftRotate(node: Node)
      requires Shape() && node in nodes && node.right != sentinel
      modifies `root, nodes`left, nodes`right, nodes`parent, nodes`lo, nodes`hi
      ensures old(node.right) in nodes && old(LinkOk(node)) && Shape() && RotatedLeft(node)
    {
      var temp := node.right;
      assert LinkOk(node);
      assert LinkOk(temp);
      ReplaceChild(node, temp);
      node.right := temp.left;
      if temp.left != sentinel {
        temp.left.parent := node;
      }
      temp.parent := node.parent;
      temp.left := node;
      node.parent := temp;
      temp.lo := node.lo;
      node.hi := temp.ix;
      LeftRotationKeepsShape(node);
    }

    method RightRotate(node: Node)
      requires Shape() && node in nodes && node.left != sentinel
      modifies `root, nodes`right, nodes`left, nodes`parent, nodes`lo, nodes`hi
      ensures old(node.left) in nodes && old(LinkOk(node)) && Shape() && RotatedRight(node)
    {
      var temp := node.left;
      assert LinkOk(node);
      assert LinkOk(temp);
      ReplaceChild(node, temp);
      node.left := temp.right;
      if temp.right != sentinel {
        temp.right.parent := node;
      }
      temp.parent := node.parent;
      temp.right := node;
      node.parent := temp;
      temp.hi := node.hi;
      node.lo := temp.ix + 1;
      RightRotationKeepsShape(node);
    }

    // ---------- colours ----------

    ghost function H(c: Node): int
      reads c`bh
    {
      if c == sentinel then 0 else c.bh
    }

    ghost predicate BlackOk(n: Node)
      reads n, n.left, n.right
    {
      && n.left != null && n.right != null
      && H(n.left) == H(n.right) >= 0
      && n.bh == H(n.left) + (if n.red then 0 else 1)
    }

    ghost predicate BlackAll()
      reads this, nodes, set n <- nodes :: n.left, set n <- nodes :: n.right
    {
      forall n {:trigger BlackOk(n)} :: n in nodes ==> BlackOk(n)
    }

    // a red node has black children, except that x may be red below a red parent
    ghost predicate RedOk(n: Node, x: Node)
      reads n, n.left, n.right
    {
      && n.left != null && n.right != null
      && (n.red ==> (n.left.red ==> n.left == x) && (n.right.red ==> n.right == x))
    }

    ghost predicate RedAllBut(x: Node)
      reads this, nodes, set n <- nodes :: n.left, set n <- nodes :: n.right
    {
      forall n {:trigger RedOk(n, x)} :: n in nodes ==> RedOk(n, x)
    }

    twostate predicate SameColour(n: Node)
      reads n
    {
      n.red == old(n.red) && n.bh == old(n.bh)
    }

    // x and its child y exchanged colours and black heights
    twostate predicate Swapped(x: Node, y: Node)
      reads this, nodes
    {
      && nodes == old(nodes) && x in nodes && y in nodes
      && x.red == old(y.red) && x.bh == old(y.bh)
      && y.red == old(x.red) && y.bh == old(x.bh)
      && (forall n {:trigger SameColour(n)} :: n in nodes && n != x && n != y ==> SameColour(n))
    }

    twostate lemma LeftRotationKeepsBlack(x: Node)
      requires old(Shape()) && old(BlackAll()) && x in old(nodes) && old(x.right) != sentinel
      requires old(LinkOk(x)) && RotatedLeft(x) && old(x.right.red)
      requires Swapped(x, old(x.right))
      ensures BlackAll()
    {
      var y := old(x.right);
      assert old(LinkOk(y) && BlackOk(x) && BlackOk(y));
      forall n | n in nodes
        ensures BlackOk(n)
      {
        assert old(LinkOk(n) && BlackOk(n));
        if n != x && n != y { assert Relinked(n, x, y, old(y.left), x); assert SameColour(n); }
        var l, r := n.left, n.right;
        if l in nodes && l != x && l != y { assert SameColour(l); }
        if r in nodes && r != x && r != y { assert SameColour(r); }
      }
    }

    twostate lemma RightRotationKeepsBlack(x: Node)
      requires old(Shape()) && old(BlackAll()) && x in old(nodes) && old(x.left) != sentinel
      requires old(LinkOk(x)) && RotatedRight(x) && old(x.left.red)
      requires Swapped(x, old(x.left))
      ensures BlackAll()
    {
      var y := old(x.left);
      assert old(LinkOk(y) && BlackOk(x) && BlackOk(y));
      forall n | n in nodes
        ensures BlackOk(n)
      {
        assert old(LinkOk(n) && BlackOk(n));
        if n != x && n != y { assert Relinked(n, x, y, old(y.right), x); assert SameColour(n); }
        var l, r := n.right, n.left;
        if l in nodes && l != x && l != y { assert SameColour(l); }
        if r in nodes && r != x && r != y { assert SameColour(r); }
      }
    }

    // Every red-black invariant: the root and the sentinel are black, no red node has a red child
    // and all paths from a node down to the sentinel meet the same number of black nodes.
    ghost predicate Valid()
      reads this, nodes, sentinel, set n <- nodes :: n.left, set n <- nodes :: n.right
    {
      && Shape() && BlackAll() && RedAllBut(sentinel) && !sentinel.red
      && (root == sentinel || (root in nodes && !root.red))
    }

    // ---------- insertion ----------

    // the loop invariant of the insertion fixup: only node may be red below a red parent
    ghost predicate InsertInv(node: Node)
      reads this, nodes, sentinel, set n <- nodes :: n.left, set n <- nodes :: n.right
    {
      && Shape() && BlackAll() && RedAllBut(node) && !sentinel.red
      && node in nodes && node.red
      && (root.red ==> root == node)
    }

    ghost function Climb(node: Node): int
      requires Shape() && node in nodes
      reads this, nodes
    {
      assert LinkOk(node);
      if node == root || !node.parent.red then 0 else 1 + |order| - (node.hi - node.lo)
    }

    // a red parent and its red sibling turned black, the grandparent red
    twostate predicate Repainted(g: Node)
      reads this, nodes, sentinel, g, g.left, g.right
    {
      && nodes == old(nodes) && g.left != null && g.right != null
      && g.left == old(g.left) && g.right == old(g.right)
      && g.red && g.bh == old(g.bh)
      && !g.left.red && !g.right.red && g.left.bh == old(g.left.bh + 1) && g.right.bh == old(g.right.bh + 1)
      && (forall n {:trigger SameColour(n)} :: n in nodes && n != g && n != g.left && n != g.right ==> SameColour(n))
      && sentinel.red == old(sentinel.red)
    }

    twostate lemma RepaintKeepsInv(node: Node)
      requires old(InsertInv(node)) && node != old(root) && old(LinkOk(node)) && old(node.parent.red && node.parent != root)
      requires old(LinkOk(node.parent) && LinkOk(node.parent.parent))
      requires Shape() && order == old(order) && nodes == old(nodes) && root == old(root)
      requires forall n :: n in nodes ==> n.left == old(n.left) && n.right == old(n.right)
      requires old(node.parent.parent.left.red && node.parent.parent.right.red)
      requires Repainted(old(node.parent.parent))
      ensures InsertInv(old(node.parent.parent))
    {
      var g := old(node.parent.parent);
      assert old(BlackOk(g) && RedOk(g, node));
      forall n | n in nodes
        ensures BlackOk(n) && RedOk(n, g)
      {
        assert old(LinkOk(n) && BlackOk(n) && RedOk(n, node));
        if n != g && n != g.left && n != g.right { assert SameColour(n); }
        var l, r := n.left, n.right;
        if l in nodes && n != g && l != g { assert SameColour(l); }
        if r in nodes && n != g && r != g { assert SameColour(r); }
      }
      if root != g { assert SameColour(root); }
    }

    // The inner rotation: p and its right child q are both red.
    twostate lemma InnerLeftKeepsInv(p: Node)
      requires p in old(nodes) && old(Shape() && LinkOk(p)) && old(p.right) != sentinel && old(InsertInv(p.right))
      requires p.red && p != old(root) && RotatedLeft(p) && Shape()
      requires p.bh == old(p.right.bh)
      requires forall n {:trigger SameColour(n)} :: n in nodes ==> SameColour(n)
      requires sentinel.red == old(sentinel.red)
      ensures InsertInv(p)
    {
      var q := old(p.right);
      assert old(LinkOk(q)) && SameColour(p) && SameColour(q);
      LeftRotationKeepsBlack(p);
      assert old(RedOk(p, q) && RedOk(q, q));
      forall n | n in nodes
        ensures RedOk(n, p)
      {
        assert old(LinkOk(n) && RedOk(n, q)) && SameColour(n);
        if n != p && n != q { assert Relinked(n, p, q, old(q.left), p); }
        var l, r := n.left, n.right;
        if l in nodes { assert SameColour(l); }
        if r in nodes { assert SameColour(r); }
      }
      assert SameColour(root);
    }

    // The inner rotation: p and its left child q are both red.
    twostate lemma InnerRightKeepsInv(p: Node)
      requires p in old(nodes) && old(Shape() && LinkOk(p)) && old(p.left) != sentinel && old(InsertInv(p.left))
      requires p.red && p != old(root) && RotatedRight(p) && Shape()
      requires p.bh == old(p.left.bh)
      requires forall n {:trigger SameColour(n)} :: n in nodes ==> SameColour(n)
      requires sentinel.red == old(sentinel.red)
      ensures InsertInv(p)
    {
      var q := old(p.left);
      assert old(LinkOk(q)) && SameColour(p) && SameColour(q);
      RightRotationKeepsBlack(p);
      assert old(RedOk(p, q) && RedOk(q, q));
      forall n | n in nodes
        ensures RedOk(n, p)
      {
        assert old(LinkOk(n) && RedOk(n, q)) && SameColour(n);
        if n != p && n != q { assert Relinked(n, p, q, old(q.right), p); }
        var l, r := n.right, n.left;
        if l in nodes { assert SameColour(l); }
        if r in nodes { assert SameColour(r); }
      }
      assert SameColour(root);
    }

    // The outer rotation: the red parent is lifted over the grandparent g, whose other child is black.
    twostate lemma OuterRightKeepsInv(g: Node)
      requires g in old(nodes) && old(Shape() && LinkOk(g)) && old(g.left) in old(nodes) && old(LinkOk(g.left))
      requires old(g.left.left) in old(nodes) && old(InsertInv(g.left.left)) && old(g.left.red && !g.red && !g.right.red)
      requires RotatedRight(g) && Shape() && Swapped(g, old(g.left))
      requires sentinel.red == old(sentinel.red)
      ensures InsertInv(old(g.left.left)) && old(g.left.left).parent == old(g.left) && !old(g.left).red
    {
      var p, x := old(g.left), old(g.left.left);
      assert old(LinkOk(x)) && SameColour(x) && Relinked(x, g, p, old(p.right), g);
      RightRotationKeepsBlack(g);
      assert old(RedOk(p, x) && RedOk(x, x));
      forall n | n in nodes
        ensures RedOk(n, x)
      {
        assert old(LinkOk(n) && RedOk(n, x));
        if n != g && n != p { assert SameColour(n) && Relinked(n, g, p, old(p.right), g); }
        var l, r := n.left, n.right;
        if l in nodes && l != g && l != p { assert SameColour(l); }
        if r in nodes && r != g && r != p { assert SameColour(r); }
      }
      if root != g && root != p { assert SameColour(root); }
    }

    // The outer rotation: the red parent is lifted over the grandparent g, whose other child is black.
    twostate lemma OuterLeftKeepsInv(g: Node)
      requires g in old(nodes) && old(Shape() && LinkOk(g)) && old(g.right) in old(nodes) && old(LinkOk(g.right))
      requires old(g.right.right) in old(nodes) && old(InsertInv(g.right.right)) && old(g.right.red && !g.red && !g.left.red)
      requires RotatedLeft(g) && Shape() && Swapped(g, old(g.right))
      requires sentinel.red == old(sentinel.red)
      ensures InsertInv(old(g.right.right)) && old(g.right.right).parent == old(g.right) && !old(g.right).red
    {
      var p, x := old(g.right), old(g.right.right);
      assert old(LinkOk(x)) && SameColour(x) && Relinked(x, g, p, old(p.left), g);
      LeftRotationKeepsBlack(g);
      assert old(RedOk(p, x) && RedOk(x, x));
      forall n | n in nodes
        ensures RedOk(n, x)
      {
        assert old(LinkOk(n) && RedOk(n, x));
        if n != g && n != p { assert SameColour(n) && Relinked(n, g, p, old(p.left), g); }
        var l, r := n.right, n.left;
        if l in nodes && l != g && l != p { assert SameColour(l); }
        if r in nodes && r != g && r != p { assert SameColour(r); }
      }
      if root != g && root != p { assert SameColour(root); }
    }

    // node, its parent and its grandparent lean left; the parent is lifted over the grandparent
    method LiftRight(node: Node)
      requires InsertInv(node) && node != root && LinkOk(node) && node.parent.red && node == node.parent.left
      requires LinkOk(node.parent) && node.parent != root && node.parent == node.parent.parent.left
      requires node.parent.parent.right != null && !node.parent.parent.right.red
      modifies `root, nodes`left, nodes`right, nodes`parent, nodes`red, nodes`lo, nodes`hi, nodes`bh
      ensures InsertInv(node) && node.parent != null && !node.parent.red
    {
      ghost var g, p := node.parent.parent, node.parent;
      assert !g.red && p != g && g.left == p by {
        assert LinkOk(g) && RedOk(g, node);
      }
      node.parent.red := false;
      node.parent.parent.red := true;
      g.bh, p.bh := p.bh, g.bh;
      label painted:
      RightRotate(node.parent.parent);
      forall n | n in nodes && n != g && n != p
        ensures Relinked(n, g, p, old(p.right), g)
      {
        assert Relinked@painted(n, g, p, old(p.right), g);
      }
      OuterRightKeepsInv(g);
    }

    // node, its parent and its grandparent lean right; the parent is lifted over the grandparent
    method LiftLeft(node: Node)
      requires InsertInv(node) && node != root && LinkOk(node) && node.parent.red && node == node.parent.right
      requires LinkOk(node.parent) && node.parent != root && node.parent == node.parent.parent.right
      requires node.parent.parent.left != null && !node.parent.parent.left.red
      modifies `root, nodes`right, nodes`left, nodes`parent, nodes`red, nodes`lo, nodes`hi, nodes`bh
      ensures InsertInv(node) && node.parent != null && !node.parent.red
    {
      ghost var g, p := node.parent.parent, node.parent;
      assert !g.red && p != g && g.right == p by {
        assert LinkOk(g) && RedOk(g, node);
      }
      node.parent.red := false;
      node.parent.parent.red := true;
      g.bh, p.bh := p.bh, g.bh;
      label painted:
      LeftRotate(node.parent.parent);
      forall n | n in nodes && n != g && n != p
        ensures Relinked(n, g, p, old(p.left), g)
      {
        assert Relinked@painted(n, g, p, old(p.left), g);
      }
      OuterLeftKeepsInv(g);
    }

    method PaintFamily(p: Node, temp: Node, g: Node)
      requires p in nodes && temp in nodes && g in nodes && p != temp && p != g && temp != g
      modifies p`red, temp`red, g`red, p`bh, temp`bh
      ensures g.red && !p.red && !temp.red && p.bh == old(p.bh) + 1 && temp.bh == old(temp.bh) + 1
      ensures forall n {:trigger SameColour(n)} :: n in nodes && n != p && n != temp && n != g ==> SameColour(n)
    {
      p.red := false;
      temp.red := false;
      g.red := true;
      p.bh, temp.bh := p.bh + 1, temp.bh + 1;
    }

    // node's parent and its sibling temp are red: recolour and carry on at the grandparent
    method Repaint(node: Node, temp: Node) returns (next: Node)
      requires InsertInv(node) && node != root && LinkOk(node) && node.parent.red && node.parent != root
      requires LinkOk(node.parent) && LinkOk(node.parent.parent) && temp in nodes && temp.red && temp != node.parent
      requires temp == node.parent.parent.left || temp == node.parent.parent.right
      modifies nodes`red, nodes`bh
      ensures InsertInv(next) && Climb(next) < old(Climb(node))
    {
      next := node.parent.parent;
      PaintFamily(node.parent, temp, node.parent.parent);
      RepaintKeepsInv(node);
    }

    method InsertFixupLeft(node: Node) returns (next: Node)
      requires InsertInv(node) && node != root && LinkOk(node) && node.parent.red
      requires LinkOk(node.parent) && node.parent != root && node.parent == node.parent.parent.left
      modifies `root, nodes`left, nodes`right, nodes`parent, nodes`red, nodes`lo, nodes`hi, nodes`bh
      ensures InsertInv(next) && Climb(next) < old(Climb(node))
    {
      next := node;
      var temp := node.parent.parent.right;
      assert LinkOk(node.parent.parent);
      ghost var g := node.parent.parent;
      if temp.red {
        next := Repaint(node, temp);
      } else {
        if next == node.parent.right {
          next := node.parent;
          assert BlackOk(next) && BlackOk(node);
          LeftRotate(next);
          InnerLeftKeepsInv(next);
          assert Relinked(g, next, node, old(node.left), next);
          assert LinkOk(node);
        }
        assert LinkOk(next);
        LiftRight(next);
      }
    }

    method InsertFixupRight(node: Node) returns (next: Node)
      requires InsertInv(node) && node != root && LinkOk(node) && node.parent.red
      requires LinkOk(node.parent) && node.parent != root && node.parent == node.parent.parent.right
      modifies `root, nodes`right, nodes`left, nodes`parent, nodes`red, nodes`lo, nodes`hi, nodes`bh
      ensures InsertInv(next) && Climb(next) < old(Climb(node))
    {
      next := node;
      var temp := node.parent.parent.left;
      assert LinkOk(node.parent.parent);
      ghost var g := node.parent.parent;
      if temp.red {
        next := Repaint(node, temp);
      } else {
        if next == node.parent.left {
          next := node.parent;
          assert BlackOk(next) && BlackOk(node);
          RightRotate(next);
          InnerRightKeepsInv(next);
          assert Relinked(g, next, node, old(node.right), next);
          assert LinkOk(node);
        }
        assert LinkOk(next);
        LiftLeft(next);
      }
    }

    // n's place in the order after one more node was put at position k; a slice that merely touches
    // the gap at k grows on its right end only when the new node is a right child
    twostate predicate Shifted(n: Node, k: int, asLeft: bool)
      reads n
    {
      && n.ix == old(n.ix) + (if old(n.ix) >= k then 1 else 0)
      && n.lo == old(n.lo) + (if old(n.lo) > k || (old(n.lo) == k && !asLeft) then 1 else 0)
      && n.hi == old(n.hi) + (if old(n.hi) > k || (old(n.hi) == k && !asLeft) then 1 else 0)
    }

    twostate predicate Planted(node: Node, k: int, asLeft: bool)
      reads this, nodes
    {
      && node !in old(nodes) && nodes == old(nodes) + {node} && root == old(root)
      && node.parent != null && node.parent in old(nodes)
      && 0 <= k <= |old(order)| && order == old(order)[..k] + [node] + old(order)[k..]
      && node.left == sentinel && node.right == sentinel
      && node.lo == k && node.ix == k && node.hi == k + 1
      && (var p: Node := node.parent;
          if asLeft then old(p.left) == sentinel && k == old(p.ix) && p.left == node && p.right == old(p.right)
          else old(p.right) == sentinel && k == old(p.ix) + 1 && p.right == node && p.left == old(p.left))
      && (forall n {:trigger Shifted(n, k, asLeft)} :: n in old(nodes) ==>
            Shifted(n, k, asLeft) && n.parent == old(n.parent)
            && (n == node.parent || (n.left == old(n.left) && n.right == old(n.right))))
    }

    twostate lemma PlantingKeepsIndex(node: Node)
      requires old(Shape())
      requires node.parent != null && Planted(node, node.ix, node.parent.left == node)
      ensures Indexed()
    {
      var k, asLeft := node.ix, node.parent.left == node;
      forall i | 0 <= i < |order|
        ensures order[i] in nodes && order[i].ix == i
      {
        if i < k { assert order[i] == old(order)[i] && Shifted(order[i], k, asLeft); }
        if i > k { assert order[i] == old(order)[i - 1] && Shifted(order[i], k, asLeft); }
      }
      forall n | n in nodes
        ensures 0 <= n.ix < |order| && order[n.ix] == n
      {
        if n != node { assert Shifted(n, k, asLeft); }
      }
    }

    twostate lemma PlantingKeepsShape(node: Node)
      requires old(Shape()) && node != sentinel
      requires node.parent != null && Planted(node, node.ix, node.parent.left == node)
      ensures Shape()
    {
      var p: Node, k, asLeft := node.parent, node.ix, node.parent.left == node;
      assert old(LinkOk(p)) && Shifted(p, k, asLeft) && Shifted(root, k, asLeft);
      forall n | n in nodes
        ensures LinkOk(n)
      {
        if n != node {
          assert old(LinkOk(n)) && Shifted(n, k, asLeft);
          var l, r, q := n.left, n.right, n.parent;
          if l in old(nodes) { assert Shifted(l, k, asLeft); }
          if r in old(nodes) { assert Shifted(r, k, asLeft); }
          if q != null && q in old(nodes) { assert Shifted(q, k, asLeft); }
        }
      }
      PlantingKeepsIndex(node);
    }

    twostate lemma PlantingKeepsColours(node: Node)
      requires old(Valid()) && node != sentinel
      requires node.parent != null && Planted(node, node.ix, node.parent.left == node) && Shape()
      requires node.red && node.bh == 0 && !sentinel.red
      requires forall n {:trigger SameColour(n)} :: n in old(nodes) ==> SameColour(n)
      ensures InsertInv(node)
    {
      var k, asLeft := node.ix, node.parent.left == node;
      assert SameColour(root);
      forall n | n in nodes
        ensures BlackOk(n) && RedOk(n, node)
      {
        if n != node {
          assert old(LinkOk(n) && BlackOk(n) && RedOk(n, sentinel)) && SameColour(n) && Shifted(n, k, asLeft);
          var l, r := n.left, n.right;
          if l in old(nodes) { assert SameColour(l); }
          if r in old(nodes) { assert SameColour(r); }
        }
      }
    }

    ghost method MakeRoom(node: Node, k: int, asLeft: bool)
      requires node !in nodes && 0 <= k <= |order|
      modifies `order, `nodes, nodes`ix, nodes`lo, nodes`hi, node`lo, node`ix, node`hi, node`bh
      ensures order == old(order)[..k] + [node] + old(order)[k..] && nodes == old(nodes) + {node}
      ensures node.lo == k && node.ix == k && node.hi == k + 1 && node.bh == 0
      ensures forall n {:trigger n.ix} :: n in old(nodes) ==> n.ix == old(n.ix) + (if old(n.ix) >= k then 1 else 0)
      ensures forall n {:trigger n.lo} :: n in old(nodes) ==>
                n.lo == old(n.lo) + (if old(n.lo) > k || (old(n.lo) == k && !asLeft) then 1 else 0)
      ensures forall n {:trigger n.hi} :: n in old(nodes) ==>
                n.hi == old(n.hi) + (if old(n.hi) > k || (old(n.hi) == k && !asLeft) then 1 else 0)
    {
      forall n | n in nodes { n.ix := n.ix + (if n.ix >= k then 1 else 0); }
      forall n | n in nodes { n.lo := n.lo + (if n.lo > k || (n.lo == k && !asLeft) then 1 else 0); }
      forall n | n in nodes { n.hi := n.hi + (if n.hi > k || (n.hi == k && !asLeft) then 1 else 0); }
      order, nodes := order[..k] + [node] + order[k..], nodes + {node};
      node.lo, node.ix, node.hi, node.bh := k, k, k + 1, 0;
    }

    // the members that send node to the left form a suffix of the order
    ghost predicate Splits(node: Node)
      reads this, node, nodes, order
    {
      forall i, j :: 0 <= i < j < |order| && Less(insert, node.Content(), order[i].Content())
        ==> Less(insert, node.Content(), order[j].Content())
    }

    ghost predicate FitsAt(node: Node, k: int)
      reads this, node, nodes, order
    {
      && 0 <= k <= |order|
      && (forall i :: 0 <= i < k ==> !Less(insert, node.Content(), order[i].Content()))
      && (forall i :: k <= i < |order| ==> Less(insert, node.Content(), order[i].Content()))
    }

    // the descent of the insertion callbacks: the free child slot where node belongs
    method Descend(node: Node) returns (temp: Node, goLeft: bool)
      requires Shape() && nodes != {} && node !in nodes
      ensures temp in nodes && (if goLeft then temp.left == sentinel else temp.right == sentinel)
      ensures Splits(node) ==> FitsAt(node, if goLeft then temp.ix else temp.ix + 1)
    {
      temp := root;
      while true
        invariant temp in nodes && LinkOk(temp)
        invariant Splits(node) ==> forall i :: 0 <= i < temp.lo ==> !Less(insert, node.Content(), order[i].Content())
        invariant Splits(node) ==> forall i :: temp.hi <= i < |order| ==> Less(insert, node.Content(), order[i].Content())
        decreases temp.hi - temp.lo
      {
        assert temp.left != sentinel ==> LinkOk(temp.left);
        assert temp.right != sentinel ==> LinkOk(temp.right);
        goLeft := Less(insert, node.Content(), temp.Content());
        var p := if goLeft then temp.left else temp.right;
        if p == sentinel {
          break;
        }
        temp := p;
      }
    }

    // node becomes a red leaf in the free slot of temp
    method Hang(node: Node, temp: Node, goLeft: bool)
      requires Shape() && temp in nodes && node !in nodes && node != sentinel
      requires if goLeft then temp.left == sentinel else temp.right == sentinel
      modifies `order, `nodes, node`left, node`right, node`parent, node`red, node`lo, node`ix, node`hi, node`bh
      modifies temp`left, temp`right, nodes`ix, nodes`lo, nodes`hi
      ensures node.parent == temp && (goLeft <==> node.parent.left == node)
      ensures node.ix == (if goLeft then old(temp.ix) else old(temp.ix) + 1)
      ensures Planted(node, node.ix, goLeft) && node.red && node.bh == 0
      ensures forall n {:trigger SameColour(n)} :: n in old(nodes) ==> SameColour(n)
    {
      assert LinkOk(temp);
      ghost var k := if goLeft then temp.ix else temp.ix + 1;
      MakeRoom(node, k, goLeft);
      if goLeft {
        temp.left := node;
      } else {
        temp.right := node;
      }
      node.parent := temp;
      node.left := sentinel;
      node.right := sentinel;
      node.red := true;
    }

    // the three insertion callbacks, which differ in Less only
    method InsertValue(node: Node) returns (ghost k: int)
      requires Valid() && nodes != {} && node !in nodes && node != sentinel
      modifies `order, `nodes, node`left, node`right, node`parent, node`red, node`lo, node`ix, node`hi, node`bh
      modifies nodes`left, nodes`right, nodes`ix, nodes`lo, nodes`hi
      ensures 0 <= k <= |old(order)| && order == old(order)[..k] + [node] + old(order)[k..]
      ensures nodes == old(nodes) + {node}
      ensures InsertInv(node)
      ensures old(Splits(node)) ==> old(FitsAt(node, k))
    {
      var temp, goLeft := Descend(node);
      k := if goLeft then temp.ix else temp.ix + 1;
      label found:
      Hang(node, temp, goLeft);
      PlantingKeepsShape@found(node);
      PlantingKeepsColours@found(node);
    }

    // the root turned black
    twostate lemma BlackRootRestores(node: Node)
      requires old(InsertInv(node) && LinkOk(node) && (node == root || !node.parent.red)) && Shape()
      requires root == old(root) && nodes == old(nodes) && !root.red && !sentinel.red
      requires root.bh == old(root.bh) + (if old(root.red) then 1 else 0)
      requires forall n {:trigger SameColour(n)} :: n in nodes && n != root ==> SameColour(n)
      requires forall n :: n in nodes ==> n.left == old(n.left) && n.right == old(n.right)
      ensures Valid()
    {
      forall n | n in nodes
        ensures BlackOk(n) && RedOk(n, sentinel)
      {
        assert old(LinkOk(n) && BlackOk(n) && RedOk(n, node));
        if n != root { assert SameColour(n); }
        var l, r := n.left, n.right;
        if l in nodes { assert old(LinkOk(l)); assert SameColour(l); }
        if r in nodes { assert old(LinkOk(r)); assert SameColour(r); }
      }
    }

    method InsertFixup(start: Node)
      requires InsertInv(start)
      modifies `root, nodes`left, nodes`right, nodes`parent, nodes`red, nodes`lo, nodes`hi, nodes`bh
      ensures Valid()
    {
      var node := start;
      assert LinkOk(node);
      while node != root && node.parent.red
        invariant InsertInv(node) && LinkOk(node)
        decreases Climb(node)
      {
        assert LinkOk(node.parent);
        if node.parent == node.parent.parent.left {
          node := InsertFixupLeft(node);
        } else {
          node := InsertFixupRight(node);
        }
        assert LinkOk(node);
      }
      label done:
      root.bh := root.bh + (if root.red then 1 else 0);
      root.red := false;
      BlackRootRestores@done(node);
    }

    method Insert(node: Node) returns (ghost k: int)
      requires Valid() && node !in nodes && node != sentinel
      modifies `root, `order, `nodes, nodes`left, nodes`right, nodes`parent, nodes`red
      modifies nodes`ix, nodes`lo, nodes`hi, nodes`bh
      modifies node`left, node`right, node`parent, node`red, node`ix, node`lo, node`hi, node`bh
      ensures Valid() && nodes == old(nodes) + {node}
      ensures 0 <= k <= |old(order)| && order == old(order)[..k] + [node] + old(order)[k..]
      ensures old(Splits(node)) ==> old(FitsAt(node, k))
    {
      if root == sentinel {
        node.parent := null;
        node.left := sentinel;
        node.right := sentinel;
        node.red := false;
        root := node;
        k := 0;
        order, nodes := [node], {node};
        node.lo, node.ix, node.hi, node.bh := 0, 0, 1, 1;
        return;
      }
      k := InsertValue(node);
      InsertFixup(node);
    }

    // ---------- deletion ----------

    method Min(start: Node) returns (node: Node)
      requires Shape() && start in nodes
      ensures node in nodes && node.left == sentinel && node.ix == start.lo && LinkOk(node)
      ensures node != start ==> node != root
    {
      node := start;
      assert LinkOk(node);
      while node.left != sentinel
        invariant node in nodes && LinkOk(node) && node.lo == start.lo
        invariant node != start ==> node != root
        decreases node.hi - node.lo
      {
        node := node.left;
        assert LinkOk(node);
      }
    }

    // the node that is physically cut out, and the child that takes its slot
    ghost function Subst(node: Node): Node
      requires Shape() && node in nodes
      reads this, nodes
    {
      assert LinkOk(node);
      if node.left == sentinel || node.right == sentinel then node else order[node.ix + 1]
    }

    ghost function Heir(node: Node): Node
      requires Shape() && node in nodes
      reads this, nodes
    {
      assert LinkOk(node) && LinkOk(Subst(node));
      if Subst(node).left == sentinel then Subst(node).right else Subst(node).left
    }

    // a position after the one at j was dropped
    static ghost function Drop(i: int, j: int): int { if i > j then i - 1 else i }

    // what a link to c becomes when s leaves its slot to t and then replaces node
    static ghost function Follow(c: Node?, node: Node, s: Node, t: Node): Node?
    {
      if c == s then t else if c == node then s else c
    }

    // n now has the links that m had, after s left its slot to t and replaced node
    twostate predicate Redirected(n: Node, m: Node, node: Node, s: Node, t: Node)
      reads n
    {
      && n.left == Follow(old(m.left), node, s, t)
      && n.right == Follow(old(m.right), node, s, t)
      && (m != old(root) ==> n.parent == (var p := old((if m == t then s else m).parent); if p == node then s else p))
    }

    // n now plays the part that m played before: same links, same slice with position j dropped
    twostate predicate Plays(n: Node, m: Node, node: Node, s: Node, t: Node)
      reads n
    {
      && Redirected(n, m, node, s, t)
      && n.ix == Drop(old(m.ix), old(s.ix)) && n.lo == Drop(old(m.lo), old(s.ix)) && n.hi == Drop(old(m.hi), old(s.ix))
    }

    twostate predicate Spliced(node: Node)
      requires old(Shape()) && node in old(nodes)
      reads this, nodes, sentinel
    {
      var s, t := old(Subst(node)), old(Heir(node));
      && nodes == old(nodes) - {node}
      && order == old(order)[..old(node.ix)] + old(order)[old(node.ix) + 1..]
      && root == Follow(old(root), node, s, t)
      && (s != node ==> s in nodes && Plays(s, node, node, s, t))
      && (forall n {:trigger Plays(n, n, node, s, t)} :: n in nodes && n != s ==> Plays(n, n, node, s, t))
    }

    ghost predicate Located(node: Node)
      requires Shape() && node in nodes
      reads this, nodes
    {
      var s, t := Subst(node), Heir(node);
      && LinkOk(node) && s in nodes && LinkOk(s)
      && (s.left == sentinel || s.right == sentinel)
      && (s != node ==>
            && s.ix == node.ix + 1 && s.left == sentinel && s != root
            && node.left in nodes && node.right in nodes && LinkOk(node.left) && LinkOk(node.right))
      && (t == sentinel || (t in nodes && t.parent == s && LinkOk(t)))
    }

    lemma SubstIsLocated(node: Node)
      requires Shape() && node in nodes
      ensures Located(node)
    {
      var s := Subst(node);
      assert LinkOk(node) && LinkOk(s);
      if s != node {
        assert LinkOk(node.right) && LinkOk(node.left);
        FirstHasNoLeft(node.right, s);
      }
      assert s.left != sentinel ==> LinkOk(s.left);
      assert s.right != sentinel ==> LinkOk(s.right);
    }

    // the node at the left end of a slice has no left child
    lemma {:induction false} FirstHasNoLeft(x: Node, s: Node)
      requires Shape() && x in nodes && s in nodes && s.ix == x.lo
      ensures s.left == sentinel
      decreases x.hi - x.lo
    {
      assert LinkOk(x) && LinkOk(s);
      if s != x {
        assert LinkOk(x.left);
        FirstHasNoLeft(x.left, s);
      }
    }

    twostate lemma SplicingKeepsIndex(node: Node)
      requires old(Shape()) && node in old(nodes) && old(Located(node)) && Spliced(node)
      ensures Indexed()
    {
      var s, t := old(Subst(node)), old(Heir(node));
      var k := old(node.ix);
      forall i | 0 <= i < |order|
        ensures order[i] in nodes && order[i].ix == i
      {
        assert order[i] == old(order)[if i < k then i else i + 1];
        if order[i] != s { assert Plays(order[i], order[i], node, s, t); }
      }
      forall n | n in nodes
        ensures 0 <= n.ix < |order| && order[n.ix] == n
      {
        if n != s { assert Plays(n, n, node, s, t); }
      }
    }

    twostate lemma SubstTakesOver(node: Node)
      requires old(Shape()) && node in old(nodes) && old(Located(node)) && Spliced(node)
      requires old(Subst(node) != node)
      ensures old(Subst(node)) in nodes && LinkOk(old(Subst(node)))
    {
      var s, t := old(Subst(node)), old(Heir(node));
      assert old(order[node.right.ix] == node.right && order[node.left.ix] == node.left);
      var l, r, p := s.left, s.right, s.parent;
      if l in nodes { assert Plays(l, l, node, s, t); }
      if r in nodes { assert Plays(r, r, node, s, t); }
      if node != old(root) {
        assert old(LinkOk(node.parent));
        assert Plays(p, p, node, s, t);
      }
    }

    twostate lemma SplicingKeepsLeft(node: Node)
      requires old(Shape()) && node in old(nodes) && old(Located(node)) && Spliced(node)
      ensures forall n {:trigger LeftOk(n)} :: n in nodes && n != old(Subst(node)) ==> LeftOk(n)
    {
      var s, t := old(Subst(node)), old(Heir(node));
      forall n | n in nodes && n != s
        ensures LeftOk(n)
      {
        assert old(LinkOk(n)) && Plays(n, n, node, s, t);
        var c := old(n.left);
        if c != sentinel { assert old(LinkOk(n.left) && order[n.left.ix] == n.left); }
        if c == s {
          if t != sentinel { assert Plays(t, t, node, s, t); }
        } else if c in nodes {
          assert Plays(c, c, node, s, t);
        }
      }
    }

    twostate lemma SplicingKeepsRight(node: Node)
      requires old(Shape()) && node in old(nodes) && old(Located(node)) && Spliced(node)
      ensures forall n {:trigger RightOk(n)} :: n in nodes && n != old(Subst(node)) ==> RightOk(n)
    {
      var s, t := old(Subst(node)), old(Heir(node));
      forall n | n in nodes && n != s
        ensures RightOk(n)
      {
        assert old(LinkOk(n)) && Plays(n, n, node, s, t);
        var c := old(n.right);
        if c != sentinel { assert old(LinkOk(n.right) && order[n.right.ix] == n.right); }
        if c == s {
          if t != sentinel { assert Plays(t, t, node, s, t); }
        } else if c in nodes {
          assert Plays(c, c, node, s, t);
        }
      }
    }

    twostate lemma SplicingKeepsUp(node: Node)
      requires old(Shape()) && node in old(nodes) && old(Located(node)) && Spliced(node)
      requires old(Subst(node) != root)
      ensures forall n {:trigger UpOk(n)} :: n in nodes && n != old(Subst(node)) ==> UpOk(n)
    {
      var s, t := old(Subst(node)), old(Heir(node));
      forall n | n in nodes && n != s
        ensures UpOk(n)
      {
        assert old(LinkOk(n)) && Plays(n, n, node, s, t);
        if n != old(root) { assert old(LinkOk(n.parent)); }
        var p := n.parent;
        if p != null && p in nodes && p != s { assert Plays(p, p, node, s, t); }
      }
    }

    twostate lemma SplicingKeepsShape(node: Node)
      requires old(Shape()) && node in old(nodes) && old(Located(node)) && Spliced(node)
      requires old(Subst(node) != root)
      ensures Shape()
    {
      var s, t := old(Subst(node)), old(Heir(node));
      SplicingKeepsIndex(node);
      SplicingKeepsLeft(node);
      SplicingKeepsRight(node);
      SplicingKeepsUp(node);
      if s != node { SubstTakesOver(node); }
      forall n | n in nodes && n != s
        ensures LinkOk(n)
      {
        assert old(LinkOk(n)) && Plays(n, n, node, s, t) && LeftOk(n) && RightOk(n) && UpOk(n);
      }
      if root != s { assert Plays(root, root, node, s, t); }
    }

    // drops position s.ix; s, if it is not node itself, moves into node's position and slice
    ghost method CloseGap(node: Node, s: Node)
      requires node in nodes && s in nodes && 0 <= node.ix < |order|
      modifies `order, `nodes, nodes`ix, nodes`lo, nodes`hi, nodes`bh
      ensures order == old(order)[..old(node.ix)] + old(order)[old(node.ix) + 1..] && nodes == old(nodes) - {node}
      ensures forall n {:trigger n.ix} :: n in nodes ==> n.ix == Drop(old((if n == s then node else n).ix), old(s.ix))
      ensures forall n {:trigger n.lo} :: n in nodes ==> n.lo == Drop(old((if n == s then node else n).lo), old(s.ix))
      ensures forall n {:trigger n.hi} :: n in nodes ==> n.hi == Drop(old((if n == s then node else n).hi), old(s.ix))
      ensures forall n {:trigger n.bh} :: n in nodes ==> n.bh == old((if n == s then node else n).bh)
    {
      ghost var j, ix, lo, hi, h := s.ix, node.ix, node.lo, node.hi, node.bh;
      order, nodes := order[..ix] + order[ix + 1..], nodes - {node};
      forall n | n in nodes { n.ix := Drop(if n == s then ix else n.ix, j); }
      forall n | n in nodes { n.lo := Drop(if n == s then lo else n.lo, j); }
      forall n | n in nodes { n.hi := Drop(if n == s then hi else n.hi, j); }
      forall n | n in nodes { n.bh := if n == s then h else n.bh; }
    }

    method SpliceSelf(node: Node, temp: Node)
      requires Shape() && node in nodes && Located(node) && node == Subst(node) && temp == Heir(node) && node != root
      modifies nodes`left, nodes`right, nodes`parent, sentinel`parent
      ensures temp.parent == old(node.parent)
      ensures forall n {:trigger n.left} :: n in nodes && n != node ==> n.left == Follow(old(n.left), node, node, temp)
      ensures forall n {:trigger n.right} :: n in nodes && n != node ==> n.right == Follow(old(n.right), node, node, temp)
      ensures forall n {:trigger n.parent} :: n in nodes && n != node && n != old(root) ==>
                n.parent == (var p := old((if n == temp then node else n).parent); if p == node then node else p)
    {
      assert LinkOk(node.parent);
      if node == node.parent.left {
        node.parent.left := temp;
      } else {
        node.parent.right := temp;
      }
      temp.parent := node.parent;
      forall n | n in nodes && n != node
        ensures Redirected(n, n, node, node, temp)
      {
        assert old(LinkOk(n));
      }
    }

    // subst leaves its slot to temp
    method CutOut(node: Node, subst: Node, temp: Node)
      requires Shape() && subst in nodes && LinkOk(subst) && subst != root && temp != subst
      modifies nodes`left, nodes`right, temp`parent
      ensures temp.parent == (if old(subst.parent) == node then subst else old(subst.parent))
      ensures forall n {:trigger n.left} :: n in nodes ==> n.left == (if old(n.left) == subst then temp else old(n.left))
      ensures forall n {:trigger n.right} :: n in nodes ==> n.right == (if old(n.right) == subst then temp else old(n.right))
    {
      assert LinkOk(subst.parent);
      forall n | n in nodes
        ensures n.left == subst || n.right == subst ==> n == subst.parent && (n.left == subst ==> n.right != subst)
      {
        assert LinkOk(n);
      }
      if subst == subst.parent.left {
        subst.parent.left := temp;
      } else {
        subst.parent.right := temp;
      }
      if subst.parent == node {
        temp.parent := subst;
      } else {
        temp.parent := subst.parent;
      }
    }

    // c is a child of node that may have to point back to a new parent
    ghost predicate Child(c: Node?, node: Node, subst: Node)
      reads this
    {
      c != null && c != node && c != subst && (c == sentinel || c in nodes)
    }

    // subst takes the place of node: its children, its parent, its colour and its slot
    method TakePlace(node: Node, subst: Node)
      requires node in nodes && subst in nodes && node != subst && sentinel !in nodes
      requires Child(node.left, node, subst) && Child(node.right, node, subst)
      requires node != root ==> node.parent != null && node.parent in nodes && (node.parent.left == node || node.parent.right == node)
      requires forall n {:trigger n.left} {:trigger n.right} :: n in nodes && (n.left == node || n.right == node) ==>
                node != root && n == node.parent && n != subst && !(n.left == node && n.right == node)
      modifies `root, nodes`left, nodes`right, nodes`parent, subst`red
      ensures root == (if old(root) == node then subst else old(root)) && subst.red == node.red
      ensures subst.left == old(node.left) && subst.right == old(node.right)
      ensures old(node.parent) != subst ==> subst.parent == old(node.parent)
      ensures forall n {:trigger n.left} :: n in nodes && n != subst ==>
                n.left == (if old(n.left) == node then subst else old(n.left))
      ensures forall n {:trigger n.right} :: n in nodes && n != subst ==>
                n.right == (if old(n.right) == node then subst else old(n.right))
      ensures forall n {:trigger n.parent} :: n in nodes && n != subst ==>
                n.parent == (if n == old(node.left) || n == old(node.right) then subst else old(n.parent))
    {
      subst.left := node.left;
      subst.right := node.right;
      subst.parent := node.parent;
      subst.red := node.red;
      if node == root {
        root := subst;
      } else {
        if node == node.parent.left {
          node.parent.left := subst;
        } else {
          node.parent.right := subst;
        }
      }
      if subst.left != sentinel {
        subst.left.parent := subst;
      }
      if subst.right != sentinel {
        subst.right.parent := subst;
      }
    }

    // the successor is cut out; only the parent of node still points to node
    method CutOutSuccessor(node: Node, subst: Node, temp: Node)
      requires Shape() && node in nodes && Located(node) && subst == Subst(node) && temp == Heir(node) && subst != node
      modifies nodes`left, nodes`right, temp`parent
      ensures temp.parent == (if old(subst.parent) == node then subst else old(subst.parent))
      ensures forall n {:trigger n.left} :: n in nodes ==> n.left == (if old(n.left) == subst then temp else old(n.left))
      ensures forall n {:trigger n.right} :: n in nodes ==> n.right == (if old(n.right) == subst then temp else old(n.right))
      ensures forall n {:trigger n.left} {:trigger n.right} :: n in nodes && (n.left == node || n.right == node) ==>
                node != root && n == node.parent && n != subst && !(n.left == node && n.right == node)
      ensures Child(node.left, node, subst) && Child(node.right, node, subst)
      ensures node != root ==> node.parent != null && node.parent in nodes && (node.parent.left == node || node.parent.right == node)
    {
      assert LinkOk(subst.parent) && LinkOk(node.left) && LinkOk(node.right);
      assert node != root ==> LinkOk(node.parent);
      CutOut(node, subst, temp);
      forall n | n in nodes && (n.left == node || n.right == node)
        ensures node != root && n == node.parent && n != subst && !(n.left == node && n.right == node)
      {
        assert old(LinkOk(n));
      }
    }

    // the successor is cut out and takes the place of node
    method ReplaceBySuccessor(node: Node, subst: Node, temp: Node)
      requires Shape() && node in nodes && Located(node) && subst == Subst(node) && temp == Heir(node) && subst != node
      modifies `root, nodes`left, nodes`right, nodes`parent, sentinel`parent, subst`red
      ensures temp.parent == (if old(subst.parent) == node then subst else old(subst.parent))
      ensures subst.red == node.red && root == Follow(old(root), node, subst, temp)
      ensures Redirected(subst, node, node, subst, temp)
      ensures forall n {:trigger Redirected(n, n, node, subst, temp)} :: n in nodes && n != node && n != subst ==> Redirected(n, n, node, subst, temp)
    {
      assert LinkOk(subst.parent) && LinkOk(node.left) && LinkOk(node.right);
      CutOutSuccessor(node, subst, temp);
      TakePlace(node, subst);
      forall n | n in nodes && n != node && n != subst
        ensures Redirected(n, n, node, subst, temp)
      {
        assert old(LinkOk(n));
      }
    }

    method SpliceSuccessor(node: Node, subst: Node, temp: Node)
      requires Shape() && node in nodes && Located(node) && subst == Subst(node) && temp == Heir(node) && subst != node
      modifies `root, nodes`left, nodes`right, nodes`parent, sentinel`parent, subst`red
      ensures temp.parent == (if old(subst.parent) == node then subst else old(subst.parent))
      ensures subst.red == node.red && root == Follow(old(root), node, subst, temp)
      ensures Redirected(subst, node, node, subst, temp)
      ensures forall n {:trigger n.left} :: n in nodes && n != node && n != subst ==> n.left == Follow(old(n.left), node, subst, temp)
      ensures forall n {:trigger n.right} :: n in nodes && n != node && n != subst ==> n.right == Follow(old(n.right), node, subst, temp)
      ensures forall n {:trigger n.parent} :: n in nodes && n != node && n != subst && n != old(root) ==>
                n.parent == (var p := old((if n == temp then subst else n).parent); if p == node then subst else p)
    {
      ReplaceBySuccessor(node, subst, temp);
      assert forall n {:trigger n.left} :: n in nodes && n != node && n != subst ==> Redirected(n, n, node, subst, temp);
      assert forall n {:trigger n.right} :: n in nodes && n != node && n != subst ==> Redirected(n, n, node, subst, temp);
      assert forall n {:trigger n.parent} :: n in nodes && n != node && n != subst ==> Redirected(n, n, node, subst, temp);
    }

    // the loop invariant of the deletion fixup: the paths through x are one black node short, and x
    // may be red below a red parent or above red children
    ghost predicate DeleteInv(x: Node)
      reads this, nodes, sentinel, x, set n <- nodes :: n.left, set n <- nodes :: n.right
    {
      && Shape() && nodes != {} && !sentinel.red && !root.red
      && (x == sentinel || x in nodes)
      && (x != root ==> x.parent != null && x.parent in nodes && (x.parent.left == x || x.parent.right == x))
      && (forall n {:trigger DeficitOk(n, x)} :: n in nodes ==> DeficitOk(n, x))
      && (forall n {:trigger Calm(n, x)} :: n in nodes ==> Calm(n, x))
    }

    ghost predicate Short(n: Node, x: Node)
      reads this, x
    {
      x != root && x.parent == n
    }

    ghost predicate DeficitOk(n: Node, x: Node)
      reads this, n, n.left, n.right, x
    {
      && n.left != null && n.right != null && H(n.left) >= 0 && H(n.right) >= 0
      && (var l := H(n.left) + (if Short(n, x) && n.left == x then 1 else 0);
          var r := H(n.right) + (if Short(n, x) && n.left != x then 1 else 0);
          l == r && n.bh == l + (if n.red then 0 else 1))
    }

    ghost predicate Calm(n: Node, x: Node)
      reads n, n.left, n.right
    {
      && n.left != null && n.right != null
      && (n.red && n != x ==> (n.left.red ==> n.left == x) && (n.right.red ==> n.right == x))
    }

    twostate predicate ColoursMoved(node: Node, s: Node, t: Node)
      reads this, nodes, sentinel, s, t
    {
      && nodes <= old(nodes) && !sentinel.red
      && t.parent == (var p := old(s.parent); if p == node then s else p)
      && (s != node ==> s.red == old(node.red) && s.bh == old(node.bh))
      && (forall n {:trigger SameColour(n)} :: n in nodes && n != s ==> SameColour(n))
    }

    twostate lemma RedSplicingKeepsBlack(node: Node)
      requires old(Valid()) && node in old(nodes) && old(Located(node)) && Spliced(node)
      requires old(Subst(node) != root) && Shape() && old(Subst(node).red)
      requires ColoursMoved(node, old(Subst(node)), old(Heir(node)))
      ensures BlackAll()
    {
      var s, t := old(Subst(node)), old(Heir(node));
      assert old(BlackOk(s) && BlackOk(node) && LinkOk(s));
      forall n | n in nodes
        ensures BlackOk(n)
      {
        assert old(LinkOk(n) && BlackOk(n));
        if n != s { assert SameColour(n) && Plays(n, n, node, s, t); }
        var l, r := n.left, n.right;
        if l in nodes && l != s { assert SameColour(l); }
        if r in nodes && r != s { assert SameColour(r); }
      }
    }

    twostate lemma SplicingKeepsCalm(node: Node)
      requires old(Valid()) && node in old(nodes) && old(Located(node)) && Spliced(node)
      requires old(Subst(node) != root) && Shape()
      requires ColoursMoved(node, old(Subst(node)), old(Heir(node)))
      ensures forall n {:trigger RedOk(n, old(Heir(node)))} :: n in nodes ==> RedOk(n, old(Heir(node)))
    {
      var s, t := old(Subst(node)), old(Heir(node));
      assert old(RedOk(s, sentinel) && RedOk(node, sentinel) && LinkOk(s));
      forall n | n in nodes
        ensures RedOk(n, t)
      {
        assert old(LinkOk(n) && RedOk(n, sentinel));
        if n != s { assert SameColour(n) && Plays(n, n, node, s, t); }
        var l, r := n.left, n.right;
        if l in nodes && l != s { assert SameColour(l); }
        if r in nodes && r != s { assert SameColour(r); }
      }
    }

    twostate lemma RedSplicingKeepsValid(node: Node)
      requires old(Valid()) && node in old(nodes) && old(Located(node)) && Spliced(node)
      requires old(Subst(node) != root) && Shape() && old(Subst(node).red)
      requires ColoursMoved(node, old(Subst(node)), old(Heir(node)))
      ensures Valid()
    {
      var s, t := old(Subst(node)), old(Heir(node));
      RedSplicingKeepsBlack(node);
      SplicingKeepsCalm(node);
      assert old(RedOk(s, sentinel));
      assert t in nodes ==> SameColour(t);
      forall n | n in nodes
        ensures RedOk(n, sentinel)
      {
        assert RedOk(n, t);
      }
      if root != s { assert SameColour(root) && Plays(root, root, node, s, t); }
    }

    twostate lemma BlackSplicingShortensOthers(node: Node)
      requires old(Valid()) && node in old(nodes) && old(Located(node)) && Spliced(node)
      requires old(Subst(node) != root) && Shape() && old(!Subst(node).red)
      requires ColoursMoved(node, old(Subst(node)), old(Heir(node)))
      requires old(Heir(node)) != root
      ensures forall n {:trigger DeficitOk(n, old(Heir(node)))} :: n in nodes && n != old(Subst(node)) ==> DeficitOk(n, old(Heir(node)))
    {
      var s, t := old(Subst(node)), old(Heir(node));
      var q := old(s.parent);
      assert old(BlackOk(s) && BlackOk(node) && LinkOk(s) && LinkOk(q) && BlackOk(q));
      forall n | n in nodes && n != s
        ensures DeficitOk(n, t)
      {
        assert old(LinkOk(n) && BlackOk(n));
        assert SameColour(n) && Plays(n, n, node, s, t);
        var l, r := n.left, n.right;
        if l in nodes && l != s { assert SameColour(l); }
        if r in nodes && r != s { assert SameColour(r); }
      }
    }

    twostate lemma BlackSplicingShortens(node: Node)
      requires old(Valid()) && node in old(nodes) && old(Located(node)) && Spliced(node)
      requires old(Subst(node) != root) && Shape() && old(!Subst(node).red)
      requires ColoursMoved(node, old(Subst(node)), old(Heir(node)))
      requires old(Heir(node)) != root
      ensures forall n {:trigger DeficitOk(n, old(Heir(node)))} :: n in nodes ==> DeficitOk(n, old(Heir(node)))
    {
      var s, t := old(Subst(node)), old(Heir(node));
      assert old(BlackOk(s) && BlackOk(node) && LinkOk(s));
      if s in nodes {
        assert old(LinkOk(s.parent) && BlackOk(s.parent));
        var l, r := s.left, s.right;
        if l in nodes { assert SameColour(l); }
        if r in nodes { assert SameColour(r); }
        assert DeficitOk(s, t);
      }
      BlackSplicingShortensOthers(node);
    }

    twostate lemma BlackSplicingLeavesDeficit(node: Node)
      requires old(Valid()) && node in old(nodes) && old(Located(node)) && Spliced(node)
      requires old(Subst(node) != root) && Shape() && old(!Subst(node).red)
      requires ColoursMoved(node, old(Subst(node)), old(Heir(node)))
      ensures DeleteInv(old(Heir(node)))
    {
      var s, t := old(Subst(node)), old(Heir(node));
      assert old(LinkOk(s.parent) && LinkOk(node));
      if root != s { assert SameColour(root) && Plays(root, root, node, s, t); }
      var p := t.parent;
      if p != s { assert Plays(p, p, node, s, t); }
      SplicingKeepsCalm(node);
      BlackSplicingShortens(node);
      forall n | n in nodes
        ensures Calm(n, t)
      {
        assert RedOk(n, t);
      }
    }

    ghost function Rise(x: Node): nat
      requires DeleteInv(x)
      reads this, nodes, sentinel, x, set n <- nodes :: n.left, set n <- nodes :: n.right
    {
      if x == root || x.red then 0
      else
        assert LinkOk(x.parent);
        1 + |order| - (x.parent.hi - x.parent.lo)
    }

    // x is short and its sibling w and both children of w are black: w turns red, now the parent is short
    twostate lemma PaintingSiblingMovesUp(x: Node)
      requires old(DeleteInv(x)) && x != old(root) && old(!x.red)
      requires Shape() && nodes == old(nodes) && root == old(root) && sentinel.red == old(sentinel.red)
      requires forall n :: n in nodes ==> n.left == old(n.left) && n.right == old(n.right) && n.parent == old(n.parent)
      requires var p := old(x.parent); var w := old(if p.left == x then p.right else p.left);
        && w in nodes && old(LinkOk(p) && LinkOk(w) && w.left != null && w.right != null && !w.red && !w.left.red && !w.right.red)
        && w.red && w.bh == old(w.bh) - 1 && p.red == old(p.red) && p.bh == old(p.bh) - 1
        && (forall n {:trigger SameColour(n)} :: n in nodes && n != w && n != p ==> SameColour(n))
      ensures DeleteInv(old(x.parent))
    {
      var p := old(x.parent);
      var w := old(if p.left == x then p.right else p.left);
      assert old(DeficitOk(p, x) && DeficitOk(w, x) && Calm(p, x));
      assert LinkOk(p);
      forall n | n in nodes
        ensures DeficitOk(n, p) && Calm(n, p)
      {
        assert old(LinkOk(n) && DeficitOk(n, x) && Calm(n, x));
        if n != p && n != w { assert SameColour(n); }
        var l, r := n.left, n.right;
        if l in nodes && l != p && l != w { assert SameColour(l); }
        if r in nodes && r != p && r != w { assert SameColour(r); }
      }
      if root != p && root != w { assert SameColour(root); }
    }

    // x is short and the sibling w is red: w is lifted over the parent, x keeps a black sibling
    twostate lemma LiftingRedSiblingLeft(x: Node)
      requires old(DeleteInv(x)) && x != old(root) && old(!x.red && x.parent.left == x)
      requires old(x.parent.right) in old(nodes) && old(x.parent.right.red) && old(LinkOk(x.parent) && LinkOk(x.parent.right))
      requires RotatedLeft(old(x.parent)) && Swapped(old(x.parent), old(x.parent.right)) && Shape()
      requires sentinel.red == old(sentinel.red) && x.parent == old(x.parent)
      ensures DeleteInv(x) && x.parent.left == x && x.parent.red
      ensures x.parent.right in nodes && !x.parent.right.red
    {
      var p, w := old(x.parent), old(x.parent.right);
      assert old(DeficitOk(p, x) && DeficitOk(w, x) && Calm(p, x) && Calm(w, x));
      forall n | n in nodes
        ensures DeficitOk(n, x) && Calm(n, x)
      {
        assert old(LinkOk(n) && DeficitOk(n, x) && Calm(n, x));
        if n != p && n != w { assert SameColour(n) && Relinked(n, p, w, old(w.left), p); }
        var l, r := n.left, n.right;
        if l in nodes && l != p && l != w { assert SameColour(l); }
        if r in nodes && r != p && r != w { assert SameColour(r); }
      }
      if root != p && root != w { assert SameColour(root); }
      if x in nodes { assert SameColour(x); }
      assert LinkOk(p);
    }

    // x is short, the sibling w is black with a red inner child: that child is lifted over w
    twostate lemma LiftingInnerNephewLeft(x: Node)
      requires old(DeleteInv(x)) && x != old(root) && old(!x.red && x.parent.left == x)
      requires old(x.parent.right) in old(nodes) && old(!x.parent.right.red && LinkOk(x.parent) && LinkOk(x.parent.right))
      requires old(x.parent.right.left) in old(nodes) && old(LinkOk(x.parent.right.left) && x.parent.right.left.red && !x.parent.right.right.red)
      requires RotatedRight(old(x.parent.right)) && Swapped(old(x.parent.right), old(x.parent.right.left)) && Shape()
      requires sentinel.red == old(sentinel.red) && x.parent == old(x.parent)
      ensures DeleteInv(x) && x.parent.left == x
      ensures x.parent.right == old(x.parent.right.left) && !x.parent.right.red
      ensures x.parent.right.right == old(x.parent.right) && x.parent.right.right.red
    {
      var p, w, v := old(x.parent), old(x.parent.right), old(x.parent.right.left);
      assert old(DeficitOk(p, x) && DeficitOk(w, x) && DeficitOk(v, x) && Calm(p, x) && Calm(w, x) && Calm(v, x));
      assert SameColour(p) && Relinked(p, w, v, old(v.right), w);
      forall n | n in nodes
        ensures DeficitOk(n, x) && Calm(n, x)
      {
        assert old(LinkOk(n) && DeficitOk(n, x) && Calm(n, x));
        if n != w && n != v { assert SameColour(n) && Relinked(n, w, v, old(v.right), w); }
        var l, r := n.left, n.right;
        if l in nodes && l != w && l != v { assert SameColour(l); }
        if r in nodes && r != w && r != v { assert SameColour(r); }
      }
      assert SameColour(root);
      if x in nodes { assert SameColour(x); }
    }

    // x is short, the sibling w is black with a red outer child: lifting w makes up for the missing black node
    twostate lemma LiftingOuterNephewLeft(x: Node)
      requires old(DeleteInv(x)) && x != old(root) && old(!x.red && x.parent.left == x)
      requires old(x.parent.right) in old(nodes) && old(!x.parent.right.red && LinkOk(x.parent) && LinkOk(x.parent.right))
      requires old(x.parent.right.right) in old(nodes) && old(LinkOk(x.parent.right.right) && x.parent.right.right.red)
      requires RotatedLeft(old(x.parent)) && Shape() && sentinel.red == old(sentinel.red)
      requires var p, w, v := old(x.parent), old(x.parent.right), old(x.parent.right.right);
        && !p.red && p.bh == old(w.bh) && w.red == old(p.red) && w.bh == old(p.bh) && !v.red && v.bh == old(v.bh) + 1
        && (forall n {:trigger SameColour(n)} :: n in nodes && n != p && n != w && n != v ==> SameColour(n))
      ensures DeleteInv(root)
    {
      var p, w, v := old(x.parent), old(x.parent.right), old(x.parent.right.right);
      assert old(DeficitOk(p, x) && DeficitOk(w, x) && DeficitOk(v, x) && Calm(p, x) && Calm(w, x) && Calm(v, x));
      assert Relinked(v, p, w, old(w.left), p);
      forall n | n in nodes
        ensures DeficitOk(n, root) && Calm(n, root)
      {
        assert old(LinkOk(n) && DeficitOk(n, x) && Calm(n, x));
        if n != p && n != w { assert Relinked(n, p, w, old(w.left), p); }
        if n != p && n != w && n != v { assert SameColour(n); }
        var l, r := n.left, n.right;
        if l in nodes && l != p && l != w && l != v { assert SameColour(l); }
        if r in nodes && r != p && r != w && r != v { assert SameColour(r); }
      }
      if root != p && root != w && root != v { assert SameColour(root); }
    }

    // x is short and the sibling w is red: w is lifted over the parent, x keeps a black sibling
    twostate lemma LiftingRedSiblingRight(x: Node)
      requires old(DeleteInv(x)) && x != old(root) && old(!x.red && x.parent.right == x)
      requires old(x.parent.left) in old(nodes) && old(x.parent.left.red) && old(LinkOk(x.parent) && LinkOk(x.parent.left))
      requires RotatedRight(old(x.parent)) && Swapped(old(x.parent), old(x.parent.left)) && Shape()
      requires sentinel.red == old(sentinel.red) && x.parent == old(x.parent)
      ensures DeleteInv(x) && x.parent.right == x && x.parent.red
      ensures x.parent.left in nodes && !x.parent.left.red
    {
      var p, w := old(x.parent), old(x.parent.left);
      assert old(DeficitOk(p, x) && DeficitOk(w, x) && Calm(p, x) && Calm(w, x));
      forall n | n in nodes
        ensures DeficitOk(n, x) && Calm(n, x)
      {
        assert old(LinkOk(n) && DeficitOk(n, x) && Calm(n, x));
        if n != p && n != w { assert SameColour(n) && Relinked(n, p, w, old(w.right), p); }
        var l, r := n.right, n.left;
        if l in nodes && l != p && l != w { assert SameColour(l); }
        if r in nodes && r != p && r != w { assert SameColour(r); }
      }
      if root != p && root != w { assert SameColour(root); }
      if x in nodes { assert SameColour(x); }
      assert LinkOk(p);
    }

    // x is short, the sibling w is black with a red inner child: that child is lifted over w
    twostate lemma LiftingInnerNephewRight(x: Node)
      requires old(DeleteInv(x)) && x != old(root) && old(!x.red && x.parent.right == x)
      requires old(x.parent.left) in old(nodes) && old(!x.parent.left.red && LinkOk(x.parent) && LinkOk(x.parent.left))
      requires old(x.parent.left.right) in old(nodes) && old(LinkOk(x.parent.left.right) && x.parent.left.right.red && !x.parent.left.left.red)
      requires RotatedLeft(old(x.parent.left)) && Swapped(old(x.parent.left), old(x.parent.left.right)) && Shape()
      requires sentinel.red == old(sentinel.red) && x.parent == old(x.parent)
      ensures DeleteInv(x) && x.parent.right == x
      ensures x.parent.left == old(x.parent.left.right) && !x.parent.left.red
      ensures x.parent.left.left == old(x.parent.left) && x.parent.left.left.red
    {
      var p, w, v := old(x.parent), old(x.parent.left), old(x.parent.left.right);
      assert old(DeficitOk(p, x) && DeficitOk(w, x) && DeficitOk(v, x) && Calm(p, x) && Calm(w, x) && Calm(v, x));
      assert SameColour(p) && Relinked(p, w, v, old(v.left), w);
      forall n | n in nodes
        ensures DeficitOk(n, x) && Calm(n, x)
      {
        assert old(LinkOk(n) && DeficitOk(n, x) && Calm(n, x));
        if n != w && n != v { assert SameColour(n) && Relinked(n, w, v, old(v.left), w); }
        var l, r := n.right, n.left;
        if l in nodes && l != w && l != v { assert SameColour(l); }
        if r in nodes && r != w && r != v { assert SameColour(r); }
      }
      assert SameColour(root);
      if x in nodes { assert SameColour(x); }
    }

    // x is short, the sibling w is black with a red outer child: lifting w makes up for the missing black node
    twostate lemma LiftingOuterNephewRight(x: Node)
      requires old(DeleteInv(x)) && x != old(root) && old(!x.red && x.parent.right == x)
      requires old(x.parent.left) in old(nodes) && old(!x.parent.left.red && LinkOk(x.parent) && LinkOk(x.parent.left))
      requires old(x.parent.left.left) in old(nodes) && old(LinkOk(x.parent.left.left) && x.parent.left.left.red)
      requires RotatedRight(old(x.parent)) && Shape() && sentinel.red == old(sentinel.red)
      requires var p, w, v := old(x.parent), old(x.parent.left), old(x.parent.left.left);
        && !p.red && p.bh == old(w.bh) && w.red == old(p.red) && w.bh == old(p.bh) && !v.red && v.bh == old(v.bh) + 1
        && (forall n {:trigger SameColour(n)} :: n in nodes && n != p && n != w && n != v ==> SameColour(n))
      ensures DeleteInv(root)
    {
      var p, w, v := old(x.parent), old(x.parent.left), old(x.parent.left.left);
      assert old(DeficitOk(p, x) && DeficitOk(w, x) && DeficitOk(v, x) && Calm(p, x) && Calm(w, x) && Calm(v, x));
      assert Relinked(v, p, w, old(w.right), p);
      forall n | n in nodes
        ensures DeficitOk(n, root) && Calm(n, root)
      {
        assert old(LinkOk(n) && DeficitOk(n, x) && Calm(n, x));
        if n != p && n != w { assert Relinked(n, p, w, old(w.right), p); }
        if n != p && n != w && n != v { assert SameColour(n); }
        var l, r := n.right, n.left;
        if l in nodes && l != p && l != w && l != v { assert SameColour(l); }
        if r in nodes && r != p && r != w && r != v { assert SameColour(r); }
      }
      if root != p && root != w && root != v { assert SameColour(root); }
    }

    // the sibling w of node temp and its children are black
    method PaintSibling(temp: Node, w: Node) returns (next: Node)
      requires DeleteInv(temp) && temp != root && !temp.red && LinkOk(temp.parent)
      requires w in nodes && !w.red && w == (if temp.parent.left == temp then temp.parent.right else temp.parent.left)
      requires LinkOk(w) && !w.left.red && !w.right.red
      modifies nodes`red, nodes`bh
      ensures DeleteInv(next) && next == old(temp.parent) && next.red == old(temp.parent.red)
      ensures !next.red ==> Rise(next) < old(Rise(temp))
    {
      ghost var p := temp.parent;
      assert p != root ==> LinkOk(p.parent);
      w.bh, p.bh := w.bh - 1, p.bh - 1;
      w.red := true;
      next := temp.parent;
      PaintingSiblingMovesUp(temp);
    }

    method PaintOuterNephew(p: Node, w: Node, v: Node)
      requires p in nodes && w in nodes && v in nodes && p != w && p != v && w != v
      modifies p`red, w`red, v`red, p`bh, w`bh, v`bh
      ensures !p.red && p.bh == old(w.bh) && w.red == old(p.red) && w.bh == old(p.bh) && !v.red && v.bh == old(v.bh) + 1
      ensures forall n {:trigger SameColour(n)} :: n in nodes && n != p && n != w && n != v ==> SameColour(n)
    {
      p.bh, w.bh, v.bh := w.bh, p.bh, v.bh + 1;
      w.red := p.red;
      p.red := false;
      v.red := false;
    }

    method LiftRedSiblingLeft(temp: Node) returns (w: Node)
      requires DeleteInv(temp) && temp != root && !temp.red && temp == temp.parent.left && LinkOk(temp.parent)
      requires temp.parent.right in nodes && temp.parent.right.red && LinkOk(temp.parent.right)
      modifies `root, nodes`left, nodes`right, nodes`parent, nodes`red, nodes`lo, nodes`hi, nodes`bh
      ensures DeleteInv(temp) && temp != root && temp == temp.parent.left && !temp.red && temp.parent.red && w == temp.parent.right
      ensures w in nodes && !w.red
    {
      ghost var p := temp.parent;
      w := temp.parent.right;
      assert DeficitOk(p, temp) && Calm(p, temp);
      w.red := false;
      temp.parent.red := true;
      p.bh, w.bh := w.bh, p.bh;
      label painted:
      LeftRotate(temp.parent);
      forall n | n in nodes && n != p && n != w
        ensures Relinked(n, p, w, old(w.left), p)
      {
        assert Relinked@painted(n, p, w, old(w.left), p);
      }
      assert temp in nodes ==> Relinked(temp, p, w, old(w.left), p);
      LiftingRedSiblingLeft(temp);
      w := temp.parent.right;
    }

    method LiftInnerNephewLeft(temp: Node) returns (w: Node)
      requires DeleteInv(temp) && temp != root && !temp.red && temp == temp.parent.left && LinkOk(temp.parent)
      requires temp.parent.right in nodes && !temp.parent.right.red && LinkOk(temp.parent.right)
      requires temp.parent.right.left in nodes && temp.parent.right.left.red && !temp.parent.right.right.red
      modifies `root, nodes`left, nodes`right, nodes`parent, nodes`red, nodes`lo, nodes`hi, nodes`bh
      ensures DeleteInv(temp) && temp != root && temp == temp.parent.left && !temp.red && w == temp.parent.right
      ensures w in nodes && !w.red && w.right in nodes && w.right.red
    {
      ghost var p, v := temp.parent, temp.parent.right.left;
      w := temp.parent.right;
      assert LinkOk(v);
      w.left.red := false;
      w.red := true;
      w.bh, v.bh := v.bh, w.bh;
      label painted:
      RightRotate(w);
      ghost var w' := w;
      forall n | n in nodes && n != w' && n != v
        ensures Relinked(n, w', v, old(v.right), w')
      {
        assert Relinked@painted(n, w', v, old(v.right), w');
      }
      assert Relinked(p, w', v, old(v.right), w');
      assert temp in nodes ==> Relinked(temp, w', v, old(v.right), w');
      LiftingInnerNephewLeft(temp);
      w := temp.parent.right;
    }

    method LiftOuterNephewLeft(temp: Node, w: Node)
      requires DeleteInv(temp) && temp != root && !temp.red && temp == temp.parent.left && LinkOk(temp.parent)
      requires w == temp.parent.right && w in nodes && !w.red && LinkOk(w)
      requires w.right in nodes && w.right.red
      modifies `root, nodes`left, nodes`right, nodes`parent, nodes`red, nodes`lo, nodes`hi, nodes`bh
      ensures DeleteInv(root)
    {
      ghost var p, v := temp.parent, w.right;
      assert LinkOk(v);
      PaintOuterNephew(temp.parent, w, w.right);
      label painted:
      LeftRotate(temp.parent);
      forall n | n in nodes && n != p && n != w
        ensures Relinked(n, p, w, old(w.left), p)
      {
        assert Relinked@painted(n, p, w, old(w.left), p);
      }
      LiftingOuterNephewLeft(temp);
    }

    method DeleteFixupLeft(temp: Node) returns (next: Node)
      requires DeleteInv(temp) && temp != root && !temp.red && temp == temp.parent.left
      modifies `root, nodes`left, nodes`right, nodes`parent, nodes`red, nodes`lo, nodes`hi, nodes`bh
      ensures DeleteInv(next) && Rise(next) < old(Rise(temp))
    {
      assert LinkOk(temp.parent) && DeficitOk(temp.parent, temp);
      var w := temp.parent.right;
      if w.red {
        assert LinkOk(w);
        w := LiftRedSiblingLeft(temp);
        assert LinkOk(temp.parent);
      }
      assert LinkOk(w) && DeficitOk(w, temp);
      if !w.left.red && !w.right.red {
        next := PaintSibling(temp, w);
      } else {
        if !w.right.red {
          w := LiftInnerNephewLeft(temp);
          assert LinkOk(temp.parent) && LinkOk(w);
        }
        LiftOuterNephewLeft(temp, w);
        next := root;
      }
    }

    method LiftRedSiblingRight(temp: Node) returns (w: Node)
      requires DeleteInv(temp) && temp != root && !temp.red && temp == temp.parent.right && LinkOk(temp.parent)
      requires temp.parent.left in nodes && temp.parent.left.red && LinkOk(temp.parent.left)
      modifies `root, nodes`right, nodes`left, nodes`parent, nodes`red, nodes`lo, nodes`hi, nodes`bh
      ensures DeleteInv(temp) && temp != root && temp == temp.parent.right && !temp.red && temp.parent.red && w == temp.parent.left
      ensures w in nodes && !w.red
    {
      ghost var p := temp.parent;
      w := temp.parent.left;
      assert DeficitOk(p, temp) && Calm(p, temp);
      w.red := false;
      temp.parent.red := true;
      p.bh, w.bh := w.bh, p.bh;
      label painted:
      RightRotate(temp.parent);
      forall n | n in nodes && n != p && n != w
        ensures Relinked(n, p, w, old(w.right), p)
      {
        assert Relinked@painted(n, p, w, old(w.right), p);
      }
      assert temp in nodes ==> Relinked(temp, p, w, old(w.right), p);
      LiftingRedSiblingRight(temp);
      w := temp.parent.left;
    }

    method LiftInnerNephewRight(temp: Node) returns (w: Node)
      requires DeleteInv(temp) && temp != root && !temp.red && temp == temp.parent.right && LinkOk(temp.parent)
      requires temp.parent.left in nodes && !temp.parent.left.red && LinkOk(temp.parent.left)
      requires temp.parent.left.right in nodes && temp.parent.left.right.red && !temp.parent.left.left.red
      modifies `root, nodes`right, nodes`left, nodes`parent, nodes`red, nodes`lo, nodes`hi, nodes`bh
      ensures DeleteInv(temp) && temp != root && temp == temp.parent.right && !temp.red && w == temp.parent.left
      ensures w in nodes && !w.red && w.left in nodes && w.left.red
    {
      ghost var p, v := temp.parent, temp.parent.left.right;
      w := temp.parent.left;
      assert LinkOk(v);
      w.right.red := false;
      w.red := true;
      w.bh, v.bh := v.bh, w.bh;
      label painted:
      LeftRotate(w);
      ghost var w' := w;
      forall n | n in nodes && n != w' && n != v
        ensures Relinked(n, w', v, old(v.left), w')
      {
        assert Relinked@painted(n, w', v, old(v.left), w');
      }
      assert Relinked(p, w', v, old(v.left), w');
      assert temp in nodes ==> Relinked(temp, w', v, old(v.left), w');
      LiftingInnerNephewRight(temp);
      w := temp.parent.left;
    }

    method LiftOuterNephewRight(temp: Node, w: Node)
      requires DeleteInv(temp) && temp != root && !temp.red && temp == temp.parent.right && LinkOk(temp.parent)
      requires w == temp.parent.left && w in nodes && !w.red && LinkOk(w)
      requires w.left in nodes && w.left.red
      modifies `root, nodes`right, nodes`left, nodes`parent, nodes`red, nodes`lo, nodes`hi, nodes`bh
      ensures DeleteInv(root)
    {
      ghost var p, v := temp.parent, w.left;
      assert LinkOk(v);
      PaintOuterNephew(temp.parent, w, w.left);
      label painted:
      RightRotate(temp.parent);
      forall n | n in nodes && n != p && n != w
        ensures Relinked(n, p, w, old(w.right), p)
      {
        assert Relinked@painted(n, p, w, old(w.right), p);
      }
      LiftingOuterNephewRight(temp);
    }

    method DeleteFixupRight(temp: Node) returns (next: Node)
      requires DeleteInv(temp) && temp != root && !temp.red && temp == temp.parent.right
      modifies `root, nodes`right, nodes`left, nodes`parent, nodes`red, nodes`lo, nodes`hi, nodes`bh
      ensures DeleteInv(next) && Rise(next) < old(Rise(temp))
    {
      assert LinkOk(temp.parent) && DeficitOk(temp.parent, temp);
      var w := temp.parent.left;
      if w.red {
        assert LinkOk(w);
        w := LiftRedSiblingRight(temp);
        assert LinkOk(temp.parent);
      }
      assert LinkOk(w) && DeficitOk(w, temp);
      if !w.right.red && !w.left.red {
        next := PaintSibling(temp, w);
      } else {
        if !w.left.red {
          w := LiftInnerNephewRight(temp);
          assert LinkOk(temp.parent) && LinkOk(w);
        }
        LiftOuterNephewRight(temp, w);
        next := root;
      }
    }

    // x, red or the root, turned black
    twostate lemma BlackHeirRestores(x: Node)
      requires old(DeleteInv(x) && (x == root || x.red)) && Shape()
      requires root == old(root) && nodes == old(nodes) && !x.red && !sentinel.red
      requires x.bh == old(x.bh) + (if old(x.red) then 1 else 0)
      requires forall n {:trigger SameColour(n)} :: n in nodes && n != x ==> SameColour(n)
      requires forall n :: n in nodes ==> n.left == old(n.left) && n.right == old(n.right)
      ensures Valid()
    {
      assert x in nodes;
      assert LinkOk(x);
      forall n | n in nodes
        ensures BlackOk(n) && RedOk(n, sentinel)
      {
        assert old(LinkOk(n) && DeficitOk(n, x) && Calm(n, x));
        if n != x { assert SameColour(n); }
        var l, r := n.left, n.right;
        if l in nodes && l != x { assert SameColour(l); }
        if r in nodes && r != x { assert SameColour(r); }
      }
      if root != x { assert SameColour(root); }
    }

    method DeleteFixup(start: Node)
      requires DeleteInv(start)
      modifies `root, nodes`left, nodes`right, nodes`parent, nodes`red, nodes`lo, nodes`hi, nodes`bh
      ensures Valid()
    {
      var temp := start;
      while temp != root && !temp.red
        invariant DeleteInv(temp)
        decreases Rise(temp)
      {
        if temp == temp.parent.left {
          temp := DeleteFixupLeft(temp);
        } else {
          temp := DeleteFixupRight(temp);
        }
      }
      label done:
      temp.bh := temp.bh + (if temp.red then 1 else 0);
      temp.red := false;
      BlackHeirRestores@done(temp);
    }

    // the fields of a node that left the tree are cleared
    method Clear(node: Node)
      requires node !in nodes
      modifies node`left, node`right, node`parent, node`key
    {
      node.left := null;
      node.right := null;
      node.parent := null;
      node.key := 0;
    }

    method SpliceLinks(node: Node, subst: Node, temp: Node)
      requires Valid() && node in nodes && Located(node) && subst == Subst(node) && temp == Heir(node) && subst != root
      modifies `root, `order, `nodes, sentinel`parent, nodes`left, nodes`right, nodes`parent, nodes`red
      modifies nodes`ix, nodes`lo, nodes`hi, nodes`bh, node`key
      ensures Spliced(node) && ColoursMoved(node, subst, temp)
    {
      if subst == node {
        SpliceSelf(node, temp);
      } else {
        SpliceSuccessor(node, subst, temp);
      }
      CloseGap(node, subst);
      Clear(node);
      forall n | n in nodes && n != subst
        ensures Plays(n, n, node, subst, temp) && SameColour(n)
      {
      }
    }

    // cuts subst out and lets it take the place of node
    method Splice(node: Node, subst: Node, temp: Node)
      requires Valid() && node in nodes && Located(node) && subst == Subst(node) && temp == Heir(node) && subst != root
      modifies `root, `order, `nodes, sentinel`parent, nodes`left, nodes`right, nodes`parent, nodes`red
      modifies nodes`ix, nodes`lo, nodes`hi, nodes`bh, node`key
      ensures nodes == old(nodes) - {node} && order == old(order)[..old(node.ix)] + old(order)[old(node.ix) + 1..]
      ensures if old(subst.red) then Valid() else DeleteInv(temp)
    {
      SpliceLinks(node, subst, temp);
      SplicingKeepsShape(node);
      if old(subst.red) {
        RedSplicingKeepsValid(node);
      } else {
        BlackSplicingLeavesDeficit(node);
      }
    }

    // the root is cut out: it has at most one child, and that child is a leaf
    lemma RootWithOneChild(temp: Node)
      requires Valid() && root in nodes && Subst(root) == root && temp == Heir(root)
      ensures temp != sentinel ==> temp in nodes && temp.left == sentinel && temp.right == sentinel && temp.red && temp.bh == 0
      ensures nodes - {root} == (if temp == sentinel then {} else {temp})
      ensures 0 <= root.ix < |order| && order[..root.ix] + order[root.ix + 1..] == (if temp == sentinel then [] else [temp])
    {
      SubstIsLocated(root);
      assert BlackOk(root);
      if temp != sentinel {
        assert LinkOk(temp) && BlackOk(temp) && RedOk(temp, sentinel);
        assert temp.left != sentinel ==> LinkOk(temp.left) && BlackOk(temp.left);
        assert temp.right != sentinel ==> LinkOk(temp.right) && BlackOk(temp.right);
        assert |order| == 2;
      }
    }

    // the new root keeps its stale parent link
    method CutRoot(node: Node, temp: Node)
      requires Valid() && node in nodes && node == root && Subst(node) == node && temp == Heir(node)
      modifies `root, `order, `nodes, sentinel`red, nodes`left, nodes`right, nodes`parent, nodes`red
      modifies nodes`ix, nodes`lo, nodes`hi, nodes`bh, node`key
      ensures Valid() && nodes == old(nodes) - {node}
      ensures order == old(order)[..old(node.ix)] + old(order)[old(node.ix) + 1..]
    {
      RootWithOneChild(temp);
      order, nodes := order[..node.ix] + order[node.ix + 1..], nodes - {node};
      if temp != sentinel {
        temp.ix, temp.lo, temp.hi, temp.bh := 0, 0, 1, 1;
      }
      root := temp;
      temp.red := false;
      Clear(node);
    }

    // the node to cut out: node itself, or its successor when it has two children
    method FindSubst(node: Node) returns (subst: Node, temp: Node)
      requires Shape() && node in nodes
      ensures Located(node) && subst == Subst(node) && temp == Heir(node)
    {
      SubstIsLocated(node);
      if node.left == sentinel {
        temp := node.right;
        subst := node;
      } else if node.right == sentinel {
        temp := node.left;
        subst := node;
      } else {
        subst := Min(node.right);
        if subst.left != sentinel {
          assert false; // a minimum has no left child
        }
        temp := subst.right;
      }
    }

    method Delete(node: Node)
      requires Valid() && node in nodes
      modifies `root, `order, `nodes, sentinel`parent, sentinel`red, nodes`left, nodes`right, nodes`parent, nodes`red
      modifies nodes`ix, nodes`lo, nodes`hi, nodes`bh, node`key
      ensures Valid() && nodes == old(nodes) - {node}
      ensures order == old(order)[..old(node.ix)] + old(order)[old(node.ix) + 1..]
    {
      var subst, temp := FindSubst(node);
      if subst == root {
        CutRoot(node, temp);
        return;
      }
      var red := subst.red;
      Splice(node, subst, temp);
      if red {
        return;
      }
      DeleteFixup(temp);
    }

    // ---------- traversal ----------

    method Next(node: Node) returns (next: Node?)
      requires Shape() && node in nodes
      ensures node.ix + 1 < |order| ==> next == order[node.ix + 1]
      ensures node.ix + 1 >= |order| ==> next == null
    {
      assert LinkOk(node);
      if node.right != sentinel {
        assert LinkOk(node.right);
        next := Min(node.right);
        return;
      }
      var cur := node;
      while true
        invariant cur in nodes && LinkOk(cur) && cur.hi == node.ix + 1
        decreases |order| - (cur.hi - cur.lo)
      {
        var parent := cur.parent;
        if cur == root {
          return null;
        }
        assert LinkOk(parent);
        if cur == parent.left {
          return parent;
        }
        cur := parent;
      }
    }
  }
}
