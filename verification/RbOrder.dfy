// Sorted order of a tree under its comparator, and the string-keyed lookup.
module RbOrder {
  import opened Base
  import opened RbNodes
  import opened RbTree

  // the laws of a strict weak order for three items
  ghost predicate Laws(how: Comparator, a: Item, b: Item, c: Item)
  {
    && (Less(how, a, b) ==> !Less(how, b, a))
    && (Less(how, a, b) && !Less(how, c, b) ==> Less(how, a, c))
  }

  // Among the given nodes the comparator is a strict weak order.
  ghost predicate WeakOrder(how: Comparator, among: set<Node>)
    reads among
  {
    forall a, b, c {:trigger Laws(how, a.Content(), b.Content(), c.Content())} ::
      a in among && b in among && c in among ==> Laws(how, a.Content(), b.Content(), c.Content())
  }

  ghost predicate Sorted(t: Tree)
    reads t, t.order
  {
    forall i, j :: 0 <= i < j < |t.order| ==> !Less(t.insert, t.order[j].Content(), t.order[i].Content())
  }

  lemma SortedTreeSplits(t: Tree, node: Node)
    requires t.Indexed() && Sorted(t) && WeakOrder(t.insert, t.nodes + {node})
    ensures t.Splits(node)
  {
    forall i, j | 0 <= i < j < |t.order| && Less(t.insert, node.Content(), t.order[i].Content())
      ensures Less(t.insert, node.Content(), t.order[j].Content())
    {
      var y, z := t.order[i], t.order[j];
      assert !Less(t.insert, z.Content(), y.Content());
      assert y in t.nodes && z in t.nodes && Laws(t.insert, node.Content(), y.Content(), z.Content());
    }
  }

  // A sorted tree stays sorted when the comparator is a weak order on the members and the new node.
  method InsertSorted(t: Tree, node: Node) returns (ghost k: int)
    requires t.Valid() && node !in t.nodes && node != t.sentinel
    modifies t`root, t`order, t`nodes, t.nodes`left, t.nodes`right, t.nodes`parent, t.nodes`red
    modifies t.nodes`ix, t.nodes`lo, t.nodes`hi, t.nodes`bh
    modifies node`left, node`right, node`parent, node`red, node`ix, node`lo, node`hi, node`bh
    ensures t.Valid() && t.nodes == old(t.nodes) + {node}
    ensures 0 <= k <= |old(t.order)| && t.order == old(t.order)[..k] + [node] + old(t.order)[k..]
    ensures old(Sorted(t) && WeakOrder(t.insert, t.nodes + {node})) ==> Sorted(t) && old(t.FitsAt(node, k))
  {
    ghost var orderly, items, x := Sorted(t) && WeakOrder(t.insert, t.nodes + {node}), Items(t), node.Content();
    if orderly { SortedTreeSplits(t, node); }
    assert orderly ==> forall i :: 0 <= i < |items| ==> Laws(t.insert, x, items[i], x);
    forall j | t.FitsAt(node, j) ensures FitsItems(t.insert, items, x, j) {
    }
    k := InsertItem(t, node, items, x);
    if orderly {
      SortedWithOneMore(t.insert, items, x, k, Items(t));
    }
  }

  // Insertion, as the comparator sees it.
  method InsertItem(t: Tree, node: Node, ghost items: seq<Item>, ghost x: Item) returns (ghost k: int)
    requires t.Valid() && node !in t.nodes && node != t.sentinel && items == Items(t) && x == node.Content()
    modifies t`root, t`order, t`nodes, t.nodes`left, t.nodes`right, t.nodes`parent, t.nodes`red
    modifies t.nodes`ix, t.nodes`lo, t.nodes`hi, t.nodes`bh
    modifies node`left, node`right, node`parent, node`red, node`ix, node`lo, node`hi, node`bh
    ensures t.Valid() && t.nodes == old(t.nodes) + {node}
    ensures 0 <= k <= |items| == |old(t.order)| && t.order == old(t.order)[..k] + [node] + old(t.order)[k..]
    ensures OneMore(items, x, k, Items(t))
    ensures old(t.Splits(node)) ==> old(t.FitsAt(node, k))
  {
    ghost var was := t.order;
    k := t.Insert(node);
    assert forall i :: 0 <= i < |was| ==> was[i].Content() == items[i];
    NodesWithOneMore(was, node, k, t.order);
  }

  lemma NodesWithOneMore(was: seq<Node>, node: Node, k: int, now: seq<Node>)
    requires 0 <= k <= |was| && now == was[..k] + [node] + was[k..]
    ensures OneMore(was, node, k, now)
  {
  }

  // t is s with x put in front of place k
  ghost predicate OneMore<T>(s: seq<T>, x: T, k: int, t: seq<T>)
  {
    && 0 <= k <= |s| && |t| == |s| + 1 && t[k] == x
    && (forall i :: 0 <= i < k ==> t[i] == s[i])
    && (forall i :: k < i < |t| ==> t[i] == s[i - 1])
  }

  // what the comparator sees of the members, in order
  ghost function Items(t: Tree): (s: seq<Item>)
    reads t, t.order
    ensures |s| == |t.order| && forall i :: 0 <= i < |s| ==> s[i] == t.order[i].Content()
  {
    seq(|t.order|, i requires 0 <= i < |t.order| reads t, t.order => t.order[i].Content())
  }

  ghost predicate FitsItems(how: Comparator, s: seq<Item>, x: Item, k: int)
  {
    && 0 <= k <= |s|
    && (forall i :: 0 <= i < k ==> !Less(how, x, s[i]))
    && (forall i :: k <= i < |s| ==> Less(how, x, s[i]))
  }

  ghost predicate SortedItems(how: Comparator, s: seq<Item>)
  {
    forall i, j :: 0 <= i < j < |s| ==> !Less(how, s[j], s[i])
  }

  lemma SortedWithOneMore(how: Comparator, s: seq<Item>, x: Item, k: int, t: seq<Item>)
    requires SortedItems(how, s) && FitsItems(how, s, x, k) && OneMore(s, x, k, t)
    requires forall i :: 0 <= i < |s| ==> Laws(how, x, s[i], x)
    ensures SortedItems(how, t)
  {
    forall i, j | 0 <= i < j < |t|
      ensures !Less(how, t[j], t[i])
    {
      if i == k {
        assert t[j] == s[j - 1] && Laws(how, x, s[j - 1], x);
      }
    }
  }

  method DeleteSorted(t: Tree, node: Node)
    requires t.Valid() && node in t.nodes
    modifies t`root, t`order, t`nodes, t.sentinel`parent, t.sentinel`red, t.nodes`left, t.nodes`right, t.nodes`parent
    modifies t.nodes`red, t.nodes`ix, t.nodes`lo, t.nodes`hi, t.nodes`bh, node`key
    ensures t.Valid() && t.nodes == old(t.nodes) - {node}
    ensures old(Sorted(t)) ==> Sorted(t)
    ensures t.order == old(t.order)[..old(node.ix)] + old(t.order)[old(node.ix) + 1..]
  {
    ghost var k := node.ix;
    ghost var orderly := Sorted(t);
    t.Delete(node);
    forall i, j | orderly && 0 <= i < j < |t.order|
      ensures !Less(t.insert, t.order[j].Content(), t.order[i].Content())
    {
      assert t.order[i] in t.nodes && t.order[j] in t.nodes;
      assert t.order[i] == old(t.order)[if i < k then i else i + 1];
      assert t.order[j] == old(t.order)[if j < k then j else j + 1];
    }
  }

  // ---------- string-keyed trees ----------

  lemma {:induction false} MemCmpFlips(a: seq<byte>, b: seq<byte>)
    requires |a| == |b|
    ensures MemCmp(a, b) == -MemCmp(b, a)
    ensures MemCmp(a, b) == 0 <==> a == b
  {
    if a != [] {
      MemCmpFlips(a[1..], b[1..]);
      if a[0] == b[0] && a[1..] == b[1..] {
        assert a == [a[0]] + a[1..] == b;
      }
    }
  }

  lemma {:induction false} MemCmpChains(a: seq<byte>, b: seq<byte>, c: seq<byte>)
    requires |a| == |b| == |c|
    ensures MemCmp(a, b) < 0 && MemCmp(b, c) <= 0 ==> MemCmp(a, c) < 0
  {
    if a != [] {
      MemCmpChains(a[1..], b[1..], c[1..]);
    }
  }

  lemma StringLaws(a: Item, b: Item, c: Item)
    ensures Laws(ByString, a, b, c)
  {
    if |a.str| == |b.str| { MemCmpFlips(a.str, b.str); }
    if |a.str| == |b.str| == |c.str| {
      MemCmpFlips(b.str, c.str);
      MemCmpChains(a.str, b.str, c.str);
    }
  }

  lemma StringOrderIsWeak(among: set<Node>)
    ensures WeakOrder(ByString, among)
  {
    forall a, b, c | a in among && b in among && c in among
      ensures Laws(ByString, a.Content(), b.Content(), c.Content())
    {
      StringLaws(a.Content(), b.Content(), c.Content());
    }
  }

  lemma KeyOrderIsWeak(among: set<Node>)
    ensures WeakOrder(ByKey, among)
  {
    forall a, b, c | a in among && b in among && c in among
      ensures Laws(ByKey, a.Content(), b.Content(), c.Content())
    {
    }
  }

  // everything from node on is beyond a target that lies before node
  lemma GoLeft(t: Tree, node: Node, target: Item)
    requires t.Shape() && Sorted(t) && t.insert == ByString && node in t.nodes
    requires Less(ByString, target, node.Content())
    ensures forall i :: node.ix <= i < |t.order| ==> Less(ByString, target, t.order[i].Content())
  {
    assert t.order[node.ix] == node;
    forall i | node.ix <= i < |t.order|
      ensures Less(ByString, target, t.order[i].Content())
    {
      assert i > node.ix ==> !Less(ByString, t.order[i].Content(), t.order[node.ix].Content());
      StringLaws(target, node.Content(), t.order[i].Content());
    }
  }

  lemma GoRight(t: Tree, node: Node, target: Item)
    requires t.Shape() && Sorted(t) && t.insert == ByString && node in t.nodes
    requires Less(ByString, node.Content(), target)
    ensures forall i :: 0 <= i <= node.ix ==> Less(ByString, t.order[i].Content(), target)
  {
    assert t.order[node.ix] == node;
    forall i | 0 <= i <= node.ix
      ensures Less(ByString, t.order[i].Content(), target)
    {
      var x := t.order[i].Content();
      assert i < node.ix ==> !Less(ByString, t.order[node.ix].Content(), x);
      StringLaws(node.Content(), target, x);
    }
  }

  // the search for target is at node, the top of the slice [lo, hi): everything else is before or
  // beyond the target
  ghost predicate Searching(t: Tree, node: Node?, lo: int, hi: int, target: Item)
    reads t, t.nodes, t.order, node
    reads set n <- t.nodes :: n.left, set n <- t.nodes :: n.right
  {
    && 0 <= lo <= hi <= |t.order|
    && (if node == t.sentinel then lo == hi else node in t.nodes && t.LinkOk(node) && node.lo == lo && node.hi == hi)
    && (forall i :: 0 <= i < lo ==> Less(ByString, t.order[i].Content(), target))
    && (forall i :: hi <= i < |t.order| ==> Less(ByString, target, t.order[i].Content()))
  }

  lemma SearchLeft(t: Tree, node: Node, lo: int, hi: int, target: Item)
    requires t.Shape() && Sorted(t) && t.insert == ByString && node != t.sentinel && Searching(t, node, lo, hi, target)
    requires Less(ByString, target, node.Content())
    ensures node.ix < hi && Searching(t, node.left, lo, node.ix, target)
  {
    assert node.left != t.sentinel ==> t.LinkOk(node.left);
    GoLeft(t, node, target);
  }

  lemma SearchRight(t: Tree, node: Node, lo: int, hi: int, target: Item)
    requires t.Shape() && Sorted(t) && t.insert == ByString && node != t.sentinel && Searching(t, node, lo, hi, target)
    requires Less(ByString, node.Content(), target)
    ensures lo <= node.ix && Searching(t, node.right, node.ix + 1, hi, target)
  {
    assert node.right != t.sentinel ==> t.LinkOk(node.right);
    GoRight(t, node, target);
  }

  // a search that ran off the tree: no member has the target's hash and bytes
  lemma SearchedAll(t: Tree, lo: int, target: Item)
    requires t.Shape() && Searching(t, t.sentinel, lo, lo, target)
    ensures forall m :: m in t.nodes ==> m.Content() != target
  {
    forall m | m in t.nodes ensures m.Content() != target {
      assert t.order[m.ix] == m;
      StringLaws(target, target, target);
    }
  }

  // a node with that hash and those bytes is found exactly when one is in the tree
  method Lookup(t: Tree, val: seq<byte>, hash: uint64) returns (n: Node?)
    requires t.Valid() && t.insert == ByString && Sorted(t)
    ensures n != null ==> n in t.nodes && n.key == hash && n.str == val
    ensures n == null ==> forall m :: m in t.nodes ==> m.key != hash || m.str != val
  {
    ghost var target := Item(hash, val);
    ghost var lo, hi := 0, |t.order|;
    var node := t.root;
    while node != t.sentinel
      invariant Searching(t, node, lo, hi, target)
      decreases hi - lo
    {
      if |val| == |node.str| { MemCmpFlips(val, node.str); }
      if Less(ByString, target, node.Content()) {
        SearchLeft(t, node, lo, hi, target);
        hi := node.ix;
      } else if Less(ByString, node.Content(), target) {
        SearchRight(t, node, lo, hi, target);
        lo := node.ix + 1;
      }
      if hash != node.key {
        node := if hash < node.key then node.left else node.right;
        continue;
      }
      if |val| != |node.str| {
        node := if |val| < |node.str| then node.left else node.right;
        continue;
      }
      var rc := MemCmp(val, node.str);
      if rc < 0 {
        node := node.left;
        continue;
      }
      if rc > 0 {
        node := node.right;
        continue;
      }
      return node;
    }
    SearchedAll(t, lo, target);
    forall m | m in t.nodes ensures m.key != hash || m.str != val {
      assert m.Content() != target;
    }
    n := null;
  }

  // the insertion callback for string nodes keeps the search order, whatever is inserted
  method InsertString(t: Tree, node: Node) returns (ghost k: int)
    requires t.Valid() && t.insert == ByString && Sorted(t) && node !in t.nodes && node != t.sentinel
    modifies t`root, t`order, t`nodes, t.nodes`left, t.nodes`right, t.nodes`parent, t.nodes`red
    modifies t.nodes`ix, t.nodes`lo, t.nodes`hi, t.nodes`bh
    modifies node`left, node`right, node`parent, node`red, node`ix, node`lo, node`hi, node`bh
    ensures t.Valid() && Sorted(t) && t.nodes == old(t.nodes) + {node}
    ensures 0 <= k <= |old(t.order)| && t.order == old(t.order)[..k] + [node] + old(t.order)[k..]
  {
    StringOrderIsWeak(t.nodes + {node});
    k := InsertSorted(t, node);
  }

  // The insertion callback for plain keys: members stand in ascending order of their keys, and a new one
  // goes behind those with the same key.
  method InsertKey(t: Tree, node: Node) returns (ghost k: int)
    requires t.Valid() && t.insert == ByKey && node !in t.nodes && node != t.sentinel
    requires forall i, j :: 0 <= i < j < |t.order| ==> t.order[i].key <= t.order[j].key
    modifies t`root, t`order, t`nodes, t.nodes`left, t.nodes`right, t.nodes`parent, t.nodes`red
    modifies t.nodes`ix, t.nodes`lo, t.nodes`hi, t.nodes`bh
    modifies node`left, node`right, node`parent, node`red, node`ix, node`lo, node`hi, node`bh
    ensures t.Valid() && t.nodes == old(t.nodes) + {node}
    ensures 0 <= k <= |old(t.order)| && t.order == old(t.order)[..k] + [node] + old(t.order)[k..]
    ensures forall i, j :: 0 <= i < j < |t.order| ==> t.order[i].key <= t.order[j].key
    ensures forall i :: 0 <= i < k ==> old(t.order)[i].key <= node.key
    ensures forall i :: k <= i < |old(t.order)| ==> node.key < old(t.order)[i].key
  {
    KeyOrderIsWeak(t.nodes + {node});
    KeysAscend(t);
    forall j | t.FitsAt(node, j) ensures KeyFits(t.order, node, j) {
    }
    k := InsertSorted(t, node);
    KeysAscend(t);
  }

  ghost predicate KeyFits(s: seq<Node>, node: Node, k: int)
    reads s, node
  {
    && 0 <= k <= |s|
    && (forall i :: 0 <= i < k ==> s[i].key <= node.key)
    && (forall i :: k <= i < |s| ==> node.key < s[i].key)
  }

  // what the order is for plain keys
  lemma KeysAscend(t: Tree)
    requires t.insert == ByKey
    ensures Sorted(t) <==> forall i, j :: 0 <= i < j < |t.order| ==> t.order[i].key <= t.order[j].key
  {
    forall i, j | 0 <= i < j < |t.order|
      ensures !Less(t.insert, t.order[j].Content(), t.order[i].Content()) <==> t.order[i].key <= t.order[j].key
    {
    }
  }

  // Strings are ordered by their hash, then by their length, then by the first byte in which they
  // differ.
  lemma StringOrderIs(a: Item, b: Item)
    ensures Less(ByString, a, b) <==>
            || a.key < b.key
            || (a.key == b.key && |a.str| < |b.str|)
            || (a.key == b.key && |a.str| == |b.str| &&
                exists i :: 0 <= i < |a.str| && a.str[..i] == b.str[..i] && a.str[i] < b.str[i])
  {
    if a.key == b.key && |a.str| == |b.str| {
      FirstDifference(a.str, b.str);
    }
  }

  lemma SameFirst(a: seq<byte>, b: seq<byte>, i: nat)
    requires 0 < i <= |a| && i <= |b| && a[..i] == b[..i]
    ensures a[0] == b[0]
  {
    assert a[..i][0] == b[..i][0];
  }

  lemma {:induction false} FirstDifference(a: seq<byte>, b: seq<byte>)
    requires |a| == |b|
    ensures MemCmp(a, b) < 0 <==> exists i :: 0 <= i < |a| && a[..i] == b[..i] && a[i] < b[i]
  {
    if a != [] {
      FirstDifference(a[1..], b[1..]);
      if a[0] != b[0] {
        assert a[..0] == b[..0];
        forall i | 0 <= i < |a| && a[..i] == b[..i] ensures i == 0 {
          if i > 0 { SameFirst(a, b, i); }
        }
      } else {
        forall i | 0 <= i < |a| - 1 ensures a[1..][..i] == b[1..][..i] <==> a[..i + 1] == b[..i + 1] {
          assert a[..i + 1] == [a[0]] + a[1..][..i] && b[..i + 1] == [b[0]] + b[1..][..i];
          assert a[..i + 1][1..] == a[1..][..i] && b[..i + 1][1..] == b[1..][..i];
        }
        if MemCmp(a, b) < 0 {
          var i :| 0 <= i < |a| - 1 && a[1..][..i] == b[1..][..i] && a[1..][i] < b[1..][i];
          assert a[..i + 1] == b[..i + 1] && a[i + 1] < b[i + 1];
        }
        if i :| 0 <= i < |a| && a[..i] == b[..i] && a[i] < b[i] {
          assert i > 0 && a[1..][..i - 1] == b[1..][..i - 1] && a[1..][i - 1] < b[1..][i - 1];
        }
      }
    }
  }
}
