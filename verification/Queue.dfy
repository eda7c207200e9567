// The circular intrusive queue: a ring of links through a sentinel, its middle and its in-place stable sort.
module QueueOrder {
  // insertion from the right: x goes behind the last element that does not exceed it
  function InsertRight<T>(cmp: (T, T) -> int, s: seq<T>, x: T): seq<T>
  {
    if s == [] then [x]
    else if cmp(s[|s| - 1], x) <= 0 then s + [x]
    else InsertRight(cmp, s[..|s| - 1], x) + [s[|s| - 1]]
  }

  function InsertionSort<T>(cmp: (T, T) -> int, s: seq<T>): seq<T>
  {
    if s == [] then [] else InsertRight(cmp, InsertionSort(cmp, s[..|s| - 1]), s[|s| - 1])
  }

  ghost predicate Laws<T>(cmp: (T, T) -> int, a: T, b: T, c: T)
  {
    && (cmp(a, b) <= 0 || cmp(b, a) <= 0)
    && (cmp(a, b) <= 0 && cmp(b, c) <= 0 ==> cmp(a, c) <= 0)
  }

  // cmp is a total preorder on the elements of s
  ghost predicate TotalPreorder<T>(cmp: (T, T) -> int, s: set<T>)
  {
    forall a, b, c {:trigger Laws(cmp, a, b, c)} :: a in s && b in s && c in s ==> Laws(cmp, a, b, c)
  }

  ghost predicate Ascending<T>(cmp: (T, T) -> int, s: seq<T>)
  {
    forall i, j :: 0 <= i < j < |s| ==> cmp(s[i], s[j]) <= 0
  }

  // the elements of s that compare equal to a, in their order
  function Ties<T>(cmp: (T, T) -> int, a: T, s: seq<T>): seq<T>
  {
    if s == [] then []
    else
      var x := s[|s| - 1];
      Ties(cmp, a, s[..|s| - 1]) + (if cmp(a, x) <= 0 && cmp(x, a) <= 0 then [x] else [])
  }

  // where InsertRight puts x
  function Slot<T>(cmp: (T, T) -> int, s: seq<T>, x: T): (k: nat)
    ensures k <= |s|
  {
    if s == [] || cmp(s[|s| - 1], x) <= 0 then |s| else Slot(cmp, s[..|s| - 1], x)
  }

  lemma {:induction false} InsertRightAtSlot<T>(cmp: (T, T) -> int, s: seq<T>, x: T)
    ensures var k := Slot(cmp, s, x);
      && InsertRight(cmp, s, x) == s[..k] + [x] + s[k..]
      && (k > 0 ==> cmp(s[k - 1], x) <= 0)
      && (forall i :: k <= i < |s| ==> cmp(s[i], x) > 0)
  {
    if s != [] && cmp(s[|s| - 1], x) > 0 {
      var t := s[..|s| - 1];
      InsertRightAtSlot(cmp, t, x);
      var k := Slot(cmp, t, x);
      assert t[..k] == s[..k];
      assert t[k..] + [s[|s| - 1]] == s[k..];
      assert InsertRight(cmp, s, x) == t[..k] + [x] + (t[k..] + [s[|s| - 1]]);
    }
  }

  // r is s with x put in at place k, after an element that is not greater and before greater ones
  ghost predicate Inserted<T>(cmp: (T, T) -> int, s: seq<T>, k: nat, x: T, r: seq<T>)
  {
    && k <= |s| && |r| == |s| + 1
    && (k > 0 ==> cmp(s[k - 1], x) <= 0) && (forall i :: k <= i < |s| ==> cmp(s[i], x) > 0)
    && (forall i :: 0 <= i < |r| ==> r[i] == if i < k then s[i] else if i == k then x else s[i - 1])
  }

  lemma InsertRightInserts<T>(cmp: (T, T) -> int, s: seq<T>, x: T)
    ensures Inserted(cmp, s, Slot(cmp, s, x), x, InsertRight(cmp, s, x))
  {
    InsertRightAtSlot(cmp, s, x);
  }

  lemma InsertRightAscends<T>(cmp: (T, T) -> int, dom: set<T>, s: seq<T>, x: T)
    requires TotalPreorder(cmp, dom) && Ascending(cmp, s) && x in dom && forall i :: 0 <= i < |s| ==> s[i] in dom
    ensures Ascending(cmp, InsertRight(cmp, s, x))
  {
    InsertRightInserts(cmp, s, x);
    AscendsAround(cmp, dom, s, x, Slot(cmp, s, x), InsertRight(cmp, s, x));
  }

  lemma AscendsAround<T>(cmp: (T, T) -> int, dom: set<T>, s: seq<T>, x: T, k: nat, r: seq<T>)
    requires TotalPreorder(cmp, dom) && Ascending(cmp, s) && x in dom && forall i :: 0 <= i < |s| ==> s[i] in dom
    requires Inserted(cmp, s, k, x, r)
    ensures Ascending(cmp, r)
  {
    forall i, j | 0 <= i < j < |r|
      ensures cmp(r[i], r[j]) <= 0
    {
      assert r[i] == if i < k then s[i] else if i == k then x else s[i - 1];
      assert r[j] == if j < k then s[j] else if j == k then x else s[j - 1];
      if j == k {
        if i < k - 1 { assert cmp(s[i], s[k - 1]) <= 0 && Laws(cmp, s[i], s[k - 1], x); }
      } else if i == k {
        assert cmp(s[j - 1], x) > 0 && Laws(cmp, s[j - 1], x, x);
      } else {
        var i', j' := if i < k then i else i - 1, if j < k then j else j - 1;
        assert cmp(s[i'], s[j']) <= 0;
      }
    }
  }

  // x passes over greater elements only, so no tie is reordered
  lemma {:induction false} InsertRightIsStable<T>(cmp: (T, T) -> int, dom: set<T>, a: T, s: seq<T>, x: T)
    requires TotalPreorder(cmp, dom) && x in dom && a in dom && forall i :: 0 <= i < |s| ==> s[i] in dom
    ensures Ties(cmp, a, InsertRight(cmp, s, x)) == Ties(cmp, a, s) + Ties(cmp, a, [x])
  {
    if s != [] {
      var t, y := s[..|s| - 1], s[|s| - 1];
      var r := InsertRight(cmp, s, x);
      if cmp(y, x) <= 0 {
        assert r[..|r| - 1] == s;
      } else {
        InsertRightIsStable(cmp, dom, a, t, x);
        assert r[..|r| - 1] == InsertRight(cmp, t, x);
        assert Laws(cmp, y, a, x);
      }
    }
  }

  lemma {:induction false} InsertRightAdds<T>(cmp: (T, T) -> int, s: seq<T>, x: T)
    ensures multiset(InsertRight(cmp, s, x)) == multiset(s) + multiset{x}
  {
    if s != [] && cmp(s[|s| - 1], x) > 0 {
      var t, y := s[..|s| - 1], s[|s| - 1];
      InsertRightAdds(cmp, t, x);
      assert s == t + [y];
    }
  }

  // for any comparison function, even one that is no order
  lemma {:induction false} SortPermutes<T>(cmp: (T, T) -> int, s: seq<T>)
    ensures multiset(InsertionSort(cmp, s)) == multiset(s)
  {
    if s != [] {
      var t, x := s[..|s| - 1], s[|s| - 1];
      SortPermutes(cmp, t);
      InsertRightAdds(cmp, InsertionSort(cmp, t), x);
      assert s == t + [x];
    }
  }

  lemma {:induction false} SortStays<T>(cmp: (T, T) -> int, dom: set<T>, s: seq<T>)
    requires forall i :: 0 <= i < |s| ==> s[i] in dom
    ensures forall i :: 0 <= i < |InsertionSort(cmp, s)| ==> InsertionSort(cmp, s)[i] in dom
  {
    var u := InsertionSort(cmp, s);
    SortPermutes(cmp, s);
    forall i | 0 <= i < |u| ensures u[i] in dom { assert u[i] in multiset(u); }
  }

  lemma {:induction false} SortAscends<T>(cmp: (T, T) -> int, dom: set<T>, s: seq<T>)
    requires TotalPreorder(cmp, dom) && forall i :: 0 <= i < |s| ==> s[i] in dom
    ensures Ascending(cmp, InsertionSort(cmp, s))
  {
    if s != [] {
      var t := s[..|s| - 1];
      SortAscends(cmp, dom, t);
      SortStays(cmp, dom, t);
      InsertRightAscends(cmp, dom, InsertionSort(cmp, t), s[|s| - 1]);
    }
  }

  lemma {:induction false} SortKeepsTies<T>(cmp: (T, T) -> int, dom: set<T>, a: T, s: seq<T>)
    requires TotalPreorder(cmp, dom) && a in dom && forall i :: 0 <= i < |s| ==> s[i] in dom
    ensures Ties(cmp, a, InsertionSort(cmp, s)) == Ties(cmp, a, s)
  {
    if s != [] {
      var t := s[..|s| - 1];
      SortKeepsTies(cmp, dom, a, t);
      SortStays(cmp, dom, t);
      SortAscends(cmp, dom, t);
      InsertRightIsStable(cmp, dom, a, InsertionSort(cmp, t), s[|s| - 1]);
    }
  }

  // Sorting orders the elements and keeps equal elements in their order.
  lemma {:induction false} SortIsStable<T>(cmp: (T, T) -> int, dom: set<T>, s: seq<T>)
    requires TotalPreorder(cmp, dom) && forall i :: 0 <= i < |s| ==> s[i] in dom
    ensures Ascending(cmp, InsertionSort(cmp, s))
    ensures forall a :: a in dom ==> Ties(cmp, a, InsertionSort(cmp, s)) == Ties(cmp, a, s)
  {
    SortAscends(cmp, dom, s);
    forall a | a in dom
      ensures Ties(cmp, a, InsertionSort(cmp, s)) == Ties(cmp, a, s)
    {
      SortKeepsTies(cmp, dom, a, s);
    }
  }
}

module Queue {
  import opened QueueOrder

  class Link {
    var prev: Link?
    var next: Link?

    constructor () { prev, next := null, null; }
  }

  class Queue {
    const head: Link         // the sentinel
    ghost var ring: seq<Link>
    ghost var links: set<Link>  // every link that may be written: the ring, and one that is being moved

    constructor ()
      ensures Valid() && ring == [] && links == {} && fresh(head)
    {
      var h := new Link();
      head := h;
      ring, links := [], {};
      new;
      head.prev := head;
      head.next := head;
    }

    static ghost predicate Distinct(s: seq<Link>)
    {
      forall i, j :: 0 <= i < j < |s| ==> s[i] != s[j]
    }

    static lemma DistinctWithout(s: seq<Link>, k: nat)
      requires Distinct(s) && k < |s|
      ensures Distinct(s[..k] + s[k + 1..])
      ensures forall i :: 0 <= i < |s| && s[i] == s[k] ==> i == k
    {
    }

    // the i-th link of the ring, where the sentinel stands at both ends
    ghost function At(i: int): Link
      requires -1 <= i <= |ring|
      reads this
    {
      if 0 <= i < |ring| then ring[i] else head
    }

    ghost predicate Joined(i: int)
      requires -1 <= i < |ring|
      reads this, head, ring
    {
      At(i).next == At(i + 1) && At(i + 1).prev == At(i)
    }

    ghost predicate Valid()
      reads this, head, links
    {
      && head !in links
      && (forall i :: 0 <= i < |ring| ==> ring[i] in links)
      && Distinct(ring)
      && (forall i :: -1 <= i < |ring| ==> Joined(i))
    }

    // takes ring[k] out; its own links are left as they are
    method Remove(x: Link, ghost k: nat)
      requires Valid() && k < |ring| && ring[k] == x
      modifies this`ring, head, links
      ensures Valid() && ring == old(ring)[..k] + old(ring)[k + 1..]
      ensures x.next == old(x.next) && x.prev == old(x.prev)
    {
      assert At(k) == x && Joined(k - 1) && Joined(k);
      x.next.prev := x.prev;
      x.prev.next := x.next;
      DistinctWithout(ring, k);
      ring := ring[..k] + ring[k + 1..];
      forall i | -1 <= i < |ring| ensures Joined(i) {
        assert At(i) == old(At(if i < k then i else i + 1));
        assert At(i + 1) == old(At(if i + 1 < k then i + 1 else i + 2));
        assert old(Joined(i)) && old(Joined(i + 1));
      }
    }

    // puts q behind ring[k - 1], or behind the sentinel when k is 0
    method InsertAfter(prev: Link, q: Link, ghost k: nat)
      requires Valid() && k <= |ring| && prev == At(k - 1) && q !in ring && q != head
      modifies this`ring, this`links, head, links, q
      ensures Valid() && ring == old(ring)[..k] + [q] + old(ring)[k..] && links == old(links) + {q}
    {
      assert Joined(k - 1);
      q.next := prev.next;
      q.next.prev := q;
      q.prev := prev;
      prev.next := q;
      ring, links := ring[..k] + [q] + ring[k..], links + {q};
      forall i | -1 <= i < |ring| ensures Joined(i) {
        if i < k - 1 { assert old(Joined(i)); }
        if i > k { assert old(Joined(i - 1)); }
      }
    }

    // walks back from the last sorted link to the one q goes behind
    method FindSlot(cmp: (Link, Link) -> int, q: Link, last: Link, ghost sorted: seq<Link>) returns (prev: Link, ghost k: nat)
      requires Valid() && sorted != [] && sorted <= ring && last == ring[|sorted| - 1]
      ensures prev == At(Slot(cmp, sorted, q) - 1) && k == Slot(cmp, sorted, q)
    {
      prev, k := last, |sorted|;
      assert sorted[..k] == sorted;
      while true
        invariant 1 <= k <= |sorted| && prev == At(k - 1) == sorted[k - 1]
        invariant Slot(cmp, sorted[..k], q) == Slot(cmp, sorted, q)
        decreases k
      {
        if cmp(prev, q) <= 0 {
          break;
        }
        assert Joined(k - 2);
        assert sorted[..k][..k - 1] == sorted[..k - 1];
        prev := prev.prev;
        k := k - 1;
        if prev == head {
          break;
        }
      }
    }

    static lemma SkipFirst<T>(a: seq<T>, s: seq<T>, i: nat)
      requires |a| == i < |s|
      ensures (a + s[i..])[..i] + (a + s[i..])[i + 1..] == a + s[i + 1..]
    {
    }

    static lemma PutInFront<T>(a: seq<T>, b: seq<T>, k: nat, x: T)
      requires k <= |a|
      ensures (a + b)[..k] + [x] + (a + b)[k..] == (a[..k] + [x] + a[k..]) + b
    {
    }

    // one insertion step: the link behind the sorted part moves to its slot
    method SortStep(cmp: (Link, Link) -> int, q: Link, ghost sorted: seq<Link>, ghost s: seq<Link>) returns (next: Link)
      requires Valid() && 1 <= |sorted| < |ring| && |s| == |ring| && q == ring[|sorted|] && ring == sorted + s[|sorted|..]
      modifies this`ring, this`links, head, links
      ensures Valid() && links == old(links) && |ring| == |s| && next == At(|sorted| + 1)
      ensures ring == InsertRight(cmp, sorted, q) + s[|sorted| + 1..]
    {
      ghost var i := |sorted|;
      assert Joined(i - 1) && Joined(i);
      var prev: Link := q.prev;
      next := q.next;
      Remove(q, i);
      SkipFirst(sorted, s, i);
      ghost var k;
      prev, k := FindSlot(cmp, q, prev, sorted);
      InsertAfter(prev, q, k);
      InsertRightAtSlot(cmp, sorted, q);
      PutInFront(sorted, s[i + 1..], k, q);
    }

    method Sort(cmp: (Link, Link) -> int)
      requires Valid()
      modifies this`ring, this`links, head, links
      ensures Valid() && ring == InsertionSort(cmp, old(ring)) && links == old(links)
    {
      ghost var s := ring;
      assert Joined(-1) && Joined(|ring| - 1);
      var q: Link := head.next;
      if q == head.prev {
        return;
      }
      assert Joined(0);
      q := q.next;
      ghost var i, sorted: seq<Link> := 1, s[..1];
      assert s[..1][..0] == [];
      while q != head
        invariant Valid() && |ring| == |s| && 1 <= i <= |s| && q == At(i)
        invariant |sorted| == i && sorted == InsertionSort(cmp, s[..i]) && ring == sorted + s[i..]
        invariant links == old(links)
        decreases |s| - i
      {
        var next := SortStep(cmp, q, sorted, s);
        assert s[..i + 1][..i] == s[..i];
        sorted := InsertRight(cmp, sorted, q);
        q := next;
        i := i + 1;
      }
      assert s[..|s|] == s && s[|s|..] == [];
    }

    lemma OnceOnly(i: nat, j: nat)
      requires Valid() && i < |ring| && j < |ring| && ring[i] == ring[j]
      ensures i == j
    {
    }

    // the link in the middle; of two, the right one
    method Middle() returns (middle: Link)
      requires Valid()
      ensures middle == At(|ring| / 2)
    {
      assert Joined(-1) && Joined(|ring| - 1);
      middle := head.next;
      if middle == head.prev {
        return;
      }
      var next := head.next;
      ghost var i, n := 0, |ring|;
      while true
        invariant 0 <= i && 2 * i < n - 1 && middle == ring[i] && next == ring[2 * i]
        decreases n - i
      {
        assert Joined(i) && Joined(2 * i);
        middle := middle.next;
        next := next.next;
        if next == head.prev {
          OnceOnly(2 * i + 1, n - 1);
          return;
        }
        assert Joined(2 * i + 1);
        next := next.next;
        if next == head.prev {
          OnceOnly(2 * i + 2, n - 1);
          return;
        }
        i := i + 1;
      }
    }
  }
}
