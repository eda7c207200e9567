// Event timers: deadlines are 64-bit millisecond counters that wrap around, kept in a red-black tree.
module Timers {
  import opened Base
  import opened RbNodes
  import opened RbTree
  import opened RbOrder

  const TIMER_LAZY_DELAY := 300
  const WORD := 0x1_0000_0000_0000_0000
  const HALF := 0x8000_0000_0000_0000

  // the absolute value macro on a signed word: negating the least word overflows back to itself
  function AbsWord(d: int): int
    requires -HALF <= d < HALF
  {
    if d >= 0 then d else Signed((-d) % WORD)
  }

  // how far key k lies ahead of b
  function Ahead(b: uint64, k: uint64): int
  {
    (k - b) % WORD
  }

  // k lies in the half of the number circle that starts at b
  predicate InWindow(b: uint64, k: uint64)
  {
    Ahead(b, k) < HALF
  }

  lemma LazyTest(d: int)
    requires -HALF <= d < HALF
    ensures AbsWord(d) < TIMER_LAZY_DELAY <==> -TIMER_LAZY_DELAY < d < TIMER_LAZY_DELAY || d == -HALF
  {
    if d < 0 { assert (-d) % WORD == -d; }
  }

  lemma AheadOfSum(b: uint64, d: uint64)
    ensures Ahead(b, (b + d) % WORD) == d
    ensures (b + d) % WORD == if b + d < WORD then b + d else b + d - WORD
  {
    if b + d >= WORD { assert (b + d) % WORD == b + d - WORD; }
  }

  // how far ahead a key is: the plain difference, or what is left of it after one turn of the counter
  lemma AheadIs(b: uint64, k: uint64)
    ensures Ahead(b, k) == if b <= k then k - b else k - b + WORD
  {
  }

  // inside a window the wrapped difference is the true difference
  lemma WindowDiff(b: uint64, x: uint64, y: uint64)
    requires InWindow(b, x) && InWindow(b, y)
    ensures SignedDiff(x, y) == Ahead(b, x) - Ahead(b, y)
  {
    var d := Ahead(b, x) - Ahead(b, y);
    assert (x - y) % WORD == if d >= 0 then d else d + WORD;
  }

  // inside a window the lazy test is true closeness; the one far pair it accepts lies outside every window
  lemma LazyIsClose(b: uint64, x: uint64, y: uint64)
    requires InWindow(b, x) && InWindow(b, y)
    ensures AbsWord(SignedDiff(x, y)) < TIMER_LAZY_DELAY <==> -TIMER_LAZY_DELAY < SignedDiff(x, y) < TIMER_LAZY_DELAY
  {
    WindowDiff(b, x, y);
    LazyTest(SignedDiff(x, y));
  }

  lemma NoDiff(x: uint64)
    ensures SignedDiff(x, x) == 0
  {
  }

  lemma {:induction false} WindowOrderIsWeak(b: uint64, among: set<Node>)
    requires forall n :: n in among ==> InWindow(b, n.key)
    ensures WeakOrder(ByTimer, among)
  {
    forall x, y, z | x in among && y in among && z in among
      ensures Laws(ByTimer, x.Content(), y.Content(), z.Content())
    {
      WindowDiff(b, x.key, y.key);
      WindowDiff(b, y.key, x.key);
      WindowDiff(b, z.key, y.key);
      WindowDiff(b, x.key, z.key);
    }
  }

  class Event {
    const timer: Node
    var timerSet: bool

    constructor (n: Node)
      ensures timer == n && !timerSet
    {
      timer := n;
      timerSet := false;
    }
  }

  class Wheel {
    const tree: Tree
    var currentMsec: uint64
    ghost var events: set<Event>

    constructor (sentinel: Node, now: uint64)
      modifies sentinel`red
      ensures Valid() && InDeadlineOrder() && events == {} && currentMsec == now && tree.sentinel == sentinel
      ensures fresh(tree)
    {
      tree := new Tree(sentinel, ByTimer);
      currentMsec := now;
      events := {};
      new;
      assert tree.order == [];
    }

    // An event that may be armed from now on: it is not armed yet, and its timer node is its own.
    ghost method Register(ev: Event)
      requires Valid() && !ev.timerSet && ev.timer != tree.sentinel
      requires forall e :: e in events && e.timer == ev.timer ==> e == ev
      modifies this`events
      ensures Valid() && events == old(events) + {ev} && old(InDeadlineOrder()) == InDeadlineOrder()
    {
      events := events + {ev};
    }

    // an event's timer node is in the tree exactly when its timerSet flag is up, and nothing else is
    ghost predicate Valid()
      reads this, events, tree, tree.nodes, tree.sentinel
      reads set n <- tree.nodes :: n.left, set n <- tree.nodes :: n.right
    {
      && tree.Valid() && tree.insert == ByTimer
      && tree.nodes == (set e | e in events && e.timerSet :: e.timer)
      && Apart()
    }

    // every event has a timer node of its own
    ghost predicate Apart()
      reads this
    {
      && (forall e :: e in events ==> e.timer != tree.sentinel)
      && (forall e, f :: e in events && f in events && e.timer == f.timer ==> e == f)
    }

    // no member is due before a member on its left
    ghost predicate InDeadlineOrder()
      reads this, tree, tree.order
    {
      Sorted(tree)
    }

    // all live deadlines lie in the half circle that starts at b
    ghost predicate LiveIn(b: uint64)
      reads this, tree, tree.nodes
    {
      forall n :: n in tree.nodes ==> InWindow(b, n.key)
    }

    method DelTimer(ev: Event)
      requires Valid() && ev in events && ev.timerSet
      modifies tree`root, tree`order, tree`nodes, tree.sentinel`parent, tree.sentinel`red
      modifies tree.nodes`left, tree.nodes`right, tree.nodes`parent, tree.nodes`red
      modifies tree.nodes`ix, tree.nodes`lo, tree.nodes`hi, tree.nodes`bh, ev.timer`key, ev`timerSet
      ensures Valid() && !ev.timerSet && tree.nodes == old(tree.nodes) - {ev.timer}
      ensures old(InDeadlineOrder()) ==> InDeadlineOrder()
    {
      DeleteSorted(tree, ev.timer);
      ev.timerSet := false;
    }

    method Arm(ev: Event, ghost b: uint64)
      requires Valid() && ev in events && !ev.timerSet && ev.timer !in tree.nodes
      modifies tree`root, tree`order, tree`nodes, tree.nodes`left, tree.nodes`right, tree.nodes`parent, tree.nodes`red
      modifies tree.nodes`ix, tree.nodes`lo, tree.nodes`hi, tree.nodes`bh, ev`timerSet
      modifies ev.timer`left, ev.timer`right, ev.timer`parent, ev.timer`red, ev.timer`ix, ev.timer`lo, ev.timer`hi, ev.timer`bh
      ensures Valid() && ev.timerSet && tree.nodes == old(tree.nodes) + {ev.timer}
      ensures old(InDeadlineOrder() && WeakOrder(ByTimer, tree.nodes + {ev.timer})) ==> InDeadlineOrder()
      ensures old(LiveIn(b)) && InWindow(b, ev.timer.key) ==> LiveIn(b)
    {
      PutInTree(ev.timer, b);
      Mark(ev, b);
    }

    method Mark(ev: Event, ghost b: uint64)
      requires tree.Valid() && tree.insert == ByTimer && ev in events && !ev.timerSet && Apart()
      requires tree.nodes == (set e | e in events && e.timerSet :: e.timer) + {ev.timer}
      modifies ev`timerSet
      ensures Valid() && ev.timerSet && InDeadlineOrder() == old(InDeadlineOrder()) && LiveIn(b) == old(LiveIn(b))
    {
      ev.timerSet := true;
      assert tree.nodes == (set e | e in events && e.timerSet :: e.timer);
    }

    // the node goes into the tree; the deadlines do not change
    method PutInTree(node: Node, ghost b: uint64)
      requires tree.Valid() && tree.insert == ByTimer && node !in tree.nodes && node != tree.sentinel
      modifies tree`root, tree`order, tree`nodes, tree.nodes`left, tree.nodes`right, tree.nodes`parent, tree.nodes`red
      modifies tree.nodes`ix, tree.nodes`lo, tree.nodes`hi, tree.nodes`bh
      modifies node`left, node`right, node`parent, node`red, node`ix, node`lo, node`hi, node`bh
      ensures tree.Valid() && tree.nodes == old(tree.nodes) + {node}
      ensures old(InDeadlineOrder() && WeakOrder(ByTimer, tree.nodes + {node})) ==> InDeadlineOrder()
      ensures old(LiveIn(b)) && InWindow(b, node.key) ==> LiveIn(b)
    {
      ghost var k := InsertSorted(tree, node);
    }

    method Rearm(ev: Event, key: uint64, ghost b: uint64)
      requires Valid() && ev in events && !ev.timerSet && ev.timer !in tree.nodes
      modifies tree`root, tree`order, tree`nodes, tree.nodes`left, tree.nodes`right, tree.nodes`parent, tree.nodes`red
      modifies tree.nodes`ix, tree.nodes`lo, tree.nodes`hi, tree.nodes`bh, ev`timerSet, ev.timer`key
      modifies ev.timer`left, ev.timer`right, ev.timer`parent, ev.timer`red, ev.timer`ix, ev.timer`lo, ev.timer`hi, ev.timer`bh
      ensures Valid() && ev.timerSet && ev.timer.key == key && tree.nodes == old(tree.nodes) + {ev.timer}
      ensures old(LiveIn(b) && InDeadlineOrder()) && InWindow(b, key) ==> InDeadlineOrder() && LiveIn(b)
    {
      SetKey(ev.timer, key, b);
      if LiveIn(b) && InWindow(b, key) { WindowOrderIsWeak(b, tree.nodes + {ev.timer}); }
      Arm(ev, b);
      assert ev.timer.key == key && tree.nodes == old(tree.nodes) + {ev.timer};
    }

    // takes ev out of the tree if it is in it, and puts it back under key
    method Move(ev: Event, key: uint64, ghost b: uint64)
      requires Valid() && ev in events
      modifies tree`root, tree`order, tree`nodes, tree.sentinel`parent, tree.sentinel`red
      modifies tree.nodes`left, tree.nodes`right, tree.nodes`parent, tree.nodes`red
      modifies tree.nodes`ix, tree.nodes`lo, tree.nodes`hi, tree.nodes`bh
      modifies ev.timer`left, ev.timer`right, ev.timer`parent, ev.timer`red, ev.timer`key
      modifies ev.timer`ix, ev.timer`lo, ev.timer`hi, ev.timer`bh, ev`timerSet
      ensures Valid() && ev.timerSet && ev.timer.key == key && tree.nodes == old(tree.nodes) + {ev.timer}
      ensures old(LiveIn(b) && InDeadlineOrder()) && InWindow(b, key) ==> InDeadlineOrder() && LiveIn(b)
    {
      if ev.timerSet {
        DelTimer(ev);
      }
      assert (old(LiveIn(b)) ==> LiveIn(b)) && (old(InDeadlineOrder()) ==> InDeadlineOrder());
      Rearm(ev, key, b);
    }

    // Arms ev for timer milliseconds from now; an armed event whose deadline moves by less than the
    // lazy delay is left where it is.
    method AddTimer(ev: Event, timer: uint64, ghost b: uint64)
      requires Valid() && ev in events
      modifies tree`root, tree`order, tree`nodes, tree.sentinel`parent, tree.sentinel`red
      modifies tree.nodes`left, tree.nodes`right, tree.nodes`parent, tree.nodes`red
      modifies tree.nodes`ix, tree.nodes`lo, tree.nodes`hi, tree.nodes`bh
      modifies ev.timer`left, ev.timer`right, ev.timer`parent, ev.timer`red, ev.timer`key
      modifies ev.timer`ix, ev.timer`lo, ev.timer`hi, ev.timer`bh, ev`timerSet
      ensures Valid() && ev.timerSet && tree.nodes == old(tree.nodes) + {ev.timer}
      ensures ev.timer.key == old(if ev.timerSet && Lazy(ev.timer.key, Deadline(timer)) then ev.timer.key else Deadline(timer))
      ensures !old(ev.timerSet) ==>
                ev.timer.key == if currentMsec + timer < WORD then currentMsec + timer else currentMsec + timer - WORD
      ensures old(ev.timerSet) && timer < HALF && old(InWindow(currentMsec, ev.timer.key)) ==>
                var was := old(Ahead(currentMsec, ev.timer.key));
                Ahead(currentMsec, ev.timer.key) == if -TIMER_LAZY_DELAY < was - timer < TIMER_LAZY_DELAY then was else timer
      ensures old(LiveIn(b) && InDeadlineOrder() && InWindow(b, Deadline(timer))) ==>
                && InDeadlineOrder() && LiveIn(b)
                && -TIMER_LAZY_DELAY < SignedDiff(Deadline(timer), ev.timer.key) < TIMER_LAZY_DELAY
    {
      var key := Deadline(timer);
      DeadlineIs(timer, ev.timer.key);
      if ev.timerSet {
        var diff := SignedDiff(key, ev.timer.key);
        if AbsWord(diff) < TIMER_LAZY_DELAY {
          LazyStays(ev, key, b);
          return;
        }
      }
      Move(ev, key, b);
      NoDiff(key);
    }

    // The deadline is as far ahead as asked; an armed one stays if it is near that.
    lemma DeadlineIs(timer: uint64, was: uint64)
      ensures Deadline(timer) == if currentMsec + timer < WORD then currentMsec + timer else currentMsec + timer - WORD
      ensures Ahead(currentMsec, Deadline(timer)) == timer
      ensures timer < HALF && InWindow(currentMsec, was) ==>
                (Lazy(was, Deadline(timer)) <==> -TIMER_LAZY_DELAY < Ahead(currentMsec, was) - timer < TIMER_LAZY_DELAY)
    {
      AheadOfSum(currentMsec, timer);
      if timer < HALF && InWindow(currentMsec, was) {
        LazyIsClose(currentMsec, Deadline(timer), was);
        WindowDiff(currentMsec, Deadline(timer), was);
      }
    }

    // an armed event that may stay where it is has a deadline near the one asked for
    lemma LazyStays(ev: Event, key: uint64, b: uint64)
      requires Valid() && ev in events && ev.timerSet && Lazy(ev.timer.key, key)
      ensures tree.nodes == tree.nodes + {ev.timer}
      ensures LiveIn(b) && InWindow(b, key) ==> -TIMER_LAZY_DELAY < SignedDiff(key, ev.timer.key) < TIMER_LAZY_DELAY
    {
      assert ev.timer in tree.nodes;
      if LiveIn(b) && InWindow(b, key) {
        LazyIsClose(b, key, ev.timer.key);
      }
    }

    // the event loop's next deadline: the left end of the tree
    method Earliest(ghost b: uint64) returns (node: Node)
      requires Valid() && InDeadlineOrder() && LiveIn(b) && tree.nodes != {}
      ensures node in tree.nodes && exists e :: e in events && e.timerSet && e.timer == node
      ensures forall n :: n in tree.nodes ==> Ahead(b, node.key) <= Ahead(b, n.key)
    {
      node := tree.Min(tree.root);
      assert tree.order[0] == node;
      forall n | n in tree.nodes
        ensures Ahead(b, node.key) <= Ahead(b, n.key)
      {
        assert tree.order[n.ix] == n;
        if n.ix > 0 { assert !Less(tree.insert, tree.order[n.ix].Content(), tree.order[0].Content()); }
        WindowDiff(b, n.key, node.key);
      }
    }

    method SetKey(node: Node, key: uint64, ghost b: uint64)
      requires Valid() && node !in tree.nodes && node != tree.sentinel
      modifies node`key
      ensures Valid() && node.key == key
      ensures InDeadlineOrder() == old(InDeadlineOrder()) && LiveIn(b) == old(LiveIn(b))
    {
      node.key := key;
      forall n | n in tree.nodes
        ensures tree.BlackOk(n) && tree.RedOk(n, tree.sentinel)
      {
        assert tree.LinkOk(n);
        assert old(tree.BlackOk(n) && tree.RedOk(n, tree.sentinel));
      }
    }

    function Deadline(timer: uint64): uint64
      reads this
    {
      (currentMsec + timer) % WORD
    }
  }

  // the test that leaves an armed timer alone
  predicate Lazy(was: uint64, wanted: uint64)
  {
    AbsWord(SignedDiff(wanted, was)) < TIMER_LAZY_DELAY
  }
}
