// The cached time strings: 64 slots written under a try-lock and published by pointer, for any number
// of threads that update and any number that read.
module TimeSlots {
  import opened Base

  const SLOTS := 64
  const TEXTS := 5                 // error log, http, http log, ISO 8601 and syslog time

  // where a thread is inside the update routine
  datatype Pc = Idle | Peeked | Holding | Filling | Publishing(next: nat) | Unlocking

  // owner, advances and versions only record history: no step depends on them
  datatype State = State(
    lock: bool,
    owner: Option<int>,            // the thread that set the lock
    slot: int,
    secs: map<int, int>,           // the second cached in each slot
    texts: map<(int, int), string>, // the bytes of text k in slot i, under (k, i)
    pointers: map<int, int>,       // the slot that text pointer k refers to; no entry while it is null
    pcs: map<int, Pc>,             // threads that are not idle
    advances: nat,                 // how often a slot was begun
    versions: map<int, nat>)       // the value of advances when the target of pointer k was begun

  datatype Step =
    | Peek(t: int)                 // trylock: read the lock
    | Grab(t: int)                 // trylock: compare and set
    | Clock(t: int, sec: int)      // same second: only the milliseconds change; else begin the next slot
    | Write(t: int, k: int, bytes: string) // one store into text k of the new slot
    | Filled(t: int)
    | Publish(t: int)
    | Unlock(t: int)

  function PcOf(s: State, t: int): Pc
  {
    if t in s.pcs then s.pcs[t] else Idle
  }

  function Text(s: State, k: int, i: int): string
  {
    if (k, i) in s.texts then s.texts[(k, i)] else ""
  }

  // the second cached in a slot; slots are zero at first
  function SecOf(s: State, i: int): int
  {
    if i in s.secs then s.secs[i] else 0
  }

  predicate Critical(pc: Pc)
  {
    pc.Holding? || pc.Filling? || pc.Publishing? || pc.Unlocking?
  }

  predicate Enabled(s: State, a: Step)
  {
    match a
    case Peek(t) => PcOf(s, t).Idle?
    case Grab(t) => PcOf(s, t).Peeked?
    case Clock(t, sec) => PcOf(s, t).Holding?
    case Write(t, k, bytes) => PcOf(s, t).Filling? && 0 <= k < TEXTS
    case Filled(t) => PcOf(s, t).Filling?
    case Publish(t) => PcOf(s, t).Publishing? && PcOf(s, t).next < TEXTS
    case Unlock(t) => PcOf(s, t).Unlocking? || PcOf(s, t) == Publishing(TEXTS)
  }

  function Next(s: State, a: Step): State
    requires Enabled(s, a)
  {
    match a
    case Peek(t) => if s.lock then s else s.(pcs := s.pcs[t := Peeked])
    case Grab(t) => if s.lock then s.(pcs := s.pcs[t := Idle]) else s.(lock := true, owner := Some(t), pcs := s.pcs[t := Holding])
    case Clock(t, sec) =>
      if SecOf(s, s.slot) == sec then s.(pcs := s.pcs[t := Unlocking])
      else
        var slot := if s.slot == SLOTS - 1 then 0 else s.slot + 1;
        s.(slot := slot, secs := s.secs[slot := sec], advances := s.advances + 1, pcs := s.pcs[t := Filling])
    case Write(t, k, bytes) => s.(texts := s.texts[(k, s.slot) := bytes])
    case Filled(t) => s.(pcs := s.pcs[t := Publishing(0)])
    case Publish(t) =>
      var k := PcOf(s, t).next;
      s.(pointers := s.pointers[k := s.slot], versions := s.versions[k := s.advances], pcs := s.pcs[t := Publishing(k + 1)])
    case Unlock(t) => s.(lock := false, owner := None, pcs := s.pcs[t := Idle])
  }

  const Start := State(false, None, 0, map[], map[], map[], map[], 0, map[])

  // the state after a sequence of steps, if each was enabled
  function Exec(s: State, steps: seq<Step>): Option<State>
    decreases |steps|
  {
    if steps == [] then Some(s)
    else if Enabled(s, steps[0]) then Exec(Next(s, steps[0]), steps[1..])
    else None
  }

  ghost predicate Reachable(s: State)
  {
    exists steps :: Exec(Start, steps) == Some(s)
  }

  // pointer k still waits for the update in progress
  predicate Pending(s: State, k: int)
  {
    s.owner.Some? &&
    var pc := PcOf(s, s.owner.value);
    pc.Filling? || (pc.Publishing? && pc.next <= k)
  }

  ghost predicate Inv(s: State)
  {
    && (s.lock <==> s.owner.Some?)
    && (forall t :: Critical(PcOf(s, t)) <==> s.owner == Some(t))
    && (forall t :: PcOf(s, t).Publishing? ==> PcOf(s, t).next <= TEXTS)
    && s.slot == s.advances % SLOTS
    && s.pointers.Keys == s.versions.Keys
    && (forall k :: k in s.pointers ==> 0 <= k < TEXTS && s.pointers[k] == s.versions[k] % SLOTS)
    && (forall k :: k in s.versions ==> s.versions[k] == if Pending(s, k) then s.advances - 1 else s.advances)
    && Published(s)
  }

  // once a slot was begun every pointer is set, except those that the first update has yet to move
  ghost predicate Published(s: State)
  {
    && (s.advances > 0 <==> s.secs != map[])
    && (s.advances > 0 ==> s.slot in s.secs)
    && (forall k :: 0 <= k < TEXTS && s.advances > (if Pending(s, k) then 1 else 0) ==> k in s.pointers)
  }

  lemma NextSlot(n: nat)
    ensures (n + 1) % SLOTS == if n % SLOTS == SLOTS - 1 then 0 else n % SLOTS + 1
  {
  }

  lemma NextKeepsInv(s: State, a: Step)
    requires Inv(s) && Enabled(s, a)
    ensures Inv(Next(s, a))
  {
    NextKeepsOwner(s, a);
    NextKeepsSlots(s, a);
    NextKeepsPublished(s, a);
  }

  lemma NextKeepsOwner(s: State, a: Step)
    requires Inv(s) && Enabled(s, a)
    ensures var n := Next(s, a);
            && (n.lock <==> n.owner.Some?) && (forall t :: Critical(PcOf(n, t)) <==> n.owner == Some(t))
            && (forall t :: PcOf(n, t).Publishing? ==> PcOf(n, t).next <= TEXTS)
  {
    var n, t := Next(s, a), a.t;
    forall u
      ensures Critical(PcOf(n, u)) <==> n.owner == Some(u)
      ensures PcOf(n, u).Publishing? ==> PcOf(n, u).next <= TEXTS
    {
      assert u != t ==> PcOf(n, u) == PcOf(s, u);
      assert Critical(PcOf(s, t)) <==> s.owner == Some(t);
    }
    assert Critical(PcOf(n, t)) <==> n.owner == Some(t);
  }

  lemma NextKeepsSlots(s: State, a: Step)
    requires Inv(s) && Enabled(s, a)
    ensures var n := Next(s, a);
            && n.slot == n.advances % SLOTS && n.pointers.Keys == n.versions.Keys
            && (forall k :: k in n.pointers ==> 0 <= k < TEXTS && n.pointers[k] == n.versions[k] % SLOTS)
            && (forall k :: k in n.versions ==> n.versions[k] == if Pending(n, k) then n.advances - 1 else n.advances)
  {
    NextSlot(s.advances);
    assert Critical(PcOf(s, a.t)) <==> s.owner == Some(a.t);
  }

  lemma NextKeepsPublished(s: State, a: Step)
    requires Inv(s) && Enabled(s, a)
    ensures Published(Next(s, a))
  {
    assert Critical(PcOf(s, a.t)) <==> s.owner == Some(a.t);
    var n := Next(s, a);
    assert n.advances > s.advances ==> n.slot in n.secs;
    forall k | 0 <= k < TEXTS && n.advances > (if Pending(n, k) then 1 else 0)
      ensures k in n.pointers
    {
      assert Pending(s, k) || k in s.pointers || s.advances == 0;
    }
  }

  lemma {:induction false} ExecKeepsInv(s: State, steps: seq<Step>)
    requires Inv(s) && Exec(s, steps).Some?
    ensures Inv(Exec(s, steps).value)
    decreases |steps|
  {
    if steps != [] {
      NextKeepsInv(s, steps[0]);
      ExecKeepsInv(Next(s, steps[0]), steps[1..]);
    }
  }

  lemma ReachableInv(s: State)
    requires Reachable(s)
    ensures Inv(s)
  {
    var steps :| Exec(Start, steps) == Some(s);
    ExecKeepsInv(Start, steps);
  }

  // ---------- publication ----------

  lemma AllAtSlot(s: State)
    requires Inv(s) && s.owner == None && s.advances > 0
    ensures forall k :: 0 <= k < TEXTS ==> k in s.pointers && s.pointers[k] == s.slot
  {
  }

  // While no thread is updating, every pointer refers to the newest slot, if there is one.
  lemma NewestIsPublished(s: State)
    requires Reachable(s) && !s.lock && s.secs != map[]
    ensures forall k :: 0 <= k < TEXTS ==> k in s.pointers && s.pointers[k] == s.slot
  {
    ReachableInv(s);
  }

  // thread t is past the clock, which read sec, and has the slot at hand
  ghost predicate During(s: State, t: int, sec: int, slot: int)
  {
    && Inv(s) && s.owner == Some(t) && !PcOf(s, t).Holding?
    && s.slot == slot && SecOf(s, slot) == sec
  }

  lemma {:induction false} DuringLasts(s: State, steps: seq<Step>, t: int, sec: int, slot: int)
    requires During(s, t, sec, slot) && Exec(s, steps).Some? && Unlock(t) !in steps
    ensures During(Exec(s, steps).value, t, sec, slot)
    decreases |steps|
  {
    if steps != [] {
      var a := steps[0];
      NextKeepsInv(s, a);
      assert Critical(PcOf(s, a.t)) <==> s.owner == Some(a.t);
      assert Critical(PcOf(s, t));
      assert a in steps;
      DuringLasts(Next(s, a), steps[1..], t, sec, slot);
    }
  }

  // An update that read the second sec, whatever other threads do meanwhile: when it unlocks, the slot
  // at hand has that second, it is the next one if the second is new and else the one before, and
  // every pointer refers to it.
  lemma {:induction false} UpdateEnds(s: State, t: int, sec: int, steps: seq<Step>)
    requires Reachable(s) && PcOf(s, t).Holding? && Unlock(t) !in steps
    requires Exec(s, [Clock(t, sec)] + steps + [Unlock(t)]).Some?
    ensures var e := Exec(s, [Clock(t, sec)] + steps + [Unlock(t)]).value;
            && !e.lock && SecOf(e, e.slot) == sec
            && e.slot == (if SecOf(s, s.slot) == sec then s.slot else (s.slot + 1) % SLOTS)
            && (e.secs != map[] ==> forall k :: 0 <= k < TEXTS ==> k in e.pointers && e.pointers[k] == e.slot)
  {
    ReachableInv(s);
    var last := RunParts(s, Clock(t, sec), steps, Unlock(t));
    ClockBegins(s, t, sec);
    DuringLasts(Next(s, Clock(t, sec)), steps, t, sec, Next(s, Clock(t, sec)).slot);
    NextKeepsInv(last, Unlock(t));
  }

  lemma ClockBegins(s: State, t: int, sec: int)
    requires Inv(s) && PcOf(s, t).Holding?
    ensures var n := Next(s, Clock(t, sec));
            During(n, t, sec, n.slot) && n.slot == if SecOf(s, s.slot) == sec then s.slot else (s.slot + 1) % SLOTS
  {
    NextKeepsInv(s, Clock(t, sec));
    NextSlot(s.advances);
    assert Critical(PcOf(s, t));
  }

  // a first step, some more, and a last one
  lemma {:induction false} RunParts(s: State, first: Step, steps: seq<Step>, end: Step) returns (last: State)
    requires Exec(s, [first] + steps + [end]).Some?
    ensures Enabled(s, first) && Exec(Next(s, first), steps) == Some(last) && Enabled(last, end)
    ensures Exec(s, [first] + steps + [end]) == Some(Next(last, end))
  {
    var all := [first] + steps + [end];
    assert all[0] == first && all[1..] == steps + [end];
    var begun := Next(s, first);
    Front(begun, steps, [end]);
    last := Exec(begun, steps).value;
    ExecJoins(begun, steps, [end]);
    assert Exec(last, [end]).Some?;
    One(last, end);
  }

  // a part of a run is a run
  lemma {:induction false} Front(s: State, a: seq<Step>, b: seq<Step>)
    requires Exec(s, a + b).Some?
    ensures Exec(s, a).Some?
    decreases |a|
  {
    if a != [] {
      assert (a + b)[0] == a[0] && (a + b)[1..] == a[1..] + b;
      Front(Next(s, a[0]), a[1..], b);
    }
  }

  // ---------- safety ----------

  // at most one thread is between the trylock and the unlock
  lemma MutualExclusion(s: State, t: int, u: int)
    requires Reachable(s) && Critical(PcOf(s, t)) && Critical(PcOf(s, u))
    ensures t == u
  {
    ReachableInv(s);
  }

  // a store never goes to the slot that a published pointer of that kind refers to
  lemma NoWriteIsPublished(s: State, t: int, k: int, bytes: string)
    requires Reachable(s) && Enabled(s, Write(t, k, bytes)) && k in s.pointers
    ensures s.pointers[k] != s.slot
    ensures Text(Next(s, Write(t, k, bytes)), k, s.pointers[k]) == Text(s, k, s.pointers[k])
  {
    ReachableInv(s);
    assert Critical(PcOf(s, t));
    NextSlot(s.advances - 1);
  }

  lemma {:induction false} AdvancesGrow(s: State, steps: seq<Step>)
    requires Exec(s, steps).Some?
    ensures s.advances <= Exec(s, steps).value.advances
    decreases |steps|
  {
    if steps != [] { AdvancesGrow(Next(s, steps[0]), steps[1..]); }
  }

  lemma SlotsApart(v: nat, a: nat)
    requires v < a < v + SLOTS
    ensures v % SLOTS != a % SLOTS
  {
  }

  // No store hits the slot begun at the v-th advance before the slots have gone round once.
  lemma {:induction false} TextSurvives(s: State, steps: seq<Step>, k: int, v: nat)
    requires Inv(s) && Exec(s, steps).Some? && Exec(s, steps).value.advances < v + SLOTS
    requires v < s.advances || (v == s.advances && !(s.owner.Some? && PcOf(s, s.owner.value).Filling?))
    ensures Text(Exec(s, steps).value, k, v % SLOTS) == Text(s, k, v % SLOTS)
    decreases |steps|
  {
    if steps != [] {
      var a := steps[0];
      var n := Next(s, a);
      NextKeepsInv(s, a);
      AdvancesGrow(n, steps[1..]);
      assert Critical(PcOf(s, a.t)) <==> s.owner == Some(a.t);
      if a.Write? { SlotsApart(v, s.advances); }
      TextSurvives(n, steps[1..], k, v);
    }
  }

  // A reader that takes pointer k in state s sees the same bytes until the slot is begun again, 64
  // advances after it was begun. An update in progress that has begun its slot but not yet moved
  // pointer k has used up one of them.
  lemma ReaderIsSafe(s: State, steps: seq<Step>, k: int)
    requires Reachable(s) && k in s.pointers && Exec(s, steps).Some?
    requires Exec(s, steps).value.advances <= s.advances + (if Pending(s, k) then SLOTS - 2 else SLOTS - 1)
    ensures Text(Exec(s, steps).value, k, s.pointers[k]) == Text(s, k, s.pointers[k])
  {
    ReachableInv(s);
    TextSurvives(s, steps, k, s.versions[k]);
  }

  // ---------- the bound is exact ----------

  lemma {:induction false} ExecJoins(s: State, a: seq<Step>, b: seq<Step>)
    requires Exec(s, a).Some?
    ensures Exec(s, a + b) == Exec(Exec(s, a).value, b)
    decreases |a|
  {
    if a == [] {
      assert a + b == b;
    } else {
      assert (a + b)[1..] == a[1..] + b;
      ExecJoins(Next(s, a[0]), a[1..], b);
    }
  }

  // the owner moves the remaining pointers and unlocks
  lemma {:induction false} FinishPublishing(s: State, t: int) returns (steps: seq<Step>)
    requires Inv(s) && s.owner == Some(t) && PcOf(s, t).Publishing?
    ensures Exec(s, steps).Some?
    ensures var e := Exec(s, steps).value;
            && Inv(e) && e.owner == None && e.advances == s.advances
            && e.texts == s.texts && e.secs == s.secs && e.slot == s.slot
    decreases TEXTS - PcOf(s, t).next
  {
    assert PcOf(s, t).next <= TEXTS;
    if PcOf(s, t).next == TEXTS {
      NextKeepsInv(s, Unlock(t));
      assert Exec(Next(s, Unlock(t)), []) == Some(Next(s, Unlock(t)));
      steps := [Unlock(t)];
    } else {
      NextKeepsInv(s, Publish(t));
      var rest := FinishPublishing(Next(s, Publish(t)), t);
      steps := [Publish(t)] + rest;
      assert steps[1..] == rest;
    }
  }

  lemma One(s: State, a: Step)
    requires Enabled(s, a)
    ensures Exec(s, [a]) == Some(Next(s, a))
  {
    assert Exec(Next(s, a), [a][1..]) == Some(Next(s, a));
  }

  // whatever update is in progress can end without another advance
  lemma Finish(s: State) returns (steps: seq<Step>)
    requires Inv(s)
    ensures Exec(s, steps).Some? && var e := Exec(s, steps).value; Inv(e) && e.owner == None && e.advances == s.advances
  {
    if s.owner == None {
      return [];
    }
    var t := s.owner.value;
    assert Critical(PcOf(s, t));
    match PcOf(s, t) {
      case Holding =>
        var a := Clock(t, SecOf(s, s.slot));
        NextKeepsInv(s, a);
        NextKeepsInv(Next(s, a), Unlock(t));
        One(s, a);
        One(Next(s, a), Unlock(t));
        ExecJoins(s, [a], [Unlock(t)]);
        steps := [a] + [Unlock(t)];
      case Filling =>
        NextKeepsInv(s, Filled(t));
        var rest := FinishPublishing(Next(s, Filled(t)), t);
        One(s, Filled(t));
        ExecJoins(s, [Filled(t)], rest);
        steps := [Filled(t)] + rest;
      case Publishing(_) =>
        steps := FinishPublishing(s, t);
      case _ =>
        NextKeepsInv(s, Unlock(t));
        One(s, Unlock(t));
        steps := [Unlock(t)];
    }
  }

  // an idle thread takes the free lock and begins the next slot, for a new second
  lemma Begin(s: State, t: int, sec: int) returns (steps: seq<Step>)
    requires Inv(s) && s.owner == None && t !in s.pcs && SecOf(s, s.slot) != sec
    ensures Exec(s, steps).Some?
    ensures var e := Exec(s, steps).value;
      && Inv(e) && e.owner == Some(t) && PcOf(e, t).Filling? && e.advances == s.advances + 1 && e.pcs.Keys == s.pcs.Keys + {t}
      && SecOf(e, e.slot) == sec && e.slot == (s.slot + 1) % SLOTS
  {
    var s1 := Next(s, Peek(t));
    var s2 := Next(s1, Grab(t));
    NextKeepsInv(s, Peek(t));
    NextKeepsInv(s1, Grab(t));
    ClockBegins(s2, t, sec);
    One(s, Peek(t));
    One(s1, Grab(t));
    One(s2, Clock(t, sec));
    ExecJoins(s, [Peek(t)], [Grab(t)]);
    ExecJoins(s, [Peek(t)] + [Grab(t)], [Clock(t, sec)]);
    steps := [Peek(t)] + [Grab(t)] + [Clock(t, sec)];
  }

  // the owner writes the texts from k on
  lemma {:induction false} WriteTexts(s: State, t: int, texts: seq<string>, k: nat) returns (steps: seq<Step>)
    requires Inv(s) && s.owner == Some(t) && PcOf(s, t).Filling? && |texts| == TEXTS && k <= TEXTS
    ensures Exec(s, steps).Some?
    ensures var e := Exec(s, steps).value;
            && Inv(e) && e.owner == Some(t) && PcOf(e, t).Filling? && e.advances == s.advances
            && e.secs == s.secs && e.slot == s.slot
            && (forall j :: 0 <= j < TEXTS ==> Text(e, j, s.slot) == if j < k then Text(s, j, s.slot) else texts[j])
    decreases TEXTS - k
  {
    if k == TEXTS {
      steps := [];
    } else {
      var a := Write(t, k, texts[k]);
      NextKeepsInv(s, a);
      var rest := WriteTexts(Next(s, a), t, texts, k + 1);
      One(s, a);
      ExecJoins(s, [a], rest);
      steps := [a] + rest;
    }
  }

  // the owner moves every pointer to the slot it filled, and unlocks
  lemma {:induction false} PublishAll(s: State, t: int) returns (steps: seq<Step>)
    requires Inv(s) && s.owner == Some(t) && PcOf(s, t).Filling?
    ensures Exec(s, steps).Some?
    ensures var e := Exec(s, steps).value;
            Inv(e) && e.owner == None && e.advances == s.advances && e.texts == s.texts && e.secs == s.secs && e.slot == s.slot
  {
    NextKeepsInv(s, Filled(t));
    One(s, Filled(t));
    var finish := FinishPublishing(Next(s, Filled(t)), t);
    ExecJoins(s, [Filled(t)], finish);
    steps := [Filled(t)] + finish;
  }

  // the owner fills its slot with the texts and publishes it
  lemma {:induction false} FillAndPublish(s: State, t: int, texts: seq<string>) returns (steps: seq<Step>)
    requires Inv(s) && s.owner == Some(t) && PcOf(s, t).Filling? && |texts| == TEXTS
    ensures Exec(s, steps).Some?
    ensures var e := Exec(s, steps).value;
            && Inv(e) && e.owner == None && e.advances == s.advances && e.secs == s.secs && e.slot == s.slot
            && forall k :: 0 <= k < TEXTS ==> Text(e, k, e.slot) == texts[k]
  {
    var write := WriteTexts(s, t, texts, 0);
    var publish := PublishAll(Exec(s, write).value, t);
    ExecJoins(s, write, publish);
    steps := write + publish;
  }

  // An update goes through: from any state with the lock free, an idle thread can publish any texts for
  // any new second.
  lemma {:induction false} UpdateRuns(s: State, t: int, sec: int, texts: seq<string>) returns (steps: seq<Step>)
    requires Reachable(s) && !s.lock && t !in s.pcs && SecOf(s, s.slot) != sec && |texts| == TEXTS
    ensures Exec(s, steps).Some?
    ensures var e := Exec(s, steps).value;
            && !e.lock && SecOf(e, e.slot) == sec && e.slot == (s.slot + 1) % SLOTS
            && forall k :: 0 <= k < TEXTS ==> k in e.pointers && e.pointers[k] == e.slot && Text(e, k, e.pointers[k]) == texts[k]
  {
    ReachableInv(s);
    var begin := Begin(s, t, sec);
    var fill := FillAndPublish(Exec(s, begin).value, t, texts);
    AllAtSlot(Exec(Exec(s, begin).value, fill).value);
    ExecJoins(s, begin, fill);
    steps := begin + fill;
  }

  lemma FreshThread(s: State) returns (t: int)
    ensures t !in s.pcs
  {
    t := FreshInt(s.pcs.Keys);
  }

  lemma {:induction false} FreshInt(used: set<int>) returns (t: int)
    ensures forall u :: u in used ==> u < t
    decreases used
  {
    t := 0;
    if u: int :| u in used {
      var r := FreshInt(used - {u});
      t := if r > u then r else u + 1;
      forall w | w in used
        ensures w < t
      {
        assert w == u || w in used - {u};
      }
    }
  }

  // any number of slots can be begun from here
  lemma {:induction false} Rounds(s: State, n: nat) returns (steps: seq<Step>, t: int)
    requires Inv(s) && n > 0
    ensures Exec(s, steps).Some?
    ensures var e := Exec(s, steps).value; Inv(e) && PcOf(e, t).Filling? && e.advances == s.advances + n
    decreases n
  {
    var end := Finish(s);
    var e := Exec(s, end).value;
    if n == 1 {
      t := FreshThread(e);
      var begin := Begin(e, t, SecOf(e, e.slot) + 1);
      ExecJoins(s, end, begin);
      steps := end + begin;
    } else {
      var u := FreshThread(e);
      var begin := Begin(e, u, SecOf(e, e.slot) + 1);
      ExecJoins(s, end, begin);
      var more;
      more, t := Rounds(Exec(e, begin).value, n - 1);
      ExecJoins(s, end + begin, more);
      steps := end + begin + more;
    }
  }

  // One advance more than ReaderIsSafe allows, and some run overwrites what the reader holds. So the
  // bytes live through the next 63 advances exactly when no update was about to move that pointer.
  lemma OneMoreMayOverwrite(s: State, k: int) returns (steps: seq<Step>)
    requires Reachable(s) && k in s.pointers
    ensures Exec(s, steps).Some?
    ensures Exec(s, steps).value.advances == s.advances + (if Pending(s, k) then SLOTS - 1 else SLOTS)
    ensures Text(Exec(s, steps).value, k, s.pointers[k]) != Text(s, k, s.pointers[k])
  {
    ReachableInv(s);
    var n := if Pending(s, k) then SLOTS - 1 else SLOTS;
    var t, before;
    before, t := Rounds(s, n);
    var e := Exec(s, before).value;
    assert s.versions[k] + SLOTS == e.advances;
    assert e.slot == s.pointers[k];
    var a := Write(t, k, Text(s, k, s.pointers[k]) + "x");
    One(e, a);
    ExecJoins(s, before, [a]);
    steps := before + [a];
  }
}
