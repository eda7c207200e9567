// The pool allocator: a chain of equal blocks cut up front to back, and a list of large buffers
// whose list nodes are themselves cut from the blocks. Addresses and sizes are 64-bit words.
module Arena {
  const WORD := 0x1_0000_0000_0000_0000
  const POOL_HEADER := 80
  const BLOCK_HEADER := 32
  const LARGE_NODE := 16
  const ALIGNMENT := 8
  const POOL_ALIGNMENT := 16

  // a piece of memory; node marks those that hold an entry of the list of large buffers
  datatype Piece = Piece(at: nat, size: nat, node: bool)

  predicate Apart(p: nat, psize: nat, q: nat, qsize: nat)
  {
    p + psize <= q || q + qsize <= p
  }

  // an address rounded up to the platform word
  function Align(m: nat): (r: nat)
    ensures m <= r < m + ALIGNMENT && r % ALIGNMENT == 0
  {
    m + (ALIGNMENT - m % ALIGNMENT) % ALIGNMENT
  }

  // the unsigned distance from m to end: huge when m lies beyond end
  function Room(end: nat, m: nat): nat
  {
    (end - m) % WORD
  }

  lemma RoomInside(end: nat, m: nat)
    requires m <= end < WORD
    ensures Room(end, m) == end - m
  {
  }

  lemma AlignStaysInside(m: nat, end: nat)
    requires m <= end && end % ALIGNMENT == 0
    ensures Align(m) <= end
  {
  }

  lemma HeaderIsAligned(at: nat, size: nat)
    requires at % POOL_ALIGNMENT == 0 && size % ALIGNMENT == 0
    ensures Align(at + BLOCK_HEADER) == at + BLOCK_HEADER && (at + BLOCK_HEADER) % ALIGNMENT == 0
    ensures (at + size) % ALIGNMENT == 0
  {
  }

  // the test by which a block serves a request
  predicate Serves(last: nat, end: nat, size: nat, align: bool)
  {
    Room(end, if align then Align(last) else last) >= size
  }

  predicate Inside(last: nat, end: nat, size: nat, align: bool)
  {
    (if align then Align(last) else last) + size <= end
  }

  // Requests that a block serves stay inside it exactly when the block ends on a word boundary:
  // otherwise aligning the start of the free part can step over the end, where the unsigned
  // distance makes the block look all but unlimited.
  lemma ServedInsideIff(end: nat)
    requires end < WORD - ALIGNMENT
    ensures end % ALIGNMENT == 0 <==>
            forall last: nat, size: nat, align: bool ::
              last <= end && Serves(last, end, size, align) ==> Inside(last, end, size, align)
  {
    if end % ALIGNMENT == 0 {
      forall last: nat, size: nat, align: bool | last <= end && Serves(last, end, size, align)
        ensures Inside(last, end, size, align)
      {
        AlignStaysInside(last, end);
        RoomInside(end, if align then Align(last) else last);
      }
    } else {
      FullBlockOverruns(end, 0);
    }
  }

  // a block that is full and ends off a word boundary serves every further aligned request
  lemma FullBlockOverruns(end: nat, size: nat)
    requires end < WORD - ALIGNMENT && end % ALIGNMENT != 0 && size <= WORD - ALIGNMENT
    ensures Serves(end, end, size, true) && !Inside(end, end, size, true)
  {
    var over := Align(end) - end;
    assert Align(end) != end;
    assert (-over) % WORD == WORD - over;
  }

  // a request for memory
  datatype Asked = Asked(alignment: nat, size: nat)

  // The system allocator: any call may fail, and one that succeeds gives an aligned region that
  // meets no live one. Only live regions may be freed. The requests it refused are on record.
  class System {
    var live: map<nat, nat>
    ghost var refusals: seq<Asked>

    constructor ()
      ensures Valid() && live == map[] && refusals == []
    {
      live, refusals := map[], [];
    }

    // an empty region still has an address of its own
    static predicate Distinct(p: nat, psize: nat, q: nat, qsize: nat)
    {
      p != q && Apart(p, psize, q, qsize)
    }

    ghost predicate Valid()
      reads this
    {
      && 0 !in live
      && (forall p :: p in live ==> p + live[p] < WORD - ALIGNMENT)
      && (forall p, q :: p in live && q in live && p != q ==> Apart(p, live[p], q, live[q]))
    }

    method Alloc(alignment: nat, size: nat) returns (p: nat)
      requires Valid()
      modifies this
      ensures Valid()
      ensures p == 0 ==> live == old(live)
      ensures p != 0 ==> p !in old(live) && live == old(live)[p := size] && alignment > 0 && p % alignment == 0
      ensures refusals == old(refusals) + if p == 0 then [Asked(alignment, size)] else []
    {
      p := *;
      if p == 0 || alignment == 0 || p % alignment != 0 || p + size >= WORD - ALIGNMENT
         || exists q :: q in live && !Distinct(p, size, q, live[q])
      {
        p := 0;
        refusals := refusals + [Asked(alignment, size)];
      } else {
        live := live[p := size];
      }
    }

    // freeing no region at all is allowed
    method Free(p: nat)
      requires Valid() && (p == 0 || p in live)
      modifies this
      ensures Valid() && live == old(live) - {p} && refusals == old(refusals)
    {
      live := live - {p};
    }
  }

  class Block {
    const at: nat
    const end: nat
    ghost const header: nat
    var last: nat
    var next: Block?
    var failed: nat
    ghost var pieces: seq<Piece>

    constructor (at: nat, size: nat, header: nat)
      requires 0 < at && at % POOL_ALIGNMENT == 0 && size % ALIGNMENT == 0 && at + size < WORD - ALIGNMENT
      requires header <= size
      ensures this.at == at && end == at + size && this.header == header && pieces == []
      ensures last == at + header && next == null && failed == 0 && Valid()
    {
      HeaderIsAligned(at, size);
      this.at, end, this.header := at, at + size, header;
      last, next, failed, pieces := at + header, null, 0, [];
    }

    ghost predicate Valid()
      reads this
    {
      && 0 < at && at % POOL_ALIGNMENT == 0 && end % ALIGNMENT == 0
      && at + header <= last <= end < WORD - ALIGNMENT
      && (forall j :: 0 <= j < |pieces| ==> at + header <= pieces[j].at && pieces[j].at + pieces[j].size <= last)
      && (forall i, j :: 0 <= i < j < |pieces| ==> pieces[i].at + pieces[i].size <= pieces[j].at)
    }

    lemma SizeIsAligned()
      requires Valid()
      ensures (end - at) % ALIGNMENT == 0
    {
    }

    // Where a request would be put.
    function Place(align: bool): nat
      reads this
    {
      if align then Align(last) else last
    }

    lemma ServesMeansFits(size: nat, align: bool)
      requires Valid()
      ensures Place(align) <= end
      ensures Room(end, Place(align)) >= size <==> Place(align) + size <= end
    {
      AlignStaysInside(last, end);
      RoomInside(end, Place(align));
    }

    method Cut(m: nat, size: nat, ghost node: bool)
      requires Valid() && last <= m && m + size <= end
      modifies this`last, this`pieces
      ensures Valid() && last == m + size && pieces == old(pieces) + [Piece(m, size, node)]
    {
      last := m + size;
      pieces := pieces + [Piece(m, size, node)];
    }
  }

  // An entry of the list of large buffers; slot is the number of the piece of home that holds it.
  class Large {
    const at: nat
    var alloc: nat
    var next: Large?
    ghost const home: Block
    ghost const slot: nat

    constructor (at: nat, alloc: nat, next: Large?, ghost home: Block, ghost slot: nat)
      ensures this.at == at && this.alloc == alloc && this.next == next && this.home == home && this.slot == slot
    {
      this.at, this.alloc, this.next, this.home, this.slot := at, alloc, next, home, slot;
    }
  }
}

module Pool {
  import opened Arena

  // the failure count of block i of n, when the chain had base blocks at the last reset
  ghost function FailedAt(i: nat, n: nat, base: nat): int
  {
    if i + 1 < base then n - base else if i + 2 <= n then n - 2 - i else 0
  }

  // the pieces of the blocks after one more was cut from block k, where k may be a new block
  ghost function Added(all: seq<seq<Piece>>, k: nat, p: Piece): seq<seq<Piece>>
    requires k <= |all|
  {
    if k < |all| then all[k := all[k] + [p]] else all + [[p]]
  }

  ghost function Elements(s: seq<nat>): set<nat>
  {
    set a | a in s
  }

  ghost function NonNull(s: seq<nat>): set<nat>
  {
    set a | a in s && a != 0
  }

  lemma ElementsJoin(s: seq<nat>, a: nat)
    ensures Elements(s + [a]) == Elements(s) + {a}
  {
    assert forall x :: x in s + [a] <==> x in s || x == a;
  }

  lemma NonNullJoin(a: nat, s: seq<nat>)
    ensures NonNull([a] + s) == NonNull(s) + (if a == 0 then {} else {a})
  {
    assert forall x :: x in [a] + s <==> x in s || x == a;
  }

  lemma MinusBoth(live: map<nat, nat>, a: set<nat>, b: set<nat>)
    ensures live - a - b == live - (a + b)
  {
  }

  lemma NewlyOwned(live: map<nat, nat>, owned: set<nat>, p: nat, size: nat)
    requires p !in live
    ensures live[p := size] - (owned + {p}) == live - owned
  {
  }

  lemma NoLongerOwned(live: map<nat, nat>, owned: set<nat>, rest: set<nat>, p: nat)
    requires rest + {p} == owned + {p} && (p in owned || p !in live)
    ensures live - {p} - rest == live - owned
  {
  }

  lemma TakenBack(live: map<nat, nat>, p: nat, size: nat)
    requires p !in live
    ensures live[p := size] - {p} == live
  {
  }

  // an entry that held x holds y instead
  lemma NonNullUpdate(s: seq<nat>, i: nat, y: nat)
    requires i < |s| && forall j, k :: 0 <= j < k < |s| && s[j] != 0 ==> s[j] != s[k]
    ensures NonNull(s[i := y]) == NonNull(s) - {s[i]} + (if y == 0 then {} else {y})
  {
    var t := s[i := y];
    forall x | x in NonNull(s) && x != s[i] ensures x in t {
      var j :| 0 <= j < |s| && s[j] == x;
      assert t[j] == x;
    }
    assert t[i] == y;
    forall x | x in NonNull(t) && x != y ensures x in s && x != s[i] {
      var j :| 0 <= j < |t| && t[j] == x;
      assert s[j] == x;
    }
  }

  // a region the pool accounts for: the header of a block, a piece of a block, a large buffer
  datatype Region = Header(i: nat) | Cut(i: nat, j: nat) | Buffer(i: nat)

  method CreatePool(sys: System, size: nat, pageSize: nat) returns (p: Pool?)
    requires sys.Valid() && POOL_HEADER <= size && size % ALIGNMENT == 0 && 0 < pageSize
    modifies sys
    ensures p == null ==> sys.Valid() && sys.live == old(sys.live)
    ensures sys.refusals == old(sys.refusals) + if p == null then [Asked(POOL_ALIGNMENT, size)] else []
    ensures p != null ==> fresh(p) && p.Valid() && p.sys == sys && p.Pieces() == [[]] && p.Buffers() == []
    ensures p != null ==> p.BlockSize() == size && p.base == 1 && p.Others() == old(sys.live)
    ensures p != null ==> p.larges == [] && forall i :: 0 <= i < |p.chain| ==> fresh(p.chain[i])
    ensures p != null ==> p.first.at !in old(sys.live) && sys.live == old(sys.live)[p.first.at := size]
    ensures p != null ==> p.max == if size - POOL_HEADER < pageSize - 1 then size - POOL_HEADER else pageSize - 1
  {
    var at := sys.Alloc(POOL_ALIGNMENT, size);
    if at == 0 {
      return null;
    }
    assert at in sys.live;
    p := new Pool(sys, at, size, pageSize);
    assert p.Bases() == [at];
  }

  datatype Request = Palloc(size: nat, align: bool) | Pmemalign(size: nat, alignment: nat) | Pfree(p: nat) | Reset

  // a request that the pool answers with memory, unless the system refuses it
  predicate AsksForMemory(request: Request)
  {
    request.Palloc? || request.Pmemalign?
  }

  // One request of a pool, whatever it is and whether or not the system has memory for it.
  method Serve(p: Pool, request: Request) returns (at: nat)
    requires p.Valid()
    modifies p, p.sys, p.chain, p.larges
    ensures p.Valid() && p.Grown() && p.Others() == old(p.Others())
    ensures AsksForMemory(request) ==> |p.sys.refusals| == |old(p.sys.refusals)| + if at == 0 then 1 else 0
    ensures !AsksForMemory(request) || at != 0 ==> p.sys.refusals == old(p.sys.refusals)
  {
    at := 0;
    match request
    case Palloc(size, align) =>
      ghost var k, i;
      at, k, i := p.Palloc(size, align);
    case Pmemalign(size, alignment) =>
      at := p.Pmemalign(size, alignment);
    case Pfree(q) =>
      var ok; ghost var i;
      ok, i := p.Pfree(q);
    case Reset =>
      p.Reset();
  }

  // A whole life of a pool: after any requests, destroying it leaves the system as it was before the
  // pool was made, and until then no two of its regions overlap. If the system refuses nothing, every
  // request for memory is answered.
  method Run(sys: System, size: nat, pageSize: nat, requests: seq<Request>) returns (answers: seq<nat>)
    requires sys.Valid() && POOL_HEADER <= size && size % ALIGNMENT == 0 && 0 < pageSize
    modifies sys
    ensures sys.Valid() && sys.live == old(sys.live)
    ensures sys.refusals == old(sys.refusals) ==>
              |answers| == |requests| && forall i :: 0 <= i < |requests| && AsksForMemory(requests[i]) ==> answers[i] != 0
  {
    answers := [];
    var p := CreatePool(sys, size, pageSize);
    if p == null {
      return;
    }
    for n := 0 to |requests|
      invariant fresh(p) && p.Valid() && p.sys == sys && p.Others() == old(sys.live)
      invariant (forall i :: 0 <= i < |p.chain| ==> fresh(p.chain[i])) && (forall i :: 0 <= i < |p.larges| ==> fresh(p.larges[i]))
      invariant |answers| == n && (sys.refusals == old(sys.refusals) || |sys.refusals| > |old(sys.refusals)|)
      invariant sys.refusals == old(sys.refusals) ==> forall i :: 0 <= i < n && AsksForMemory(requests[i]) ==> answers[i] != 0
    {
      var at := Serve(p, requests[n]);
      answers := answers + [at];
    }
    forall r: Region, s: Region | p.Has(r) && p.Has(s) && r != s
      ensures Apart(p.Start(r), p.Length(r), p.Start(s), p.Length(s))
    {
      p.RegionsAreApart(r, s);
    }
    p.Destroy();
  }

  // After a reset, base + 5 requests for all that a block can hold leave base + 5 blocks to examine
  // for the next one, if the system has the memory for them.
  method FillAfterReset(p: Pool, count: nat) returns (ok: bool)
    requires p.Valid() && p.BlockSize() == p.max + POOL_HEADER && POOL_HEADER - BLOCK_HEADER < p.max
    requires count == |p.chain| + 5
    modifies p, p.sys, p.chain, p.larges
    ensures p.Valid() && p.base == |old(p.chain)|
    ensures p.sys.refusals == old(p.sys.refusals) + if ok then [] else [Asked(POOL_ALIGNMENT, p.BlockSize())]
    ensures ok ==> |p.chain| - p.cur == p.base + 5
  {
    p.Reset();
    forall i | 0 <= i < |p.chain| ensures p.chain[i].last + p.max == p.chain[i].end {
      assert p.BlockAt(i) && p.chain[i] in p.chain;
    }
    for n := 0 to count
      invariant p.Valid() && p.Filled(n) && p.base == |old(p.chain)| && p.sys.refusals == old(p.sys.refusals)
      invariant forall i :: 0 <= i < |p.chain| ==> p.chain[i] in old(p.chain) || fresh(p.chain[i])
      invariant forall i :: 0 <= i < |p.larges| ==> p.larges[i] in old(p.larges) || fresh(p.larges[i])
    {
      var m := p.FillOne(n);
      if m == 0 {
        return false;
      }
    }
    ok := true;
  }

  class Pool {
    const sys: System
    const first: Block
    const max: nat
    var current: Block
    var large: Large?
    ghost var chain: seq<Block>
    ghost var cur: nat
    ghost var base: nat
    ghost var larges: seq<Large>

    ghost function BlockSize(): nat
      reads first
    {
      if first.at <= first.end then first.end - first.at else 0
    }

    ghost predicate BlockAt(i: nat)
      requires i < |chain|
      reads this, chain, first, sys
    {
      && chain[i].Valid()
      && chain[i].end - chain[i].at == BlockSize()
      && chain[i].header == (if i == 0 then POOL_HEADER else BLOCK_HEADER)
      && chain[i].next == (if i + 1 < |chain| then chain[i + 1] else null)
      && chain[i].at in sys.live && sys.live[chain[i].at] == BlockSize()
    }

    ghost predicate Chained()
      reads this, chain, first, sys
    {
      && 0 < |chain| && chain[0] == first
      && (forall i :: 0 <= i < |chain| ==> BlockAt(i))
      && (forall i, j :: 0 <= i < j < |chain| ==> chain[i].at != chain[j].at)
    }

    // counts from the current block on depend on their places only, and none is above five
    ghost predicate Counted()
      reads this, chain
    {
      && cur < |chain| && current == chain[cur] && 1 <= base <= |chain|
      && (forall i :: cur <= i < |chain| ==> chain[i].failed == FailedAt(i, |chain|, base) <= 5)
    }

    ghost predicate LargeAt(i: nat)
      requires i < |larges|
      reads this, larges, chain, sys
    {
      var l := larges[i];
      && l.next == (if i + 1 < |larges| then larges[i + 1] else null)
      && l.home in chain && l.slot < |l.home.pieces| && l.home.pieces[l.slot] == Piece(l.at, LARGE_NODE, true)
      && (l.alloc != 0 ==> l.alloc in sys.live && forall b :: b in chain ==> b.at != l.alloc)
    }

    ghost predicate Listed()
      reads this, larges, chain, sys
    {
      && large == (if larges == [] then null else larges[0])
      && (forall i :: 0 <= i < |larges| ==> LargeAt(i))
      && (forall i, j :: 0 <= i < j < |larges| ==>
            && (larges[i].home != larges[j].home || larges[i].slot != larges[j].slot)
            && (larges[i].alloc != 0 ==> larges[i].alloc != larges[j].alloc))
    }

    ghost predicate Valid()
      reads this, chain, larges, first, sys
    {
      && sys.Valid() && max + POOL_HEADER <= BlockSize()
      && Chained() && Counted() && Listed()
    }

    ghost function Pieces(): seq<seq<Piece>>
      reads this, chain
    {
      seq(|chain|, i requires 0 <= i < |chain| reads this, chain => chain[i].pieces)
    }

    // the large buffers, in list order; 0 stands for an entry whose buffer was freed
    ghost function Buffers(): seq<nat>
      reads this, larges
    {
      seq(|larges|, i requires 0 <= i < |larges| reads this, larges => larges[i].alloc)
    }

    ghost function Bases(): seq<nat>
      reads this
    {
      seq(|chain|, i requires 0 <= i < |chain| reads this => chain[i].at)
    }

    // what the pool holds from the system
    ghost function Owned(): set<nat>
      reads this, larges
    {
      Elements(Bases()) + NonNull(Buffers())
    }

    // what the system has handed out to others
    ghost function Others(): map<nat, nat>
      reads this, larges, sys
    {
      sys.live - Owned()
    }

    // every block and every entry was there before or was made since
    twostate predicate Grown()
      reads this
    {
      && (forall i :: 0 <= i < |chain| ==> chain[i] in old(chain) || fresh(chain[i]))
      && (forall i :: 0 <= i < |larges| ==> larges[i] in old(larges) || fresh(larges[i]))
    }

    // A pool of one block; at is the address that the system gave for it.
    constructor (sys: System, at: nat, size: nat, pageSize: nat)
      requires sys.Valid() && at in sys.live && sys.live[at] == size && at % POOL_ALIGNMENT == 0
      requires POOL_HEADER <= size && size % ALIGNMENT == 0 && 0 < pageSize
      ensures Valid() && this.sys == sys && Pieces() == [[]] && Buffers() == []
      ensures BlockSize() == size && max == (if size - POOL_HEADER < pageSize - 1 then size - POOL_HEADER else pageSize - 1)
      ensures first.at == at && cur == 0 && base == 1 && fresh(first) && chain == [first] && larges == []
    {
      this.sys := sys;
      first := new Block(at, size, POOL_HEADER);
      var room := size - POOL_HEADER;
      max := if room < pageSize - 1 then room else pageSize - 1;
      current := first;
      large := null;
      chain, cur, base, larges := [first], 0, 1, [];
    }

    // from the current block on only this many are ever examined
    lemma ScanIsShort()
      requires Counted()
      ensures |chain| - cur <= if base <= 1 then 7 else base + 5
    {
      assert chain[cur].failed == FailedAt(cur, |chain|, base) <= 5;
    }

    // no block from the current one up to block k has room
    ghost predicate NoneServes(size: nat, align: bool, k: nat)
      requires k <= |chain|
      reads this, chain
    {
      forall i: nat :: cur <= i < k ==> !Inside(chain[i].last, chain[i].end, size, align)
    }

    // The first block, from the current one on, that has room, and where in it.
    method FindRoom(size: nat, align: bool) returns (p: Block?, m: nat, ghost k: nat)
      requires Valid()
      ensures cur <= k <= |chain| && p == if k < |chain| then chain[k] else null
      ensures NoneServes(size, align, k)
      ensures p != null ==> p.Valid() && m == p.Place(align) && p.last <= m && m + size <= p.end && 0 < m && (align ==> m % ALIGNMENT == 0)
    {
      p, m := current, 0;
      k := cur;
      while p != null
        invariant cur <= k <= |chain| && p == if k < |chain| then chain[k] else null
        invariant NoneServes(size, align, k)
        decreases |chain| - k
      {
        assert BlockAt(k);
        p.ServesMeansFits(size, align);
        m := p.last;
        if align {
          m := Align(m);
        }
        if Room(p.end, m) >= size {
          break;
        }
        p := p.next;
        k := k + 1;
      }
    }

    // Cut a piece from the first block, from the current one on, that has room, or from a new block.
    method PallocSmall(size: nat, align: bool, ghost node: bool) returns (m: nat, ghost k: nat)
      requires Valid() && size + BLOCK_HEADER <= BlockSize()
      modifies this, sys, chain
      ensures Valid() && Kept()
      ensures m == 0 ==> Pieces() == old(Pieces()) && sys.live == old(sys.live)
      ensures m == 0 ==> cur == old(cur) && old(NoneServes(size, align, |chain|))
      ensures m != 0 ==>
                k <= |old(chain)| && Pieces() == Added(old(Pieces()), k, Piece(m, size, node)) && FirstFit(k, m, size, align)
      ensures Refused(m == 0)
      ensures Grown() && Others() == old(Others())
    {
      var p;
      p, m, k := FindRoom(size, align);
      if p != null {
        CutPiece(p, m, size, node, k);
      } else {
        m := PallocNew(size, align, node);
      }
    }

    // No block has room for the request.
    method PallocNew(size: nat, ghost align: bool, ghost node: bool) returns (m: nat)
      requires Valid() && size + BLOCK_HEADER <= BlockSize()
      requires NoneServes(size, align, |chain|)
      modifies this, sys, chain
      ensures Valid() && Kept() && Grown() && Others() == old(Others())
      ensures Refused(m == 0)
      ensures m == 0 ==> Pieces() == old(Pieces()) && sys.live == old(sys.live) && cur == old(cur)
      ensures m != 0 ==> Pieces() == old(Pieces()) + [[Piece(m, size, node)]] && FirstFit(|old(chain)|, m, size, align)
    {
      m := PallocBlock(size, node);
      assert m != 0 ==> FirstFit(|old(chain)|, m, size, align);
    }

    method CutPiece(p: Block, m: nat, size: nat, ghost node: bool, ghost k: nat)
      requires Valid() && k < |chain| && p == chain[k] && p.last <= m && m + size <= p.end
      modifies p`last, p`pieces
      ensures Valid() && Kept() && CutFrom(k, m, size) && Pieces() == Added(old(Pieces()), k, Piece(m, size, node))
      ensures Others() == old(Others())
    {
      assert BlockAt(k);
      p.Cut(m, size, node);
      CutKeepsValid(k);
      assert Bases() == old(Bases()) && Buffers() == old(Buffers());
    }

    // n requests for all that a block can hold were served since a reset: the first n blocks are
    // full, the others empty
    ghost predicate Filled(n: nat)
      reads this, chain, first
    {
      && cur == 0 && base <= |chain| == (if n < base then base else n)
      && BlockSize() == max + POOL_HEADER && POOL_HEADER - BLOCK_HEADER < max
      && forall i :: 0 <= i < |chain| ==>
           if i < n then chain[i].end < chain[i].last + max else chain[i].last + max == chain[i].end
    }

    lemma FewFailures()
      requires Counted() && cur == 0 && |chain| < base + 5
      ensures forall i :: 0 <= i < |chain| ==> chain[i].failed <= 4
    {
      forall i | 0 <= i < |chain| ensures chain[i].failed <= 4 {
        assert chain[i].failed == FailedAt(i, |chain|, base);
      }
    }

    // a full block is not what such a request is served from
    twostate lemma FitIsNext(spot: (nat, nat, nat))
      requires var (n, k, m) := spot; old(Filled(n)) && Valid() && FirstFit(k, m, max, false) && m != 0
      ensures spot.1 == spot.0
    {
      var (n, k, m) := spot;
      assert BlockAt(k);
      if n < |old(chain)| {
        assert old(Inside(chain[n].last, chain[n].end, max, false));
      }
      if k < n {
        assert false;
      }
    }

    // One more such request: it is served from the first empty block, or from a new one.
    method FillOne(n: nat) returns (m: nat)
      requires Valid() && Filled(n) && n < base + 5
      modifies this, sys, chain, larges
      ensures Valid() && base == old(base) && Grown()
      ensures Refused(m == 0)
      ensures m != 0 ==> Filled(n + 1)
    {
      ghost var k, i;
      FewFailures();
      m, k, i := Palloc(max, false);
      if m != 0 {
        FitIsNext((n, k, m));
        FillNext((n, m));
      }
      assert Valid() && Refused(m == 0) && Grown();
    }

    twostate lemma FillNext(spot: (nat, nat))
      requires var (n, m) := spot; old(Valid() && Filled(n)) && Valid() && FirstFit(n, m, max, false) && m != 0 && base == old(base)
      requires Pieces() == Added(old(Pieces()), spot.0, Piece(spot.1, max, false)) && |old(chain)| < base + 5
      requires forall i :: 0 <= i < |old(chain)| ==> old(chain[i].failed) <= 4
      ensures Filled(spot.0 + 1)
    {
      var (n, m) := spot;
      assert BlockAt(n);
      var before := if cur > 0 then cur - 1 else 0;
      assert old(chain[before].failed) <= 4;
      assert Pieces()[n] == chain[n].pieces && chain[n].pieces[|chain[n].pieces| - 1].at == m;
    }

    // the piece at m was cut from the first block, from the current one on, that had room for it, or
    // from a new block
    twostate predicate FirstFit(k: nat, m: nat, size: nat, align: bool)
      reads this, chain, sys, first
    {
      && old(cur) <= k <= |old(chain)| && (align ==> m % ALIGNMENT == 0) && CutFrom(k, m, size)
      && old(NoneServes(size, align, k)) && (k < |old(chain)| ==> m == if align then Align(old(chain[k].last)) else old(chain[k].last))
      && (k < |old(chain)| ==> sys.live == old(sys.live) && cur == old(cur) && |chain| == |old(chain)|)
      && (k == |old(chain)| ==> Passed() && FreshBlock())
    }

    // the free part of block k starts right behind the piece, those of the others did not move
    twostate predicate CutFrom(k: nat, m: nat, size: nat)
      reads this, chain
    {
      && k < |chain| && chain[k].last == m + size && |old(chain)| <= |chain| && chain[..|old(chain)|] == old(chain)
      && (forall i :: 0 <= i < |old(chain)| && i != k ==> chain[i].last == old(chain[i].last))
    }

    // the system refused a block, or nothing
    twostate predicate Refused(refused: bool)
      reads this, sys, first
    {
      sys.refusals == old(sys.refusals) + if refused then [Asked(POOL_ALIGNMENT, BlockSize())] else []
    }

    // what no request changes
    twostate predicate Kept()
      reads this, sys, larges, chain
    {
      && larges == old(larges) && base == old(base) && old(cur) <= cur
      && (forall l :: l in larges ==> l.alloc == old(l.alloc) && l.next == old(l.next))
      && |old(chain)| <= |chain| && chain[..|old(chain)|] == old(chain)
    }

    // no region of the system was given back
    twostate predicate NothingFreed()
      reads sys
    {
      forall q :: q in old(sys.live) ==> q in sys.live && sys.live[q] == old(sys.live)[q]
    }

    // one more block came from the system
    twostate predicate FreshBlock()
      reads this, sys, chain, first
    {
      && |chain| == |old(chain)| + 1
      && chain[|old(chain)|].at !in old(sys.live)
      && sys.live == old(sys.live)[chain[|old(chain)|].at := BlockSize()]
    }

    twostate lemma CutKeepsValid(k: nat)
      requires old(Valid()) && k < |old(chain)| && chain == old(chain)
      requires forall b :: b in chain && b != chain[k] ==> b.last == old(b.last) && b.pieces == old(b.pieces)
      requires forall b :: b in chain ==> b.failed == old(b.failed) && b.next == old(b.next)
      requires |chain[k].pieces| == old(|chain[k].pieces|) + 1 && old(chain[k].pieces) <= chain[k].pieces
      requires chain[k].Valid()
      requires current == old(current) && cur == old(cur) && base == old(base)
      requires large == old(large) && larges == old(larges) && sys.live == old(sys.live)
      requires forall l :: l in larges ==> l.alloc == old(l.alloc) && l.next == old(l.next)
      ensures Valid()
    {
      forall i | 0 <= i < |chain| ensures BlockAt(i) {
        assert old(BlockAt(i));
        if i != k {
          assert old(BlockAt(k));
          assert chain[i].at != chain[k].at;
        }
      }
      forall i | 0 <= i < |larges| ensures LargeAt(i) {
        assert old(LargeAt(i));
      }
    }

    ghost predicate NextAt(i: nat)
      requires i < |chain|
      reads this, chain
    {
      chain[i].next == if i + 1 < |chain| then chain[i + 1] else null
    }

    ghost predicate Linked()
      reads this, chain
    {
      && (forall i :: 0 <= i < |chain| ==> NextAt(i))
      && Different()
    }

    ghost predicate Different()
      reads this
    {
      forall i, j :: 0 <= i < j < |chain| ==> chain[i] != chain[j]
    }

    lemma ChainIsLinked()
      requires Chained()
      ensures Linked()
    {
      forall i | 0 <= i < |chain| ensures NextAt(i) {
        assert BlockAt(i);
      }
    }

    // The current block is the old one, or follows one that had more than four failures; from it on
    // there is none that had.
    twostate predicate Passed()
      reads this, chain
    {
      && old(cur) <= cur < |old(chain)|
      && (forall i :: old(cur) <= i < |old(chain)| && i + 1 == cur ==> old(chain[i].failed) > 4)
      && (forall i :: cur <= i < |old(chain)| - 1 ==> old(chain[i].failed) <= 4)
    }

    // Count a failure for every block from the current one to the last but one, and pass by those
    // that had more than four already.
    method AgeBlocks() returns (p: Block)
      requires Linked() && Counted()
      modifies this`current, this`cur, chain`failed
      ensures p == chain[|chain| - 1] && p.failed == old(p.failed)
      ensures old(cur) <= cur < |chain| && current == chain[cur]
      ensures forall i: nat :: cur <= i < |chain| - 1 ==> chain[i].failed == old(chain[i].failed) + 1 <= 5
      ensures Passed()
      ensures forall i: nat :: i < old(cur) ==> chain[i].failed == old(chain[i].failed)
    {
      ghost var from, was := cur, Failures();
      assert forall j :: 0 <= j < |chain| ==> was[j] == old(chain[j].failed);
      p := AgeLoop(was);
      assert Aging(was, from, |chain| - 1);
    }

    method AgeLoop(ghost was: seq<nat>) returns (p: Block)
      requires Linked() && cur < |chain| && Aging(was, cur, cur)
      modifies this`current, this`cur, chain`failed
      ensures p == chain[|chain| - 1] && Aging(was, old(cur), |chain| - 1)
    {
      p := current;
      ghost var from, i := cur, cur;
      assert NextAt(i);
      while p.next != null
        invariant from <= i < |chain| && p == chain[i] && Linked() && NextAt(i) && Aging(was, from, i)
        decreases |chain| - i
      {
        Age(p, was, from, i);
        p := p.next;
        i := i + 1;
        assert NextAt(i);
      }
    }

    // how far the ageing got that started at block from with the counts was, and is at block i
    ghost predicate Aging(was: seq<nat>, from: nat, i: nat)
      reads this, chain
    {
      && Aged(was, from, i) && from <= cur <= i < |chain| && current == chain[cur]
      && (forall j :: cur <= j < i ==> was[j] <= 4)
      && (from < cur ==> was[cur - 1] > 4)
    }

    ghost function Failures(): (was: seq<nat>)
      reads this, chain
      ensures Aged(was, 0, 0)
    {
      seq(|chain|, i requires 0 <= i < |chain| reads this, chain => chain[i].failed)
    }

    // the counts of the blocks from from up to i are one more than they were
    ghost predicate Aged(was: seq<nat>, from: nat, i: nat)
      reads this, chain
    {
      |was| == |chain| && forall j :: 0 <= j < |chain| ==> chain[j].failed == was[j] + if from <= j < i then 1 else 0
    }

    // Count a failure for block i, which is not the last one.
    method Age(p: Block, ghost was: seq<nat>, ghost from: nat, ghost i: nat)
      requires from <= i < |chain| - 1 && p == chain[i] && Linked() && Aging(was, from, i)
      modifies this`current, this`cur, p`failed
      ensures Linked() && Aging(was, from, i + 1)
    {
      assert NextAt(i);
      p.failed := p.failed + 1;
      if p.failed - 1 > 4 {
        current := p.next;
        cur := i + 1;
      }
      StillLinked();
      assert Aged(was, from, i + 1);
    }

    lemma OwnedIsLive()
      requires Valid()
      ensures forall b :: b in chain ==> b.at in sys.live
      ensures forall l :: l in larges && l.alloc != 0 ==> l.alloc in sys.live
    {
      forall b | b in chain ensures b.at in sys.live {
        var i :| 0 <= i < |chain| && chain[i] == b;
        assert BlockAt(i);
      }
      forall l | l in larges && l.alloc != 0 ensures l.alloc in sys.live {
        var i :| 0 <= i < |larges| && larges[i] == l;
        assert LargeAt(i);
      }
    }

    // Nothing that the pool holds went back to the system, and the pool itself is as it was.
    twostate predicate Untouched()
      reads this, sys, chain, larges
    {
      && sys.Valid()
      && (forall p :: p in old(sys.live) && p in Elements(Bases()) ==> p in sys.live && sys.live[p] == old(sys.live)[p])
      && (forall l :: l in larges && l.alloc in old(sys.live) ==> l.alloc in sys.live)
      && chain == old(chain) && larges == old(larges) && large == old(large)
      && current == old(current) && cur == old(cur) && base == old(base)
      && (forall b :: b in chain ==> b.last == old(b.last) && b.next == old(b.next) && b.failed == old(b.failed)
                                     && b.pieces == old(b.pieces))
      && (forall l :: l in larges ==> l.next == old(l.next) && l.alloc == old(l.alloc))
    }

    twostate lemma UntouchedIsValid()
      requires old(Valid()) && Untouched()
      ensures Valid() && Kept() && Pieces() == old(Pieces()) && Buffers() == old(Buffers())
    {
      forall i | 0 <= i < |chain| ensures BlockAt(i) {
        assert old(BlockAt(i)) && Bases()[i] == chain[i].at;
      }
      forall i | 0 <= i < |larges| ensures LargeAt(i) {
        assert old(LargeAt(i));
      }
    }

    // b could become the last block
    ghost predicate Spare(b: Block)
      reads this, sys, chain, larges, first, b
    {
      && b !in chain && b.Valid() && b.header == BLOCK_HEADER && b.next == null && b.failed == 0
      && b.end - b.at == BlockSize() && b.at in sys.live && sys.live[b.at] == BlockSize()
      && (forall c :: c in chain ==> c.at != b.at) && (forall l :: l in larges ==> l.alloc != b.at)
    }

    // b became the last block, and the blocks from the current one on aged
    twostate predicate Lengthened(b: Block)
      reads this, sys, chain, larges, b
    {
      && chain == old(chain) + [b] && (forall i :: 0 <= i < |old(chain)| ==> NextAt(i)) && b.next == null && b.failed == 0
      && (forall i :: 0 <= i < |old(chain)| ==> chain[i].last == old(chain[i].last) && chain[i].pieces == old(chain[i].pieces))
      && b.last == old(b.last) && b.pieces == old(b.pieces)
      && base == old(base) && old(cur) <= cur < |old(chain)| && current == chain[cur]
      && (forall i :: cur <= i < |old(chain)| - 1 ==> chain[i].failed == old(chain[i].failed) + 1 <= 5)
      && chain[|old(chain)| - 1].failed == old(chain[|chain| - 1].failed)
    }

    twostate lemma LinkKeepsValid(b: Block)
      requires old(Valid()) && old(Spare(b)) && Lengthened(b)
      requires sys.Valid() && sys.live == old(sys.live)
      requires large == old(large) && larges == old(larges)
      requires forall l :: l in larges ==> l.alloc == old(l.alloc) && l.next == old(l.next)
      ensures Valid() && Kept() && Pieces() == old(Pieces()) + [b.pieces]
    {
      var n := |old(chain)|;
      forall i | 0 <= i < |chain| ensures BlockAt(i) {
        if i < n { assert old(BlockAt(i)) && NextAt(i); }
      }
      forall i | 0 <= i < |larges| ensures LargeAt(i) {
        assert old(LargeAt(i));
      }
    }

    // Put a block at the end of the chain.
    method Append(b: Block)
      requires Valid() && Spare(b)
      modifies this`current, this`cur, this`chain, chain`failed, chain`next
      ensures Valid() && Kept() && Pieces() == old(Pieces() + [b.pieces]) && chain == old(chain) + [b]
      ensures Passed()
    {
      Lengthen(b);
      LinkKeepsValid(b);
    }

    method Lengthen(b: Block)
      requires Valid() && Spare(b)
      modifies this`current, this`cur, this`chain, chain`failed, chain`next
      ensures Lengthened(b) && Passed()
    {
      ChainIsLinked();
      var p := AgeBlocks();
      StillLinked();
      Join(p, b);
    }

    twostate lemma StillLinked()
      requires old(Linked()) && chain == old(chain) && forall c :: c in chain ==> c.next == old(c.next)
      ensures Linked()
    {
      forall i | 0 <= i < |chain| ensures NextAt(i) {
        assert old(NextAt(i));
      }
    }

    // b follows the last block p
    method Join(p: Block, b: Block)
      requires Linked() && 0 < |chain| && p == chain[|chain| - 1] && b !in chain
      modifies this`chain, p`next
      ensures chain == old(chain) + [b] && forall i :: 0 <= i < |chain| - 1 ==> NextAt(i)
    {
      p.next := b;
      chain := chain + [b];
      forall i | 0 <= i < |chain| - 1 ensures NextAt(i) {
        assert old(NextAt(i));
      }
    }

    // A block from the system with the piece cut from it.
    method NewBlock(size: nat, ghost node: bool) returns (m: nat, b: Block?)
      requires Valid() && size + BLOCK_HEADER <= BlockSize()
      modifies sys
      ensures Valid() && Kept() && Pieces() == old(Pieces()) && Buffers() == old(Buffers())
      ensures Refused(b == null)
      ensures b == null ==> m == 0 && sys.live == old(sys.live)
      ensures b != null ==> fresh(b) && Spare(b) && b.pieces == [Piece(m, size, node)] && m == b.at + BLOCK_HEADER
      ensures b != null ==> b.last == m + size && m % ALIGNMENT == 0
      ensures b != null ==> b.at !in old(sys.live) && sys.live == old(sys.live)[b.at := BlockSize()]
    {
      assert BlockAt(0);
      first.SizeIsAligned();
      var psize := first.end - first.at;
      m := Obtain(POOL_ALIGNMENT, psize);
      if m == 0 {
        return 0, null;
      }
      LooseIsApart(m);
      m, b := MakeBlock(m, psize, size, node);
      assert Spare(b);
      UntouchedIsValid();
    }

    // The header of a block and its first piece.
    static method MakeBlock(at: nat, psize: nat, size: nat, ghost node: bool) returns (m: nat, b: Block)
      requires 0 < at && at % POOL_ALIGNMENT == 0 && psize % ALIGNMENT == 0 && at + psize < WORD - ALIGNMENT
      requires size + BLOCK_HEADER <= psize
      ensures fresh(b) && b.Valid() && b.header == BLOCK_HEADER && b.next == null && b.failed == 0
      ensures b.at == at && b.end == at + psize && m == at + BLOCK_HEADER && m % ALIGNMENT == 0
      ensures b.pieces == [Piece(m, size, node)] && b.last == m + size
    {
      HeaderIsAligned(at, psize);
      b := new Block(at, psize, BLOCK_HEADER);
      m := Align(at + BLOCK_HEADER);
      b.Cut(m, size, node);
    }

    // Get one more block from the system and cut the piece from it.
    method PallocBlock(size: nat, ghost node: bool) returns (m: nat)
      requires Valid() && size + BLOCK_HEADER <= BlockSize()
      modifies this, sys, chain
      ensures Valid() && Kept()
      ensures m == 0 ==> Pieces() == old(Pieces()) && sys.live == old(sys.live)
      ensures m != 0 ==> Pieces() == old(Pieces()) + [[Piece(m, size, node)]] && FreshBlock() && m % ALIGNMENT == 0
      ensures m != 0 ==> Passed() && CutFrom(|old(chain)|, m, size) && m == chain[|old(chain)|].at + BLOCK_HEADER
      ensures m == 0 ==> cur == old(cur) && chain == old(chain)
      ensures Refused(m == 0)
      ensures Grown() && Others() == old(Others())
    {
      var b;
      m, b := NewBlock(size, node);
      if b != null {
        AppendOwned(b);
        NewlyOwned(old(sys.live), old(Owned()), b.at, BlockSize());
      }
    }

    // Put a block at the end of the chain; its region is the pool's now.
    method AppendOwned(b: Block)
      requires Valid() && Spare(b)
      modifies this`current, this`cur, this`chain, chain`failed, chain`next
      ensures Valid() && Kept() && Pieces() == old(Pieces() + [b.pieces]) && chain == old(chain) + [b]
      ensures Passed() && Owned() == old(Owned()) + {b.at}
    {
      Append(b);
      ElementsJoin(old(Bases()), b.at);
      assert Bases() == old(Bases()) + [b.at] && Buffers() == old(Buffers());
    }

    method Palloc(size: nat, align: bool) returns (m: nat, ghost k: nat, ghost i: nat)
      requires Valid()
      modifies this, sys, chain, larges
      ensures Valid() && base == old(base) && old(cur) <= cur
      ensures m == 0 ==> Pieces() == old(Pieces()) && Buffers() == old(Buffers()) && sys.live == old(sys.live)
      ensures m == 0 && size <= max ==> old(NoneServes(size, align, |chain|))
      ensures m != 0 && size <= max ==>
                && k <= |old(chain)| && Pieces() == Added(old(Pieces()), k, Piece(m, size, false)) && FirstFit(k, m, size, align)
                && Buffers() == old(Buffers())
      ensures m != 0 && size > max ==> LargeAdded(m, size, i)
      ensures m != 0 ==> sys.refusals == old(sys.refusals)
      ensures m == 0 ==> if size <= max then Refused(true) else LargeRefused(size)
      ensures NothingFreed() && Grown() && Others() == old(Others())
    {
      if size <= max {
        m, k := PallocSmall(size, align, false);
        i := 0;
      } else {
        m, i := PallocLarge(size);
        k := 0;
      }
    }

    // the system refused a large buffer, or the block for an entry that it needs when the first five
    // entries are taken
    twostate predicate LargeRefused(size: nat)
      reads this, sys, larges, first
    {
      || sys.refusals == old(sys.refusals) + [Asked(POOL_ALIGNMENT, size)]
      || (Refused(true) && forall j :: 0 <= j < 5 && j < |old(Buffers())| ==> old(Buffers())[j] != 0)
    }

    // p is a new large buffer
    twostate predicate LargeAdded(p: nat, size: nat, i: nat)
      reads this, sys, chain, larges
    {
      p !in old(sys.live) && p in sys.live && sys.live[p] == size && Enlisted(p, i)
    }

    // entry i was empty and took the buffer p, or a new entry did
    twostate predicate Enlisted(p: nat, i: nat)
      reads this, chain, larges
    {
      if i < |old(larges)| then
        && i < 5 && old(Buffers())[i] == 0 && Buffers() == old(Buffers())[i := p] && Pieces() == old(Pieces())
      else
        && Buffers() == [p] + old(Buffers()) && (forall j :: 0 <= j < 5 && j < |old(Buffers())| ==> old(Buffers())[j] != 0)
        && NodeAdded(larges[0].at)
    }

    // an entry of the list was cut from a block
    twostate predicate NodeAdded(at: nat)
      reads this, chain
    {
      exists k {:trigger Added(old(Pieces()), k, Piece(at, LARGE_NODE, true))} ::
        0 <= k <= |old(chain)| && Pieces() == Added(old(Pieces()), k, Piece(at, LARGE_NODE, true))
    }

    // a buffer from the system that the pool does not list yet
    ghost predicate Loose(p: nat)
      reads this, sys, chain, larges
    {
      p != 0 && p in sys.live && p !in Owned()
    }

    lemma LooseIsApart(p: nat)
      requires Loose(p)
      ensures forall b :: b in chain ==> b.at != p
      ensures forall l :: l in larges ==> l.alloc != p
    {
      forall b | b in chain ensures b.at != p {
        var i :| 0 <= i < |chain| && chain[i] == b;
        assert Bases()[i] == b.at;
      }
      forall l | l in larges ensures l.alloc != p {
        var i :| 0 <= i < |larges| && larges[i] == l;
        assert Buffers()[i] == l.alloc;
      }
    }

    // only the list of large buffers changed
    twostate predicate SameBlocks()
      reads this, sys, chain
    {
      && sys.Valid() && chain == old(chain)
      && (forall p :: p in old(sys.live) && p in Elements(Bases()) ==> p in sys.live && sys.live[p] == old(sys.live)[p])
      && current == old(current) && cur == old(cur) && base == old(base)
      && (forall b :: b in chain ==> b.last == old(b.last) && b.next == old(b.next) && b.failed == old(b.failed)
                                     && b.pieces == old(b.pieces))
    }

    twostate lemma SameBlocksChained()
      requires old(Valid()) && SameBlocks()
      ensures Chained() && Counted() && Pieces() == old(Pieces())
    {
      forall i | 0 <= i < |chain| ensures BlockAt(i) {
        assert old(BlockAt(i)) && Bases()[i] == chain[i].at;
      }
    }

    // Entry i took a buffer the pool did not list, or lost its own.
    twostate lemma EntryKeepsValid(i: nat)
      requires old(Valid()) && SameBlocks() && larges == old(larges) && large == old(large) && i < |larges|
      requires larges[i].alloc != 0 ==> larges[i].alloc !in old(Owned()) && larges[i].alloc in sys.live
      requires forall j :: 0 <= j < |larges| && j != i ==>
                larges[j].alloc == old(larges[j].alloc) && (larges[j].alloc != 0 ==> larges[j].alloc in sys.live)
      requires forall l :: l in larges ==> l.next == old(l.next)
      ensures Valid() && Buffers() == old(Buffers())[i := larges[i].alloc] && Pieces() == old(Pieces())
    {
      SameBlocksChained();
      if larges[i].alloc != 0 {
        LooseStaysApart(larges[i].alloc);
      }
      forall j | 0 <= j < |larges| ensures LargeAt(j) {
        assert old(LargeAt(j));
      }
    }

    twostate lemma LooseStaysApart(p: nat)
      requires p != 0 && p !in old(Owned()) && chain == old(chain)
      ensures forall b :: b in chain ==> b.at != p
      ensures forall l :: l in old(larges) ==> old(l.alloc) != p
    {
      forall b | b in chain ensures b.at != p {
        var i :| 0 <= i < |chain| && chain[i] == b;
        assert old(Bases())[i] == b.at;
      }
      forall l | l in old(larges) ensures old(l.alloc) != p {
        var i :| 0 <= i < |old(larges)| && old(larges)[i] == l;
        assert old(Buffers())[i] == old(l.alloc);
      }
    }

    lemma EntriesDiffer()
      requires Listed()
      ensures forall i, j :: 0 <= i < j < |larges| ==> larges[i] != larges[j]
      ensures forall i, j :: 0 <= i < j < |larges| && Buffers()[i] != 0 ==> Buffers()[i] != Buffers()[j]
    {
    }

    // The first empty entry among the first five, if there is one.
    method FindEmpty() returns (l: Large?, ghost i: nat)
      requires Valid()
      ensures if l != null then i < 5 && i < |larges| && l == larges[i] && l.alloc == 0
              else i == |larges| && forall j :: 0 <= j < 5 && j < |larges| ==> larges[j].alloc != 0
    {
      var n := 0;
      l := large;
      i := 0;
      while l != null
        invariant i <= |larges| && n == i <= 4 && l == if i < |larges| then larges[i] else null
        invariant forall j :: 0 <= j < i ==> larges[j].alloc != 0
        decreases |larges| - i
      {
        assert LargeAt(i);
        if l.alloc == 0 {
          return;
        }
        n := n + 1;
        if n - 1 > 3 {
          break;
        }
        l := l.next;
        i := i + 1;
      }
      l := null;
      i := |larges|;
    }

    // A region from the system that the pool does not list yet.
    method Obtain(alignment: nat, size: nat) returns (p: nat)
      requires Valid()
      modifies sys
      ensures Valid() && Pieces() == old(Pieces()) && Buffers() == old(Buffers())
      ensures p == 0 ==> sys.live == old(sys.live)
      ensures p != 0 ==> Loose(p) && p !in old(sys.live) && sys.live == old(sys.live)[p := size]
      ensures sys.refusals == old(sys.refusals) + if p == 0 then [Asked(alignment, size)] else []
      ensures p != 0 ==> alignment > 0 && p % alignment == 0
      ensures Others() == if p != 0 then old(Others())[p := size] else old(Others())
    {
      OwnedIsLive();
      p := sys.Alloc(alignment, size);
      UntouchedIsValid();
    }

    method PallocLarge(size: nat) returns (p: nat, ghost i: nat)
      requires Valid()
      modifies this, sys, chain, larges
      ensures Valid() && base == old(base) && old(cur) <= cur
      ensures p == 0 ==> Pieces() == old(Pieces()) && Buffers() == old(Buffers()) && sys.live == old(sys.live)
      ensures p != 0 ==> LargeAdded(p, size, i)
      ensures p != 0 ==> sys.refusals == old(sys.refusals)
      ensures p == 0 ==> LargeRefused(size)
      ensures NothingFreed() && Grown() && Others() == old(Others())
    {
      i := 0;
      p := Obtain(POOL_ALIGNMENT, size);
      if p == 0 {
        return;
      }
      TakenBack(old(sys.live), p, size);
      TakenBack(old(Others()), p, size);
      p, i := Enlist(p);
      assert p != 0 ==> LargeAdded(p, size, i);
      assert NothingFreed() && Grown();
    }

    // Put the buffer p into one of the first entries, if one is empty, or into a new one.
    method Enlist(p: nat) returns (r: nat, ghost i: nat)
      requires Valid() && Loose(p)
      modifies this, sys, chain, larges
      ensures Valid() && base == old(base) && old(cur) <= cur && Grown()
      ensures r == 0 ==> Pieces() == old(Pieces()) && Buffers() == old(Buffers()) && sys.live == old(sys.live) - {p}
      ensures r != 0 ==> r == p && Enlisted(p, i) && NothingFreed()
      ensures Refused(r == 0)
      ensures r == 0 ==> forall j :: 0 <= j < 5 && j < |old(Buffers())| ==> old(Buffers())[j] != 0
      ensures Others() == old(Others()) - {p}
    {
      var l;
      l, i := FindEmpty();
      if l != null {
        Store(l, p, i);
        r := p;
        assert Enlisted(p, i);
      } else {
        r := Push(p);
        assert r != 0 ==> Enlisted(p, i);
      }
      assert Refused(r == 0);
      assert Valid() && Grown();
    }

    method Store(l: Large, p: nat, ghost i: nat)
      requires Valid() && Loose(p) && i < |larges| && l == larges[i] && l.alloc == 0
      modifies l`alloc
      ensures Valid() && Pieces() == old(Pieces()) && Buffers() == old(Buffers())[i := p]
      ensures Others() == old(Others()) - {p}
    {
      EntriesDiffer();
      OwnedIsLive();
      NonNullUpdate(Buffers(), i, p);
      l.alloc := p;
      EntryKeepsValid(i);
      MinusBoth(sys.live, old(Owned()), {p});
      assert Bases() == old(Bases()) && Owned() == old(Owned()) + {p};
    }

    // A new entry at the head of the list.
    twostate lemma PushKeepsValid(new l: Large)
      requires old(Valid()) && SameBlocks() && sys.live == old(sys.live) && larges == [l] + old(larges) && large == l
      requires l.alloc != 0 && l.alloc in sys.live && l.alloc !in old(Owned()) && l.next == old(large)
      requires l.home in chain && l.slot < |l.home.pieces| && l.home.pieces[l.slot] == Piece(l.at, LARGE_NODE, true)
      requires forall e :: e in old(larges) ==> e.alloc == old(e.alloc) && e.next == old(e.next)
      requires forall e :: e in old(larges) ==> e.home != l.home || e.slot != l.slot
      ensures Valid() && Buffers() == [l.alloc] + old(Buffers())
    {
      SameBlocksChained();
      LooseStaysApart(l.alloc);
      forall i | 0 <= i < |larges| ensures LargeAt(i) {
        if i > 0 { assert old(LargeAt(i - 1)); }
      }
    }

    // Put the buffer p into a new entry at the head of the list, or give it back if there is no
    // room for an entry.
    method Push(p: nat) returns (r: nat)
      requires Valid() && Loose(p)
      modifies this, sys, chain
      ensures Valid() && base == old(base) && old(cur) <= cur
      ensures r == 0 ==> Pieces() == old(Pieces()) && Buffers() == old(Buffers()) && sys.live == old(sys.live) - {p}
      ensures r != 0 ==> r == p && Buffers() == [p] + old(Buffers()) && NodeAdded(larges[0].at)
      ensures r != 0 ==> NothingFreed()
      ensures Refused(r == 0)
      ensures Grown() && Others() == old(Others()) - {p}
    {
      var at; ghost var k;
      at, k := CutNode(p);
      if at == 0 {
        GiveBack(p);
        return 0;
      }
      AddEntry(p, at, k);
      r := p;
    }

    // The piece for a new entry, which no entry is in yet.
    method CutNode(ghost p: nat) returns (at: nat, ghost k: nat)
      requires Valid() && Loose(p)
      modifies this, sys, chain
      ensures Valid() && base == old(base) && old(cur) <= cur && larges == old(larges) && Loose(p)
      ensures Buffers() == old(Buffers()) && Others() == old(Others()) && NothingFreed() && Grown()
      ensures Refused(at == 0)
      ensures at == 0 ==> Pieces() == old(Pieces()) && sys.live == old(sys.live)
      ensures at != 0 ==>
                && k < |chain| && |chain[k].pieces| > 0 && chain[k].pieces[|chain[k].pieces| - 1] == Piece(at, LARGE_NODE, true)
                && NodeAdded(at) && forall e :: e in larges ==> e.home != chain[k] || e.slot != |chain[k].pieces| - 1
    {
      LooseIsApart(p);
      assert BlockAt(0);
      at, k := PallocSmall(LARGE_NODE, true, true);
      assert Loose(p) && NothingFreed();
      if at != 0 {
        SlotIsNew(k);
        assert Pieces()[k] == chain[k].pieces;
      }
      assert Valid() && Loose(p) && Buffers() == old(Buffers());
    }

    method GiveBack(p: nat)
      requires Valid() && Loose(p)
      modifies sys
      ensures Valid() && Pieces() == old(Pieces()) && Buffers() == old(Buffers()) && sys.live == old(sys.live) - {p}
      ensures sys.refusals == old(sys.refusals)
      ensures Others() == old(Others()) - {p}
    {
      OwnedIsLive();
      LooseIsApart(p);
      sys.Free(p);
      UntouchedIsValid();
      MinusBoth(old(sys.live), {p}, Owned());
      MinusBoth(old(sys.live), Owned(), {p});
      assert Owned() == old(Owned()) && {p} + Owned() == Owned() + {p};
    }

    // Fill the piece that was cut for it from block k with the new first entry.
    method AddEntry(p: nat, at: nat, ghost k: nat)
      requires Valid() && Loose(p) && k < |chain| && |chain[k].pieces| > 0
      requires chain[k].pieces[|chain[k].pieces| - 1] == Piece(at, LARGE_NODE, true)
      requires forall e :: e in larges ==> e.home != chain[k] || e.slot != |chain[k].pieces| - 1
      modifies this`large, this`larges
      ensures Valid() && Pieces() == old(Pieces()) && Buffers() == [p] + old(Buffers()) && larges[0].at == at
      ensures fresh(larges[0]) && larges[1..] == old(larges) && Others() == old(Others()) - {p}
    {
      var l := new Large(at, p, large, chain[k], |chain[k].pieces| - 1);
      large := l;
      larges := [l] + larges;
      PushKeepsValid(l);
      NonNullJoin(p, old(Buffers()));
      MinusBoth(sys.live, old(Owned()), {p});
      assert Bases() == old(Bases()) && Owned() == old(Owned()) + {p};
    }

    // the piece just cut from block k holds no entry yet
    twostate lemma SlotIsNew(k: nat)
      requires old(Valid()) && Valid() && Kept() && k <= |old(chain)| && k < |chain|
      requires |Pieces()| > k && Pieces()[k] != [] && (k < |old(chain)| ==> |Pieces()[k]| == |old(Pieces())[k]| + 1)
      ensures forall e :: e in larges ==> e.home != chain[k] || e.slot != |chain[k].pieces| - 1
    {
      forall e | e in larges ensures e.home != chain[k] || e.slot != |chain[k].pieces| - 1 {
        var i :| 0 <= i < |larges| && larges[i] == e;
        assert old(LargeAt(i));
        var j :| 0 <= j < |old(chain)| && old(chain)[j] == e.home;
        assert chain[j] == e.home;
        assert old(Pieces())[j] == old(e.home.pieces);
      }
    }

    // A large buffer with an alignment of its own; it always takes a new entry.
    method Pmemalign(size: nat, alignment: nat) returns (p: nat)
      requires Valid()
      modifies this, sys, chain
      ensures Valid() && base == old(base) && old(cur) <= cur
      ensures p == 0 ==> Pieces() == old(Pieces()) && Buffers() == old(Buffers()) && sys.live == old(sys.live)
      ensures p != 0 ==> p !in old(sys.live) && p in sys.live && sys.live[p] == size && alignment > 0 && p % alignment == 0
      ensures p != 0 ==> Buffers() == [p] + old(Buffers()) && NodeAdded(larges[0].at)
      ensures p != 0 ==> sys.refusals == old(sys.refusals)
      ensures p == 0 ==> sys.refusals == old(sys.refusals) + [Asked(alignment, size)] || Refused(true)
      ensures NothingFreed() && Grown() && Others() == old(Others())
    {
      p := Obtain(alignment, size);
      if p != 0 {
        TakenBack(old(sys.live), p, size);
        TakenBack(old(Others()), p, size);
        p := Push(p);
      }
    }

    // Give a large buffer back; its entry stays in the list. Asked for no buffer at all, it finds
    // an empty entry.
    method Pfree(p: nat) returns (ok: bool, ghost i: nat)
      requires Valid()
      modifies sys, larges
      ensures Valid() && Pieces() == old(Pieces()) && base == old(base) && cur == old(cur)
      ensures ok <==> p in old(Buffers())
      ensures ok ==> i < |larges| && old(Buffers())[i] == p && Buffers() == old(Buffers())[i := 0]
      ensures sys.live == if ok then old(sys.live) - {p} else old(sys.live)
      ensures !ok ==> Buffers() == old(Buffers())
      ensures sys.refusals == old(sys.refusals)
      ensures Others() == old(Others())
    {
      var l := large;
      i := 0;
      while l != null
        invariant i <= |larges| && l == if i < |larges| then larges[i] else null
        invariant forall j :: 0 <= j < i ==> larges[j].alloc != p
        decreases |larges| - i
        modifies {}
      {
        assert LargeAt(i);
        if p == l.alloc {
          break;
        }
        l := l.next;
        i := i + 1;
      }
      ok := l != null;
      if l != null {
        assert Buffers()[i] == p;
        Release(l, i);
      }
    }

    method Release(l: Large, ghost i: nat)
      requires Valid() && i < |larges| && l == larges[i]
      modifies sys, l`alloc
      ensures Valid() && Pieces() == old(Pieces()) && Buffers() == old(Buffers())[i := 0]
      ensures sys.refusals == old(sys.refusals)
      ensures sys.live == old(sys.live) - {old(l.alloc)} && Others() == old(Others())
    {
      EntriesDiffer();
      OwnedIsLive();
      NonNullUpdate(Buffers(), i, 0);
      assert LargeAt(i);
      ghost var x := Buffers()[i];
      sys.Free(l.alloc);
      l.alloc := 0;
      EntryKeepsValid(i);
      assert Bases() == old(Bases()) && Owned() + {x} == old(Owned()) + {x};
      NoLongerOwned(old(sys.live), old(Owned()), Owned(), x);
    }

    ghost predicate Releasable(bufs: seq<nat>, i: nat)
      requires i <= |bufs|
      reads sys
    {
      && (forall j :: i <= j < |bufs| && bufs[j] != 0 ==> bufs[j] in sys.live)
      && (forall j, k :: 0 <= j < k < |bufs| && bufs[j] != 0 ==> bufs[j] != bufs[k])
    }

    // Give every large buffer back, each once.
    method FreeLarges()
      requires Valid()
      modifies sys
      ensures sys.refusals == old(sys.refusals)
      ensures sys.Valid() && sys.live == old(sys.live) - NonNull(Buffers())
    {
      ghost var i := 0;
      ghost var bufs := Buffers();
      OwnedIsLive();
      var l := large;
      while l != null
        invariant i <= |larges| && l == if i < |larges| then larges[i] else null
        invariant sys.Valid() && sys.live == old(sys.live) - NonNull(bufs[..i])
        invariant sys.refusals == old(sys.refusals)
        invariant Releasable(bufs, i)
        decreases |larges| - i
      {
        assert old(LargeAt(i));
        assert bufs[i] == l.alloc;
        if l.alloc != 0 {
          sys.Free(l.alloc);
        }
        assert bufs[..i + 1] == bufs[..i] + [bufs[i]];
        l := l.next;
        i := i + 1;
      }
      assert bufs[..i] == bufs;
    }

    // Make every block empty again.
    method ClearBlocks()
      requires Linked() && 0 < |chain| && first == chain[0]
      modifies chain`last, chain`failed, chain`pieces
      ensures forall b :: b in chain ==> b.last == b.at + POOL_HEADER && b.failed == 0 && b.pieces == []
    {
      var p: Block? := first;
      ghost var i := 0;
      while p != null
        invariant 0 <= i <= |chain| && p == if i < |chain| then chain[i] else null
        invariant forall j :: 0 <= j < i ==> chain[j].last == chain[j].at + POOL_HEADER && chain[j].failed == 0 && chain[j].pieces == []
        decreases |chain| - i
      {
        assert old(NextAt(i));
        p.last := p.at + POOL_HEADER;
        p.failed := 0;
        p.pieces := [];
        p := p.next;
        i := i + 1;
      }
    }

    // Forget every piece and give the large buffers back; the blocks are kept.
    method Reset()
      requires Valid()
      modifies this, sys, chain
      ensures Valid() && chain == old(chain) && Buffers() == [] && Pieces() == seq(|chain|, i => [])
      ensures sys.live == old(sys.live) - NonNull(old(Buffers()))
      ensures cur == 0 && base == |chain| && forall b :: b in chain ==> b.last == b.at + POOL_HEADER
      ensures sys.refusals == old(sys.refusals)
      ensures larges == [] && Others() == old(Others())
    {
      ChainIsLinked();
      FreeLarges();
      ClearBlocks();
      current := first;
      large := null;
      cur, base, larges := 0, |chain|, [];
      ResetIsValid();
      assert Bases() == old(Bases()) && Owned() == Elements(Bases());
      MinusBoth(old(sys.live), NonNull(old(Buffers())), Owned());
      assert NonNull(old(Buffers())) + Owned() == old(Owned());
    }

    twostate lemma ResetIsValid()
      requires old(Valid()) && chain == old(chain) && larges == [] && large == null && cur == 0 && base == |chain|
      requires current == first && sys.Valid() && sys.live == old(sys.live) - NonNull(old(Buffers()))
      requires forall b :: b in chain ==> b.last == b.at + POOL_HEADER && b.failed == 0 && b.pieces == [] && b.next == old(b.next)
      ensures Valid() && Pieces() == seq(|chain|, i => [])
    {
      forall i | 0 <= i < |chain| ensures BlockAt(i) {
        assert old(BlockAt(i));
        BaseIsNoBuffer(i);
      }
    }

    twostate lemma BaseIsNoBuffer(i: nat)
      requires old(Valid()) && i < |old(chain)|
      ensures old(chain)[i].at !in NonNull(old(Buffers()))
    {
      forall j | 0 <= j < |old(larges)| && old(Buffers())[j] != 0
        ensures old(Buffers())[j] != old(chain)[i].at
      {
        assert old(LargeAt(j));
        assert old(chain)[i] in old(chain);
      }
    }

    // Give every block back, each once: the bases not yet freed are live.
    method FreeBlocks(ghost bases: seq<nat>)
      requires Linked() && 0 < |chain| && first == chain[0] && bases == Bases()
      requires sys.Valid() && AllLive(bases, 0)
      modifies sys
      ensures sys.refusals == old(sys.refusals)
      ensures sys.Valid() && sys.live == old(sys.live) - Elements(bases)
    {
      ghost var i := 0;
      assert old(NextAt(0));
      var p, n := first, first.next;
      while true
        invariant 0 <= i < |chain| && p == chain[i] && n == p.next && NextAt(i)
        invariant sys.Valid() && sys.live == old(sys.live) - Elements(bases[..i]) && AllLive(bases, i)
        invariant sys.refusals == old(sys.refusals)
        decreases |chain| - i
      {
        assert bases[i] == p.at;
        sys.Free(p.at);
        assert bases[..i + 1] == bases[..i] + [bases[i]];
        if n == null {
          break;
        }
        p, n := n, n.next;
        i := i + 1;
        assert old(NextAt(i));
      }
      assert bases[..i + 1] == bases;
    }

    ghost predicate AllLive(bases: seq<nat>, i: nat)
      reads sys
    {
      && (forall j :: i <= j < |bases| ==> bases[j] in sys.live)
      && (forall j, k :: 0 <= j < k < |bases| ==> bases[j] != bases[k])
    }

    // Give everything back, each buffer and each block once.
    method Destroy()
      requires Valid()
      modifies sys
      ensures sys.refusals == old(sys.refusals)
      ensures sys.Valid() && sys.live == old(Others())
    {
      ChainIsLinked();
      ghost var bases := Bases();
      forall i | 0 <= i < |chain| ensures bases[i] in sys.live && bases[i] !in NonNull(Buffers()) {
        assert BlockAt(i);
        BaseIsNoBuffer(i);
      }
      FreeLarges();
      FreeBlocks(bases);
    }

    ghost predicate Has(r: Region)
      reads this, chain, larges
    {
      match r
      case Header(i) => i < |chain|
      case Cut(i, j) => i < |chain| && j < |chain[i].pieces|
      case Buffer(i) => i < |larges| && larges[i].alloc != 0
    }

    // the block or buffer that a region lies in, by its address
    ghost function Base(r: Region): nat
      requires Has(r)
      reads this, chain, larges
    {
      match r
      case Header(i) => chain[i].at
      case Cut(i, j) => chain[i].at
      case Buffer(i) => larges[i].alloc
    }

    ghost function Start(r: Region): nat
      requires Has(r)
      reads this, chain, larges
    {
      match r
      case Header(i) => chain[i].at
      case Cut(i, j) => chain[i].pieces[j].at
      case Buffer(i) => larges[i].alloc
    }

    ghost function Length(r: Region): nat
      requires Valid() && Has(r)
      reads this, chain, larges, first, sys
    {
      match r
      case Header(i) => chain[i].header
      case Cut(i, j) => chain[i].pieces[j].size
      case Buffer(i) =>
        assert LargeAt(i);
        sys.live[larges[i].alloc]
    }

    // Every region lies in a live region of the system.
    lemma RegionsAreInside(r: Region)
      requires Valid() && Has(r)
      ensures Base(r) in sys.live && Base(r) <= Start(r)
      ensures Start(r) + Length(r) <= Base(r) + sys.live[Base(r)]
    {
      match r
      case Header(i) => assert BlockAt(i);
      case Cut(i, j) => assert BlockAt(i);
      case Buffer(i) => assert LargeAt(i);
    }

    // No two regions overlap: pieces, headers and large buffers are all apart.
    lemma RegionsAreApart(r: Region, s: Region)
      requires Valid() && Has(r) && Has(s) && r != s
      ensures Apart(Start(r), Length(r), Start(s), Length(s))
    {
      RegionsAreInside(r);
      RegionsAreInside(s);
      if Base(r) == Base(s) {
        BasesTellBlocks(r, s);
        match r {
          case Header(i) => assert BlockAt(i);
          case Cut(i, j) => assert BlockAt(i);
          case Buffer(i) =>
        }
      }
    }

    // two regions on the same base are in the same block
    lemma BasesTellBlocks(r: Region, s: Region)
      requires Valid() && Has(r) && Has(s) && r != s && Base(r) == Base(s)
      ensures !r.Buffer? && !s.Buffer? && r.i == s.i
    {
      if r.Buffer? && !s.Buffer? {
        BufferIsNoBlock(r.i, s.i);
      }
      if s.Buffer? && !r.Buffer? {
        BufferIsNoBlock(s.i, r.i);
      }
    }

    lemma BufferIsNoBlock(i: nat, j: nat)
      requires Valid() && i < |larges| && larges[i].alloc != 0 && j < |chain|
      ensures larges[i].alloc != chain[j].at
    {
      assert LargeAt(i) && chain[j] in chain;
    }

    // Every entry of the list of large buffers lies in a piece of its own, kept apart from the
    // pieces that requests were given.
    lemma EntriesHavePieces(i: nat, j: nat) returns (r: Region, s: Region)
      requires Valid() && i < |larges| && j < |larges| && i != j
      ensures Has(r) && Has(s) && r.Cut? && s.Cut? && r != s
      ensures chain[r.i].pieces[r.j] == Piece(larges[i].at, LARGE_NODE, true)
      ensures chain[s.i].pieces[s.j] == Piece(larges[j].at, LARGE_NODE, true)
    {
      assert LargeAt(i) && LargeAt(j);
      var a :| 0 <= a < |chain| && chain[a] == larges[i].home;
      var b :| 0 <= b < |chain| && chain[b] == larges[j].home;
      r, s := Cut(a, larges[i].slot), Cut(b, larges[j].slot);
    }
  }
}
