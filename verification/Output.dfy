// Sending a chain of buffers: gathering memory into an iovec, a kernel that may accept any part of
// it, and advancing the chain by what was accepted.
module Buffers {
  import opened Base

  // what a chain holds: bytes in memory, or places in a file
  datatype Unit = Byte(b: byte) | FileByte(file: nat, at: int)

  type Memory = nat -> byte

  class Buf {
    var pos: nat
    var last: nat
    var filePos: int
    var fileLast: int
    const file: nat
    const temporary: bool
    const memory: bool
    const mmap: bool
    const inFile: bool
    const flush: bool
    const sync: bool
    const lastBuf: bool

    constructor Memory(pos: nat, last: nat, lastBuf: bool)
      requires 0 < pos <= last
      ensures Sound() && temporary && InMemory() && !inFile && this.pos == pos && this.last == last && this.lastBuf == lastBuf
    {
      this.pos, this.last, filePos, fileLast, file := pos, last, 0, 0, 0;
      temporary, memory, mmap, inFile := true, false, false, false;
      flush, sync, this.lastBuf := false, false, lastBuf;
    }

    // a buffer that is there for its flags alone
    constructor Flags(flush: bool, sync: bool, lastBuf: bool)
      requires flush || sync || lastBuf
      ensures Sound() && !temporary && !memory && !mmap && !inFile
      ensures this.flush == flush && this.sync == sync && this.lastBuf == lastBuf
    {
      pos, last, filePos, fileLast, file := 0, 0, 0, 0, 0;
      temporary, memory, mmap, inFile := false, false, false, false;
      this.flush, this.sync, this.lastBuf := flush, sync, lastBuf;
    }

    predicate InMemory()
    {
      temporary || memory || mmap
    }

    predicate Special()
    {
      (flush || lastBuf || sync) && !InMemory() && !inFile
    }

    function Size(): int
      reads this
    {
      if InMemory() then last - pos else fileLast - filePos
    }

    // nothing of it is left, in memory or in the file
    ghost predicate UsedUp()
      reads this
    {
      (InMemory() ==> pos == last) && (inFile ==> filePos == fileLast)
    }

    ghost predicate Sound()
      reads this
    {
      && (InMemory() ==> 0 < pos <= last)
      && (!InMemory() ==> filePos <= fileLast && (!inFile ==> filePos == fileLast))
    }

    ghost function Units(mem: Memory): (u: seq<Unit>)
      requires Sound()
      reads this
      ensures |u| == Size()
    {
      if InMemory() then Slice(mem, pos, last)
      else Places(file, filePos, fileLast)
    }
  }

  ghost function Places(file: nat, from: int, to: int): (u: seq<Unit>)
    requires from <= to
    ensures |u| == to - from
  {
    seq(to - from, i requires 0 <= i => FileByte(file, from + i))
  }

  ghost function Slice(mem: Memory, from: nat, to: nat): (u: seq<Unit>)
    requires from <= to
    ensures |u| == to - from
  {
    seq(to - from, i requires 0 <= i => Byte(mem(from + i)))
  }

  // unit i of a buffer is the byte i behind its position, in memory or in the file
  lemma UnitAt(b: Buf, mem: Memory, i: nat)
    requires b.Sound() && i < b.Size()
    ensures b.Units(mem)[i] == if b.InMemory() then Byte(mem(b.pos + i)) else FileByte(b.file, b.filePos + i)
  {
  }

  class Link {
    const buf: Buf
    const next: Link?

    constructor (buf: Buf, next: Link?)
      ensures this.buf == buf && this.next == next
    {
      this.buf, this.next := buf, next;
    }
  }

  // Chains are walked by index: links are all the links of a chain, and start is the k-th of them,
  // or nothing past the last.
  ghost predicate IsChain(start: Link?, links: seq<Link>, k: nat)
    decreases |links| - k
  {
    && k <= |links|
    && if k == |links| then start == null else start == links[k] && IsChain(links[k].next, links, k + 1)
  }

  ghost function Bufs(links: seq<Link>, k: nat): set<Buf>
  {
    set i | k <= i < |links| :: links[i].buf
  }

  ghost predicate Separate(links: seq<Link>)
  {
    forall i, j :: 0 <= i < j < |links| ==> links[i].buf != links[j].buf
  }

  ghost predicate Sound(links: seq<Link>, k: nat)
    reads Bufs(links, k)
  {
    forall i :: k <= i < |links| ==> links[i].buf.Sound()
  }

  // what is left to send from link k on, in order
  ghost function Stream(links: seq<Link>, k: nat, mem: Memory): seq<Unit>
    requires k <= |links| && Sound(links, k)
    reads Bufs(links, k)
    decreases |links| - k
  {
    if k == |links| then [] else links[k].buf.Units(mem) + Stream(links, k + 1, mem)
  }

  // the first k buffers are used up
  ghost predicate Exhausted(links: seq<Link>, k: nat)
    requires k <= |links|
    reads Bufs(links, 0)
  {
    forall i :: 0 <= i < k ==> links[i].buf.UsedUp()
  }

  // from link k on, every buffer that is not there for its flags alone holds something
  ghost predicate NonEmpty(links: seq<Link>, k: nat)
    reads Bufs(links, k)
  {
    forall i :: k <= i < |links| && !links[i].buf.Special() ==> links[i].buf.Size() > 0
  }

  twostate predicate Same(b: Buf)
    reads b
  {
    b.pos == old(b.pos) && b.filePos == old(b.filePos)
  }

  // Consume size units of the buffer, or all of it.
  method Consume(b: Buf, size: int, ghost mem: Memory)
    requires b.Sound() && !b.Special() && 0 <= size <= b.Size()
    modifies b`pos, b`filePos
    ensures b.Sound() && b.Units(mem) == old(b.Units(mem))[size..]
    ensures size == old(b.Size()) ==> b.UsedUp()
    ensures size < old(b.Size()) && b.inFile ==> b.filePos == old(b.filePos) + size
    ensures b.inFile || b.filePos == old(b.filePos)
  {
    if size == b.Size() {
      if b.InMemory() {
        b.pos := b.last;
      }
      if b.inFile {
        b.filePos := b.fileLast;
      }
    } else {
      if b.InMemory() {
        b.pos := b.pos + size;
      }
      if b.inFile {
        b.filePos := b.filePos + size;
      }
    }
  }

  // the link at which the chain goes on, from link k, after sent more units: the first one that
  // something is left of, or that is reached with nothing more to consume
  ghost function Resume(links: seq<Link>, k: nat, sent: int): (r: nat)
    requires k <= |links|
    reads Bufs(links, k)
    ensures k <= r <= |links|
    decreases |links| - k
  {
    if k == |links| then k
    else if links[k].buf.Special() then Resume(links, k + 1, sent)
    else if sent == 0 || sent < links[k].buf.Size() then k
    else Resume(links, k + 1, sent - links[k].buf.Size())
  }

  // t is what is left of s after its first a units
  ghost predicate Left<T>(s: seq<T>, a: int, t: seq<T>)
  {
    0 <= a <= |s| && s[a..] == t
  }

  lemma LeftTwice<T>(s: seq<T>, a: int, t: seq<T>, j: nat)
    requires Left(s, a, t) && j <= |t|
    ensures Left(s, a + j, t[j..])
  {
  }

  // Consume from buffer k; once it is used up the rest of the chain holds what is left.
  method ConsumeAt(b: Buf, size: int, ghost links: seq<Link>, ghost k: nat, ghost mem: Memory)
    requires k < |links| && links[k].buf == b && Separate(links) && Sound(links, 0)
    requires !b.Special() && 0 <= size <= b.Size()
    modifies b`pos, b`filePos
    ensures Sound(links, 0) && b.Size() == old(b.Size()) - size && (b.Size() == 0 ==> b.UsedUp())
    ensures b.Size() > 0 && b.InMemory() && b.inFile ==> b.filePos - old(b.filePos) == b.pos - old(b.pos)
    ensures forall i :: 0 <= i < |links| && i != k ==> Same(links[i].buf)
    ensures Left(old(Stream(links, k, mem)), size, Stream(links, k, mem))
    ensures b.Size() == 0 ==> Left(old(Stream(links, k, mem)), size, Stream(links, k + 1, mem))
  {
    ghost var tail := Stream(links, k + 1, mem);
    assert b !in Bufs(links, k + 1);
    Consume(b, size, mem);
    assert Stream(links, k + 1, mem) == tail;
    DropFront(old(b.Units(mem)), tail, size);
  }

  lemma DropFront(u: seq<Unit>, tail: seq<Unit>, size: nat)
    requires size <= |u|
    ensures Left(u + tail, size, u[size..] + tail)
    ensures size == |u| ==> Left(u + tail, size, tail)
  {
  }

  lemma PassSpecial(links: seq<Link>, k: nat, mem: Memory)
    requires k < |links| && links[k].buf.Special() && Sound(links, 0)
    ensures links[k].buf.UsedUp() && Stream(links, k + 1, mem) == Stream(links, k, mem)
  {
    assert links[k].buf.Sound();
  }

  // what holds before every turn of the loop, when left of the sent units are still to be consumed
  // from link k on: s is what there was to send, and end is where the loop stops
  ghost predicate Advancing(links: seq<Link>, k: nat, left: int, sent: int, s: seq<Unit>, end: nat, mem: Memory)
    reads Bufs(links, 0)
  {
    && 0 <= left <= sent && k <= |links| && Sound(links, 0) && Exhausted(links, k)
    && Left(s, sent - left, Stream(links, k, mem)) && Resume(links, k, left) == end
  }

  // Consume from buffer k; what lies behind it does not change.
  method ConsumeLink(b: Buf, size: int, ghost links: seq<Link>, ghost k: nat, ghost left: int, ghost mem: Memory)
    requires k < |links| && links[k].buf == b && Separate(links) && Sound(links, 0)
    requires !b.Special() && 0 <= size <= b.Size()
    modifies b`pos, b`filePos
    ensures Sound(links, 0) && b.Size() == old(b.Size()) - size && (b.Size() == 0 ==> b.UsedUp())
    ensures b.Size() > 0 && b.InMemory() && b.inFile ==> b.filePos - old(b.filePos) == b.pos - old(b.pos)
    ensures forall i :: 0 <= i < |links| && i != k ==> Same(links[i].buf)
    ensures Left(old(Stream(links, k, mem)), size, Stream(links, k, mem))
    ensures b.Size() == 0 ==> Left(old(Stream(links, k, mem)), size, Stream(links, k + 1, mem))
    ensures Resume(links, k + 1, left) == old(Resume(links, k + 1, left))
    ensures NonEmpty(links, k + 1) == old(NonEmpty(links, k + 1))
  {
    ghost var next, nonEmpty := Resume(links, k + 1, left), NonEmpty(links, k + 1);
    assert b !in Bufs(links, k + 1);
    ConsumeAt(b, size, links, k, mem);
    assert Resume(links, k + 1, left) == next && NonEmpty(links, k + 1) == nonEmpty;
  }

  lemma ExhaustedNext(links: seq<Link>, k: nat)
    requires k < |links| && Exhausted(links, k) && links[k].buf.UsedUp()
    ensures Exhausted(links, k + 1)
  {
  }

  // Consume what is left from buffer k, which is not there for its flags alone.
  method UpdateFull(b: Buf, left: int, ghost links: seq<Link>, ghost k: nat,
                    ghost sent: int, ghost s: seq<Unit>, ghost end: nat, ghost mem: Memory)
    returns (left': int)
    requires k < |links| && links[k].buf == b && Separate(links) && Advancing(links, k, left, sent, s, end, mem)
    requires !b.Special() && 0 < left && left >= b.Size()
    modifies b`pos, b`filePos
    ensures Advancing(links, k + 1, left', sent, s, end, mem)
    ensures NonEmpty(links, k + 1) == old(NonEmpty(links, k + 1))
    ensures forall i :: 0 <= i < |links| && i != k ==> Same(links[i].buf)
  {
    ghost var t := Stream(links, k, mem);
    left' := left - b.Size();
    ghost var size := b.Size();
    ConsumeLink(b, b.Size(), links, k, left', mem);
    LeftTwice(s, sent - left, t, size);
    ExhaustedNext(links, k);
    assert Advancing(links, k + 1, left', sent, s, end, mem);
  }

  method UpdatePart(b: Buf, left: int, ghost links: seq<Link>, ghost k: nat,
                    ghost sent: int, ghost s: seq<Unit>, ghost end: nat, ghost mem: Memory)
    requires k < |links| && links[k].buf == b && Separate(links) && Advancing(links, k, left, sent, s, end, mem)
    requires !b.Special() && 0 <= left < b.Size()
    modifies b`pos, b`filePos
    ensures Advancing(links, k, 0, sent, s, k, mem) && 0 < b.Size() && end == k
    ensures NonEmpty(links, k + 1) == old(NonEmpty(links, k + 1))
    ensures b.InMemory() && b.inFile ==> b.filePos - old(b.filePos) == b.pos - old(b.pos)
    ensures forall i :: 0 <= i < |links| && i != k ==> Same(links[i].buf)
  {
    ghost var t := Stream(links, k, mem);
    ConsumeLink(b, left, links, k, 0, mem);
    LeftTwice(s, sent - left, t, left);
  }

  // where every buffer of the chain stands
  ghost function Positions(links: seq<Link>): (was: seq<(nat, int)>)
    reads Bufs(links, 0)
    ensures Kept(links, was, 0)
  {
    seq(|links|, i requires 0 <= i < |links| reads Bufs(links, 0) =>
      assert links[i].buf in Bufs(links, 0);
      (links[i].buf.pos, links[i].buf.filePos))
  }

  // from link k on the buffers stand where they did
  ghost predicate Kept(links: seq<Link>, was: seq<(nat, int)>, k: nat)
    reads Bufs(links, 0)
  {
    |was| == |links| && forall i :: k <= i < |links| ==> links[i].buf.pos == was[i].0 && links[i].buf.filePos == was[i].1
  }

  // One turn of the loop: pass by link k or stop at it.
  method UpdateLink(b: Buf, left: int, ghost links: seq<Link>, ghost k: nat, ghost was: seq<(nat, int)>, ghost kept: nat,
                    ghost sent: int, ghost s: seq<Unit>, ghost end: nat, ghost mem: Memory)
    returns (stop: bool, left': int, ghost k': nat)
    requires k < |links| && links[k].buf == b && Separate(links) && Advancing(links, k, left, sent, s, end, mem)
    requires Kept(links, was, kept) && kept <= k
    modifies b`pos, b`filePos
    ensures Advancing(links, k', left', sent, s, if stop then k else end, mem) && k' == if stop then k else k + 1
    ensures stop ==> left' == 0 && end == k && !b.Special()
    ensures old(NonEmpty(links, k)) ==> NonEmpty(links, k')
    ensures stop && b.InMemory() && b.inFile ==> b.filePos - was[k].1 == b.pos - was[k].0
    ensures Kept(links, was, if left == 0 then kept else k + 1) && (left == 0 ==> left' == 0)
  {
    stop, left', k' := false, left, k + 1;
    if b.Special() {
      PassSpecial(links, k, mem);
      ExhaustedNext(links, k);
      return;
    }
    if left == 0 {
      stop, k' := true, k;
      return;
    }
    if left >= b.Size() {
      left' := UpdateFull(b, left, links, k, sent, s, end, mem);
    } else {
      UpdatePart(b, left, links, k, sent, s, end, mem);
      stop, left', k' := true, 0, k;
    }
  }

  // Advance the chain, from a link on, by what was sent: what is left is what there was without
  // its first part.
  method ChainUpdateSent(start: Link?, sent: int, ghost links: seq<Link>, ghost from: nat, ghost mem: Memory)
    returns (r: Link?, ghost k: nat)
    requires IsChain(start, links, from) && Separate(links) && Sound(links, 0) && Exhausted(links, from)
    requires 0 <= sent
    modifies Bufs(links, 0)`pos, Bufs(links, 0)`filePos
    ensures from <= k && IsChain(r, links, k) && Sound(links, 0) && Exhausted(links, k)
    ensures var s := old(Stream(links, from, mem)); Stream(links, k, mem) == if sent <= |s| then s[sent..] else []
    ensures old(NonEmpty(links, from)) ==> NonEmpty(links, k)
    ensures r != null ==> !r.buf.Special() && sent <= |old(Stream(links, from, mem))|
    ensures r != null && r.buf.InMemory() && r.buf.inFile ==>
              r.buf.filePos - old(r.buf.filePos) == r.buf.pos - old(r.buf.pos)
    ensures k == old(Resume(links, from, sent))
    ensures Kept(links, old(Positions(links)), if sent == 0 then 0 else k + 1)
  {
    r, k := start, from;
    var left, stop := sent, false;
    ghost var s, nonEmpty, end, was := Stream(links, from, mem), NonEmpty(links, from), Resume(links, from, sent), Positions(links);
    while r != null
      invariant from <= k && IsChain(r, links, k) && Advancing(links, k, left, sent, s, end, mem)
      invariant nonEmpty ==> NonEmpty(links, k)
      invariant Kept(links, was, if sent == 0 then 0 else k) && (sent == 0 ==> left == 0)
      decreases |links| - k
    {
      assert IsChain(r.next, links, k + 1);
      stop, left, k := UpdateLink(r.buf, left, links, k, was, if sent == 0 then 0 else k, sent, s, end, mem);
      if stop {
        break;
      }
      r := r.next;
    }
  }
}

module Output {
  import opened Base
  import opened Buffers

  const IOVS_PREALLOCATE := 64
  const MAX_SIZE := 0x7fff_ffff_ffff_ffff

  datatype Iov = Iov(base: nat, len: nat)

  // the bytes that an iovec names
  ghost function Text(v: seq<Iov>, mem: Memory): (u: seq<Unit>)
    ensures |u| == Total(v)
  {
    if v == [] then [] else
      var last := v[|v| - 1];
      Text(v[..|v| - 1], mem) + Slice(mem, last.base, last.base + last.len)
  }

  function Total(v: seq<Iov>): nat
  {
    if v == [] then 0 else Total(v[..|v| - 1]) + v[|v| - 1].len
  }

  lemma TextGrows(v: seq<Iov>, base: nat, len: nat, mem: Memory)
    ensures Text(v + [Iov(base, len)], mem) == Text(v, mem) + Slice(mem, base, base + len)
  {
    assert (v + [Iov(base, len)])[..|v|] == v;
  }

  lemma TextExtends(v: seq<Iov>, more: nat, mem: Memory)
    requires v != []
    ensures var last := v[|v| - 1];
            Text(v[|v| - 1 := last.(len := last.len + more)], mem)
            == Text(v, mem) + Slice(mem, last.base + last.len, last.base + last.len + more)
  {
    var last := v[|v| - 1];
    var w := v[|v| - 1 := last.(len := last.len + more)];
    assert w[..|v| - 1] == v[..|v| - 1];
    assert Slice(mem, last.base, last.base + last.len + more)
        == Slice(mem, last.base, last.base + last.len) + Slice(mem, last.base + last.len, last.base + last.len + more);
  }

  class Vec {
    const iovs: array<Iov>
    var count: nat
    var size: nat

    constructor (nalloc: nat)
      ensures iovs.Length == nalloc && fresh(iovs)
    {
      iovs := new Iov[nalloc](i => Iov(0, 0));
      count, size := 0, 0;
    }

    method Set(n: nat, total: nat)
      modifies this`count, this`size
      ensures count == n && size == total
    {
      count, size := n, total;
    }
  }

  // neither memory nor file nor a flag
  predicate Bad(b: Buf)
  {
    !b.Special() && !b.inFile && !b.InMemory()
  }

  // some link names a file or nothing at all
  predicate Unsendable(links: seq<Link>)
  {
    exists i :: 0 <= i < |links| && (links[i].buf.inFile || Bad(links[i].buf))
  }

  predicate AllSpecial(links: seq<Link>, from: nat, k: nat)
    requires k <= |links|
  {
    forall i :: from <= i < k ==> links[i].buf.Special()
  }

  // the buffers from from up to k that are not there for their flags alone are empty
  ghost predicate AllEmpty(links: seq<Link>, from: nat, k: nat)
    requires k <= |links|
    reads Bufs(links, 0)
  {
    forall i :: from <= i < k && !links[i].buf.Special() ==> links[i].buf.Size() == 0
  }

  // where gathering ends, from link k on, if no limit ends it: at a file, at a link that is neither
  // memory nor flags, at the piece that the iovec has no room for, or at the end; n pieces are
  // gathered and the last of them ends at prev
  ghost function Stop(links: seq<Link>, k: nat, n: nat, prev: nat, nalloc: nat): (r: nat)
    requires k <= |links|
    reads Bufs(links, k)
    ensures k <= r <= |links|
    decreases |links| - k
  {
    if k == |links| then k
    else
      var b := links[k].buf;
      if b.Special() then Stop(links, k + 1, n, prev, nalloc)
      else if b.inFile || !b.InMemory() then k
      else if prev == b.pos then Stop(links, k + 1, n, b.last, nalloc)
      else if n == nalloc then k
      else Stop(links, k + 1, n + 1, b.last, nalloc)
  }

  // a buffer that a chain to be sent must not hold
  predicate Blocks(links: seq<Link>, k: nat)
  {
    k < |links| && (links[k].buf.inFile || Bad(links[k].buf))
  }

  // nothing of the chain changed
  twostate predicate Untouched(links: seq<Link>)
    reads Bufs(links, 0)
  {
    forall x: Buf :: x in Bufs(links, 0) ==> unchanged(x)
  }

  lemma Part(links: seq<Link>, k: nat)
    ensures Bufs(links, k) <= Bufs(links, 0)
  {
  }

  // The last piece grows.
  method Grow(vec: Vec, n: nat, more: nat, ghost mem: Memory)
    requires 0 < n <= vec.iovs.Length
    modifies vec.iovs
    ensures var end := old(vec.iovs[n - 1].base + vec.iovs[n - 1].len);
            && Text(vec.iovs[..n], mem) == old(Text(vec.iovs[..n], mem)) + Slice(mem, end, end + more)
            && end + more == vec.iovs[n - 1].base + vec.iovs[n - 1].len
  {
    ghost var was := vec.iovs[..n];
    ghost var end := was[n - 1].base + was[n - 1].len;
    TextExtends(was, more, mem);
    vec.iovs[n - 1] := vec.iovs[n - 1].(len := vec.iovs[n - 1].len + more);
    assert vec.iovs[..n] == was[n - 1 := was[n - 1].(len := was[n - 1].len + more)];
  }

  // One more piece.
  method AddPiece(vec: Vec, n: nat, pos: nat, size: nat, ghost mem: Memory)
    requires n < vec.iovs.Length
    modifies vec.iovs
    ensures vec.iovs[n] == Iov(pos, size)
    ensures Text(vec.iovs[..n + 1], mem) == old(Text(vec.iovs[..n], mem)) + Slice(mem, pos, pos + size)
  {
    ghost var was := vec.iovs[..n];
    TextGrows(was, pos, size, mem);
    vec.iovs[n] := Iov(pos, size);
    assert vec.iovs[..n + 1] == was + [Iov(pos, size)];
  }

  // Add the bytes at pos to the iovec: to its last element if that ends there.
  method Put(vec: Vec, n: nat, prev: nat, pos: nat, size: nat, ghost mem: Memory) returns (ok: bool, m: nat)
    requires n <= vec.iovs.Length && 0 < pos
    requires prev != 0 ==> n > 0 && prev == vec.iovs[n - 1].base + vec.iovs[n - 1].len
    modifies vec.iovs
    ensures m <= vec.iovs.Length
    ensures !ok <==> prev != pos && n == vec.iovs.Length
    ensures !ok ==> m == n && vec.iovs[..] == old(vec.iovs[..])
    ensures ok ==> m == if prev == pos then n else n + 1
    ensures ok ==> m > 0 && Text(vec.iovs[..m], mem) == old(Text(vec.iovs[..n], mem)) + Slice(mem, pos, pos + size)
    ensures ok ==> pos + size == vec.iovs[m - 1].base + vec.iovs[m - 1].len
  {
    ok, m := true, n;
    if prev == pos {
      Grow(vec, n, size, mem);
    } else if n == vec.iovs.Length {
      ok := false;
    } else {
      AddPiece(vec, n, pos, size, mem);
      m := n + 1;
    }
  }

  lemma PrefixGrows<T>(s: seq<T>, a: seq<T>, u: seq<T>, t: seq<T>, size: nat)
    requires a <= s && Left(s, |a|, u + t) && size <= |u|
    ensures a + u[..size] <= s
    ensures Left(s, |a| + |u|, t)
  {
    assert s == a + (u + t);
    assert s[|a| + |u|..] == s[|a|..][|u|..];
  }

  // what the iovec holds so far, and where its last piece ends
  ghost predicate Filled(vec: Vec, n: nat, prev: nat, text: seq<Unit>, mem: Memory)
    reads vec.iovs
  {
    && n <= vec.iovs.Length && Text(vec.iovs[..n], mem) == text
    && (prev != 0 ==> n > 0 && prev == vec.iovs[n - 1].base + vec.iovs[n - 1].len)
  }

  // How far the gathering loop got that started at from and is at k; stop is where it ends if the
  // limit does not end it.
  ghost predicate Walked(links: seq<Link>, from: nat, k: nat, stop: nat, nalloc: nat,
                         n: nat, prev: nat, text: seq<Unit>, limit: nat, mem: Memory)
    reads Bufs(links, 0)
  {
    && Sound(links, 0) && from <= k <= stop <= |links| && |text| <= limit && text <= Stream(links, from, mem)
    && (|text| < limit ==> Left(Stream(links, from, mem), |text|, Stream(links, k, mem)))
    && (|text| < limit ==> Stop(links, k, n, prev, nalloc) == stop)
    && (n == 0 ==> prev == 0)
    && (text == [] <==> AllEmpty(links, from, k))
  }

  lemma PassEmpty(links: seq<Link>, from: nat, k: nat)
    requires from <= k < |links|
    ensures AllEmpty(links, from, k + 1) <==> AllEmpty(links, from, k) && (links[k].buf.Special() || links[k].buf.Size() == 0)
  {
  }

  lemma WalkSpecial(links: seq<Link>, from: nat, k: nat, stop: nat, nalloc: nat,
                    n: nat, prev: nat, text: seq<Unit>, limit: nat, mem: Memory)
    requires Walked(links, from, k, stop, nalloc, n, prev, text, limit, mem) && |text| < limit
    requires k < |links| && links[k].buf.Special()
    ensures Walked(links, from, k + 1, stop, nalloc, n, prev, text, limit, mem)
  {
    PassSpecial(links, k, mem);
    PassEmpty(links, from, k);
  }

  // A buffer in memory is gathered, or as much of it as the limit leaves room for.
  lemma WalkMemory(links: seq<Link>, from: nat, k: nat, stop: nat, nalloc: nat,
                   n: nat, prev: nat, text: seq<Unit>, limit: nat, mem: Memory, m: nat, size: nat)
    requires Walked(links, from, k, stop, nalloc, n, prev, text, limit, mem) && |text| < limit
    requires k < |links| && links[k].buf.InMemory() && !links[k].buf.inFile
    requires var b := links[k].buf;
             && (prev == b.pos || n != nalloc) && m == (if prev == b.pos then n else n + 1) && 0 < m
             && size == if b.last - b.pos > limit - |text| then limit - |text| else b.last - b.pos
    ensures var b := links[k].buf;
            b.Sound() && Walked(links, from, k + 1, stop, nalloc, m, b.pos + size, text + Slice(mem, b.pos, b.pos + size), limit, mem)
  {
    var b := links[k].buf;
    var text' := text + Slice(mem, b.pos, b.pos + size);
    WalkText(links, from, k, text, limit, mem, size);
    PassEmpty(links, from, k);
    if |text'| < limit {
      assert Stop(links, k, n, prev, nalloc) == Stop(links, k + 1, m, b.last, nalloc);
    }
    assert text' == [] <==> text == [] && b.Size() == 0;
  }

  lemma WalkText(links: seq<Link>, from: nat, k: nat, text: seq<Unit>, limit: nat, mem: Memory, size: nat)
    requires Sound(links, 0) && from <= k < |links| && text <= Stream(links, from, mem) && |text| < limit
    requires Left(Stream(links, from, mem), |text|, Stream(links, k, mem)) && links[k].buf.InMemory()
    requires var b := links[k].buf; size == if b.last - b.pos > limit - |text| then limit - |text| else b.last - b.pos
    ensures var b := links[k].buf; var text' := text + Slice(mem, b.pos, b.pos + size);
            && b.Sound() && text' <= Stream(links, from, mem) && |text'| == |text| + size <= limit
            && (|text'| < limit ==> Left(Stream(links, from, mem), |text'|, Stream(links, k + 1, mem)))
  {
    var b := links[k].buf;
    assert b.Sound();
    PrefixGrows(Stream(links, from, mem), text, b.Units(mem), Stream(links, k + 1, mem), size);
    assert b.Units(mem)[..size] == Slice(mem, b.pos, b.pos + size);
  }

  // Putting a piece into the iovec leaves the chain alone, and what was found out about it.
  method PutAside(vec: Vec, n: nat, prev: nat, pos: nat, size: nat, ghost text: seq<Unit>, ghost links: seq<Link>, ghost from: nat,
                  ghost k: nat, ghost stop: nat, ghost pieces: nat, ghost end: nat, ghost text': seq<Unit>, ghost limit: nat, ghost mem: Memory)
    returns (ok: bool, m: nat)
    requires Filled(vec, n, prev, text, mem) && 0 < pos
    requires Walked(links, from, k, stop, vec.iovs.Length, pieces, end, text', limit, mem)
    modifies vec.iovs
    ensures Walked(links, from, k, stop, vec.iovs.Length, pieces, end, text', limit, mem)
    ensures !ok <==> prev != pos && n == vec.iovs.Length
    ensures if ok then m == (if prev == pos then n else n + 1) && 0 < m && Filled(vec, m, pos + size, text + Slice(mem, pos, pos + size), mem)
            else m == n && Filled(vec, m, prev, text, mem)
  {
    ok, m := Put(vec, n, prev, pos, size, mem);
    assert forall x: Buf :: x in Bufs(links, 0) ==> unchanged(x);
  }

  // what is found out about the chain by a buffer in memory
  lemma WalkStep(links: seq<Link>, from: nat, k: nat, stop: nat, nalloc: nat,
                 n: nat, prev: nat, text: seq<Unit>, limit: nat, mem: Memory, size: nat)
    returns (k': nat, pieces: nat, end: nat, text': seq<Unit>)
    requires Walked(links, from, k, stop, nalloc, n, prev, text, limit, mem) && |text| < limit && (prev != 0 ==> n > 0)
    requires k < |links| && links[k].buf.InMemory() && !links[k].buf.inFile
    requires var b := links[k].buf; size == if b.last - b.pos > limit - |text| then limit - |text| else b.last - b.pos
    ensures Walked(links, from, k', stop, nalloc, pieces, end, text', limit, mem) && links[k].buf.Sound()
    ensures var b := links[k].buf;
            if prev != b.pos && n == nalloc then k' == k == stop && pieces == n && end == prev && text' == text
            else k' == k + 1 && pieces == (if prev == b.pos then n else n + 1) && end == b.pos + size
                 && text' == text + Slice(mem, b.pos, b.pos + size)
  {
    var b := links[k].buf;
    assert b.Sound();
    k', pieces, end, text' := k, n, prev, text;
    if prev == b.pos || n != nalloc {
      k', pieces, end := k + 1, if prev == b.pos then n else n + 1, b.pos + size;
      text' := text + Slice(mem, b.pos, b.pos + size);
      WalkMemory(links, from, k, stop, nalloc, n, prev, text, limit, mem, pieces, size);
      assert Walked(links, from, k', stop, nalloc, pieces, end, text', limit, mem);
    } else {
      assert Stop(links, k, n, prev, nalloc) == k;
      assert Walked(links, from, k', stop, nalloc, pieces, end, text', limit, mem);
    }
  }

  // A buffer in memory: it is gathered, unless the iovec has no room for it.
  method GatherMemory(vec: Vec, b: Buf, n: nat, prev: nat, total: nat, limit: nat,
                      ghost links: seq<Link>, ghost from: nat, ghost k: nat, ghost stop: nat, ghost text: seq<Unit>, ghost mem: Memory)
    returns (ok: bool, n': nat, prev': nat, total': nat, ghost text': seq<Unit>, ghost k': nat)
    requires k < |links| && links[k].buf == b && total == |text| < limit && Filled(vec, n, prev, text, mem)
    requires Walked(links, from, k, stop, vec.iovs.Length, n, prev, text, limit, mem) && b.InMemory() && !b.inFile
    modifies vec.iovs
    ensures total' == |text'| && Filled(vec, n', prev', text', mem)
    ensures Walked(links, from, k', stop, vec.iovs.Length, n', prev', text', limit, mem)
    ensures if ok then k' == k + 1 else k' == k == stop && n' == vec.iovs.Length && total' == total
  {
    assert b.Sound();
    var size := if b.last - b.pos > limit - total then limit - total else b.last - b.pos;
    ghost var pieces, end;
    k', pieces, end, text' := WalkStep(links, from, k, stop, vec.iovs.Length, n, prev, text, limit, mem, size);
    ok, n' := PutAside(vec, n, prev, b.pos, size, text, links, from, k', stop, pieces, end, text', limit, mem);
    prev', total' := prev, total;
    if ok {
      prev', total' := b.pos + size, total + size;
    }
    assert n' == pieces && prev' == end && total' == |text'|;
    assert Walked(links, from, k', stop, vec.iovs.Length, pieces, end, text', limit, mem);
    assert Filled(vec, n', prev', text', mem);
  }

  datatype Turn = Pass | End | BadBuf

  // One turn of the loop.
  method GatherLink(vec: Vec, b: Buf, n: nat, prev: nat, total: nat, limit: nat,
                    ghost links: seq<Link>, ghost from: nat, ghost k: nat, ghost stop: nat, ghost text: seq<Unit>, ghost mem: Memory)
    returns (turn: Turn, n': nat, prev': nat, total': nat, ghost text': seq<Unit>, ghost k': nat)
    requires k < |links| && links[k].buf == b && total == |text| < limit && Filled(vec, n, prev, text, mem)
    requires Walked(links, from, k, stop, vec.iovs.Length, n, prev, text, limit, mem)
    modifies vec.iovs
    ensures total' == |text'| && Filled(vec, n', prev', text', mem) && k' == if turn.Pass? then k + 1 else k
    ensures Walked(links, from, k', stop, vec.iovs.Length, n', prev', text', limit, mem)
    ensures turn.BadBuf? ==> Bad(b)
    ensures turn.End? ==> !Bad(b) && (b.inFile || n' == vec.iovs.Length)
    ensures !turn.Pass? ==> k == stop && total' < limit
  {
    turn, n', prev', total', text', k' := Pass, n, prev, total, text, k;
    if b.Special() {
      WalkSpecial(links, from, k, stop, vec.iovs.Length, n, prev, text, limit, mem);
      k' := k + 1;
    } else if b.inFile {
      turn := End;
    } else if !b.InMemory() {
      turn := BadBuf;
    } else {
      var ok;
      ok, n', prev', total', text', k' := GatherMemory(vec, b, n, prev, total, limit, links, from, k, stop, text, mem);
      if !ok {
        turn := End;
      }
    }
  }

  // The gathering loop: it stops at the end of the chain, at the limit, at a file, or when the
  // iovec is full.
  method GatherLoop(vec: Vec, start: Link?, limit: nat, ghost links: seq<Link>, ghost from: nat, ghost stop: nat, ghost mem: Memory)
    returns (cl: Link?, bad: bool, n: nat, total: nat, ghost k: nat, ghost prev': nat, ghost text: seq<Unit>)
    requires IsChain(start, links, from) && Sound(links, 0) && 0 < limit && stop == Stop(links, from, 0, 0, vec.iovs.Length)
    modifies vec.iovs
    ensures total == |text| && IsChain(cl, links, k) && Filled(vec, n, prev', text, mem)
    ensures Walked(links, from, k, stop, vec.iovs.Length, n, prev', text, limit, mem)
    ensures bad ==> cl != null && Bad(cl.buf) && total < limit
    ensures !bad && cl != null && total < limit ==> !Bad(cl.buf)
    ensures !bad ==> cl == null || total == limit || cl.buf.inFile || n == vec.iovs.Length
    ensures total < limit ==> k == stop
  {
    var prev: nat := 0;
    cl, bad, n, total, k, text := start, false, 0, 0, from, [];
    while cl != null && total < limit
      invariant total == |text| && IsChain(cl, links, k) && Filled(vec, n, prev, text, mem)
      invariant Walked(links, from, k, stop, vec.iovs.Length, n, prev, text, limit, mem)
      decreases |links| - k
    {
      var turn;
      assert IsChain(cl.next, links, k + 1);
      turn, n, prev, total, text, k := GatherLink(vec, cl.buf, n, prev, total, limit, links, from, k, stop, text, mem);
      if turn.BadBuf? {
        bad := true;
        break;
      }
      if turn.End? {
        break;
      }
      cl := cl.next;
    }
    prev' := prev;
  }

  lemma GatheredMeans(vec: Vec, n: nat, prev: nat, text: seq<Unit>, limit: nat,
                      links: seq<Link>, from: nat, k: nat, stop: nat, cl: Link?, mem: Memory)
    requires Filled(vec, n, prev, text, mem) && 0 < limit
    requires Walked(links, from, k, stop, vec.iovs.Length, n, prev, text, limit, mem) && IsChain(cl, links, k)
    requires |text| < limit ==> k == stop
    requires cl == null || |text| == limit || cl.buf.inFile || n == vec.iovs.Length
    ensures Text(vec.iovs[..n], mem) == text <= Stream(links, from, mem) && |text| == Total(vec.iovs[..n])
    ensures text == [] <==> AllEmpty(links, from, stop)
    ensures |text| < limit && (cl == null || (n < vec.iovs.Length && !cl.buf.inFile)) ==> text == Stream(links, from, mem)
  {
    if cl == null && |text| < limit {
      assert Stream(links, k, mem) == [];
      assert Stream(links, from, mem)[|text|..] == [];
    }
  }

  // Gather memory into the iovec, joining neighbours, up to limit bytes and the room in the iovec.
  // Nothing is gathered exactly if what comes before a file, the end, or the piece too many is empty.
  method OutputChainToIovec(vec: Vec, start: Link?, limit: nat, ghost links: seq<Link>, ghost from: nat, ghost mem: Memory)
    returns (cl: Link?, bad: bool, ghost k: nat)
    requires IsChain(start, links, from) && Sound(links, 0) && 0 < limit
    modifies vec`count, vec`size, vec.iovs
    ensures Untouched(links)
    ensures from <= k && IsChain(cl, links, k)
    ensures bad ==> cl != null && Bad(cl.buf)
    ensures !bad ==> vec.count <= vec.iovs.Length && vec.size == Total(vec.iovs[..vec.count]) <= limit
    ensures !bad ==> Text(vec.iovs[..vec.count], mem) <= old(Stream(links, from, mem))
    ensures !bad && cl != null && vec.size < limit ==> !Bad(cl.buf)
    ensures bad || vec.size < limit ==> k == old(Stop(links, from, 0, 0, vec.iovs.Length))
    ensures !bad ==> (vec.size == 0 <==> old(AllEmpty(links, from, Stop(links, from, 0, 0, vec.iovs.Length))))
    ensures !bad && vec.size < limit && (cl == null || (vec.count < vec.iovs.Length && !cl.buf.inFile)) ==>
              Text(vec.iovs[..vec.count], mem) == old(Stream(links, from, mem))
  {
    var n, total; ghost var prev, text;
    ghost var s, stop := Stream(links, from, mem), Stop(links, from, 0, 0, vec.iovs.Length);
    ghost var empty := AllEmpty(links, from, stop);
    cl, bad, n, total, k, prev, text := GatherLoop(vec, start, limit, links, from, stop, mem);
    assert forall x: Buf :: x in Bufs(links, 0) ==> unchanged(x);
    Part(links, from);
    assert Stream(links, from, mem) == s && AllEmpty(links, from, stop) == empty;
    if !bad {
      GatheredMeans(vec, n, prev, text, limit, links, from, k, stop, cl, mem);
      vec.Set(n, total);
    }
  }

  datatype Answer = Wrote(n: nat) | WouldBlock | Interrupted | Refused

  // The kernel: it takes any part of what it is offered, or fails; it interrupts a caller only
  // finitely often. A willing kernel takes all it is offered.
  class Kernel {
    const mem: Memory
    const willing: bool
    var interrupts: nat
    ghost var wire: seq<Unit>

    constructor (mem: Memory, willing: bool, interrupts: nat)
      ensures this.mem == mem && this.willing == willing && this.interrupts == interrupts && wire == []
    {
      this.mem, this.willing, this.interrupts, wire := mem, willing, interrupts, [];
    }

    method Take(v: seq<Iov>) returns (a: Answer)
      modifies this
      ensures a.Wrote? ==> a.n <= Total(v) && wire == old(wire) + Text(v, mem)[..a.n]
      ensures !a.Wrote? ==> wire == old(wire)
      ensures willing ==> a.Interrupted? || a == Wrote(Total(v))
      ensures if a.Interrupted? then interrupts < old(interrupts) else interrupts == old(interrupts)
    {
      var choice: int := *;
      if choice == 0 && interrupts > 0 {
        interrupts := interrupts - 1;
        a := Interrupted;
      } else if choice == 1 && !willing {
        a := WouldBlock;
      } else if choice == 2 && !willing {
        a := Refused;
      } else {
        var n: int := *;
        if n < 0 || n > Total(v) || willing {
          n := Total(v);
        }
        wire := wire + Text(v, mem)[..n];
        a := Wrote(n);
      }
    }
  }

  class Connection {
    var sent: int
    var ready: bool
    var error: bool

    constructor ()
      ensures sent == 0 && ready && !error
    {
      sent, ready, error := 0, true, false;
    }
  }

  datatype Result = Sent(n: nat) | Again | Failed

  // Offer the iovec until the call is not interrupted.
  method Writev(c: Connection, kernel: Kernel, vec: Vec) returns (r: Result)
    requires vec.count <= vec.iovs.Length
    modifies c`error, kernel
    ensures r.Sent? ==> var v := old(vec.iovs[..vec.count]);
              r.n <= Total(v) && kernel.wire == old(kernel.wire) + Text(v, kernel.mem)[..r.n]
    ensures !r.Sent? ==> kernel.wire == old(kernel.wire)
    ensures kernel.willing ==> r == Sent(Total(old(vec.iovs[..vec.count])))
    ensures if r.Failed? then c.error else c.error == old(c.error)
  {
    ghost var v := vec.iovs[..vec.count];
    while true
      invariant vec.iovs[..vec.count] == v && kernel.wire == old(kernel.wire) && c.error == old(c.error)
      decreases kernel.interrupts
    {
      var a := kernel.Take(vec.iovs[..vec.count]);
      match a {
        case Interrupted =>
        case WouldBlock => return Again;
        case Refused =>
          c.error := true;
          return Failed;
        case Wrote(n) => return Sent(n);
      }
    }
  }

  // Offer what was gathered and count what was taken; the chain is not touched.
  method Offer(c: Connection, kernel: Kernel, vec: Vec, ghost links: seq<Link>, ghost from: nat)
    returns (failed: bool, sent: nat)
    requires from <= |links| && Sound(links, 0) && vec.count <= vec.iovs.Length
    requires Text(vec.iovs[..vec.count], kernel.mem) <= Stream(links, from, kernel.mem)
    modifies c, kernel
    ensures Untouched(links) && c.ready == old(c.ready)
    ensures if failed then c.error && sent == 0 else c.error == old(c.error)
    ensures sent <= Total(old(vec.iovs[..vec.count])) && c.sent == old(c.sent) + sent
    ensures sent <= |old(Stream(links, from, kernel.mem))|
    ensures kernel.willing ==> !failed && sent == Total(old(vec.iovs[..vec.count]))
    ensures if sent == 0 then kernel.wire == old(kernel.wire)
            else kernel.wire == old(kernel.wire) + old(Stream(links, from, kernel.mem))[..sent]
  {
    failed, sent := false, 0;
    var n := Writev(c, kernel, vec);
    if n.Failed? {
      failed := true;
    } else {
      sent := if n.Again? then 0 else n.n;
      c.sent := c.sent + sent;
    }
    assert forall x: Buf :: x in Bufs(links, 0) ==> unchanged(x);
  }

  // memory and flags alone, in no more links than the iovec has places
  predicate Plain(links: seq<Link>, nalloc: nat)
  {
    |links| <= nalloc && forall i :: 0 <= i < |links| ==> links[i].buf.Special() || (links[i].buf.InMemory() && !links[i].buf.inFile)
  }

  lemma {:induction false} PlainNeverStops(links: seq<Link>, k: nat, n: nat, prev: nat, nalloc: nat)
    requires k <= |links| && Plain(links, nalloc) && n <= k
    ensures Stop(links, k, n, prev, nalloc) == |links|
    decreases |links| - k
  {
    if k < |links| {
      var b := links[k].buf;
      PlainNeverStops(links, k + 1, n, prev, nalloc);
      PlainNeverStops(links, k + 1, n, b.last, nalloc);
      PlainNeverStops(links, k + 1, n + 1, b.last, nalloc);
    }
  }

  // gathering nothing from a chain without empty buffers stops at what must not be sent, or at the end
  lemma {:induction false} FullStops(links: seq<Link>, k: nat, nalloc: nat)
    requires k <= |links| && Sound(links, 0) && NonEmpty(links, k) && 0 < nalloc
    requires AllEmpty(links, k, Stop(links, k, 0, 0, nalloc))
    ensures var stop := Stop(links, k, 0, 0, nalloc); (stop == |links| || Blocks(links, stop)) && AllSpecial(links, k, stop)
    decreases |links| - k
  {
    if k < |links| {
      var b := links[k].buf;
      assert b.Sound();
      if b.Special() {
        FullStops(links, k + 1, nalloc);
      }
    }
  }

  lemma AllSpecialIsEmpty(links: seq<Link>, k: nat, mem: Memory)
    requires Sound(links, 0) && k <= |links| && AllSpecial(links, k, |links|)
    ensures Stream(links, k, mem) == []
    decreases |links| - k
  {
    if k < |links| {
      PassSpecial(links, k, mem);
      AllSpecialIsEmpty(links, k + 1, mem);
    }
  }

  // the last buffer, from link k on, that is not there for its flags alone is empty
  ghost predicate EndsEmpty(links: seq<Link>, k: nat)
    reads Bufs(links, k)
    decreases |links| - k
  {
    && k < |links|
    && if AllSpecial(links, k + 1, |links|) then !links[k].buf.Special() && links[k].buf.Size() == 0 else EndsEmpty(links, k + 1)
  }

  // Once all of a chain is sent it has a link to go on from exactly if it ends with an empty buffer.
  lemma {:induction false} ResumeAfterAll(links: seq<Link>, k: nat, mem: Memory)
    requires k <= |links| && Sound(links, 0)
    ensures var r := Resume(links, k, |Stream(links, k, mem)|);
            (r < |links| <==> EndsEmpty(links, k)) && (r < |links| ==> EndsEmpty(links, r))
    decreases |links| - k
  {
    if k < |links| {
      var b := links[k].buf;
      assert b.Sound();
      ResumeAfterAll(links, k + 1, mem);
      if AllSpecial(links, k + 1, |links|) {
        AllSpecialIsEmpty(links, k + 1, mem);
        AllSpecialEnds(links, k + 1);
      }
      if Stream(links, k, mem) == [] && !b.Special() {
        EmptyEnds(links, k, mem);
      }
    }
  }

  lemma {:induction false} AllSpecialEnds(links: seq<Link>, k: nat)
    requires k <= |links| && AllSpecial(links, k, |links|)
    ensures !EndsEmpty(links, k)
  {
  }

  // a chain with nothing to send ends with an empty buffer, if it has any buffer but flags
  lemma {:induction false} EmptyEnds(links: seq<Link>, k: nat, mem: Memory)
    requires k < |links| && Sound(links, 0) && Stream(links, k, mem) == []
    ensures AllSpecial(links, k, |links|) || EndsEmpty(links, k)
    ensures !links[k].buf.Special() ==> EndsEmpty(links, k)
    decreases |links| - k
  {
    assert links[k].buf.Sound();
    if k + 1 < |links| { EmptyEnds(links, k + 1, mem); }
  }

  // n units went from the front of s to the end of the wire, and nothing was lost or made up
  ghost predicate Progress(was: seq<Unit>, s: seq<Unit>, n: int, wire: seq<Unit>, rest: seq<Unit>)
  {
    |wire| == |was| + n && wire + rest == was + s && 0 <= n <= |s|
  }

  lemma ProgressMeans(was: seq<Unit>, s: seq<Unit>, n: int, wire: seq<Unit>, rest: seq<Unit>)
    requires Progress(was, s, n, wire, rest) && was <= wire
    ensures wire == was + s[..n] && rest == s[n..]
  {
    assert wire == (wire + rest)[..|wire|];
    assert rest == (wire + rest)[|wire|..];
  }

  lemma ProgressTwice(was: seq<Unit>, s: seq<Unit>, n: int, mid: seq<Unit>, t: seq<Unit>, m: int, wire: seq<Unit>, rest: seq<Unit>)
    requires Progress(was, s, n, mid, t) && Progress(mid, t, m, wire, rest) && was <= mid <= wire
    ensures Progress(was, s, n + m, wire, rest) && was <= wire
  {
  }

  lemma ProgressFromSlices(was: seq<Unit>, s: seq<Unit>, n: nat, wire: seq<Unit>, rest: seq<Unit>)
    requires n <= |s| && (if n == 0 then wire == was else wire == was + s[..n]) && rest == s[n..]
    ensures Progress(was, s, n, wire, rest) && was <= wire
  {
    assert s == s[..n] + s[n..];
  }

  // where a turn from link k on stops gathering, if the limit does not stop it
  ghost function Horizon(links: seq<Link>, k: nat, nalloc: nat): (r: nat)
    requires k <= |links|
    reads Bufs(links, k)
    ensures k <= r <= |links|
  {
    Stop(links, k, 0, 0, nalloc)
  }

  // the next turn from link k on gathers nothing
  ghost predicate Barren(links: seq<Link>, k: nat, nalloc: nat)
    requires k <= |links|
    reads Bufs(links, 0), Bufs(links, k)
  {
    AllEmpty(links, k, Horizon(links, k, nalloc))
  }

  lemma GatheredAll(links: seq<Link>, from: nat, k: nat, vec: Vec, limit: nat, cl: Link?, mem: Memory)
    requires Sound(links, 0) && from <= |links| && IsChain(cl, links, k) && Plain(links, vec.iovs.Length)
    requires vec.count <= vec.iovs.Length && vec.size == Total(vec.iovs[..vec.count]) <= limit
    requires vec.size < limit ==> k == Horizon(links, from, vec.iovs.Length)
    requires vec.size < limit && cl == null ==> Text(vec.iovs[..vec.count], mem) == Stream(links, from, mem)
    requires vec.size <= |Stream(links, from, mem)|
    ensures vec.size == if limit <= |Stream(links, from, mem)| then limit else |Stream(links, from, mem)|
  {
    PlainNeverStops(links, from, 0, 0, vec.iovs.Length);
  }

  // The first half of a turn of the sending loop: gather and offer; the chain is not touched.
  method OfferTurn(c: Connection, kernel: Kernel, vec: Vec, start: Link?, room: nat, ghost links: seq<Link>, ghost from: nat)
    returns (failed: bool, size: nat, sent: nat)
    requires IsChain(start, links, from) && Sound(links, 0) && 0 < room && 0 < vec.iovs.Length
    modifies c, kernel, vec, vec.iovs
    ensures Untouched(links) && c.ready == old(c.ready) && c.sent == old(c.sent) + sent
    ensures failed ==> (c.error || Unsendable(links)) && sent == 0
    ensures sent <= |old(Stream(links, from, kernel.mem))|
    ensures kernel.wire == if sent == 0 then old(kernel.wire) else old(kernel.wire) + old(Stream(links, from, kernel.mem))[..sent]
    ensures !failed ==> sent <= size <= room && size <= |old(Stream(links, from, kernel.mem))| && c.error == old(c.error)
    ensures !failed ==> (size == 0 <==> old(Barren(links, from, vec.iovs.Length)))
    ensures !failed && size == 0 ==> !Blocks(links, old(Horizon(links, from, vec.iovs.Length)))
    ensures kernel.willing ==> (failed ==> Unsendable(links)) && (!failed ==> sent == size)
    ensures kernel.willing && Plain(links, vec.iovs.Length) ==>
              var n := |old(Stream(links, from, kernel.mem))|; !failed && sent == size == if room <= n then room else n
  {
    failed, size, sent := false, 0, 0;
    ghost var s, barren, stop := Stream(links, from, kernel.mem), Barren(links, from, vec.iovs.Length), Horizon(links, from, vec.iovs.Length);
    var cl, bad; ghost var j;
    cl, bad, j := OutputChainToIovec(vec, start, room, links, from, kernel.mem);
    assert forall x: Buf :: x in Bufs(links, 0) ==> unchanged(x);
    Part(links, from);
    assert Stream(links, from, kernel.mem) == s && Barren(links, from, vec.iovs.Length) == barren && Horizon(links, from, vec.iovs.Length) == stop;
    if bad || (cl != null && cl.buf.inFile) {
      assert cl == links[j];
      failed := true;
      return;
    }
    size := vec.size;
    if size == 0 && stop < |links| {
      assert cl == links[stop];
    }
    assert size == 0 ==> !Blocks(links, stop);
    if Plain(links, vec.iovs.Length) {
      GatheredAll(links, from, j, vec, room, cl, kernel.mem);
    }
    failed, sent := Offer(c, kernel, vec, links, from);
  }

  // flags before link k do not matter to where gathering stops
  lemma {:induction false} StopBehindFlags(links: seq<Link>, from: nat, k: nat, nalloc: nat)
    requires from <= |links| && k == Resume(links, from, 0)
    ensures Stop(links, k, 0, 0, nalloc) == Stop(links, from, 0, 0, nalloc)
    decreases |links| - from
  {
    if from < |links| && links[from].buf.Special() {
      StopBehindFlags(links, from + 1, k, nalloc);
    }
  }

  lemma BarrenBehindFlags(links: seq<Link>, from: nat, k: nat, nalloc: nat)
    requires from <= |links| && k == Resume(links, from, 0)
    requires Barren(links, from, nalloc) && !Blocks(links, Horizon(links, from, nalloc))
    ensures Barren(links, k, nalloc) && !Blocks(links, Horizon(links, k, nalloc))
  {
    StopBehindFlags(links, from, k, nalloc);
  }

  // The loop is at a link from which a turn moves nothing, and nothing makes it fail but the kernel.
  ghost predicate Stuck(links: seq<Link>, k: nat, at: Link?, nalloc: nat)
    reads Bufs(links, 0), Bufs(links, k)
  {
    && k < |links| && at == links[k] && IsChain(at, links, k) && !links[k].buf.Special()
    && Barren(links, k, nalloc) && !Blocks(links, Horizon(links, k, nalloc))
  }

  // Advance the chain by all of it, or by less.
  method AdvanceAll(start: Link?, sent: nat, ghost links: seq<Link>, ghost from: nat, ghost mem: Memory)
    returns (r: Link?, ghost k: nat)
    requires IsChain(start, links, from) && Separate(links) && Sound(links, 0) && Exhausted(links, from)
    requires sent <= |Stream(links, from, mem)|
    modifies Bufs(links, 0)`pos, Bufs(links, 0)`filePos
    ensures Sound(links, 0) && from <= k <= |links| && Exhausted(links, k) && IsChain(r, links, k)
    ensures k == old(Resume(links, from, sent)) && (r != null ==> r == links[k] && !r.buf.Special())
    ensures Stream(links, k, mem) == old(Stream(links, from, mem))[sent..]
    ensures Kept(links, old(Positions(links)), if sent == 0 then 0 else k + 1)
    ensures sent == |old(Stream(links, from, mem))| ==>
              (r != null <==> old(EndsEmpty(links, from))) && (r != null ==> EndsEmpty(links, k))
    ensures old(NonEmpty(links, from)) ==> NonEmpty(links, k)
  {
    ResumeAfterAll(links, from, mem);
    ghost var all := sent == |Stream(links, from, mem)|;
    r, k := ChainUpdateSent(start, sent, links, from, mem);
    assert r != null ==> r == links[k];
    if all && r != null {
      EmptyEnds(links, k, mem);
    }
  }

  // The second half of a turn: advance the chain.
  method AdvanceTurn(start: Link?, size: nat, sent: nat, ghost links: seq<Link>, ghost from: nat, ghost nalloc: nat, ghost mem: Memory)
    returns (r: Link?, ghost k: nat)
    requires IsChain(start, links, from) && Separate(links) && Sound(links, 0) && Exhausted(links, from)
    requires sent <= |Stream(links, from, mem)| && sent <= size
    requires size == 0 ==> Barren(links, from, nalloc) && !Blocks(links, Horizon(links, from, nalloc))
    modifies Bufs(links, 0)`pos, Bufs(links, 0)`filePos
    ensures Sound(links, 0) && from <= k <= |links| && Exhausted(links, k) && IsChain(r, links, k)
    ensures k == old(Resume(links, from, sent)) && (r != null ==> !r.buf.Special())
    ensures Stream(links, k, mem) == old(Stream(links, from, mem))[sent..]
    ensures sent == 0 ==> Kept(links, old(Positions(links)), 0)
    ensures size == 0 && r != null ==> Stuck(links, k, r, nalloc)
    ensures sent == |old(Stream(links, from, mem))| ==>
              (r != null <==> old(EndsEmpty(links, from))) && (r != null ==> EndsEmpty(links, k))
    ensures old(NonEmpty(links, from)) ==> NonEmpty(links, k)
  {
    ghost var j := Resume(links, from, 0);
    ghost var horizon := Horizon(links, j, nalloc);
    Part(links, j);
    if size == 0 {
      BarrenBehindFlags(links, from, j, nalloc);
    }
    r, k := AdvanceAll(start, sent, links, from, mem);
    if size == 0 {
      assert forall x: Buf :: x in Bufs(links, 0) ==> unchanged(x);
      assert Barren(links, j, nalloc) && Horizon(links, j, nalloc) == horizon;
    }
  }

  // One turn of the sending loop, from a link on: gather, offer, advance.
  method SendTurn(c: Connection, kernel: Kernel, vec: Vec, start: Link?, room: nat, ghost links: seq<Link>, ghost from: nat)
    returns (failed: bool, size: nat, sent: nat, r: Link?, ghost k: nat)
    requires IsChain(start, links, from) && Separate(links) && Sound(links, 0)
    requires Exhausted(links, from) && 0 < room && 0 < vec.iovs.Length
    modifies c, kernel, vec, vec.iovs, Bufs(links, 0)`pos, Bufs(links, 0)`filePos
    ensures Sound(links, 0) && c.ready == old(c.ready) && from <= k <= |links| && Exhausted(links, k)
    ensures failed ==> (c.error || Unsendable(links)) && sent == 0
    ensures !failed ==> sent <= size <= room && size <= |old(Stream(links, from, kernel.mem))| && c.error == old(c.error)
    ensures c.sent == old(c.sent) + sent
    ensures Progress(old(kernel.wire), old(Stream(links, from, kernel.mem)), sent, kernel.wire, Stream(links, k, kernel.mem))
    ensures old(kernel.wire) <= kernel.wire
    ensures if failed then r == start && k == from
            else IsChain(r, links, k) && k == old(Resume(links, from, sent)) && (r != null ==> !r.buf.Special())
    ensures !failed ==> (size == 0 <==> old(Barren(links, from, vec.iovs.Length)))
    ensures !failed && size == 0 ==> !Blocks(links, old(Horizon(links, from, vec.iovs.Length)))
    ensures sent == 0 ==> Kept(links, old(Positions(links)), 0)
    ensures !failed && size == 0 && r != null ==> Stuck(links, k, r, vec.iovs.Length)
    ensures kernel.willing ==> (failed ==> Unsendable(links)) && (!failed ==> sent == size)
    ensures kernel.willing && Plain(links, vec.iovs.Length) ==>
              var n := |old(Stream(links, from, kernel.mem))|; !failed && sent == size == if room <= n then room else n
    ensures !failed && sent == |old(Stream(links, from, kernel.mem))| ==>
              (r != null <==> old(EndsEmpty(links, from))) && (r != null ==> EndsEmpty(links, k))
    ensures old(NonEmpty(links, from)) ==> NonEmpty(links, k)
  {
    r, k := start, from;
    ghost var s, nonEmpty, was := Stream(links, from, kernel.mem), NonEmpty(links, from), Positions(links);
    ghost var barren, stop, ends := Barren(links, from, vec.iovs.Length), Horizon(links, from, vec.iovs.Length), EndsEmpty(links, from);
    failed, size, sent := OfferTurn(c, kernel, vec, start, room, links, from);
    assert forall x: Buf :: x in Bufs(links, 0) ==> unchanged(x);
    Part(links, from);
    assert Stream(links, from, kernel.mem) == s && NonEmpty(links, from) == nonEmpty && Exhausted(links, from) && Positions(links) == was;
    assert Barren(links, from, vec.iovs.Length) == barren && Horizon(links, from, vec.iovs.Length) == stop && EndsEmpty(links, from) == ends;
    assert Resume(links, from, sent) == old(Resume(links, from, sent));
    if failed {
      ProgressFromSlices(kernel.wire, s, 0, kernel.wire, s);
      return;
    }
    r, k := AdvanceTurn(start, size, sent, links, from, vec.iovs.Length, kernel.mem);
    ProgressFromSlices(old(kernel.wire), s, sent, kernel.wire, Stream(links, k, kernel.mem));
  }

  // what a call ends with: a link to go on from, an error, or a turn that moves nothing and will be
  // repeated for ever unless the kernel fails it
  datatype Outcome = Rest(link: Link?) | ChainError | Stalled

  lemma NullIsEnd(at: Link?, links: seq<Link>, k: nat, mem: Memory)
    requires IsChain(at, links, k) && Sound(links, 0)
    ensures Stream(links, k, mem) != [] ==> at != null
  {
  }

  lemma StuckIsEmpty(links: seq<Link>, k: nat, at: Link?, nalloc: nat)
    requires Sound(links, 0) && Stuck(links, k, at, nalloc) && 0 < nalloc
    ensures !NonEmpty(links, k)
  {
    if NonEmpty(links, k) {
      FullStops(links, k, nalloc);
      assert false;
    }
  }

  // A stuck loop takes any number of turns, and every turn leaves everything as it was, until the
  // kernel fails one.
  method TurnsWhileStuck(c: Connection, kernel: Kernel, vec: Vec, start: Link, room: nat, turns: nat, ghost links: seq<Link>, ghost k: nat)
    returns (failed: bool)
    requires Separate(links) && Sound(links, 0) && Stuck(links, k, start, vec.iovs.Length) && Exhausted(links, k)
    requires 0 < room && 0 < vec.iovs.Length
    modifies c, kernel, vec, vec.iovs, Bufs(links, 0)`pos, Bufs(links, 0)`filePos
    ensures Sound(links, 0) && Kept(links, old(Positions(links)), 0)
    ensures kernel.wire == old(kernel.wire) && c.sent == old(c.sent) && c.ready == old(c.ready)
    ensures failed ==> c.error || Unsendable(links)
    ensures !failed ==> Stuck(links, k, start, vec.iovs.Length) && c.error == old(c.error)
  {
    failed := false;
    ghost var was := Positions(links);
    for turn := 0 to turns
      invariant Sound(links, 0) && Kept(links, was, 0) && Exhausted(links, k)
      invariant kernel.wire == old(kernel.wire) && c.sent == old(c.sent) && c.ready == old(c.ready) && c.error == old(c.error)
      invariant Stuck(links, k, start, vec.iovs.Length)
    {
      var size, sent, r; ghost var j;
      failed, size, sent, r, j := SendTurn(c, kernel, vec, start, room, links, k);
      if failed {
        return;
      }
    }
  }

  // What holds of the chain and the wire in the sending loop, send units on its way: s was to be sent
  // and wire was there at the start; full tells that no buffer was empty.
  ghost predicate Underway(links: seq<Link>, k: nat, at: Link?, send: nat, s: seq<Unit>, full: bool, wire: seq<Unit>, kernel: Kernel)
    reads Bufs(links, 0), kernel
  {
    && k <= |links| && IsChain(at, links, k) && Sound(links, 0) && Exhausted(links, k) && (full ==> NonEmpty(links, k))
    && Progress(wire, s, send, kernel.wire, Stream(links, k, kernel.mem)) && wire <= kernel.wire
  }

  method NotReady(c: Connection, ghost links: seq<Link>, ghost k: nat, ghost at: Link?,
                  ghost send: nat, ghost s: seq<Unit>, ghost full: bool, ghost wire: seq<Unit>, ghost kernel: Kernel)
    requires Underway(links, k, at, send, s, full, wire, kernel)
    modifies c`ready
    ensures !c.ready && Underway(links, k, at, send, s, full, wire, kernel)
  {
    c.ready := false;
    assert forall x: Buf :: x in Bufs(links, 0) ==> unchanged(x);
    Part(links, k);
  }

  // One turn, seen from the loop.
  method LoopTurn(c: Connection, kernel: Kernel, vec: Vec, start: Link?, room: nat, ghost links: seq<Link>, ghost from: nat,
                  ghost send: nat, ghost s: seq<Unit>, ghost full: bool, ghost wire: seq<Unit>)
    returns (failed: bool, size: nat, sent: nat, r: Link?, ghost k: nat)
    requires Underway(links, from, start, send, s, full, wire, kernel) && Separate(links) && 0 < room && 0 < vec.iovs.Length
    modifies c, kernel, vec, vec.iovs, Bufs(links, 0)`pos, Bufs(links, 0)`filePos
    ensures c.ready == old(c.ready) && c.sent == old(c.sent) + sent && sent <= room && send + sent <= |s|
    ensures failed ==> (c.error || Unsendable(links)) && sent == 0
    ensures !failed ==> sent <= size <= room && send + size <= |s| && (sent < size ==> r != null)
    ensures Underway(links, k, r, send + sent, s, full, wire, kernel)
    ensures !failed && size == 0 && r != null ==> Stuck(links, k, r, vec.iovs.Length)
    ensures kernel.willing ==> (failed ==> Unsendable(links)) && (!failed ==> sent == size)
    ensures kernel.willing && Plain(links, vec.iovs.Length) ==>
              && !failed && sent == size && (sent == room || send + sent == |s|)
              && (sent < room ==> (r != null <==> old(EndsEmpty(links, from))) && (r != null ==> EndsEmpty(links, k)))
  {
    ghost var mid, t := kernel.wire, Stream(links, from, kernel.mem);
    failed, size, sent, r, k := SendTurn(c, kernel, vec, start, room, links, from);
    ProgressTwice(wire, s, send, mid, t, sent, kernel.wire, Stream(links, k, kernel.mem));
    if !failed {
      NullIsEnd(r, links, k, kernel.mem);
    }
    assert Underway(links, k, r, send + sent, s, full, wire, kernel);
  }

  // The sending loop. It gets stuck, with a willing kernel and a chain it can send at once, exactly if
  // the chain ends with an empty buffer and is not cut short by the limit.
  method SendLoop(c: Connection, kernel: Kernel, vec: Vec, start: Link?, cap: nat, ghost links: seq<Link>)
    returns (r: Outcome, ghost k: nat, ghost send: nat, at: Link?)
    requires IsChain(start, links, 0) && Separate(links) && Sound(links, 0)
    requires c.ready && 0 < cap && 0 < vec.iovs.Length
    modifies c, kernel, vec, vec.iovs, Bufs(links, 0)`pos, Bufs(links, 0)`filePos
    ensures Underway(links, k, at, send, old(Stream(links, 0, kernel.mem)), old(NonEmpty(links, 0)), old(kernel.wire), kernel)
    ensures c.sent == old(c.sent) + send && send <= cap
    ensures r.Rest? ==> r.link == at && (c.ready <==> at == null || send == cap)
    ensures r.ChainError? ==> c.error || Unsendable(links)
    ensures r.Stalled? ==> c.ready && send < cap && Stuck(links, k, at, vec.iovs.Length)
    ensures kernel.willing && !Unsendable(links) ==>
              !r.ChainError? && (r.Rest? ==> send == cap || send == |old(Stream(links, 0, kernel.mem))|)
    ensures kernel.willing ==> c.ready
    ensures kernel.willing && Plain(links, vec.iovs.Length) ==>
              var n := |old(Stream(links, 0, kernel.mem))|;
              && !r.ChainError? && send == (if cap <= n then cap else n)
              && (r.Stalled? <==> old(EndsEmpty(links, 0)) && n < cap)
  {
    k, send := 0, 0;
    at := start;
    var total := 0;
    ghost var s, full, wire, ends := Stream(links, 0, kernel.mem), NonEmpty(links, 0), kernel.wire, EndsEmpty(links, 0);
    while true
      invariant Underway(links, k, at, send, s, full, wire, kernel)
      invariant total == send < cap && c.sent == old(c.sent) + send && c.ready
      invariant kernel.willing && Plain(links, vec.iovs.Length) ==> EndsEmpty(links, k) == ends
      decreases |s| - send
    {
      var failed, size, sent;
      failed, size, sent, at, k := LoopTurn(c, kernel, vec, at, cap - total, links, k, send, s, full, wire);
      send := send + sent;
      total := total + size;
      if failed {
        r := ChainError;
        return;
      }
      if size != sent {
        NotReady(c, links, k, at, send, s, full, wire, kernel);
        r := Rest(at);
        return;
      }
      if total >= cap || at == null {
        r := Rest(at);
        return;
      }
      if size == 0 {
        r := Stalled;
        return;
      }
    }
  }

  // What the sending loop does, in terms of the chain's contents.
  method SendReady(c: Connection, kernel: Kernel, vec: Vec, start: Link?, cap: nat, ghost links: seq<Link>)
    returns (r: Outcome, ghost k: nat, ghost send: nat)
    requires IsChain(start, links, 0) && Separate(links) && Sound(links, 0)
    requires c.ready && 0 < cap && 0 < vec.iovs.Length
    modifies c, kernel, vec, vec.iovs, Bufs(links, 0)`pos, Bufs(links, 0)`filePos
    ensures c.sent == old(c.sent) + send && send <= cap && Sound(links, 0) && k <= |links|
    ensures var s := old(Stream(links, 0, kernel.mem));
            send <= |s| && kernel.wire == old(kernel.wire) + s[..send] && Stream(links, k, kernel.mem) == s[send..]
    ensures Exhausted(links, k)
    ensures r.Rest? ==> IsChain(r.link, links, k) && (c.ready <==> r.link == null || send == cap)
    ensures r.ChainError? ==> c.error || Unsendable(links)
    ensures r.Stalled? ==> k < |links| && Stuck(links, k, links[k], vec.iovs.Length)
    ensures old(NonEmpty(links, 0)) ==> !r.Stalled?
    ensures kernel.willing && !Unsendable(links) ==>
              !r.ChainError? && (r.Rest? ==> send == cap || send == |old(Stream(links, 0, kernel.mem))|)
    ensures kernel.willing ==> c.ready
    ensures kernel.willing && Plain(links, vec.iovs.Length) ==>
              var n := |old(Stream(links, 0, kernel.mem))|;
              && !r.ChainError? && send == (if cap <= n then cap else n)
              && (r.Stalled? <==> old(EndsEmpty(links, 0)) && n < cap)
  {
    ghost var s := Stream(links, 0, kernel.mem);
    var end;
    r, k, send, end := SendLoop(c, kernel, vec, start, cap, links);
    ProgressMeans(old(kernel.wire), s, send, kernel.wire, Stream(links, k, kernel.mem));
    if r.Stalled? {
      StuckIsEmpty(links, k, end, vec.iovs.Length);
      assert Stuck(links, k, links[k], vec.iovs.Length);
    }
    assert IsChain(end, links, k) && Exhausted(links, k) && Sound(links, 0);
  }

  // The iovec is made anew for every call.
  method SendAnew(c: Connection, kernel: Kernel, start: Link?, cap: nat, ghost links: seq<Link>)
    returns (r: Outcome, ghost k: nat, ghost send: nat)
    requires IsChain(start, links, 0) && Separate(links) && Sound(links, 0) && c.ready && 0 < cap
    modifies c, kernel, Bufs(links, 0)`pos, Bufs(links, 0)`filePos
    ensures c.sent == old(c.sent) + send && send <= cap && Sound(links, 0) && k <= |links|
    ensures var s := old(Stream(links, 0, kernel.mem));
            send <= |s| && kernel.wire == old(kernel.wire) + s[..send] && Stream(links, k, kernel.mem) == s[send..]
    ensures Exhausted(links, k)
    ensures r.Rest? ==> IsChain(r.link, links, k) && (c.ready <==> r.link == null || send == cap)
    ensures r.ChainError? ==> c.error || Unsendable(links)
    ensures r.Stalled? ==> k < |links| && Stuck(links, k, links[k], IOVS_PREALLOCATE)
    ensures old(NonEmpty(links, 0)) ==> !r.Stalled?
    ensures kernel.willing && !Unsendable(links) ==>
              !r.ChainError? && (r.Rest? ==> send == cap || send == |old(Stream(links, 0, kernel.mem))|)
    ensures kernel.willing ==> c.ready
    ensures kernel.willing && Plain(links, IOVS_PREALLOCATE) ==>
              var n := |old(Stream(links, 0, kernel.mem))|;
              && !r.ChainError? && send == (if cap <= n then cap else n)
              && (r.Stalled? <==> old(EndsEmpty(links, 0)) && n < cap)
  {
    ghost var s, ends, nonEmpty := Stream(links, 0, kernel.mem), EndsEmpty(links, 0), NonEmpty(links, 0);
    var vec := new Vec(IOVS_PREALLOCATE);
    assert forall x: Buf :: x in Bufs(links, 0) ==> unchanged(x);
    assert Stream(links, 0, kernel.mem) == s && EndsEmpty(links, 0) == ends && NonEmpty(links, 0) == nonEmpty;
    r, k, send := SendReady(c, kernel, vec, start, cap, links);
  }

  // Send a chain, whatever the kernel does: what went out is the front of the chain's contents, no
  // longer than the limit, and what can be reached from the returned link is the rest. The limit in
  // force, cap, is the one asked for, unless none was or one above the largest.
  method WritevChain(c: Connection, kernel: Kernel, start: Link?, limit: nat, pageSize: nat, ghost links: seq<Link>)
    returns (r: Outcome, ghost k: nat, ghost sent: nat, ghost cap: nat)
    requires IsChain(start, links, 0) && Separate(links) && Sound(links, 0)
    requires 0 < pageSize < MAX_SIZE
    modifies c, kernel, Bufs(links, 0)`pos, Bufs(links, 0)`filePos
    ensures 0 < limit <= MAX_SIZE - pageSize ==> cap == limit
    ensures limit == 0 || limit > MAX_SIZE - pageSize ==> cap == MAX_SIZE - pageSize
    ensures c.sent == old(c.sent) + sent && sent <= cap && Sound(links, 0) && k <= |links|
    ensures var s := old(Stream(links, 0, kernel.mem));
            sent <= |s| && kernel.wire == old(kernel.wire) + s[..sent] && Stream(links, k, kernel.mem) == s[sent..]
    ensures r.Rest? ==> IsChain(r.link, links, k)
    ensures Exhausted(links, k)
    ensures !old(c.ready) ==> r == Rest(start) && k == 0 && sent == 0
    ensures old(c.ready) && r.Rest? ==> (c.ready <==> r.link == null || sent == cap)
    ensures r.ChainError? ==> c.error || Unsendable(links)
    ensures r.Stalled? ==> k < |links| && Stuck(links, k, links[k], IOVS_PREALLOCATE)
    ensures old(NonEmpty(links, 0)) ==> !r.Stalled?
    ensures old(c.ready) && kernel.willing ==> c.ready
    ensures old(c.ready) && kernel.willing && !Unsendable(links) ==>
              !r.ChainError? && (r.Rest? ==> sent == cap || sent == |old(Stream(links, 0, kernel.mem))|)
    ensures old(c.ready) && kernel.willing && Plain(links, IOVS_PREALLOCATE) ==>
              var n := |old(Stream(links, 0, kernel.mem))|;
              && !r.ChainError? && sent == (if cap <= n then cap else n)
              && (r.Stalled? <==> old(EndsEmpty(links, 0)) && n < cap)
  {
    var limited := limit;
    if limit == 0 || limit > MAX_SIZE - pageSize {
      limited := MAX_SIZE - pageSize;
    }
    cap := limited;
    if !c.ready {
      r, k, sent := Rest(start), 0, 0;
      assert Stream(links, 0, kernel.mem)[0..] == Stream(links, 0, kernel.mem);
      return;
    }
    r, k, sent := SendAnew(c, kernel, start, limited, links);
  }

  // A limit below the size of the buffer is what goes out, to the byte.
  method LimitCutsShort(mem: Memory, pos: nat, size: nat, limit: nat) returns (c: Connection, r: Outcome)
    requires 0 < pos && 0 < limit < size && limit <= MAX_SIZE - 4096
    ensures c.sent == limit && c.ready && r.Rest? && r.link != null
    ensures r.link.buf.pos == pos + limit && r.link.buf.last == pos + size
  {
    var b := new Buf.Memory(pos, pos + size, true);
    var link := new Link(b, null);
    c := new Connection();
    var kernel := new Kernel(mem, true, 0);
    ghost var links := [link];
    ghost var k, sent, cap;
    assert IsChain(link.next, links, 1);
    assert Stream(links, 1, mem) == [];
    r, k, sent, cap := WritevChain(c, kernel, link, limit, 4096, links);
  }

  // A single empty buffer keeps the loop from ending, although the kernel takes all it is offered.
  method EmptyBufferStalls(mem: Memory, pos: nat, lastBuf: bool) returns (r: Outcome)
    requires 0 < pos
    ensures r.Stalled?
  {
    var b := new Buf.Memory(pos, pos, lastBuf);
    var link := new Link(b, null);
    var c := new Connection();
    var kernel := new Kernel(mem, true, 0);
    ghost var links := [link];
    ghost var k, sent, cap;
    assert IsChain(link.next, links, 1);
    assert Stream(links, 1, mem) == [];
    r, k, sent, cap := WritevChain(c, kernel, link, 0, 4096, links);
  }

  lemma FlagsBehind(links: seq<Link>, mem: Memory)
    requires |links| == 2 && Sound(links, 0) && links[1].buf.Special() && links[0].buf.InMemory() && !links[0].buf.inFile
    ensures Plain(links, IOVS_PREALLOCATE) && |Stream(links, 0, mem)| == links[0].buf.Size()
    ensures links[0].buf.Size() > 0 ==> !EndsEmpty(links, 0)
  {
    assert links[0].buf.Sound();
    PassSpecial(links, 1, mem);
    assert Stream(links, 2, mem) == [];
    assert AllSpecial(links, 1, |links|);
  }

  // Neither does a buffer that is there for its flags alone: the loop passes it by.
  method FlagsEnd(mem: Memory, pos: nat, flush: bool, sync: bool, lastBuf: bool) returns (c: Connection, r: Outcome)
    requires 0 < pos && (flush || sync || lastBuf)
    ensures r == Rest(null) && c.sent == 1 && c.ready
  {
    var flags := new Buf.Flags(flush, sync, lastBuf);
    var end := new Link(flags, null);
    var first := new Buf.Memory(pos, pos + 1, false);
    var link := new Link(first, end);
    c := new Connection();
    var kernel := new Kernel(mem, true, 0);
    ghost var links := [link, end];
    ghost var k, sent, cap;
    assert IsChain(end.next, links, 2) && IsChain(link.next, links, 1);
    FlagsBehind(links, mem);
    r, k, sent, cap := WritevChain(c, kernel, link, 0, 4096, links);
  }

  // An empty buffer before others does not.
  method EmptyBeforeEnds(mem: Memory, pos: nat) returns (r: Outcome)
    requires 0 < pos
    ensures !r.Stalled?
  {
    var last := new Buf.Memory(pos, pos + 1, true);
    var end := new Link(last, null);
    var empty := new Buf.Memory(pos, pos, false);
    var link := new Link(empty, end);
    var c := new Connection();
    var kernel := new Kernel(mem, true, 0);
    ghost var links := [link, end];
    ghost var k, sent, cap;
    assert IsChain(end.next, links, 2) && IsChain(link.next, links, 1);
    assert AllSpecial(links, 2, 2) && !AllSpecial(links, 1, 2);
    assert EndsEmpty(links, 1) == EndsEmpty(links, 0);
    assert Plain(links, IOVS_PREALLOCATE);
    r, k, sent, cap := WritevChain(c, kernel, link, 0, 4096, links);
  }
}
