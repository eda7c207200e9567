// IPv6 addresses as text: the printer and the parser (section 2.2 of RFC 4291, section 4 of RFC 5952).
module Inet6 {
  import opened Base
  import Format
  import Printf

  const GROUPS := 8
  const ADDRSTRLEN := 45

  type word = w: int | 0 <= w < 0x1_0000

  function Hex(w: word): string
  {
    Format.Numeral(w, 16, false)
  }

  function Zeros(n: nat): (s: seq<word>)
    ensures |s| == n && forall i :: 0 <= i < n ==> s[i] == 0
  {
    seq(n, i => 0)
  }

  // What has been read: whole groups, the place of the double colon (-1 for none), the digits of the
  // group being read, and the characters since the last colon, if there was one.
  datatype State = State(groups: seq<word>, gap: int, nibbles: nat, value: nat, since: Option<string>)

  // a dot after digits ends the scan; quad is the text from the last colon to the end
  datatype Next = More(st: State) | Bad | Dotted(st: State, quad: string)

  datatype Parsed = Address(groups: seq<word>) | Malformed

  // room for one more group
  ghost predicate Ready(st: State)
  {
    |st.groups| < GROUPS && -1 <= st.gap <= |st.groups|
  }

  ghost predicate Good(st: State)
  {
    && Ready(st) && st.nibbles <= 4
    && (st.nibbles == 0 ==> st.value == 0) && (st.nibbles == 1 ==> st.value < 16) && (st.nibbles == 2 ==> st.value < 256)
    && (st.nibbles == 3 ==> st.value < 4096) && st.value < 0x1_0000
  }

  const INIT := State([], -1, 0, 0, None)

  function Add(since: Option<string>, s: string): Option<string>
  {
    if since.None? then None else Some(since.value + s)
  }

  function Step(st: State, c: char): Next
    requires Good(st)
    ensures Step(st, c).More? ==> Good(Step(st, c).st)
    ensures Step(st, c).Dotted? ==> Good(st) && Step(st, c).st == st && |st.groups| <= 6 && 0 < st.nibbles
  {
    if c == ':' then
      if st.nibbles > 0 then
        if |st.groups| + 1 < GROUPS then More(State(st.groups + [st.value], st.gap, 0, 0, Some(""))) else Bad
      else if st.gap == -1 then More(st.(gap := |st.groups|, since := Some("")))
      else Bad
    else if c == '.' && st.nibbles > 0 then
      if GROUPS - |st.groups| < 2 || st.since.None? then Bad else Dotted(st, st.since.value + [c])
    else if st.nibbles == 4 || Format.ValueOf(c) < 0 then Bad
    else More(st.(nibbles := st.nibbles + 1, value := st.value * 16 + Format.ValueOf(c), since := Add(st.since, [c])))
  }

  function Scan(text: string, st: State): (r: Next)
    requires Good(st)
    ensures r.More? ==> Good(r.st)
    ensures r.Dotted? ==> Good(r.st) && |r.st.groups| <= 6 && 0 < r.st.nibbles
  {
    if text == "" then More(st)
    else
      var next := Step(st, text[0]);
      match next
      case More(to) => Scan(text[1..], to)
      case Dotted(at, quad) => Dotted(at, quad + text[1..])
      case Bad => Bad
  }

  // ---------- dotted quads ----------

  // what stands for no address is also the address 255.255.255.255
  const INADDR_NONE := 0xffff_ffff

  // the rest of a dotted quad, when the octets before the current one make up addr
  function InetAddr(text: string, addr: nat, octet: nat, dots: nat): (r: nat)
    ensures r < 0x1_0000_0000
  {
    if text == "" then
      if dots == 3 then (addr * 256 + octet) % 0x1_0000_0000 else INADDR_NONE
    else if '0' <= text[0] <= '9' then
      var next := octet * 10 + Format.ValueOf(text[0]);
      if next > 255 then INADDR_NONE else InetAddr(text[1..], addr, next, dots)
    else if text[0] == '.' then InetAddr(text[1..], (addr * 256 + octet) % 0x1_0000_0000, 0, dots + 1)
    else INADDR_NONE
  }

  // the parser multiplies the two high octets by 255 where a mask is meant
  function Scaled(quad: nat): word
    requires quad < 0x1_0000_0000
  {
    quad / 0x100_0000 * 0xff % 256 * 256 + quad / 0x1_0000 * 0xff % 256
  }

  // the scan goes on behind a quad with its high half as a group and its low half as the last one
  function AfterQuad(st: State, quad: nat): State
    requires quad < 0x1_0000_0000
  {
    State(st.groups + [Scaled(quad)], st.gap, st.nibbles, quad, None)
  }

  // the group being read counts even if it has no digits; the gap takes what is missing
  function Finish(st: State): (r: Parsed)
    requires Ready(st)
    ensures r.Address? ==> |r.groups| == GROUPS
  {
    if st.nibbles == 0 && st.gap == -1 then Malformed
    else
      var groups := st.groups + [st.value % 0x1_0000];
      if |groups| < GROUPS then
        if st.gap == -1 then Malformed
        else Address(groups[..st.gap] + Zeros(GROUPS - |groups|) + groups[st.gap..])
      else if st.gap == -1 then Address(groups)
      else Malformed
  }

  // the address, if any, that the end of a scan means
  function Result(end: Next): (r: Parsed)
    requires end.More? ==> Ready(end.st)
    requires end.Dotted? ==> Ready(end.st) && |end.st.groups| <= 6
    ensures r.Address? ==> |r.groups| == GROUPS
  {
    match end
    case More(st) => Finish(st)
    case Bad => Malformed
    case Dotted(st, text) =>
      var quad := InetAddr(text, 0, 0, 0);
      if quad == INADDR_NONE then Malformed else Finish(AfterQuad(st, quad))
  }

  function Parse(text: string): (r: Parsed)
    ensures r.Address? ==> |r.groups| == GROUPS
  {
    if text == "" then Malformed
    else Result(Scan(if text[0] == ':' then text[1..] else text, INIT))
  }

  // m zero groups from j on, before t
  ghost predicate RunAt(ws: seq<word>, t: int, j: int, m: int)
  {
    0 <= j <= j + m <= t <= |ws| && forall i :: j <= i < j + m ==> ws[i] == 0
  }

  // z and m are the leftmost of the longest runs of two or more zero groups before t; if there is
  // none z is negative
  ghost predicate Longest(ws: seq<word>, t: int, z: int, m: int)
  {
    if z < 0 then m == 1 && forall j, n :: RunAt(ws, t, j, n) ==> n <= 1
    else
      && 2 <= m && RunAt(ws, t, z, m)
      && forall j, n :: RunAt(ws, t, j, n) ==> n < m || (n == m && z <= j)
  }

  // the groups that end as a dotted quad when printed
  predicate EndsDotted(ws: seq<word>, z: int, m: int)
    requires |ws| == GROUPS
  {
    z == 0 && ((m == 5 && ws[5] == 0xffff) || m == 6 || (m == 7 && ws[7] / 256 != 0 && ws[7] % 256 != 1))
  }

  function Quad(ws: seq<word>): string
    requires |ws| == GROUPS
  {
    Decimal(ws[6] / 256) + ("." + (Decimal(ws[6] % 256) + ("." + (Decimal(ws[7] / 256) + ("." + Decimal(ws[7] % 256))))))
  }

  function Decimal(v: nat): string
  {
    Format.Numeral(v, 10, false)
  }

  // the text of the groups from k on up to stop, when the m groups from z on are left out
  function Rest(ws: seq<word>, z: int, m: nat, stop: nat, k: nat): string
    requires |ws| == GROUPS && stop <= GROUPS && 0 < m
    decreases GROUPS - k
  {
    if k >= stop then ""
    else if k == z then ":" + Rest(ws, z, m, stop, k + m)
    else Hex(ws[k]) + ((if k < 7 then ":" else "") + Rest(ws, z, m, stop, k + 1))
  }

  function Text(ws: seq<word>, z: int, m: nat): string
    requires |ws| == GROUPS && 0 < m
  {
    (if z == 0 then ":" else "")
    + if EndsDotted(ws, z, m) then Rest(ws, z, m, 6, 0) + Quad(ws) else Rest(ws, z, m, 8, 0)
  }

  lemma {:induction false} ScanBoth(a: string, b: string, st: State)
    requires Good(st) && Scan(a, st).More?
    ensures Scan(a + b, st) == Scan(b, Scan(a, st).st)
  {
    if a == "" {
      assert a + b == b;
    } else {
      assert (a + b)[1..] == a[1..] + b;
      ScanBoth(a[1..], b, Step(st, a[0]).st);
    }
  }

  // the state after the digits of v
  function Typed(st: State, digits: string, v: nat): State
  {
    st.(nibbles := |digits|, value := v, since := Add(st.since, digits))
  }

  // the digits of a value of n places, read after k other places
  lemma {:induction false} ScanDigits(v: nat, n: nat, st: State)
    requires Good(st) && st.nibbles == 0 && 1 <= n <= 4 && v < Format.Power(16, n) && v < 0x1_0000
    ensures |Format.Numeral(v, 16, false)| <= n
    ensures Scan(Format.Numeral(v, 16, false), st) == More(Typed(st, Format.Numeral(v, 16, false), v))
  {
    var d := Format.DigitOf(v % 16, false);
    var high := if v < 16 then "" else Format.Numeral(v / 16, 16, false);
    if v >= 16 {
      assert n > 1;
      assert Format.Power(16, n) == 16 * Format.Power(16, n - 1);
      ScanDigits(v / 16, n - 1, st);
    }
    ScanBoth(high, [d], st);
    assert Format.ValueOf(d) == v % 16;
    assert st.since.Some? ==> (st.since.value + high) + [d] == st.since.value + (high + [d]) && st.since.value + "" == st.since.value;
  }

  lemma ScanHex(w: word, st: State)
    requires Good(st) && st.nibbles == 0
    ensures 1 <= |Hex(w)| <= 4 && Hex(w)[0] != ':'
    ensures Scan(Hex(w), st) == More(Typed(st, Hex(w), w))
  {
    assert Format.Power(16, 4) == 0x1_0000;
    ScanDigits(w, 4, st);
    HexStarts(w);
  }

  lemma {:induction false} HexStarts(v: nat)
    ensures Format.Numeral(v, 16, false)[0] != ':'
  {
    if v >= 16 { HexStarts(v / 16); }
  }

  // what the scanner holds when the printer is at group k
  function Reached(ws: seq<word>, z: int, m: nat, k: nat): State
    requires |ws| == GROUPS && k <= GROUPS && (0 <= z < k ==> z + m <= k)
  {
    if 0 <= z < k then State(ws[..z] + ws[z + m..k], z, 0, 0, Some(""))
    else State(ws[..k], -1, 0, 0, if k == 0 then None else Some(""))
  }

  lemma ReachedNext(ws: seq<word>, z: int, m: nat, k: nat)
    requires |ws| == GROUPS && 2 <= m && k < GROUPS && k != z && (0 <= z < k ==> z + m <= k)
    requires 0 <= z ==> RunAt(ws, GROUPS, z, m)
    ensures var st := Reached(ws, z, m, k);
            Good(st) && Reached(ws, z, m, k + 1) == st.(groups := st.groups + [ws[k]], since := Some(""))
  {
    assert ws[..k + 1] == ws[..k] + [ws[k]];
    if 0 <= z < k {
      assert ws[z + m..k + 1] == ws[z + m..k] + [ws[k]];
    }
  }

  lemma LastFinishes(ws: seq<word>, z: int, m: nat, st: State)
    requires |ws| == GROUPS && 2 <= m && 7 != z && (0 <= z < 7 ==> z + m <= 7)
    requires 0 <= z ==> RunAt(ws, GROUPS, z, m)
    requires var end := Reached(ws, z, m, 7); st == State(end.groups, end.gap, st.nibbles, ws[7], st.since) && 0 < st.nibbles
    ensures Finish(st) == Address(ws)
  {
    assert ws[..7] + [ws[7]] == ws;
    if 0 <= z < 7 {
      assert ws[z + m..7] + [ws[7]] == ws[z + m..];
      assert ws == ws[..z] + Zeros(m) + ws[z + m..];
    }
  }

  lemma AfterGroup(ws: seq<word>, z: int, m: nat, k: nat)
    requires |ws| == GROUPS && 2 <= m && k < GROUPS && k != z && (0 <= z < k ==> z + m <= k)
    requires 0 <= z ==> RunAt(ws, GROUPS, z, m)
    ensures var st := Reached(ws, z, m, k);
            && Good(st) && Reached(ws, z, m, k + 1) == st.(groups := st.groups + [ws[k]], since := Some(""))
            && (k < 7 ==> Scan(Hex(ws[k]) + ":", st) == More(Reached(ws, z, m, k + 1)))
            && (k == 7 ==> Scan(Hex(ws[k]), st).More? && Finish(Scan(Hex(ws[k]), st).st) == Address(ws))
  {
    var st := Reached(ws, z, m, k);
    ReachedNext(ws, z, m, k);
    ScanHex(ws[k], st);
    ScanBoth(Hex(ws[k]), ":", st);
    if k == 7 {
      LastFinishes(ws, z, m, Scan(Hex(ws[k]), st).st);
    }
  }

  // scanning the text from st on ends with the address ws
  ghost predicate ReadsBack(ws: seq<word>, text: string, st: State)
  {
    Good(st) && var end := Scan(text, st); end.More? && Finish(end.st) == Address(ws)
  }

  lemma {:induction false} EndReads(ws: seq<word>, z: nat, m: nat)
    requires |ws| == GROUPS && 2 <= m && z + m == GROUPS && RunAt(ws, GROUPS, z, m)
    ensures ReadsBack(ws, "", Reached(ws, z, m, GROUPS))
  {
    assert ws == ws[..z] + Zeros(m) && ws[z + m..GROUPS] == [];
  }

  lemma {:induction false} GapReads(ws: seq<word>, z: nat, m: nat, tail: string)
    requires |ws| == GROUPS && 2 <= m && RunAt(ws, GROUPS, z, m)
    requires ReadsBack(ws, tail, Reached(ws, z, m, z + m))
    ensures ReadsBack(ws, ":" + tail, Reached(ws, z, m, z))
  {
    var st := Reached(ws, z, m, z);
    assert Reached(ws, z, m, z + m) == st.(gap := z, since := Some(""));
    assert Step(st, ':') == More(st.(gap := z, since := Some("")));
    assert (":" + tail)[1..] == tail;
  }

  lemma {:induction false} GroupReads(ws: seq<word>, z: int, m: nat, k: nat, tail: string)
    requires |ws| == GROUPS && 2 <= m && k < 7 && k != z && (0 <= z < k ==> z + m <= k)
    requires 0 <= z ==> RunAt(ws, GROUPS, z, m)
    requires ReadsBack(ws, tail, Reached(ws, z, m, k + 1))
    ensures ReadsBack(ws, Hex(ws[k]) + (":" + tail), Reached(ws, z, m, k))
  {
    AfterGroup(ws, z, m, k);
    Regroup(Hex(ws[k]), ":", tail);
    ScanBoth(Hex(ws[k]) + ":", tail, Reached(ws, z, m, k));
  }

  // From group k on, the scanner reads back what the printer prints.
  lemma {:induction false} ScanRest(ws: seq<word>, z: int, m: nat, k: nat)
    requires |ws| == GROUPS && 2 <= m && k <= GROUPS && (0 <= z < k ==> z + m <= k)
    requires 0 <= z ==> RunAt(ws, GROUPS, z, m)
    requires k == GROUPS ==> z >= 0 && z + m == GROUPS
    ensures ReadsBack(ws, Rest(ws, z, m, 8, k), Reached(ws, z, m, k))
    decreases GROUPS - k
  {
    if k == GROUPS {
      EndReads(ws, z, m);
    } else if k == z {
      ScanRest(ws, z, m, k + m);
      GapReads(ws, z, m, Rest(ws, z, m, 8, k + m));
    } else if k == 7 {
      AfterGroup(ws, z, m, k);
      assert Rest(ws, z, m, 8, 8) == "";
      assert Rest(ws, z, m, 8, k) == Hex(ws[k]);
    } else {
      ScanRest(ws, z, m, k + 1);
      GroupReads(ws, z, m, k, Rest(ws, z, m, 8, k + 1));
    }
  }

  lemma RestStarts(ws: seq<word>, z: int, m: nat, stop: nat)
    requires |ws| == GROUPS && 0 < m && 0 < stop <= GROUPS
    ensures Rest(ws, z, m, stop, 0) != "" && (Rest(ws, z, m, stop, 0)[0] == ':' <==> z == 0)
  {
    if z != 0 {
      ScanHex(ws[0], INIT);
    }
  }

  // a decimal part of the quad is read as hexadecimal digits
  lemma {:induction false} ScanDecimal(v: nat, n: nat, st: State)
    requires Good(st) && st.nibbles == 0 && 1 <= n <= 3 && v < Format.Power(10, n)
    ensures 1 <= |Decimal(v)| <= n
    ensures var end := Scan(Decimal(v), st); end.More? && end.st == Typed(st, Decimal(v), end.st.value)
  {
    var d := Format.DigitOf(v % 10, false);
    var high := if v < 10 then "" else Decimal(v / 10);
    if v >= 10 {
      assert Format.Power(10, n) == 10 * Format.Power(10, n - 1);
      ScanDecimal(v / 10, n - 1, st);
    }
    ScanBoth(high, [d], st);
    assert Format.ValueOf(d) == v % 10;
    assert st.since.Some? ==> (st.since.value + high) + [d] == st.since.value + (high + [d]) && st.since.value + "" == st.since.value;
  }

  // the scan stops at the first dot, with the whole quad to be read again
  lemma ScanQuad(ws: seq<word>, st: State)
    requires |ws| == GROUPS && Good(st) && st.nibbles == 0 && |st.groups| <= 6 && st.since == Some("")
    ensures var end := Scan(Quad(ws), st);
            && end.Dotted? && end.quad == Quad(ws) && 0 < end.st.nibbles && Good(end.st)
            && end.st.groups == st.groups && end.st.gap == st.gap
  {
    var first := Decimal(ws[6] / 256);
    var rest := Decimal(ws[6] % 256) + ("." + (Decimal(ws[7] / 256) + ("." + Decimal(ws[7] % 256))));
    assert Format.Power(10, 3) == 1000;
    ScanDecimal(ws[6] / 256, 3, st);
    var mid := Scan(first, st).st;
    ScanBoth(first, "." + rest, st);
    assert Quad(ws) == first + ("." + rest);
    assert ("." + rest)[1..] == rest && "" + first == first;
    assert Scan("." + rest, mid) == Dotted(mid, (first + ".") + rest);
    Regroup(first, ".", rest);
  }

  // what comes before the quad: a gap at the start and perhaps one group
  lemma ScanBeforeQuad(ws: seq<word>, m: nat)
    requires |ws| == GROUPS && EndsDotted(ws, 0, m)
    ensures Scan(Rest(ws, 0, m, 6, 0), INIT) == More(State(if m == 5 then [ws[5]] else [], 0, 0, 0, Some("")))
  {
    var st := State([], 0, 0, 0, Some(""));
    assert Scan(":", INIT) == More(st);
    if m == 5 {
      assert Rest(ws, 0, m, 6, 5) == Hex(ws[5]) + ":";
      ScanHex(ws[5], st);
      ScanBoth(Hex(ws[5]), ":", st);
      ScanBoth(":", Hex(ws[5]) + ":", INIT);
    } else {
      assert Rest(ws, 0, m, 6, 0) == ":";
    }
  }

  // an octet in decimal is read back
  lemma {:induction false} ReadOctet(v: nat, rest: string, addr: nat, dots: nat)
    requires v < 256
    ensures InetAddr(Decimal(v) + rest, addr, 0, dots) == InetAddr(rest, addr, v, dots)
  {
    var d := Format.DigitOf(v % 10, false);
    var high := if v < 10 then "" else Decimal(v / 10);
    var tail := [d] + rest;
    assert Decimal(v) + rest == high + tail && tail[1..] == rest;
    if v >= 10 {
      ReadOctet(v / 10, tail, addr, dots);
    } else {
      assert high + tail == tail;
    }
    assert Format.ValueOf(d) == v % 10;
    assert InetAddr(tail, addr, v / 10, dots) == InetAddr(rest, addr, v, dots);
  }

  // an octet and the dot after it
  lemma {:induction false} ReadPart(v: nat, rest: string, addr: nat, dots: nat)
    requires v < 256
    ensures InetAddr(Decimal(v) + ("." + rest), addr, 0, dots) == InetAddr(rest, (addr * 256 + v) % 0x1_0000_0000, 0, dots + 1)
  {
    ReadOctet(v, "." + rest, addr, dots);
    assert ("." + rest)[1..] == rest;
  }

  function QuadWord(high: int, low: int): int
  {
    high * 0x1_0000 + low
  }

  lemma QuadOctets(high: word, low: word)
    ensures var a: int, b: int, c: int, d: int := high / 256, high % 256, low / 256, low % 256;
      && a < 256 && c < 256
      && (0 * 256 + a) % 0x1_0000_0000 == a && (a * 256 + b) % 0x1_0000_0000 == a * 256 + b
      && ((a * 256 + b) * 256 + c) % 0x1_0000_0000 == (a * 256 + b) * 256 + c
      && (((a * 256 + b) * 256 + c) * 256 + d) % 0x1_0000_0000 == QuadWord(high, low)
  {
    assert high == high / 256 * 256 + high % 256 && low == low / 256 * 256 + low % 256;
  }

  // the last octet
  lemma {:induction false} ReadLast(v: nat, addr: nat)
    requires v < 256
    ensures InetAddr(Decimal(v), addr, 0, 3) == (addr * 256 + v) % 0x1_0000_0000
  {
    ReadOctet(v, "", addr, 3);
    assert Decimal(v) + "" == Decimal(v);
  }

  // the last two octets
  lemma {:induction false} ReadTwo(c: nat, d: nat, addr: nat)
    requires c < 256 && d < 256
    ensures InetAddr(Decimal(c) + ("." + Decimal(d)), addr, 0, 2) == ((addr * 256 + c) % 0x1_0000_0000 * 256 + d) % 0x1_0000_0000
  {
    ReadPart(c, Decimal(d), addr, 2);
    ReadLast(d, (addr * 256 + c) % 0x1_0000_0000);
  }

  lemma {:induction false} ReadFour(a: nat, b: nat, c: nat, d: nat, last: string)
    requires a < 256 && b < 256 && c < 256 && d < 256 && last == Decimal(c) + ("." + Decimal(d))
    ensures InetAddr(Decimal(a) + ("." + (Decimal(b) + ("." + last))), 0, 0, 0) ==
            ((((0 * 256 + a) % 0x1_0000_0000 * 256 + b) % 0x1_0000_0000 * 256 + c) % 0x1_0000_0000 * 256 + d) % 0x1_0000_0000
  {
    var x := (0 * 256 + a) % 0x1_0000_0000;
    ReadPart(a, Decimal(b) + ("." + last), 0, 0);
    ReadPart(b, last, x, 1);
    ReadTwo(c, d, (x * 256 + b) % 0x1_0000_0000);
  }

  // the printed quad is read back as the word that the last two groups make up
  lemma {:induction false} ReadQuad(ws: seq<word>)
    requires |ws| == GROUPS
    ensures InetAddr(Quad(ws), 0, 0, 0) == QuadWord(ws[6], ws[7])
  {
    ReadFour(ws[6] / 256, ws[6] % 256, ws[7] / 256, ws[7] % 256, Decimal(ws[7] / 256) + ("." + Decimal(ws[7] % 256)));
    QuadOctets(ws[6], ws[7]);
  }

  // The parts of the quad's word that the parser takes.
  lemma QuadHalves(high: word, low: word)
    ensures var quad := QuadWord(high, low);
      && 0 <= quad < 0x1_0000_0000 && quad % 0x1_0000 == low
      && Scaled(quad) == Negated(high) && (quad == INADDR_NONE <==> high == 0xffff && low == 0xffff)
  {
    var quad := QuadWord(high, low);
    assert quad / 0x1_0000 == high;
    QuadTop(high, low);
    TimesMinusOne(high / 256);
    TimesMinusOne(high);
    LowByte(high);
  }

  lemma QuadTop(high: word, low: word)
    ensures QuadWord(high, low) / 0x100_0000 == high / 256
  {
    assert high == high / 256 * 256 + high % 256;
  }

  lemma TimesMinusOne(v: int)
    ensures v * 0xff % 256 == -v % 256
  {
    assert v * 0xff == -v + v * 256;
  }

  lemma LowByte(v: int)
    ensures -v % 256 == Minus(v % 256) && (0 <= v < 256 ==> -v % 256 == Minus(v))
  {
    assert -v == -(v % 256) - v / 256 * 256;
  }

  function Minus(v: int): byte
  {
    (256 - v) % 256
  }

  // multiplying by 255 negates the low byte of what is multiplied
  function Negated(w: word): word
  {
    Pair(Minus(w / 256), Minus(w % 256))
  }

  lemma NegatedIsSame(w: word)
    ensures Negated(w) == w <==> w / 256 % 128 == 0 && w % 256 % 128 == 0
  {
    MinusIsSame(w / 256);
    MinusIsSame(w % 256);
    PairIsOne(Minus(w / 256), Minus(w % 256), w);
  }

  lemma MinusIsSame(v: byte)
    ensures Minus(v) == v <==> v % 128 == 0
  {
  }

  lemma PairIsOne(high: byte, low: byte, w: word)
    ensures Pair(high, low) == w <==> high == w / 256 && low == w % 256
  {
  }

  // what parsing a printed address yields: the address itself, or one with the two octets before
  // the last two negated; the text of 255.255.255.255 is refused
  function Reread(ws: seq<word>, z: int, m: int): Parsed
    requires |ws| == GROUPS
  {
    if !EndsDotted(ws, z, m) then Address(ws)
    else if ws[6] == 0xffff && ws[7] == 0xffff then Malformed
    else Address(ws[6 := Negated(ws[6])])
  }

  lemma {:induction false} ScanDotted(ws: seq<word>, m: nat)
    requires |ws| == GROUPS && EndsDotted(ws, 0, m) && RunAt(ws, GROUPS, 0, m)
    ensures Result(Scan(Rest(ws, 0, m, 6, 0) + Quad(ws), INIT)) == Reread(ws, 0, m)
  {
    ScanBeforeQuad(ws, m);
    var st := Scan(Rest(ws, 0, m, 6, 0), INIT).st;
    ScanBoth(Rest(ws, 0, m, 6, 0), Quad(ws), INIT);
    ScanQuad(ws, st);
    ReadQuad(ws);
    QuadHalves(ws[6], ws[7]);
    if !(ws[6] == 0xffff && ws[7] == 0xffff) {
      FinishDotted(ws, m, Scan(Quad(ws), st).st, QuadWord(ws[6], ws[7]));
    }
  }

  lemma {:induction false} FinishDotted(ws: seq<word>, m: nat, st: State, quad: nat)
    requires |ws| == GROUPS && EndsDotted(ws, 0, m) && RunAt(ws, GROUPS, 0, m)
    requires st.groups == (if m == 5 then [ws[5]] else []) && st.gap == 0 && 0 < st.nibbles
    requires quad < 0x1_0000_0000 && quad % 0x1_0000 == ws[7] && Scaled(quad) == Negated(ws[6])
    ensures Finish(AfterQuad(st, quad)) == Address(ws[6 := Negated(ws[6])])
  {
    var groups := st.groups + [Scaled(quad)] + [quad % 0x1_0000];
    assert ws[6 := Negated(ws[6])] == groups[..0] + Zeros(GROUPS - |groups|) + groups[0..];
  }

  // Parsing the text of an address.
  lemma {:induction false} RoundTrip(ws: seq<word>, z: int, m: nat)
    requires |ws| == GROUPS && Longest(ws, GROUPS, z, m)
    ensures Parse(Text(ws, z, m)) == Reread(ws, z, m)
  {
    var body := if EndsDotted(ws, z, m) then Rest(ws, z, m, 6, 0) + Quad(ws) else Rest(ws, z, m, 8, 0);
    RestStarts(ws, z, m, 8);
    if z == 0 {
      assert (":" + body)[1..] == body;
    } else {
      assert Text(ws, z, m) == body;
    }
    assert Reached(ws, z, m, 0) == INIT;
    if EndsDotted(ws, z, m) {
      ScanDotted(ws, m);
    } else {
      ScanRest(ws, z, if z < 0 then 2 else m, 0);
      if z < 0 {
        GapIgnored(ws, z, m, 2, 0);
      }
    }
  }

  // The address comes back exactly if its text has no dotted quad, or the first two octets of the
  // quad are 0 or 128, the only ones that are their own negation.
  lemma {:induction false} RoundTripExactly(ws: seq<word>, z: int, m: nat)
    requires |ws| == GROUPS && Longest(ws, GROUPS, z, m)
    ensures Parse(Text(ws, z, m)) == Address(ws) <==>
            !EndsDotted(ws, z, m) || (ws[6] / 256 % 128 == 0 && ws[6] % 256 % 128 == 0)
  {
    RoundTrip(ws, z, m);
    NegatedIsSame(ws[6]);
    assert ws[6 := Negated(ws[6])][6] == Negated(ws[6]);
    assert ws[6 := ws[6]] == ws;
  }

  lemma OneDigit(v: nat)
    requires v < 10
    ensures Decimal(v) == [Format.DigitOf(v, false)]
  {
  }

  lemma QuadOfDigits(ws: seq<word>, a: nat, b: nat, c: nat, d: nat)
    requires |ws| == GROUPS && a < 10 && b < 10 && c < 10 && d < 10
    requires ws[6] / 256 == a && ws[6] % 256 == b && ws[7] / 256 == c && ws[7] % 256 == d
    ensures Quad(ws) == ['0' + a as char, '.', '0' + b as char, '.', '0' + c as char, '.', '0' + d as char]
  {
    OneDigit(a);
    OneDigit(b);
    OneDigit(c);
    OneDigit(d);
  }

  // ::1.2.3.4 comes back as ::255.254.3.4
  lemma QuadIsNotKept()
    ensures var ws: seq<word> := [0, 0, 0, 0, 0, 0, 0x102, 0x304];
      Longest(ws, GROUPS, 0, 6) && Text(ws, 0, 6) == "::1.2.3.4"
      && Parse(Text(ws, 0, 6)) == Address([0, 0, 0, 0, 0, 0, 0xfffe, 0x304])
  {
    var ws: seq<word> := [0, 0, 0, 0, 0, 0, 0x102, 0x304];
    LongestFront(ws, 6);
    QuadOfDigits(ws, 1, 2, 3, 4);
    assert Rest(ws, 0, 6, 6, 6) == "";
    RoundTrip(ws, 0, 6);
    assert ws[6 := Negated(ws[6])] == [0, 0, 0, 0, 0, 0, 0xfffe, 0x304];
  }

  // ::0.0.5.7 comes back as it was
  lemma QuadIsKept()
    ensures var ws: seq<word> := [0, 0, 0, 0, 0, 0, 0, 0x507];
      Longest(ws, GROUPS, 0, 7) && Text(ws, 0, 7) == "::0.0.5.7" && Parse(Text(ws, 0, 7)) == Address(ws)
  {
    var ws: seq<word> := [0, 0, 0, 0, 0, 0, 0, 0x507];
    LongestFront(ws, 7);
    QuadOfDigits(ws, 0, 0, 5, 7);
    assert Rest(ws, 0, 7, 6, 7) == "";
    RoundTripExactly(ws, 0, 7);
  }

  lemma LongestFront(ws: seq<word>, m: nat)
    requires |ws| == GROUPS && 2 <= m && RunAt(ws, GROUPS, 0, m) && forall i :: m <= i < GROUPS ==> ws[i] != 0
    ensures Longest(ws, GROUPS, 0, m)
  {
    forall j, n | RunAt(ws, GROUPS, j, n) ensures n < m || (n == m && 0 <= j) {
      assert m < GROUPS ==> ws[m] != 0;
      assert m <= j < GROUPS ==> ws[j] != 0;
    }
  }

  lemma {:induction false} GapIgnored(ws: seq<word>, z: int, m: nat, n: nat, k: nat)
    requires |ws| == GROUPS && 0 < m && 0 < n && z < 0
    ensures Rest(ws, z, m, 8, k) == Rest(ws, z, n, 8, k)
    decreases GROUPS - k
  {
    if k < GROUPS { GapIgnored(ws, z, m, n, k + 1); }
  }

  // the bytes of the groups, high byte first
  function Octets(ws: seq<word>): (r: seq<byte>)
    ensures |r| == 2 * |ws|
  {
    if ws == [] then [] else [ws[0] / 256, ws[0] % 256] + Octets(ws[1..])
  }

  function Pair(high: int, low: int): int
  {
    high * 256 + low
  }

  function WordsOf(p: seq<byte>): (ws: seq<word>)
    requires |p| % 2 == 0
    ensures |ws| == |p| / 2
  {
    if p == [] then [] else [Pair(p[0], p[1])] + WordsOf(p[2..])
  }

  lemma {:induction false} OctetsOfWords(p: seq<byte>)
    requires |p| % 2 == 0
    ensures Octets(WordsOf(p)) == p
  {
    if p != [] {
      OctetsOfWords(p[2..]);
      assert p == [p[0], p[1]] + p[2..];
    }
  }

  lemma {:induction false} OctetsJoin(a: seq<word>, b: seq<word>)
    ensures Octets(a + b) == Octets(a) + Octets(b)
  {
    if a == [] {
      assert a + b == b;
    } else {
      assert (a + b)[1..] == a[1..] + b;
      OctetsJoin(a[1..], b);
    }
  }

  lemma {:induction false} OctetsOfZeros(n: nat)
    ensures forall i :: 0 <= i < 2 * n ==> Octets(Zeros(n))[i] == 0
  {
    if n > 0 {
      assert Zeros(n)[1..] == Zeros(n - 1);
      OctetsOfZeros(n - 1);
    }
  }

  lemma {:induction false} WordAt(p: seq<byte>, k: nat)
    requires |p| % 2 == 0 && 2 * k < |p|
    ensures WordsOf(p)[k] == Pair(p[2 * k], p[2 * k + 1])
  {
    if k > 0 { WordAt(p[2..], k - 1); }
  }

  lemma NegatedPair(high: byte, low: byte)
    ensures Negated(Pair(high, low)) == Pair(Minus(high), Minus(low))
  {
    PairIsOne(high, low, Pair(high, low));
  }

  // a quad whose first two octets are negated
  lemma {:induction false} NegatedBytes(p: seq<byte>)
    requires |p| == 16
    ensures var ws := WordsOf(p); Octets(ws[6 := Negated(ws[6])]) == p[12 := Minus(p[12])][13 := Minus(p[13])]
  {
    var ws := WordsOf(p);
    var q := p[12 := Minus(p[12])][13 := Minus(p[13])];
    WordAt(p, 6);
    WordAt(q, 6);
    NegatedPair(p[12], p[13]);
    forall k | 0 <= k < 8 && k != 6 ensures WordsOf(q)[k] == ws[k] {
      WordAt(p, k);
      WordAt(q, k);
    }
    assert WordsOf(q) == ws[6 := Negated(ws[6])];
    OctetsOfWords(q);
  }

  lemma {:induction false} LastQuad(p: seq<byte>)
    requires |p| == 16
    ensures var ws := WordsOf(p); ws[6] == 0xffff && ws[7] == 0xffff <==> p[12..] == [255, 255, 255, 255]
  {
    LastGroups(p);
    assert p[12..] == [p[12], p[13], p[14], p[15]];
  }

  // what the sixteen bytes are after the round trip
  lemma {:induction false} RereadBytes(p: seq<byte>, z: int, m: nat, r: Parsed)
    requires |p| == 16 && r == Reread(WordsOf(p), z, m)
    ensures (r.Address? && Octets(r.groups) == p) <==>
            (!EndsDotted(WordsOf(p), z, m) || (p[12] % 128 == 0 && p[13] % 128 == 0))
    ensures r.Malformed? <==> EndsDotted(WordsOf(p), z, m) && p[12..] == [255, 255, 255, 255]
    ensures r.Address? && EndsDotted(WordsOf(p), z, m) ==> Octets(r.groups) == p[12 := Minus(p[12])][13 := Minus(p[13])]
  {
    OctetsOfWords(p);
    LastQuad(p);
    NegatedBytes(p);
    MinusIsSame(p[12]);
    MinusIsSame(p[13]);
    assert p == p[12 := p[12]][13 := p[13]];
  }

  // Printing and parsing the bytes of an address.
  lemma {:induction false} BytesRoundTrip(p: seq<byte>, z: int, m: nat)
    requires |p| == 16 && Longest(WordsOf(p), GROUPS, z, m)
    ensures var r := Parse(Text(WordsOf(p), z, m));
            && ((r.Address? && Octets(r.groups) == p) <==>
                (!EndsDotted(WordsOf(p), z, m) || (p[12] % 128 == 0 && p[13] % 128 == 0)))
            && (r.Malformed? <==> EndsDotted(WordsOf(p), z, m) && p[12..] == [255, 255, 255, 255])
            && (r.Address? && EndsDotted(WordsOf(p), z, m) ==> Octets(r.groups) == p[12 := Minus(p[12])][13 := Minus(p[13])])
  {
    RoundTrip(WordsOf(p), z, m);
    RereadBytes(p, z, m, Parse(Text(WordsOf(p), z, m)));
  }

  lemma {:induction false} RestFits(ws: seq<word>, z: int, m: nat, stop: nat, k: nat)
    requires |ws| == GROUPS && stop <= GROUPS && 0 < m
    ensures |Rest(ws, z, m, stop, k)| <= if k >= stop then 0 else 5 * (stop - k)
    decreases GROUPS + m - k
  {
    if k < stop {
      if k == z {
        RestFits(ws, z, m, stop, k + m);
      } else {
        ScanHex(ws[k], INIT);
        RestFits(ws, z, m, stop, k + 1);
      }
    }
  }

  // The buffer that the printer demands is large enough for every address.
  lemma TextFits(ws: seq<word>, z: int, m: nat)
    requires |ws| == GROUPS && Longest(ws, GROUPS, z, m)
    ensures |Text(ws, z, m)| <= ADDRSTRLEN
  {
    if EndsDotted(ws, z, m) {
      assert Format.Power(10, 3) == 1000;
      ScanDecimal(ws[6] / 256, 3, INIT);
      ScanDecimal(ws[6] % 256, 3, INIT);
      ScanDecimal(ws[7] / 256, 3, INIT);
      ScanDecimal(ws[7] % 256, 3, INIT);
      RestFits(ws, z, m, 6, m);
      assert |Rest(ws, z, m, 6, 0)| == 1 + |Rest(ws, z, m, 6, m)|;
    } else {
      RestFits(ws, z, m, 8, 0);
    }
  }

  lemma HexFormat(w: word)
    ensures Format.Output("%xd", 0, [Format.Word(w)], 0) == Some(Hex(w))
  {
    Format.OutputUnsigned("%xd", 0, [Format.Word(w)], 0, "");
    assert Hex(w) + "" == Hex(w);
  }

  function QuadArgs(ws: seq<word>): seq<Format.Arg>
    requires |ws| == GROUPS
  {
    [Format.Word(ws[6] / 256), Format.Word(ws[6] % 256), Format.Word(ws[7] / 256), Format.Word(ws[7] % 256)]
  }

  const QUAD := "%ud.%ud.%ud.%ud"

  lemma QuadFormat(ws: seq<word>)
    requires |ws| == GROUPS
    ensures Format.Output(QUAD, 0, QuadArgs(ws), 0) == Some(Quad(ws))
  {
    QuadOutput(QUAD, ws, QuadArgs(ws));
  }

  lemma QuadPart(fmt: string, i: nat, args: seq<Format.Arg>, a: nat, rest: string)
    requires i + 3 < |fmt| && fmt[i..i + 4] == "%ud."
    requires a < |args| && args[a].Word? && args[a].bits < 256
    requires Format.Output(fmt, i + 4, args, a + 1) == Some(rest)
    ensures Format.Output(fmt, i, args, a) == Some(Decimal(args[a].bits) + ("." + rest))
  {
    var part := fmt[i..i + 4];
    assert fmt[i] == part[0] && fmt[i + 1] == part[1] && fmt[i + 2] == part[2] && fmt[i + 3] == part[3];
    Format.OutputChar(fmt, i + 3, args, a + 1, rest);
    Format.OutputUnsigned(fmt, i, args, a, "." + rest);
  }

  lemma QuadOutput(fmt: string, ws: seq<word>, args: seq<Format.Arg>)
    requires |ws| == GROUPS && args == QuadArgs(ws)
    requires |fmt| == 15 && fmt[12] == '%' && fmt[13] == 'u' && fmt[14] == 'd'
    requires fmt[0..4] == "%ud." && fmt[4..8] == "%ud." && fmt[8..12] == "%ud."
    ensures Format.Output(fmt, 0, args, 0) == Some(Quad(ws))
  {
    var d := Decimal(args[3].bits);
    var c := Decimal(args[2].bits) + ("." + d);
    var b := Decimal(args[1].bits) + ("." + c);
    assert d + "" == d;
    Format.OutputUnsigned(fmt, 12, args, 3, "");
    QuadPart(fmt, 8, args, 2, d);
    QuadPart(fmt, 4, args, 1, c);
    QuadPart(fmt, 0, args, 0, b);
  }

  // n zero groups end at k, and they are not part of a longer run
  ghost predicate Trailing(ws: seq<word>, k: int, n: int)
  {
    RunAt(ws, k, k - n, n) && (0 < k - n ==> ws[k - n - 1] != 0)
  }

  // the run that ends at k takes its place among those before it
  lemma RunEnds(ws: seq<word>, k: nat, n: nat, z: int, m: int)
    requires k <= |ws| && n <= k && Trailing(ws, k, n) && Longest(ws, k - n, z, m)
    ensures if m < n then Longest(ws, k, k - n, n) else Longest(ws, k, z, m)
  {
    forall j, c | RunAt(ws, k, j, c) && c > 0
      ensures RunAt(ws, k - n, j, c) || (k - n <= j && c <= n)
    {
      if 0 < k - n {
        assert ws[k - n - 1] != 0;
      }
    }
    if z >= 0 {
      assert RunAt(ws, k, z, m);
    }
    assert Longest(ws, k - n, z, m) ==> m >= 1;
  }

  // a group that is not zero ends no run
  lemma RunSkips(ws: seq<word>, k: nat, z: int, m: int)
    requires k < |ws| && ws[k] != 0 && Longest(ws, k, z, m)
    ensures Longest(ws, k + 1, z, m)
  {
    var t := k + 1;
    forall j, c | RunAt(ws, t, j, c)
      ensures c < 2 || RunAt(ws, k, j, c)
      ensures z < 0 ==> c <= 1
      ensures z >= 0 ==> c < m || (c == m && z <= j)
    {
      assert ws[k] != 0;
      assert c > 0 ==> RunAt(ws, k, j, c);
    }
    if z >= 0 {
      assert RunAt(ws, k, z, m);
      assert RunAt(ws, t, z, m);
    }
  }

  // the group at a place in bytes, or none
  function GroupOf(zero: int): int
  {
    if zero < 0 then -1 else zero / 2
  }

  lemma PlaceOf(zero: int)
    requires zero == -1 || (0 <= zero && zero % 2 == 0)
    ensures zero == if GroupOf(zero) < 0 then -1 else 2 * GroupOf(zero)
  {
  }

  // The printer's first loop: the place, in bytes, and the length of the run of zero groups to
  // leave out.
  method FindGap(p: seq<byte>) returns (zero: int, max: nat)
    requires |p| == 16
    ensures zero == -1 || (0 <= zero && zero % 2 == 0)
    ensures Longest(WordsOf(p), GROUPS, GroupOf(zero), max)
  {
    zero, max := -1, 1;
    var i, n, last: int := 0, 0, -1;
    ghost var k := 0;
    ghost var ws := WordsOf(p);
    while i < 16
      invariant i == 2 * k && 0 <= k <= 8 && 0 <= n <= k && Trailing(ws, k, n)
      invariant n > 0 ==> last == 2 * (k - n)
      invariant Longest(ws, k - n, GroupOf(zero), max) && (zero == -1 || (0 <= zero && zero % 2 == 0))
    {
      WordAt(p, k);
      if p[i] != 0 || p[i + 1] != 0 {
        RunEnds(ws, k, n, GroupOf(zero), max);
        if max < n {
          zero, max := last, n;
        }
        RunSkips(ws, k, GroupOf(zero), max);
        n := 0;
      } else {
        if n == 0 {
          last := i;
        }
        n := n + 1;
      }
      i := i + 2;
      k := k + 1;
    }
    RunEnds(ws, k, n, GroupOf(zero), max);
    if max < n {
      zero, max := last, n;
    }
  }

  // Append s, given that what is to come fits.
  method Append(text: array<char>, n: nat, s: string) returns (m: nat)
    requires n + |s| <= text.Length
    modifies text
    ensures m == n + |s| && text[..m] == old(text[..n]) + s
  {
    forall j | 0 <= j < |s| {
      text[n + j] := s[j];
    }
    m := n + |s|;
  }

  method AppendFormat(text: array<char>, n: nat, fmt: string, args: seq<Format.Arg>) returns (m: nat)
    requires '\0' !in fmt && Format.Output(fmt, 0, args, 0).Some?
    requires n + |Format.Output(fmt, 0, args, 0).value| <= text.Length
    modifies text
    ensures text.Length >= m == n + |Format.Output(fmt, 0, args, 0).value|
    ensures text[..m] == old(text[..n]) + Format.Output(fmt, 0, args, 0).value
  {
    m := Printf.Vslprintf(text, n, text.Length, fmt, args);
  }

  lemma Fits(out: string, a: string, b: string, whole: string)
    requires out + (a + b) == whole
    ensures (out + a) + b == whole && |out| + |a| <= |whole|
  {
  }

  // One group, and a colon unless it is the last of the address.
  method PrintGroup(w: word, text: array<char>, start: nat, colon: bool, ghost rest: string, ghost whole: string)
    returns (n: nat)
    requires start <= text.Length && |whole| <= text.Length
    requires text[..start] + (Hex(w) + ((if colon then ":" else "") + rest)) == whole
    modifies text
    ensures n <= text.Length && text[..n] + rest == whole
  {
    HexFormat(w);
    Fits(text[..start], Hex(w), (if colon then ":" else "") + rest, whole);
    n := AppendFormat(text, start, "%xd", [Format.Word(w)]);
    if colon {
      Fits(text[..n], ":", rest, whole);
      n := Append(text, n, ":");
    } else {
      assert "" + rest == rest;
    }
  }

  // The printer's second loop: the groups below stop, from i on.
  method PrintGroups(p: seq<byte>, text: array<char>, start: nat, zero: int, max: int, ghost z: int, stop: nat, ghost tail: string)
    returns (n: nat)
    requires |p| == 16 && zero == (if z < 0 then -1 else 2 * z) && 1 <= max
    requires stop == 6 || stop == 8
    requires start + |Rest(WordsOf(p), z, max, stop, 0)| + |tail| <= text.Length
    modifies text
    ensures n + |tail| <= text.Length && text[..n] == old(text[..start]) + Rest(WordsOf(p), z, max, stop, 0)
  {
    n := start;
    ghost var ws, k := WordsOf(p), 0;
    ghost var whole := text[..start] + Rest(ws, z, max, stop, 0);
    var i: int := 0;
    while i < 2 * stop
      invariant i == 2 * k && 0 <= k && n <= text.Length
      invariant text[..n] + Rest(ws, z, max, stop, k) == whole
      decreases 2 * stop - i
    {
      if i == zero {
        Fits(text[..n], ":", Rest(ws, z, max, stop, k + max), whole);
        n := Append(text, n, ":");
        i := i + (max - 1) * 2;
        k := k + max;
      } else {
        WordAt(p, k);
        n := PrintGroup(Pair(p[i], p[i + 1]), text, n, i < 14, Rest(ws, z, max, stop, k + 1), whole);
        k := k + 1;
      }
      i := i + 2;
    }
    assert Rest(ws, z, max, stop, k) == "";
  }

  // Print an address; nothing is printed if the buffer is said to be shorter than the longest one.
  method Ntop(p: seq<byte>, text: array<char>, len: nat) returns (n: nat, ghost z: int, ghost m: nat)
    requires |p| == 16 && len <= text.Length
    modifies text
    ensures len < ADDRSTRLEN ==> n == 0 && text[..] == old(text[..])
    ensures len >= ADDRSTRLEN ==> Longest(WordsOf(p), GROUPS, z, m) && n <= text.Length && text[..n] == Text(WordsOf(p), z, m)
  {
    n, z, m := 0, -1, 1;
    if len < ADDRSTRLEN {
      return;
    }
    ghost var ws := WordsOf(p);
    var zero, max := FindGap(p);
    z, m := GroupOf(zero), max;
    TextFits(ws, z, m);
    var stop := ChooseForm(p, zero, max);
    assert text[..0] == "";
    if zero == 0 {
      n := Append(text, n, ":");
    }
    ghost var body := Rest(ws, z, m, stop, 0);
    ghost var tail := if stop == 6 then Quad(ws) else "";
    TextParts(ws, z, m, stop, text[..n]);
    PlaceOf(zero);
    Fits(text[..n], body, tail, Text(ws, z, m));
    n := PrintGroups(p, text, n, zero, max, z, stop, tail);
    if stop == 6 {
      n := PrintQuad(p, text, n);
    }
  }

  lemma {:induction false} TextParts(ws: seq<word>, z: int, m: nat, stop: nat, lead: string)
    requires |ws| == GROUPS && 0 < m && stop == (if EndsDotted(ws, z, m) then 6 else 8)
    requires lead == if z == 0 then ":" else ""
    ensures Text(ws, z, m) == lead + (Rest(ws, z, m, stop, 0) + if stop == 6 then Quad(ws) else "")
  {
    assert Rest(ws, z, m, 8, 0) + "" == Rest(ws, z, m, 8, 0);
  }

  // Whether the last four bytes are printed in decimal: how many groups are printed before them.
  method ChooseForm(p: seq<byte>, zero: int, max: nat) returns (stop: nat)
    requires |p| == 16 && (zero == -1 || (0 <= zero && zero % 2 == 0))
    ensures stop == if EndsDotted(WordsOf(p), GroupOf(zero), max) then 6 else 8
  {
    LastGroups(p);
    stop := 8;
    if zero == 0 {
      if (max == 5 && p[10] == 0xff && p[11] == 0xff) || max == 6 || (max == 7 && p[14] != 0 && p[15] != 1) {
        stop := 6;
      }
    }
  }

  method PrintQuad(p: seq<byte>, text: array<char>, start: nat) returns (n: nat)
    requires |p| == 16 && start + |Quad(WordsOf(p))| <= text.Length
    modifies text
    ensures n <= text.Length && text[..n] == old(text[..start]) + Quad(WordsOf(p))
  {
    LastGroups(p);
    QuadFormat(WordsOf(p));
    n := AppendFormat(text, start, QUAD, [Format.Word(p[12]), Format.Word(p[13]), Format.Word(p[14]), Format.Word(p[15])]);
  }

  // the bytes that the choice of the form looks at
  lemma LastGroups(p: seq<byte>)
    requires |p| == 16
    ensures var ws := WordsOf(p);
            && ws[5] == Pair(p[10], p[11]) && ws[6] / 256 == p[12] && ws[6] % 256 == p[13]
            && ws[7] / 256 == p[14] && ws[7] % 256 == p[15]
            && (ws[5] == 0xffff <==> p[10] == 0xff && p[11] == 0xff)
  {
    WordAt(p, 5);
    WordAt(p, 6);
    WordAt(p, 7);
  }

  // Append the two bytes of a group to the address.
  method PushGroup(addr: array<byte>, at: nat, high: byte, low: byte, ghost groups: seq<word>)
    requires at + 2 <= addr.Length && at == 2 * |groups| && addr[..at] == Octets(groups)
    modifies addr
    ensures addr[..at + 2] == Octets(groups + [Pair(high, low)])
  {
    ghost var before := addr[..at];
    addr[at], addr[at + 1] := high, low;
    ghost var w: word := Pair(high, low);
    OctetsJoin(groups, [w]);
    assert Octets([w]) == [w / 256, w % 256] + Octets([w][1..]);
    assert addr[..at + 2] == before + [high, low];
  }

  // the bytes of a word that are stored for a group
  lemma LowBytes(v: nat)
    ensures Pair(v / 256 % 256, v % 256) == v % 0x1_0000
  {
  }

  function ZeroBytes(n: nat): (s: seq<byte>)
    ensures |s| == n && forall i :: 0 <= i < n ==> s[i] == 0
  {
    Zeros(n)
  }

  // Move the bytes from zero on to the end, last byte first, and clear their place: n bytes are
  // missing.
  method OpenGap(addr: array<byte>, zero: nat, at: nat, n: nat)
    requires zero <= at && at + n == addr.Length
    modifies addr
    ensures addr[..] == old(addr[..zero]) + ZeroBytes(n) + old(addr[zero..at])
  {
    var s: int, d: int := at - 1, at - 1 + n;
    ghost var was := addr[..];
    while s >= zero
      invariant zero - 1 <= s < at && d == s + n
      invariant forall i :: 0 <= i <= s ==> addr[i] == was[i]
      invariant forall i :: s + n < i < at + n ==> addr[i] == was[i - n]
    {
      addr[d] := addr[s];
      s, d := s - 1, d - 1;
    }
    forall i | zero <= i < zero + n {
      addr[i] := 0;
    }
    GapOpened(was, addr[..], zero, at, n);
  }

  lemma GapOpened(was: seq<byte>, now: seq<byte>, zero: nat, at: nat, n: nat)
    requires zero <= at && at + n == |was| == |now|
    requires forall i :: 0 <= i < zero ==> now[i] == was[i]
    requires forall i :: zero <= i < zero + n ==> now[i] == 0
    requires forall i :: zero <= i < at ==> was[i] == now[i + n]
    ensures now == was[..zero] + ZeroBytes(n) + was[zero..at]
  {
    assert now[..zero] == was[..zero];
    assert now[zero..zero + n] == ZeroBytes(n);
    assert now[zero + n..] == was[zero..at];
    assert now == now[..zero] + now[zero..zero + n] + now[zero + n..];
  }

  lemma {:induction false} GapOctets(groups: seq<word>, gap: nat)
    requires gap <= |groups| <= GROUPS
    ensures var n := GROUPS - |groups|;
            Octets(groups[..gap] + Zeros(n) + groups[gap..]) ==
            Octets(groups)[..2 * gap] + ZeroBytes(2 * n) + Octets(groups)[2 * gap..]
  {
    var n := GROUPS - |groups|;
    var front, back := groups[..gap], groups[gap..];
    OctetsSplit(groups, gap);
    OctetsJoin(front + Zeros(n), back);
    OctetsJoin(front, Zeros(n));
    ZeroOctets(n);
  }

  lemma {:induction false} ZeroOctets(n: nat)
    ensures Octets(Zeros(n)) == ZeroBytes(2 * n)
  {
    OctetsOfZeros(n);
  }

  lemma {:induction false} OctetsSplit(groups: seq<word>, gap: nat)
    requires gap <= |groups|
    ensures Octets(groups[..gap]) == Octets(groups)[..2 * gap] && Octets(groups[gap..]) == Octets(groups)[2 * gap..]
  {
    var front, back := groups[..gap], groups[gap..];
    OctetsJoin(front, back);
    assert front + back == groups;
  }

  datatype Code = Ok | Error

  predicate Means(r: Code, p: Parsed)
  {
    r == Ok <==> p.Address?
  }

  // what the parser's variables say about the groups read so far
  ghost predicate Holds(st: State, addr: seq<byte>, at: int, zero: int, n: int)
  {
    && Ready(st) && at == 2 * |st.groups| <= |addr| == 16 && n == GROUPS - |st.groups|
    && zero == (if st.gap < 0 then -1 else 2 * st.gap) && addr[..at] == Octets(st.groups)
  }

  // and about the group being read and the text since the last colon
  ghost predicate HoldsText(st: State, text: string, i: int, digit: int, nibbles: int, value: int)
  {
    && Good(st) && nibbles == st.nibbles && value == st.value && digit <= i <= |text|
    && st.since == if digit < 0 then None else Some(text[digit..i])
  }

  method InsertGap(addr: array<byte>, zero: nat, at: nat, n: nat, ghost groups: seq<word>, ghost gap: nat)
    requires addr.Length == 16 && at == 2 * |groups| && n == GROUPS - |groups| && zero == 2 * gap <= at
    requires addr[..at] == Octets(groups)
    modifies addr
    ensures addr[..] == Octets(groups[..gap] + Zeros(n) + groups[gap..])
  {
    GapOctets(groups, gap);
    ghost var front, back := Octets(groups)[..zero], Octets(groups)[zero..];
    assert addr[..zero] == front && addr[zero..at] == back;
    OpenGap(addr, zero, at, 2 * n);
  }

  // The last group, and the gap.
  method Complete(addr: array<byte>, at: nat, zero: int, n: nat, nibbles: nat, value: nat, ghost st: State)
    returns (r: Code)
    requires Holds(st, addr[..], at, zero, n) && nibbles == st.nibbles && value == st.value
    modifies addr
    ensures Means(r, Finish(st))
    ensures r == Ok ==> addr[..] == Octets(Finish(st).groups)
  {
    if nibbles == 0 && zero < 0 {
      return Error;
    }
    assert addr[..at] == addr[..][..at];
    LowBytes(value);
    PushGroup(addr, at, value / 256 % 256, value % 256, st.groups);
    ghost var groups := st.groups + [st.value % 0x1_0000];
    if n - 1 != 0 {
      if zero < 0 {
        return Error;
      }
      InsertGap(addr, zero, at + 2, n - 1, groups, st.gap);
      return Ok;
    }
    assert addr[..16] == addr[..];
    return if zero < 0 then Ok else Error;
  }

  // A colon or a digit; the scan goes on if it may stand there.
  method Take(text: string, i: nat, addr: array<byte>, at: nat, zero: int, digit: int, n: nat, nibbles: nat, value: nat, ghost st: State)
    returns (ok: bool, at': nat, zero': int, digit': int, n': nat, nibbles': nat, value': nat)
    requires Holds(st, addr[..], at, zero, n) && HoldsText(st, text, i, digit, nibbles, value)
    requires i < |text| && (text[i] == '.' ==> nibbles == 0)
    modifies addr
    ensures var next := Step(st, text[i]);
            && ok == next.More?
            && (ok ==> Holds(next.st, addr[..], at', zero', n') && HoldsText(next.st, text, i + 1, digit', nibbles', value'))
  {
    ok, at', zero', digit', n', nibbles', value' := false, at, zero, digit, n, nibbles, value;
    var c := text[i];
    assert addr[..at] == addr[..][..at];
    assert text[i + 1..i + 1] == "";
    if c == ':' {
      if nibbles > 0 {
        digit' := i + 1;
        LowBytes(value);
        PushGroup(addr, at, value / 256 % 256, value % 256, st.groups);
        assert addr[..at + 2] == addr[..][..at + 2];
        at', n' := at + 2, n - 1;
        if n' == 0 {
          return;
        }
        nibbles', value' := 0, 0;
      } else {
        if zero >= 0 {
          return;
        }
        digit', zero' := i + 1, at;
      }
    } else {
      nibbles' := nibbles + 1;
      if nibbles' > 4 || Format.ValueOf(c) < 0 {
        return;
      }
      value' := value * 16 + Format.ValueOf(c);
      assert digit >= 0 ==> text[digit..i + 1] == text[digit..i] + [c];
    }
    ok := true;
  }

  // The word of a dotted quad, in the byte order of the machine.
  method ReadInetAddr(text: string) returns (r: nat)
    ensures r == InetAddr(text, 0, 0, 0)
  {
    var addr: nat, octet: nat, n: nat, p: nat := 0, 0, 0, 0;
    ghost var rest := text;
    while p < |text|
      invariant p <= |text| && rest == text[p..]
      invariant InetAddr(rest, addr, octet, n) == InetAddr(text, 0, 0, 0)
    {
      var c := text[p];
      assert rest[0] == c && rest[1..] == text[p + 1..];
      if '0' <= c <= '9' {
        octet := octet * 10 + Format.ValueOf(c);
        if octet > 255 {
          return INADDR_NONE;
        }
      } else if c == '.' {
        addr, octet, n := (addr * 256 + octet) % 0x1_0000_0000, 0, n + 1;
      } else {
        return INADDR_NONE;
      }
      p, rest := p + 1, rest[1..];
    }
    return if n == 3 then (addr * 256 + octet) % 0x1_0000_0000 else INADDR_NONE;
  }

  // A dot after digits: the text from the last colon on is a dotted quad, and its high half is a group.
  method PushQuad(text: string, ghost i: nat, addr: array<byte>, at: nat, digit: int, n: nat, ghost zero: int, ghost st: State)
    returns (ok: bool, quad: nat)
    requires Holds(st, addr[..], at, zero, n) && HoldsText(st, text, i, digit, st.nibbles, st.value)
    requires st.nibbles > 0 && i < |text| && text[i] == '.'
    modifies addr
    ensures var end := Scan(text[i..], st);
            && ok == (end.Dotted? && InetAddr(end.quad, 0, 0, 0) != INADDR_NONE)
            && (end.Dotted? ==> end.st == st) && !end.More?
            && (ok ==> quad == InetAddr(end.quad, 0, 0, 0) < 0x1_0000_0000
                       && Holds(AfterQuad(st, quad), addr[..], at + 2, zero, n - 1))
  {
    ghost var rest := text[i..];
    assert rest[0] == '.' && rest[1..] == text[i + 1..];
    if n < 2 || digit < 0 {
      return false, 0;
    }
    assert text[digit..] == (text[digit..i] + ['.']) + rest[1..];
    quad := ReadInetAddr(text[digit..]);
    if quad == INADDR_NONE {
      return false, quad;
    }
    assert addr[..at] == addr[..][..at];
    PushGroup(addr, at, quad / 0x100_0000 * 0xff % 256, quad / 0x1_0000 * 0xff % 256, st.groups);
    assert addr[..at + 2] == addr[..][..at + 2];
    ok := true;
  }

  // The end of an address with a dotted quad, from its first dot on.
  method TakeQuad(text: string, ghost i: nat, addr: array<byte>, at: nat, zero: int, digit: int, n: nat, nibbles: nat, ghost st: State)
    returns (r: Code)
    requires Holds(st, addr[..], at, zero, n) && HoldsText(st, text, i, digit, nibbles, st.value)
    requires nibbles > 0 && i < |text| && text[i] == '.'
    modifies addr
    ensures var p := Result(Scan(text[i..], st)); Means(r, p) && (r == Ok ==> addr[..] == Octets(p.groups))
  {
    var ok, quad := PushQuad(text, i, addr, at, digit, n, zero, st);
    if !ok {
      return Error;
    }
    r := Complete(addr, at + 2, zero, n - 1, nibbles, quad, AfterQuad(st, quad));
  }

  // Parse an address into sixteen bytes.
  method Addr(text: string, addr: array<byte>) returns (r: Code)
    requires addr.Length == 16
    modifies addr
    ensures Means(r, Parse(text))
    ensures r == Ok ==> addr[..] == Octets(Parse(text).groups)
  {
    if |text| == 0 {
      return Error;
    }
    var at: nat, zero: int, digit: int, n: nat, nibbles: nat, value: nat, i: nat := 0, -1, -1, 8, 0, 0, 0;
    if text[0] == ':' {
      i := 1;
    }
    ghost var st, rest := INIT, text[i..];
    ghost var end := Scan(rest, INIT);
    assert text[0..] == text;
    while i < |text|
      invariant i <= |text| && rest == text[i..]
      invariant Holds(st, addr[..], at, zero, n) && HoldsText(st, text, i, digit, nibbles, value)
      invariant Scan(rest, st) == end
    {
      var ok;
      if text[i] == '.' && nibbles > 0 {
        r := TakeQuad(text, i, addr, at, zero, digit, n, nibbles, st);
        return;
      }
      assert rest[0] == text[i] && rest[1..] == text[i + 1..];
      ghost var next := Step(st, rest[0]);
      ok, at, zero, digit, n, nibbles, value := Take(text, i, addr, at, zero, digit, n, nibbles, value, st);
      if !ok {
        return Error;
      }
      i, st, rest := i + 1, next.st, rest[1..];
    }
    r := Complete(addr, at, zero, n, nibbles, value, st);
  }

  // Parsing what was printed gives the address back, byte for byte, exactly if no dotted quad was
  // printed or its first two octets are 0 or 128.
  method PrintAndParse(p: seq<byte>, text: array<char>, addr: array<byte>) returns (r: Code, ghost z: int, ghost m: nat)
    requires |p| == 16 && text.Length >= ADDRSTRLEN && addr.Length == 16
    modifies text, addr
    ensures Longest(WordsOf(p), GROUPS, z, m)
    ensures (r == Ok && addr[..] == p) <==> (!EndsDotted(WordsOf(p), z, m) || (p[12] % 128 == 0 && p[13] % 128 == 0))
    ensures r == Error <==> EndsDotted(WordsOf(p), z, m) && p[12..] == [255, 255, 255, 255]
    ensures r == Ok && EndsDotted(WordsOf(p), z, m) ==> addr[..] == p[12 := Minus(p[12])][13 := Minus(p[13])]
  {
    var n;
    n, z, m := Ntop(p, text, text.Length);
    BytesRoundTrip(p, z, m);
    r := Addr(text[..n], addr);
  }
}
