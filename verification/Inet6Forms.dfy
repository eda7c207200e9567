// Which texts the IPv6 parser takes, and for which addresses; and the forms that the printer chooses.
module Inet6Forms {
  import opened Base
  import Format
  import opened Inet6

  predicate IsHex(c: char)
  {
    '0' <= c <= '9' || 'a' <= c <= 'f' || 'A' <= c <= 'F'
  }

  // at most four hexadecimal digits, of either case, leading zeros included
  predicate UpToFour(s: string)
  {
    |s| <= 4 && forall i :: 0 <= i < |s| ==> IsHex(s[i])
  }

  predicate AreGroups(gs: seq<string>)
  {
    forall i :: 0 <= i < |gs| ==> gs[i] != "" && UpToFour(gs[i])
  }

  function Value(s: string): word
    requires UpToFour(s)
  {
    ValueFits(s);
    Format.Reading(s, 16)
  }

  lemma {:induction false} ValueFits(s: string)
    requires UpToFour(s)
    ensures 0 <= Format.Reading(s, 16) < 0x1_0000
    ensures |s| <= 3 ==> Format.Reading(s, 16) < 4096
    ensures |s| <= 2 ==> Format.Reading(s, 16) < 256
    ensures |s| <= 1 ==> Format.Reading(s, 16) < 16
    ensures s == "" ==> Format.Reading(s, 16) == 0
  {
    if s != "" {
      ValueFits(s[..|s| - 1]);
      assert IsHex(s[|s| - 1]);
    }
  }

  function Values(gs: seq<string>): (ws: seq<word>)
    requires AreGroups(gs)
    ensures |ws| == |gs|
  {
    if gs == [] then [] else [Value(gs[0])] + Values(gs[1..])
  }

  // the groups, each with a colon behind it
  function Each(gs: seq<string>): string
  {
    if gs == [] then "" else (gs[0] + ":") + Each(gs[1..])
  }

  // a colon in front of a text is passed over
  function Led(colon: bool, text: string): string
  {
    if colon then ":" + text else text
  }

  lemma {:induction false} ParseLed(colon: bool, text: string)
    requires !colon && text != "" ==> text[0] != ':'
    ensures Parse(Led(colon, text)) == Result(Scan(text, INIT))
  {
    if colon { assert (":" + text)[1..] == text; }
  }

  lemma {:induction false} EachStarts(gs: seq<string>, rest: string)
    requires AreGroups(gs) && (gs == [] && rest != "" ==> rest[0] != ':')
    ensures Each(gs) + rest != "" ==> (Each(gs) + rest)[0] != ':'
  {
    if gs == [] {
      assert Each(gs) + rest == rest;
    } else {
      assert (Each(gs) + rest)[0] == gs[0][0] && IsHex(gs[0][0]);
    }
  }

  // ---------- scanning groups ----------

  lemma {:induction false} ReadGroup(s: string, st: State)
    requires UpToFour(s) && Good(st) && st.nibbles == 0
    ensures Scan(s, st) == More(Typed(st, s, Value(s))) && Good(Typed(st, s, Value(s)))
    decreases |s|
  {
    ValueFits(s);
    if s == "" {
      assert st.since.Some? ==> st.since.value + "" == st.since.value;
    } else {
      var front, c := s[..|s| - 1], s[|s| - 1];
      ReadGroup(front, st);
      assert front + [c] == s && IsHex(c);
      ScanBoth(front, [c], st);
      ReadDigit(front, c, s, Typed(st, front, Value(front)));
      assert st.since.Some? ==> (st.since.value + front) + [c] == st.since.value + s;
    }
  }

  lemma ReadDigit(front: string, c: char, s: string, st: State)
    requires Good(st) && st.nibbles < 4 && IsHex(c)
    ensures Scan([c], st) == Step(st, c)
    ensures Step(st, c) == More(st.(nibbles := st.nibbles + 1, value := st.value * 16 + Format.ValueOf(c), since := Add(st.since, [c])))
  {
    assert [c][1..] == "";
  }

  function AfterGroups(st: State, gs: seq<string>): State
    requires AreGroups(gs)
  {
    if gs == [] then st else State(st.groups + Values(gs), st.gap, 0, 0, Some(""))
  }

  lemma {:induction false} ReadColon(s: string, st: State)
    requires s != "" && UpToFour(s) && Good(st) && st.nibbles == 0
    ensures Scan(s + ":", st) ==
            if |st.groups| + 1 < GROUPS then More(State(st.groups + [Value(s)], st.gap, 0, 0, Some(""))) else Bad
  {
    ReadGroup(s, st);
    ScanBoth(s, ":", st);
  }

  // seven groups at most may stand before a colon
  lemma {:induction false} ReadGroups(gs: seq<string>, st: State)
    requires AreGroups(gs) && Good(st) && st.nibbles == 0
    ensures if |st.groups| + |gs| < GROUPS then Scan(Each(gs), st) == More(AfterGroups(st, gs)) && Good(AfterGroups(st, gs))
            else Scan(Each(gs), st) == Bad
    decreases |gs|
  {
    if gs != [] {
      ReadColon(gs[0], st);
      if |st.groups| + 1 < GROUPS {
        var next := State(st.groups + [Value(gs[0])], st.gap, 0, 0, Some(""));
        ScanBoth(gs[0] + ":", Each(gs[1..]), st);
        ReadGroups(gs[1..], next);
        Regroup(st.groups, [Value(gs[0])], Values(gs[1..]));
        assert gs[1..] == [] ==> next == AfterGroups(st, gs);
      } else {
        ScanStays(gs[0] + ":", Each(gs[1..]), st);
      }
    }
  }

  // what is wrong stays wrong
  lemma {:induction false} ScanStays(a: string, b: string, st: State)
    requires Good(st) && Scan(a, st).Bad?
    ensures Scan(a + b, st).Bad?
    decreases |a|
  {
    assert (a + b)[1..] == a[1..] + b;
    if Step(st, a[0]).More? {
      ScanStays(a[1..], b, Step(st, a[0]).st);
    }
  }

  lemma {:induction false} NoneLeft(text: string)
    ensures text + "" == text
  {
  }

  // ---------- which texts are addresses ----------

  // Eight groups with colons between them are an address; fewer are none.
  lemma {:induction false} PlainForm(colon: bool, gs: seq<string>, last: string)
    requires AreGroups(gs) && UpToFour(last) && |gs| < GROUPS
    ensures Parse(Led(colon, Each(gs) + last)) ==
            if |gs| == 7 && last != "" then Address(Values(gs) + [Value(last)]) else Malformed
  {
    assert last != "" ==> IsHex(last[0]);
    EachStarts(gs, last);
    ParseLed(colon, Each(gs) + last);
    ReadGroups(gs, INIT);
    ScanBoth(Each(gs), last, INIT);
    ReadGroup(last, AfterGroups(INIT, gs));
    assert [] + Values(gs) == Values(gs);
  }

  // Nine are none either, whatever comes behind.
  lemma {:induction false} TooManyGroups(colon: bool, gs: seq<string>, rest: string)
    requires AreGroups(gs) && |gs| >= GROUPS
    ensures Parse(Led(colon, Each(gs) + rest)) == Malformed
  {
    EachStarts(gs, rest);
    ParseLed(colon, Each(gs) + rest);
    ReadGroups(gs, INIT);
    ScanStays(Each(gs), rest, INIT);
  }

  // the scan up to a double colon
  lemma {:induction false} ReadGap(a: seq<string>, rest: string)
    requires AreGroups(a) && |a| < GROUPS
    ensures var st := AfterGroups(INIT, a).(gap := |a|, since := Some(""));
            Good(st) && st.nibbles == 0 && st.groups == Values(a) && Scan(Each(a) + (":" + rest), INIT) == Scan(rest, st)
  {
    ReadGroups(a, INIT);
    ScanBoth(Each(a), ":" + rest, INIT);
    assert (":" + rest)[1..] == rest && [] + Values(a) == Values(a);
  }

  // One double colon stands for the groups that are missing, at least one; the group behind the last
  // colon is zero if it has no digits.
  lemma {:induction false} GapForm(colon: bool, a: seq<string>, b: seq<string>, last: string)
    requires AreGroups(a) && AreGroups(b) && UpToFour(last) && |a| + |b| < GROUPS && (a == [] ==> colon)
    ensures Parse(Led(colon, Each(a) + (":" + (Each(b) + last)))) ==
            if |a| + |b| < 7 then Address((Values(a) + Zeros(7 - |a| - |b|)) + (Values(b) + [Value(last)])) else Malformed
  {
    var tail := Each(b) + last;
    if a != [] { EachStarts(a, ":" + tail); }
    ParseLed(colon, Each(a) + (":" + tail));
    ReadGap(a, tail);
    var st := AfterGroups(INIT, a).(gap := |a|, since := Some(""));
    ReadGroups(b, st);
    ScanBoth(Each(b), last, st);
    ReadGroup(last, AfterGroups(st, b));
    FinishGap(Values(a), Values(b), Typed(AfterGroups(st, b), last, Value(last)));
  }

  lemma {:induction false} FinishGap(a: seq<word>, b: seq<word>, st: State)
    requires |a| + |b| < GROUPS && st.gap == |a| && (st.groups == a + b || (b == [] && st.groups == a)) && st.value < 0x1_0000
    ensures Finish(st) == if |a| + |b| < 7 then Address((a + Zeros(7 - |a| - |b|)) + (b + [st.value])) else Malformed
  {
    var groups := (a + b) + [st.value];
    assert a + [] == a;
    assert groups[..|a|] == a && groups[|a|..] == b + [st.value];
  }

  // A second double colon makes a text malformed, whatever comes behind.
  lemma {:induction false} SecondGap(colon: bool, a: seq<string>, b: seq<string>, rest: string)
    requires AreGroups(a) && AreGroups(b) && |a| + |b| < GROUPS && (a == [] ==> colon)
    ensures Parse(Led(colon, Each(a) + (":" + (Each(b) + (":" + rest))))) == Malformed
  {
    var tail := Each(b) + (":" + rest);
    if a != [] { EachStarts(a, ":" + tail); }
    ParseLed(colon, Each(a) + (":" + tail));
    ReadGap(a, tail);
    var st := AfterGroups(INIT, a).(gap := |a|, since := Some(""));
    ReadGroups(b, st);
    ScanBoth(Each(b), ":" + rest, st);
  }

  // So does a character that is no digit, or a fifth digit, in a group; a dot may only follow a digit.
  lemma {:induction false} BadCharacter(colon: bool, gs: seq<string>, s: string, c: char, rest: string)
    requires AreGroups(gs) && UpToFour(s) && |gs| < GROUPS && c != ':' && (s != "" ==> c != '.') && (|s| == 4 || !IsHex(c))
    ensures Parse(Led(colon, Each(gs) + (s + ([c] + rest)))) == Malformed
  {
    var tail := s + ([c] + rest);
    assert tail[0] == if s == "" then c else s[0];
    assert s != "" ==> IsHex(s[0]);
    EachStarts(gs, tail);
    ParseLed(colon, Each(gs) + tail);
    ReadGroups(gs, INIT);
    ScanBoth(Each(gs), tail, INIT);
    ReadGroup(s, AfterGroups(INIT, gs));
    ScanBoth(s, [c] + rest, AfterGroups(INIT, gs));
    assert ([c] + rest)[0] == c;
  }

  // ---------- the forms the printer chooses ----------

  // the digits printed for a group are lower-case, the first is no zero unless it is alone, and they
  // are the group's value
  lemma {:induction false} HexForm(w: word)
    ensures UpToFour(Hex(w)) && Value(Hex(w)) == w && 1 <= |Hex(w)|
    ensures forall i :: 0 <= i < |Hex(w)| ==> !('A' <= Hex(w)[i] <= 'F')
    ensures |Hex(w)| > 1 ==> Hex(w)[0] != '0'
  {
    assert Format.Power(16, 4) == 0x1_0000;
    Format.NumeralLength(w, 16, false, 4);
    Format.NumeralReads(w, 16, false);
    LowerCase(w);
  }

  lemma {:induction false} LowerCase(v: nat)
    ensures forall i :: 0 <= i < |Format.Numeral(v, 16, false)| ==>
              IsHex(Format.Numeral(v, 16, false)[i]) && !('A' <= Format.Numeral(v, 16, false)[i] <= 'F')
    ensures v < 16 ==> |Format.Numeral(v, 16, false)| == 1
  {
    if v >= 16 { LowerCase(v / 16); }
  }

  // An address mapped from IPv4 is printed with its four octets in decimal.
  lemma {:induction false} MappedForm(ws: seq<word>, z: int, m: int)
    requires |ws| == GROUPS && ws[..5] == [0, 0, 0, 0, 0] && ws[5] == 0xffff && Longest(ws, GROUPS, z, m)
    ensures 0 < m && Text(ws, z, m) == "::ffff:" +
            (Decimal(ws[6] / 256) + ("." + (Decimal(ws[6] % 256) + ("." + (Decimal(ws[7] / 256) + ("." + Decimal(ws[7] % 256)))))))
  {
    assert forall i :: 0 <= i < 5 ==> ws[i] == ws[..5][i];
    assert RunAt(ws, GROUPS, 0, 5);
    assert z == 0 && m == 5;
    MappedFront(ws);
  }

  // So is an address whose first six groups are zero, unless the seventh is zero too and the eighth is
  // below 256 or ends in 1.
  lemma {:induction false} CompatibleForm(ws: seq<word>, z: int, m: int)
    requires |ws| == GROUPS && ws[..6] == [0, 0, 0, 0, 0, 0] && ws[7] != 0 && Longest(ws, GROUPS, z, m)
    ensures 0 < m && Text(ws, z, m) ==
            if ws[6] != 0 || (ws[7] >= 256 && ws[7] % 256 != 1) then "::" +
              (Decimal(ws[6] / 256) + ("." + (Decimal(ws[6] % 256) + ("." + (Decimal(ws[7] / 256) + ("." + Decimal(ws[7] % 256)))))))
            else "::" + Hex(ws[7])
  {
    assert forall i :: 0 <= i < 6 ==> ws[i] == ws[..6][i];
    assert RunAt(ws, GROUPS, 0, 6);
    assert ws[6] == 0 ==> RunAt(ws, GROUPS, 0, 7);
    assert z == 0 && m == if ws[6] == 0 then 7 else 6;
    assert Rest(ws, 0, 6, 6, 0) == ":" && Rest(ws, 0, 7, 6, 0) == ":";
    assert Rest(ws, 0, 7, 8, 7) == Hex(ws[7]) + ("" + "");
    assert Rest(ws, 0, 7, 8, 0) == ":" + (Hex(ws[7]) + ("" + ""));
  }

  lemma {:induction false} MappedFront(ws: seq<word>)
    requires |ws| == GROUPS && ws[5] == 0xffff
    ensures Rest(ws, 0, 5, 6, 0) == ":ffff:"
  {
    assert Rest(ws, 0, 5, 6, 6) == "";
    assert Rest(ws, 0, 5, 6, 5) == (Hex(0xffff) + ":") + "";
    assert Hex(0xffff) == "ffff" by { FourFs(); }
  }

  lemma {:induction false} FourFs()
    ensures Format.Numeral(0xffff, 16, false) == "ffff"
  {
    assert Format.Numeral(0xf, 16, false) == "f";
    assert Format.Numeral(0xff, 16, false) == "f" + "f";
    assert Format.Numeral(0xfff, 16, false) == "ff" + "f";
  }
}
