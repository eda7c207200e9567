// Escaping and unescaping of URIs.
module Uri {
  import opened Base

  const PERCENT: byte := 37
  const QUESTION: byte := 63

  // the seven escape types
  const ESCAPE_REFRESH := 4

  type EscapeType = t: int | 0 <= t < 7

  // the bit masks of the bytes to escape, 32 bytes a word
  function Mask(t: EscapeType): seq<bv32>
    ensures |Mask(t)| == 8
  {
    var all: bv32 := 0xffff_ffff;
    match t
    case 0 => [all, 0x8000_0029, 0, 0x8000_0000, all, all, all, all]
    case 1 => [all, 0x8800_0869, 0, 0x8000_0000, all, all, all, all]
    case 2 => [all, 0xfc00_9fff, 0x7800_0001, 0xb800_0001, all, all, all, all]
    case 3 => [all, 0x0000_00ad, 0, 0x8000_0000, all, all, all, all]
    case 4 => [all, 0x0000_0085, 0, 0x8000_0000, all, all, all, all]
    case _ => [all, 0x0000_0021, 0, 0, 0, 0, 0, 0]
  }

  predicate Escaped(t: EscapeType, c: byte)
  {
    Mask(t)[c / 32] & ((1 as bv32) << (c % 32)) != 0
  }

  // an upper-case hexadecimal digit
  function Hex(n: int): byte
    requires 0 <= n < 16
  {
    if n < 10 then 48 + n else 55 + n
  }

  function Escape(t: EscapeType, s: seq<byte>): seq<byte>
  {
    if s == [] then []
    else if Escaped(t, s[0]) then [PERCENT, Hex(s[0] / 16), Hex(s[0] % 16)] + Escape(t, s[1..])
    else [s[0]] + Escape(t, s[1..])
  }

  function Count(t: EscapeType, s: seq<byte>): nat
  {
    if s == [] then 0 else (if Escaped(t, s[0]) then 1 else 0) + Count(t, s[1..])
  }

  lemma {:induction false} EscapedLength(t: EscapeType, s: seq<byte>)
    ensures |Escape(t, s)| == |s| + 2 * Count(t, s)
  {
    if s != [] { EscapedLength(t, s[1..]); }
  }

  // ---------- what each type escapes ----------

  // letters, digits and - . _ ~, which section 2.3 of RFC 3986 calls unreserved
  predicate Unreserved(c: byte)
  {
    65 <= c <= 90 || 97 <= c <= 122 || 48 <= c <= 57 || c == 45 || c == 46 || c == 95 || c == 126
  }

  // control characters and the space always; then the characters that have a meaning where the text
  // goes, and outside memcached keys and mail credentials also everything from the delete character on
  predicate Reserved(t: EscapeType, c: byte)
  {
    c <= 32 || (t < 5 && c >= 127) ||
    match t
    case 0 => c == 35 || c == 37 || c == 63
    case 1 => c == 35 || c == 37 || c == 38 || c == 43 || c == 59 || c == 63
    case 2 => !Unreserved(c)
    case 3 => c == 34 || c == 35 || c == 37 || c == 39
    case 4 => c == 34 || c == 39
    case _ => c == 37
  }

  // the bits of the masks
  lemma BitOfAll(k: nat)
    requires k < 32
    ensures 0xffff_ffff & ((1 as bv32) << k) != 0 && 0 & ((1 as bv32) << k) == 0
    ensures 0x8000_0000 & ((1 as bv32) << k) != 0 <==> k == 31
  {
    match k
    case 0 => case 1 => case 2 => case 3 => case 4 => case 5 => case 6 => case 7 => case 8 => case 9 =>
    case 10 => case 11 => case 12 => case 13 => case 14 => case 15 => case 16 => case 17 => case 18 =>
    case 19 => case 20 => case 21 => case 22 => case 23 => case 24 => case 25 => case 26 => case 27 =>
    case 28 => case 29 => case 30 => case _ =>
  }

  lemma BitOfUri(k: nat)
    requires k < 32
    ensures 0x8000_0029 & ((1 as bv32) << k) != 0 <==> k == 0 || k == 3 || k == 5 || k == 31
    ensures 0x8800_0869 & ((1 as bv32) << k) != 0 <==> k == 0 || k == 3 || k == 5 || k == 6 || k == 11 || k == 27 || k == 31
  {
    match k
    case 0 => case 1 => case 2 => case 3 => case 4 => case 5 => case 6 => case 7 => case 8 => case 9 =>
    case 10 => case 11 => case 12 => case 13 => case 14 => case 15 => case 16 => case 17 => case 18 =>
    case 19 => case 20 => case 21 => case 22 => case 23 => case 24 => case 25 => case 26 => case 27 =>
    case 28 => case 29 => case 30 => case _ =>
  }

  lemma BitOfComponent(k: nat)
    requires k < 32
    ensures 0xfc00_9fff & ((1 as bv32) << k) != 0 <==> k <= 12 || k == 15 || 26 <= k
    ensures 0x7800_0001 & ((1 as bv32) << k) != 0 <==> k == 0 || 27 <= k <= 30
    ensures 0xb800_0001 & ((1 as bv32) << k) != 0 <==> k == 0 || 27 <= k <= 29 || k == 31
  {
    match k
    case 0 => case 1 => case 2 => case 3 => case 4 => case 5 => case 6 => case 7 => case 8 => case 9 =>
    case 10 => case 11 => case 12 => case 13 => case 14 => case 15 => case 16 => case 17 => case 18 =>
    case 19 => case 20 => case 21 => case 22 => case 23 => case 24 => case 25 => case 26 => case 27 =>
    case 28 => case 29 => case 30 => case _ =>
  }

  lemma BitOfOthers(k: nat)
    requires k < 32
    ensures 0x0000_00ad & ((1 as bv32) << k) != 0 <==> k == 0 || k == 2 || k == 3 || k == 5 || k == 7
    ensures 0x0000_0085 & ((1 as bv32) << k) != 0 <==> k == 0 || k == 2 || k == 7
    ensures 0x0000_0021 & ((1 as bv32) << k) != 0 <==> k == 0 || k == 5
  {
    match k
    case 0 => case 1 => case 2 => case 3 => case 4 => case 5 => case 6 => case 7 => case 8 => case 9 =>
    case 10 => case 11 => case 12 => case 13 => case 14 => case 15 => case 16 => case 17 => case 18 =>
    case 19 => case 20 => case 21 => case 22 => case 23 => case 24 => case 25 => case 26 => case 27 =>
    case 28 => case 29 => case 30 => case _ =>
  }

  lemma {:induction false} EscapedInUri(t: EscapeType, c: byte)
    requires t < 2
    ensures Escaped(t, c) <==> Reserved(t, c)
  {
    BitOfAll(c % 32);
    BitOfUri(c % 32);
  }

  lemma {:induction false} EscapedInComponent(t: EscapeType, c: byte)
    requires t == 2
    ensures Escaped(t, c) <==> Reserved(t, c)
  {
    BitOfAll(c % 32);
    BitOfComponent(c % 32);
  }

  lemma {:induction false} EscapedInOthers(t: EscapeType, c: byte)
    requires 2 < t
    ensures Escaped(t, c) <==> Reserved(t, c)
  {
    BitOfAll(c % 32);
    BitOfOthers(c % 32);
  }

  // The tables escape exactly the reserved bytes.
  lemma {:induction false} EscapedIffReserved(t: EscapeType, c: byte)
    ensures Escaped(t, c) <==> Reserved(t, c)
  {
    if t < 2 {
      EscapedInUri(t, c);
    } else if t == 2 {
      EscapedInComponent(t, c);
    } else {
      EscapedInOthers(t, c);
    }
  }

  // ---------- unescaping ----------

  // after "%" and after its first digit, a byte of value decoded
  datatype Quoting = Usual | Quoted | Second(first: byte, decoded: int)

  // the value of a hexadecimal digit, or -1
  function Digit(ch: byte): int
  {
    if 48 <= ch <= 57 then ch - 48
    else
      var c := if ch / 32 % 2 == 0 then ch + 32 else ch;
      if 97 <= c <= 102 then c - 97 + 10 else -1
  }

  // the next state, the bytes put out, and whether unescaping ends here
  function Turn(st: Quoting, ch: byte, uri: bool, redirect: bool): (Quoting, seq<byte>, bool)
  {
    match st
    case Usual =>
      if ch == QUESTION && (uri || redirect) then (Usual, [ch], true)
      else if ch == PERCENT then (Quoted, [], false)
      else (Usual, [ch], false)
    case Quoted =>
      if Digit(ch) >= 0 then (Second(ch, Digit(ch)), [], false) else (Usual, [ch], false)
    case Second(first, decoded) =>
      if Digit(ch) < 0 then (Usual, [], false)
      else
        var v := (decoded * 16 + Digit(ch)) % 256;
        var decimal := 48 <= ch <= 57;
        if !decimal && uri then (Usual, [v], v == QUESTION)
        else if redirect then
          if !decimal && v == QUESTION then (Usual, [v], true)
          else if PERCENT < v < 0x7f then (Usual, [v], false)
          else (Usual, [PERCENT, first, ch], false)
        else (Usual, [v], false)
  }

  // the bytes put out and the number of bytes taken
  function Unescape(s: seq<byte>, st: Quoting, uri: bool, redirect: bool): (seq<byte>, nat)
  {
    if s == [] then ([], 0)
    else
      var (next, put, stop) := Turn(st, s[0], uri, redirect);
      if stop then (put, 1)
      else
        var (rest, n) := Unescape(s[1..], next, uri, redirect);
        (put + rest, n + 1)
  }

  function Decode(s: seq<byte>): seq<byte>
  {
    Unescape(s, Usual, false, false).0
  }

  // ---------- the round trip ----------

  lemma PercentIsEscaped(t: EscapeType)
    ensures Escaped(t, PERCENT) <==> t != ESCAPE_REFRESH
  {
  }

  lemma HexIsDigit(n: int)
    requires 0 <= n < 16
    ensures Digit(Hex(n)) == n && Hex(n) != PERCENT && Hex(n) < 128
  {
  }

  lemma DecodePlain(c: byte, rest: seq<byte>)
    requires c != PERCENT
    ensures Decode([c] + rest) == [c] + Decode(rest)
  {
    assert ([c] + rest)[1..] == rest;
  }

  lemma DecodeTriple(a: int, b: int, rest: seq<byte>)
    requires 0 <= a < 16 && 0 <= b < 16
    ensures Decode([PERCENT, Hex(a), Hex(b)] + rest) == [a * 16 + b] + Decode(rest)
  {
    HexIsDigit(a);
    HexIsDigit(b);
    DecodeGoodPair(Hex(a), Hex(b), rest);
  }

  // a byte that is no raw "%" comes back
  lemma DecodeByte(t: EscapeType, y: seq<byte>)
    requires y != [] && (y[0] == PERCENT ==> t != ESCAPE_REFRESH)
    ensures Decode(Escape(t, y)) == [y[0]] + Decode(Escape(t, y[1..]))
  {
    var rest, escaped := Escape(t, y[1..]), Escaped(t, y[0]);
    assert y[0] == PERCENT ==> escaped by { PercentIsEscaped(t); }
    if escaped {
      assert Escape(t, y) == [PERCENT, Hex(y[0] / 16), Hex(y[0] % 16)] + rest;
      assert Decode([PERCENT, Hex(y[0] / 16), Hex(y[0] % 16)] + rest) == [y[0]] + Decode(rest) by {
        DecodeTriple(y[0] / 16, y[0] % 16, rest);
      }
    } else {
      assert Escape(t, y) == [y[0]] + rest;
      assert Decode([y[0]] + rest) == [y[0]] + Decode(rest) by { DecodePlain(y[0], rest); }
    }
  }

  lemma {:induction false} RoundTrip(t: EscapeType, s: seq<byte>)
    requires t == ESCAPE_REFRESH ==> PERCENT !in s
    ensures Decode(Escape(t, s)) == s
  {
    if s != [] {
      assert Decode(Escape(t, s)) == [s[0]] + Decode(Escape(t, s[1..])) by { DecodeByte(t, s); }
      assert Decode(Escape(t, s[1..])) == s[1..] by { RoundTrip(t, s[1..]); }
    }
  }

  // ---------- digits, and the two special modes ----------

  // the hexadecimal digits are those of both cases, and no other byte is one
  lemma DigitIffHex(ch: byte)
    ensures 0 <= Digit(ch) <==> (48 <= ch <= 57 || 65 <= ch <= 70 || 97 <= ch <= 102)
    ensures Digit(ch) == if 48 <= ch <= 57 then ch - 48 else if 65 <= ch <= 70 then ch - 55 else if 97 <= ch <= 102 then ch - 87 else -1
  {
  }

  // the value of two digits
  function Pair(h: byte, c: byte): byte
    requires Digit(h) >= 0 && Digit(c) >= 0
  {
    Digit(h) * 16 + Digit(c)
  }

  // A byte that is not quoted: a question mark ends the text in the special modes.
  lemma PlainReads(ch: byte, rest: seq<byte>, uri: bool, redirect: bool)
    requires ch != PERCENT
    ensures Unescape([ch] + rest, Usual, uri, redirect) ==
            if ch == QUESTION && (uri || redirect) then ([ch], 1)
            else var (out, n) := Unescape(rest, Usual, uri, redirect); ([ch] + out, n + 1)
  {
    assert ([ch] + rest)[1..] == rest;
  }

  // A quoted byte: a question mark ends the text here too, and for a redirect a byte that is not
  // harmless stays quoted, unless the other mode is on as well and the second digit is a letter.
  lemma TripleReads(h: byte, c: byte, rest: seq<byte>, uri: bool, redirect: bool)
    requires Digit(h) >= 0 && Digit(c) >= 0
    ensures Unescape([PERCENT, h, c] + rest, Usual, uri, redirect) ==
            if Pair(h, c) == QUESTION && (uri || redirect) then ([QUESTION], 3)
            else
              var (out, n) := Unescape(rest, Usual, uri, redirect);
              ((if redirect && !(uri && c > 57) && !(PERCENT < Pair(h, c) < 127) then [PERCENT, h, c] else [Pair(h, c)]) + out, n + 3)
  {
    var s := [PERCENT, h, c] + rest;
    assert s[1..][1..] == [c] + rest && s[1..][1..][1..] == rest;
    assert Pair(h, c) == QUESTION ==> c > 57;
    assert Unescape(s[1..], Quoted, uri, redirect).0 == Unescape(s[1..][1..], Second(h, Digit(h)), uri, redirect).0;
  }

  // one byte as it is escaped
  function Quote(t: EscapeType, c: byte): seq<byte>
  {
    if Escaped(t, c) then [PERCENT, Hex(c / 16), Hex(c % 16)] else [c]
  }

  lemma QuoteReads(t: EscapeType, c: byte, rest: seq<byte>, uri: bool)
    requires t != ESCAPE_REFRESH && c != QUESTION
    ensures var (out, n) := Unescape(rest, Usual, uri, !uri);
            Unescape(Quote(t, c) + rest, Usual, uri, !uri) ==
            ((if !uri && Escaped(t, c) && !(PERCENT < c < 127) then Quote(t, c) else [c]) + out, n + |Quote(t, c)|)
  {
    PercentIsEscaped(t);
    if Escaped(t, c) {
      HexIsDigit(c / 16);
      HexIsDigit(c % 16);
      TripleReads(Hex(c / 16), Hex(c % 16), rest, uri, !uri);
    } else {
      PlainReads(c, rest, uri, !uri);
    }
  }

  // In the mode for URIs an escaped text is given back up to the question mark behind it.
  lemma {:induction false} UriRoundTrip(t: EscapeType, x: seq<byte>, rest: seq<byte>)
    requires t != ESCAPE_REFRESH && QUESTION !in x
    ensures Unescape(Escape(t, x) + ([QUESTION] + rest), Usual, true, false) == (x + [QUESTION], |Escape(t, x)| + 1)
    decreases |x|
  {
    var end := [QUESTION] + rest;
    if x == [] {
      PlainReads(QUESTION, rest, true, false);
      assert Escape(t, x) == [] && [] + end == end && x + [QUESTION] == [QUESTION];
    } else {
      UriRoundTrip(t, x[1..], rest);
      assert Escape(t, x) + end == Quote(t, x[0]) + (Escape(t, x[1..]) + end) by {
        Regroup(Quote(t, x[0]), Escape(t, x[1..]), end);
      }
      QuoteReads(t, x[0], Escape(t, x[1..]) + end, true);
      assert [x[0]] + (x[1..] + [QUESTION]) == x + [QUESTION];
    }
  }

  // the text with only those bytes escaped that are not harmless in a redirect
  function Guarded(t: EscapeType, x: seq<byte>): seq<byte>
  {
    if x == [] then []
    else (if Escaped(t, x[0]) && !(PERCENT < x[0] < 127) then Quote(t, x[0]) else [x[0]]) + Guarded(t, x[1..])
  }

  // In the mode for redirects the other escaped bytes are given back.
  lemma {:induction false} RedirectRoundTrip(t: EscapeType, x: seq<byte>)
    requires t != ESCAPE_REFRESH && QUESTION !in x
    ensures Unescape(Escape(t, x), Usual, false, true) == (Guarded(t, x), |Escape(t, x)|)
    decreases |x|
  {
    if x != [] {
      RedirectRoundTrip(t, x[1..]);
      QuoteReads(t, x[0], Escape(t, x[1..]), false);
    }
  }

  // ---------- the refresh type leaves "%" alone ----------

  function Refresh(s: seq<byte>): seq<byte>
  {
    Escape(ESCAPE_REFRESH, s)
  }

  lemma RefreshKeepsDigits(c: byte)
    requires Digit(c) >= 0
    ensures !Escaped(ESCAPE_REFRESH, c)
  {
  }

  // "%" before a byte that is no digit: the byte itself is put out
  lemma DecodeBadQuote(c: byte, rest: seq<byte>)
    requires Digit(c) < 0
    ensures Decode([PERCENT, c] + rest) == [c] + Decode(rest)
  {
    var s := [PERCENT, c] + rest;
    assert s[1..][1..] == rest;
    assert Unescape(s[1..], Quoted, false, false).0 == [c] + Decode(rest);
  }

  // "%" and a digit before a byte that is no digit: nothing is put out
  lemma DecodeBadSecond(h: byte, c: byte, rest: seq<byte>)
    requires Digit(h) >= 0 && Digit(c) < 0
    ensures Decode([PERCENT, h, c] + rest) == Decode(rest)
  {
    var s := [PERCENT, h, c] + rest;
    assert s[1..][1..] == [c] + rest && s[1..][1..][1..] == rest;
    assert Unescape(s[1..][1..], Second(h, Digit(h)), false, false).0 == Decode(rest);
    assert Unescape(s[1..], Quoted, false, false).0 == Unescape(s[1..][1..], Second(h, Digit(h)), false, false).0;
  }

  lemma DecodeGoodPair(h: byte, c: byte, rest: seq<byte>)
    requires Digit(h) >= 0 && Digit(c) >= 0
    ensures Decode([PERCENT, h, c] + rest) == [Digit(h) * 16 + Digit(c)] + Decode(rest)
  {
    var s := [PERCENT, h, c] + rest;
    assert s[1..][1..] == [c] + rest && s[1..][1..][1..] == rest;
    assert Unescape(s[1..][1..], Second(h, Digit(h)), false, false).0 == [Digit(h) * 16 + Digit(c)] + Decode(rest);
    assert Unescape(s[1..], Quoted, false, false).0 == Unescape(s[1..][1..], Second(h, Digit(h)), false, false).0;
  }

  lemma DecodeCutOff(s: seq<byte>)
    requires s == [PERCENT] || (|s| == 2 && s[0] == PERCENT && Digit(s[1]) >= 0)
    ensures Decode(s) == []
  {
    if |s| == 1 {
      assert s[1..] == [];
      assert Unescape(s[1..], Quoted, false, false).0 == [];
    } else {
      assert s[1..][1..] == [];
      assert Unescape(s[1..][1..], Second(s[1], Digit(s[1])), false, false).0 == [];
      assert Unescape(s[1..], Quoted, false, false).0 == [];
    }
  }

  // What decoding makes of a raw "%" at the front: it puts out put, and goes on behind the first
  // taken bytes of the unescaped text. What it puts out never starts as the text does.
  datatype Front = Front(put: seq<byte>, taken: nat)

  function AfterPercent(y: seq<byte>): Front
    requires y != [] && y[0] == PERCENT
  {
    if |y| == 1 then Front([], 1)
    else if Escaped(ESCAPE_REFRESH, y[1]) then Front([PERCENT, Hex(y[1] / 16), Hex(y[1] % 16)], 2)
    else if Digit(y[1]) < 0 then Front([y[1]], 2)
    else if |y| == 2 then Front([], 2)
    else if Escaped(ESCAPE_REFRESH, y[2]) then Front([Hex(y[2] / 16), Hex(y[2] % 16)], 3)
    else if Digit(y[2]) < 0 then Front([], 3)
    else Front([Digit(y[1]) * 16 + Digit(y[2])], 3)
  }

  lemma DecodeRun(a: seq<byte>, rest: seq<byte>)
    requires forall i :: 0 <= i < |a| ==> a[i] != PERCENT
    ensures Decode(a + rest) == a + Decode(rest)
    decreases |a|
  {
    if a == [] {
      assert a + rest == rest;
    } else {
      DecodePlain(a[0], a[1..] + rest);
      DecodeRun(a[1..], rest);
      assert a + rest == [a[0]] + (a[1..] + rest);
    }
  }

  lemma RefreshStep(y: seq<byte>)
    requires y != []
    ensures Refresh(y) ==
      (if Escaped(ESCAPE_REFRESH, y[0]) then [PERCENT, Hex(y[0] / 16), Hex(y[0] % 16)] else [y[0]]) + Refresh(y[1..])
    ensures y[0] == PERCENT ==> !Escaped(ESCAPE_REFRESH, y[0])
    ensures Digit(y[0]) >= 0 ==> !Escaped(ESCAPE_REFRESH, y[0])
  {
    PercentIsEscaped(ESCAPE_REFRESH);
    if Digit(y[0]) >= 0 { RefreshKeepsDigits(y[0]); }
  }

  lemma DecodeAfterPercent(y: seq<byte>)
    requires y != [] && y[0] == PERCENT
    ensures AfterPercent(y).taken <= |y|
    ensures Decode(Refresh(y)) == AfterPercent(y).put + Decode(Refresh(y[AfterPercent(y).taken..]))
  {
    RefreshStep(y);
    if |y| == 1 {
      assert Refresh(y) == [PERCENT];
      DecodeCutOff(Refresh(y));
    } else if Escaped(ESCAPE_REFRESH, y[1]) || Digit(y[1]) < 0 {
      DecodeAfterPercentOther(y);
    } else if |y| == 2 {
      RefreshStep(y[1..]);
      assert y[1..][1..] == [];
      assert Refresh(y) == [PERCENT, y[1]];
      DecodeCutOff(Refresh(y));
    } else {
      RefreshStep(y[1..]);
      DecodeAfterPercentDigit(y);
    }
  }

  lemma DecodeAfterPercentOther(y: seq<byte>)
    requires |y| > 1 && y[0] == PERCENT && (Escaped(ESCAPE_REFRESH, y[1]) || Digit(y[1]) < 0)
    ensures Decode(Refresh(y)) == AfterPercent(y).put + Decode(Refresh(y[2..]))
  {
    RefreshStep(y);
    RefreshStep(y[1..]);
    assert y[1..][1..] == y[2..];
    var rest := Refresh(y[2..]);
    if Escaped(ESCAPE_REFRESH, y[1]) {
      var a, b := Hex(y[1] / 16), Hex(y[1] % 16);
      HexIsDigit(y[1] / 16);
      HexIsDigit(y[1] % 16);
      assert Refresh(y) == [PERCENT, PERCENT] + ([a, b] + rest);
      DecodeBadQuote(PERCENT, [a, b] + rest);
      DecodeRun([a, b], rest);
    } else {
      assert Refresh(y) == [PERCENT, y[1]] + rest;
      DecodeBadQuote(y[1], rest);
    }
  }

  lemma DecodeAfterPercentDigit(y: seq<byte>)
    requires |y| > 2 && y[0] == PERCENT && !Escaped(ESCAPE_REFRESH, y[0]) && !Escaped(ESCAPE_REFRESH, y[1]) && Digit(y[1]) >= 0
    ensures Decode(Refresh(y)) == AfterPercent(y).put + Decode(Refresh(y[3..]))
  {
    var rest, escaped := Refresh(y[3..]), Escaped(ESCAPE_REFRESH, y[2]);
    var a, b := Hex(y[2] / 16), Hex(y[2] % 16);
    assert Refresh(y) == [PERCENT, y[1]] + (if escaped then [PERCENT, a, b] else [y[2]]) + rest by {
      assert y[1..][1..] == y[2..] && y[2..][1..] == y[3..];
      RefreshStep(y);
      RefreshStep(y[1..]);
      RefreshStep(y[2..]);
    }
    if escaped {
      assert Refresh(y) == [PERCENT, y[1], PERCENT] + ([a, b] + rest);
      assert Decode(Refresh(y)) == Decode([a, b] + rest) by { DecodeBadSecond(y[1], PERCENT, [a, b] + rest); }
      assert Decode([a, b] + rest) == [a, b] + Decode(rest) by {
        HexIsDigit(y[2] / 16);
        HexIsDigit(y[2] % 16);
        DecodeRun([a, b], rest);
      }
    } else {
      assert Refresh(y) == [PERCENT, y[1], y[2]] + rest;
      if Digit(y[2]) < 0 { DecodeBadSecond(y[1], y[2], rest); } else { DecodeGoodPair(y[1], y[2], rest); }
    }
  }

  // decoding never gives back the text with something in front of it
  lemma {:induction false} DecodeAddsNoFront(u: seq<byte>, y: seq<byte>)
    requires u != []
    ensures Decode(Refresh(y)) != u + y
    decreases |y|
  {
    if y == [] {
      assert Decode(Refresh(y)) == [];
    } else if y[0] != PERCENT {
      DecodeByte(ESCAPE_REFRESH, y);
      Shifted(u, y, [y[0]], 1);
    } else {
      DecodeAfterPercent(y);
      var f := AfterPercent(y);
      FrontIsNoPrefix(u, y);
      if f.put <= u + y {
        Shifted(u, y, f.put, f.taken);
      }
    }
  }

  // if more is taken than put out, or the put bytes do not match, the lead u stays
  lemma FrontIsNoPrefix(u: seq<byte>, y: seq<byte>)
    requires u != [] && y != [] && y[0] == PERCENT
    ensures AfterPercent(y).put <= u + y ==> |AfterPercent(y).put| < |u| + AfterPercent(y).taken
  {
    if |y| > 1 && Escaped(ESCAPE_REFRESH, y[1]) && |u| == 1 {
      HexIsDigit(y[1] / 16);
      assert (u + y)[1] == PERCENT != AfterPercent(y).put[1];
    }
  }

  // the induction step of DecodeAddsNoFront
  lemma Shifted(u: seq<byte>, y: seq<byte>, put: seq<byte>, taken: nat)
    requires 0 < taken <= |y| && |put| < |u| + taken
    requires Decode(Refresh(y)) == put + Decode(Refresh(y[taken..]))
    ensures Decode(Refresh(y)) != u + y
    decreases |y|, 0
  {
    if Decode(Refresh(y)) == u + y {
      var lead := (u + y[..taken])[|put|..];
      assert u + y == (u + y[..taken]) + y[taken..];
      assert (u + y)[|put|..] == lead + y[taken..];
      assert Decode(Refresh(y[taken..])) == (u + y)[|put|..];
      DecodeAddsNoFront(lead, y[taken..]);
    }
  }

  // The escaped text decodes to the text exactly when its "%" bytes, if any, were escaped.
  lemma {:induction false} RoundTripExactly(t: EscapeType, s: seq<byte>)
    ensures Decode(Escape(t, s)) == s <==> (t == ESCAPE_REFRESH ==> PERCENT !in s)
  {
    if t == ESCAPE_REFRESH && PERCENT in s {
      PercentSpoils(s);
    } else {
      RoundTrip(t, s);
    }
  }

  lemma {:induction false} PercentSpoils(s: seq<byte>)
    requires PERCENT in s
    ensures Decode(Refresh(s)) != s
  {
    if s[0] != PERCENT {
      assert Decode(Refresh(s)) == [s[0]] + Decode(Refresh(s[1..])) by { DecodeByte(ESCAPE_REFRESH, s); }
      assert Decode(Refresh(s[1..])) != s[1..] by { PercentSpoils(s[1..]); }
    } else {
      FrontSpoils(s);
    }
  }

  lemma FrontSpoils(s: seq<byte>)
    requires s != [] && s[0] == PERCENT
    ensures Decode(Refresh(s)) != s
  {
    DecodeAfterPercent(s);
    var f := AfterPercent(s);
    FrontDiffers(s);
    if f.put <= s && Decode(Refresh(s)) == s {
      var lead := s[..f.taken][|f.put|..];
      assert s == s[..f.taken] + s[f.taken..];
      assert s[|f.put|..] == lead + s[f.taken..];
      assert Decode(Refresh(s[f.taken..])) == s[|f.put|..];
      DecodeAddsNoFront(lead, s[f.taken..]);
    }
  }

  lemma FrontDiffers(y: seq<byte>)
    requires y != [] && y[0] == PERCENT
    ensures AfterPercent(y).put <= y ==> |AfterPercent(y).put| < AfterPercent(y).taken
  {
    if |y| > 1 && Escaped(ESCAPE_REFRESH, y[1]) {
      HexIsDigit(y[1] / 16);
      RefreshStep([y[1]]);
    }
  }

  // ---------- the loops ----------

  // the pass without a destination counts the bytes to escape
  method CountEscapes(src: array<byte>, from: nat, size: nat, t: EscapeType) returns (n: nat)
    requires from + size <= src.Length
    ensures n == Count(t, src[from..from + size])
    ensures |Escape(t, src[from..from + size])| == size + 2 * n
  {
    n := 0;
    var s: nat, left: nat := from, size;
    while left > 0
      invariant s + left == from + size && from <= s
      invariant n + Count(t, src[s..from + size]) == Count(t, src[from..from + size])
    {
      assert src[s..from + size][1..] == src[s + 1..from + size];
      if Escaped(t, src[s]) {
        n := n + 1;
      }
      s, left := s + 1, left - 1;
    }
    EscapedLength(t, src[from..from + size]);
  }

  lemma EscapeSplits(t: EscapeType, c: byte, rest: seq<byte>)
    ensures Escape(t, [c] + rest) == Escape(t, [c]) + Escape(t, rest)
  {
    assert ([c] + rest)[1..] == rest && [c][1..] == [];
  }

  method EscapeByte(dst: array<byte>, to: nat, c: byte, t: EscapeType) returns (d: nat)
    requires to + |Escape(t, [c])| <= dst.Length
    modifies dst
    ensures d == to + |Escape(t, [c])| && dst[to..d] == Escape(t, [c])
    ensures forall i :: 0 <= i < to || d <= i < dst.Length ==> dst[i] == old(dst[i])
  {
    d := to;
    assert [c][1..] == [];
    if Escaped(t, c) {
      dst[d] := PERCENT;
      dst[d + 1] := Hex(c / 16);
      dst[d + 2] := Hex(c % 16);
      d := d + 3;
    } else {
      dst[d] := c;
      d := d + 1;
    }
  }

  method EscapeUri(dst: array<byte>, to: nat, src: array<byte>, from: nat, size: nat, t: EscapeType) returns (d: nat)
    requires from + size <= src.Length && dst != src
    requires to + |Escape(t, src[from..from + size])| <= dst.Length
    modifies dst
    ensures to <= d <= dst.Length && dst[to..d] == Escape(t, src[from..from + size])
    ensures forall i :: 0 <= i < to || d <= i < dst.Length ==> dst[i] == old(dst[i])
  {
    ghost var text, out := src[from..from + size], [];
    d := to;
    var s: nat, left: nat := from, size;
    assert text[0..] == text;
    while left > 0
      invariant s + left == from + size && from <= s
      invariant to <= d && d + |Escape(t, text[s - from..])| <= dst.Length
      invariant dst[to..d] == out && out + Escape(t, text[s - from..]) == Escape(t, text)
      invariant forall i :: 0 <= i < to || d <= i < dst.Length ==> dst[i] == old(dst[i])
      decreases left
    {
      ghost var rest := text[s + 1 - from..];
      assert text[s - from..] == [src[s]] + rest;
      EscapeSplits(t, src[s], rest);
      ghost var put := Escape(t, [src[s]]);
      assert out + (put + Escape(t, rest)) == out + put + Escape(t, rest);
      d := EscapeByte(dst, d, src[s], t);
      out := out + put;
      s, left := s + 1, left - 1;
    }
    assert text[s - from..] == [];
  }

  datatype Mode = SwUsual | SwQuoted | SwQuotedSecond

  // the loop variables state and decoded represent st after the byte at s - 1 was taken
  ghost predicate Represents(st: Quoting, state: Mode, decoded: int, first: byte)
  {
    match st
    case Usual => state == SwUsual
    case Quoted => state == SwQuoted
    case Second(f, v) => state == SwQuotedSecond && decoded == v && 0 <= v < 16 && first == f
  }

  // how many bytes were taken and not yet put out
  function Held(st: Quoting): nat
  {
    match st case Usual => 0 case Quoted => 1 case Second(_, _) => 2
  }

  // one turn of the unescape loop, on the byte ch = src[s - 1]
  method UnescapeByte(dst: array<byte>, to: nat, src: array<byte>, s: nat, state: Mode, decoded: int,
                      uri: bool, redirect: bool, ghost st: Quoting) returns (d: nat, next: Mode, value: int, done: bool)
    requires 0 < s <= src.Length && to + Held(st) < dst.Length && (st.Second? ==> s >= 2)
    requires Represents(st, state, decoded, if s >= 2 then src[s - 2] else 0)
    requires dst == src ==> to + Held(st) < s
    modifies dst
    ensures var (st', put, stop) := Turn(st, old(src[s - 1]), uri, redirect);
      && d == to + |put| && dst[to..d] == put && done == stop
      && (!done ==> Represents(st', next, value, old(src[s - 1])))
      && d + (if stop then 0 else Held(st')) <= to + Held(st) + 1
    ensures forall i :: 0 <= i < to || d <= i < dst.Length ==> dst[i] == old(dst[i])
  {
    var ch := src[s - 1];
    d, next, value, done := to, state, decoded, false;
    match state {
      case SwUsual =>
        if ch == QUESTION && (uri || redirect) {
          dst[d] := ch;
          d := d + 1;
          done := true;
        } else if ch == PERCENT {
          next := SwQuoted;
        } else {
          dst[d] := ch;
          d := d + 1;
        }
      case SwQuoted =>
        if Digit(ch) >= 0 {
          value := Digit(ch);
          next := SwQuotedSecond;
        } else {
          next := SwUsual;
          dst[d] := ch;
          d := d + 1;
        }
      case SwQuotedSecond =>
        next := SwUsual;
        if Digit(ch) >= 0 {
          var v: byte := (decoded * 16 + Digit(ch)) % 256;
          var decimal := 48 <= ch <= 57;
          if !decimal && (uri || redirect) && v == QUESTION {
            dst[d] := v;
            d := d + 1;
            done := true;
          } else if redirect && (decimal || !uri) && !(PERCENT < v < 0x7f) {
            dst[d] := PERCENT;
            dst[d + 1] := src[s - 2];
            dst[d + 2] := src[s - 1];
            d := d + 3;
          } else {
            dst[d] := v;
            d := d + 1;
          }
        }
    }
  }

  // One turn, seen from the start of the output; reading stays ahead of writing.
  method UnescapeTurn(dst: array<byte>, start: nat, to: nat, src: array<byte>, s: nat, state: Mode, decoded: int,
                      uri: bool, redirect: bool, ghost st: Quoting, ghost rest: seq<byte>)
    returns (d: nat, next: Mode, value: int, done: bool)
    requires rest != [] && Unread(src, s, rest)
    requires start <= to && to + Held(st) < dst.Length && (dst == src ==> to + Held(st) <= s)
    requires (st.Second? ==> s >= 1) && Represents(st, state, decoded, if s >= 1 then src[s - 1] else 0)
    modifies dst
    ensures var (st', put, stop) := Turn(st, rest[0], uri, redirect);
      && d == to + |put| && dst[start..d] == old(dst[start..to]) + put && done == stop
      && (!done ==> Represents(st', next, value, rest[0]) && (st'.Second? ==> src[s] == rest[0]))
      && d + (if stop then 0 else Held(st')) <= to + Held(st) + 1
    ensures Unread(src, s + 1, rest[1..])
    ensures forall i :: 0 <= i < start || d <= i < dst.Length ==> dst[i] == old(dst[i])
  {
    assert src[s] == rest[0];
    d, next, value, done := UnescapeByte(dst, to, src, s + 1, state, decoded, uri, redirect, st);
    assert dst[start..d] == dst[start..to] + dst[to..d];
    assert dst[start..to] == old(dst[start..to]);
  }

  // Unescapes size bytes of src into dst, which may be the same array at the same place or to the
  // left of it.
  method UnescapeUri(dst: array<byte>, to: nat, src: array<byte>, from: nat, size: nat, uri: bool, redirect: bool)
    returns (d: nat, s: nat)
    requires from + size <= src.Length && to + size <= dst.Length && (dst == src ==> to <= from)
    modifies dst
    ensures from <= s <= from + size && to <= d <= to + size
    ensures dst[to..d] == Unescape(old(src[from..from + size]), Usual, uri, redirect).0
    ensures s - from == Unescape(old(src[from..from + size]), Usual, uri, redirect).1
    ensures forall i :: 0 <= i < to || d <= i < dst.Length ==> dst[i] == old(dst[i])
  {
    ghost var rest, st := src[from..from + size], Usual;
    ghost var goal := Unescape(rest, Usual, uri, redirect);
    d, s := to, from;
    var left: nat := size;
    var state, decoded := SwUsual, 0;
    while left > 0
      invariant left == |rest| && s + left == from + size && from <= s && to <= d && d - to + Held(st) <= s - from
      invariant Unread(src, s, rest)
      invariant forall i :: 0 <= i < to || d <= i < dst.Length ==> dst[i] == old(dst[i])
      invariant (st.Second? ==> s >= 1) && Represents(st, state, decoded, if s >= 1 then src[s - 1] else 0)
      invariant Conserved(goal, dst[to..d], s - from, Unescape(rest, st, uri, redirect))
      decreases left
    {
      var done;
      ghost var (st', put, stop) := Turn(st, rest[0], uri, redirect);
      ghost var out := dst[to..d];
      d, state, decoded, done := UnescapeTurn(dst, to, d, src, s, state, decoded, uri, redirect, st, rest);
      ConservedNext(goal, out, put, s - from, if stop then ([], 0) else Unescape(rest[1..], st', uri, redirect));
      s, left := s + 1, left - 1;
      if done {
        return;
      }
      st, rest := st', rest[1..];
    }
  }

  // what was put out and read so far and what is to come make up the whole
  ghost predicate Conserved(goal: (seq<byte>, nat), out: seq<byte>, n: nat, rest: (seq<byte>, nat))
  {
    goal.0 == out + rest.0 && goal.1 == n + rest.1
  }

  lemma ConservedNext(goal: (seq<byte>, nat), out: seq<byte>, put: seq<byte>, n: nat, rest: (seq<byte>, nat))
    requires goal.0 == out + (put + rest.0) && goal.1 == n + (1 + rest.1)
    ensures Conserved(goal, out + put, n + 1, rest)
    ensures rest == ([], 0) ==> goal == (out + put, n + 1)
  {
    Regroup(out, put, rest.0);
    assert put + [] == put;
  }
}
