// Formatted printing into a bounded buffer.
module Format {
  import opened Base

  const INT64_LEN := 20
  const NO_LENGTH: uint64 := 0xffff_ffff_ffff_ffff

  // an argument: a machine word, or a string with its bytes
  datatype Arg = Word(bits: uint64) | Text(data: string)

  datatype Spec = Spec(zero: char, width: nat, sign: bool, hex: nat, maxWidth: bool, slen: uint64)

  predicate IsDigit(c: char)
  {
    '0' <= c <= '9'
  }

  function DigitOf(d: nat, upper: bool): char
    requires d < 16
  {
    if d < 10 then '0' + d as char else (if upper then 'A' else 'a') + (d - 10) as char
  }

  // the value of a digit of either case, or -1
  function ValueOf(c: char): int
  {
    if '0' <= c <= '9' then (c - '0') as int
    else if 'a' <= c <= 'f' then (c - 'a') as int + 10
    else if 'A' <= c <= 'F' then (c - 'A') as int + 10
    else -1
  }

  // a number in base ten or sixteen
  function Numeral(v: nat, base: nat, upper: bool): string
    requires 2 <= base <= 16
  {
    (if v < base then "" else Numeral(v / base, base, upper)) + [DigitOf(v % base, upper)]
  }

  function Reading(s: string, base: nat): int
  {
    if s == "" then 0 else Reading(s[..|s| - 1], base) * base + ValueOf(s[|s| - 1])
  }

  // the value of a digit is the digit, and a number is its digits' worth
  lemma DigitReads(v: nat, base: nat, upper: bool)
    requires base == 10 || base == 16
    ensures ValueOf(DigitOf(v % base, upper)) == v % base
    ensures v / base * base + v % base == v
  {
    if base == 10 {
      assert v / 10 * 10 + v % 10 == v;
    } else {
      assert v / 16 * 16 + v % 16 == v;
    }
  }

  lemma {:induction false} NumeralReads(v: nat, base: nat, upper: bool)
    requires base == 10 || base == 16
    ensures Reading(Numeral(v, base, upper), base) == v
  {
    var s := Numeral(v, base, upper);
    var high := s[..|s| - 1];
    DigitReads(v, base, upper);
    if v >= base {
      NumeralReads(v / base, base, upper);
      assert high == Numeral(v / base, base, upper);
    } else {
      assert v / base == 0;
    }
    assert Reading(s, base) == Reading(high, base) * base + ValueOf(s[|s| - 1]);
  }

  function Power(b: nat, n: nat): nat
  {
    if n == 0 then 1 else b * Power(b, n - 1)
  }

  lemma {:induction false} NumeralLength(v: nat, base: nat, upper: bool, n: nat)
    requires (base == 10 || base == 16) && 0 < n && v < Power(base, n)
    ensures 1 <= |Numeral(v, base, upper)| <= n
    ensures v >= base ==> Numeral(v, base, upper)[0] != '0'
  {
    if v >= base {
      if base == 10 {
        assert Power(10, n) == 10 * Power(10, n - 1);
      } else {
        assert Power(16, n) == 16 * Power(16, n - 1);
      }
      NumeralLength(v / base, base, upper, n - 1);
    }
  }

  // Every 64-bit number has at most twenty decimal and at most sixteen hexadecimal digits.
  lemma {:induction false} ScratchSuffices(v: uint64, upper: bool)
    ensures |Numeral(v, 10, upper)| <= INT64_LEN
    ensures |Numeral(v, 16, upper)| <= 16
  {
    assert Power(10, 4) == 10000;
    assert Power(10, 8) == 10000 * Power(10, 4);
    assert Power(10, 12) == 10000 * Power(10, 8);
    assert Power(10, 16) == 10000 * Power(10, 12);
    assert Power(10, 20) == 10000 * Power(10, 16);
    NumeralLength(v, 10, upper, 20);
    assert Power(16, 4) == 0x1_0000;
    assert Power(16, 8) == 0x1_0000 * Power(16, 4);
    assert Power(16, 12) == 0x1_0000 * Power(16, 8);
    assert Power(16, 16) == 0x1_0000 * Power(16, 12);
    NumeralLength(v, 16, upper, 16);
  }

  function Repeat(c: char, n: int): string
  {
    if n <= 0 then "" else Repeat(c, n - 1) + [c]
  }

  function Digits(v: nat, hex: nat): string
  {
    if hex == 0 then Numeral(v, 10, false) else Numeral(v, 16, hex != 1)
  }

  function Padded(v: nat, zero: char, hex: nat, width: nat): string
  {
    Repeat(zero, width - |Digits(v, hex)|) + Digits(v, hex)
  }

  // a number with its sign, which the width does not count
  function Signed(v: int, st: Spec): string
  {
    (if v < 0 then "-" else "") + Padded(if v < 0 then -v else v, st.zero, st.hex, st.width)
  }

  lemma {:induction false} RepeatIs(c: char, n: int)
    ensures |Repeat(c, n)| == if n < 0 then 0 else n
    ensures forall j :: 0 <= j < |Repeat(c, n)| ==> Repeat(c, n)[j] == c
  {
    if n > 0 { RepeatIs(c, n - 1); }
  }

  // the digits of a number without its sign
  function Magnitude(v: int, hex: nat): string
  {
    Digits(if v < 0 then -v else v, hex)
  }

  // The minus sign comes on top of the width.
  lemma {:induction false} SignedLength(v: int, st: Spec)
    ensures var digits := |Magnitude(v, st.hex)|;
            |Signed(v, st)| == (if v < 0 then 1 else 0) + (if st.width < digits then digits else st.width)
  {
    RepeatIs(st.zero, st.width - |Magnitude(v, st.hex)|);
  }

  // A width is the number of characters printed exactly if the number is not negative or, with its
  // sign, it needs more than the width anyway.
  lemma {:induction false} WidthIsKeptIff(v: int, st: Spec)
    ensures var shortest := |Magnitude(v, st.hex)| + if v < 0 then 1 else 0;
            |Signed(v, st)| == (if st.width < shortest then shortest else st.width) <==>
            v >= 0 || st.width <= |Magnitude(v, st.hex)|
  {
    SignedLength(v, st);
  }

  function SignExtend(bits: nat, size: nat): int
    requires 0 < size
  {
    var b := bits % size;
    if b < size / 2 then b else b - size
  }

  // the decimal number in the format from i on, and where it ends
  function ScanNumber(fmt: string, i: nat, acc: nat): (nat, nat)
    requires i <= |fmt|
    ensures i <= ScanNumber(fmt, i, acc).1 <= |fmt|
    decreases |fmt| - i
  {
    if i < |fmt| && IsDigit(fmt[i]) then ScanNumber(fmt, i + 1, acc * 10 + (fmt[i] - '0') as nat)
    else (acc, i)
  }

  // the flags from i on: where they end, what they say, and how many arguments are used by then
  function ScanFlags(fmt: string, i: nat, st: Spec, args: seq<Arg>, a: nat): (r: Option<(nat, Spec, nat)>)
    requires i <= |fmt| && a <= |args|
    ensures r.Some? ==> i <= r.value.0 <= |fmt| && a <= r.value.2 <= |args|
    decreases |fmt| - i
  {
    if i == |fmt| then Some((i, st, a))
    else if fmt[i] == 'u' then ScanFlags(fmt, i + 1, st.(sign := false), args, a)
    else if fmt[i] == 'm' then ScanFlags(fmt, i + 1, st.(maxWidth := true), args, a)
    else if fmt[i] == 'X' then ScanFlags(fmt, i + 1, st.(hex := 2, sign := false), args, a)
    else if fmt[i] == 'x' then ScanFlags(fmt, i + 1, st.(hex := 1, sign := false), args, a)
    else if fmt[i] == '.' then Some((ScanNumber(fmt, i + 1, 0).1, st, a))
    else if fmt[i] == '*' then
      if a < |args| && args[a].Word? then ScanFlags(fmt, i + 1, st.(slen := args[a].bits), args, a + 1) else None
    else Some((i, st, a))
  }

  predicate IsNumber(c: char)
  {
    || c == 'O' || c == 'P' || c == 'T' || c == 'M' || c == 'z' || c == 'i' || c == 'd' || c == 'l' || c == 'D'
    || c == 'L' || c == 'A' || c == 'r' || c == 'p'
  }

  // the value of an integer argument, and the way it is printed
  function Integer(c: char, st: Spec, bits: uint64): (int, Spec)
  {
    var wide := if st.sign then SignExtend(bits, 0x1_0000_0000_0000_0000) else bits;
    var narrow := if st.sign then SignExtend(bits, 0x1_0000_0000) else bits % 0x1_0000_0000;
    match c
    case 'O' => (SignExtend(bits, 0x1_0000_0000_0000_0000), st)
    case 'T' => (SignExtend(bits, 0x1_0000_0000_0000_0000), st)
    case 'r' => (SignExtend(bits, 0x1_0000_0000_0000_0000), st)
    case 'P' => (SignExtend(bits, 0x1_0000_0000), st)
    case 'M' => (if bits == 0xffff_ffff_ffff_ffff then -1 else bits, st)
    case 'd' => (narrow, st)
    case 'D' => (narrow, st)
    case 'i' => (wide, if st.maxWidth then st.(width := INT64_LEN) else st)
    case 'A' => (wide, if st.maxWidth then st.(width := INT64_LEN) else st)
    case 'p' => (bits, st.(hex := 2, zero := '0', width := 16))
    case _ => (wide, st)
  }

  // the bytes of a string argument up to its terminator
  function CString(data: string): (s: string)
    ensures |s| <= |data| && s == data[..|s|]
  {
    if data == "" || data[0] == '\0' then "" else [data[0]] + CString(data[1..])
  }

  // what a conversion prints, and whether it uses an argument; none if the argument does not fit it
  // or the conversion prints a floating-point number
  function Convert(c: char, st: Spec, args: seq<Arg>, a: nat): Option<(string, nat)>
    requires a <= |args|
  {
    if c == 'f' then None
    else if c == 'Z' then Some((['\0'], a))
    else if c == 'N' then Some(("\n", a))
    else if c == 'V' || c == 'v' || c == 's' then
      if a == |args| || args[a].Word? then None
      else
        var data := args[a].data;
        if c != 's' then Some((data, a + 1))
        else if st.slen == NO_LENGTH then Some((CString(data), a + 1))
        else if st.slen <= |data| then Some((data[..st.slen], a + 1))
        else None
    else if c == 'c' || IsNumber(c) then
      if a == |args| || args[a].Text? then None
      else if c == 'c' then Some(([(args[a].bits % 256) as char], a + 1))
      else
        var (v, to) := Integer(c, st, args[a].bits);
        Some((Signed(v, to), a + 1))
    else Some(([c], a))
  }

  function Start(fmt: string, i: nat): Spec
    requires i <= |fmt|
  {
    Spec(if i < |fmt| && fmt[i] == '0' then '0' else ' ', ScanNumber(fmt, i, 0).0, true, 0, false, NO_LENGTH)
  }

  // One directive, whose percent sign is at i: what it prints, where it ends, and how many
  // arguments are used by then. There is none if the format ends within it.
  function Directive(fmt: string, i: nat, args: seq<Arg>, a: nat): (r: Option<(string, nat, nat)>)
    requires i < |fmt| && a <= |args|
    ensures r.Some? ==> i < r.value.1 <= |fmt| && a <= r.value.2 <= |args|
  {
    var flags := ScanFlags(fmt, ScanNumber(fmt, i + 1, 0).1, Start(fmt, i + 1), args, a);
    if flags.None? || flags.value.0 == |fmt| then None
    else
      var (j, st, b) := flags.value;
      var text := Convert(fmt[j], st, args, b);
      if text.None? then None else Some((text.value.0, j + 1, text.value.1))
  }

  // everything that the format prints from i on
  function Output(fmt: string, i: nat, args: seq<Arg>, a: nat): Option<string>
    requires i <= |fmt| && a <= |args|
    decreases |fmt| - i
  {
    if i == |fmt| then Some("")
    else if fmt[i] != '%' then
      var rest := Output(fmt, i + 1, args, a);
      if rest.None? then None else Some([fmt[i]] + rest.value)
    else
      var d := Directive(fmt, i, args, a);
      if d.None? then None
      else
        var rest := Output(fmt, d.value.1, args, d.value.2);
        if rest.None? then None else Some(d.value.0 + rest.value)
  }

  // a directive, and a character, before the rest of the output
  lemma OutputDirective(fmt: string, i: nat, args: seq<Arg>, a: nat, rest: string)
    requires i < |fmt| && a <= |args| && fmt[i] == '%' && Directive(fmt, i, args, a).Some?
    requires var d := Directive(fmt, i, args, a).value; Output(fmt, d.1, args, d.2) == Some(rest)
    ensures Output(fmt, i, args, a) == Some(Directive(fmt, i, args, a).value.0 + rest)
  {
  }

  lemma OutputChar(fmt: string, i: nat, args: seq<Arg>, a: nat, rest: string)
    requires i < |fmt| && a <= |args| && fmt[i] != '%' && Output(fmt, i + 1, args, a) == Some(rest)
    ensures Output(fmt, i, args, a) == Some([fmt[i]] + rest)
  {
  }

  lemma OutputUnsigned(fmt: string, i: nat, args: seq<Arg>, a: nat, rest: string)
    requires i + 2 < |fmt| && fmt[i] == '%' && (fmt[i + 1] == 'u' || fmt[i + 1] == 'x') && fmt[i + 2] == 'd'
    requires a < |args| && args[a].Word? && args[a].bits < 0x1_0000_0000
    requires Output(fmt, i + 3, args, a + 1) == Some(rest)
    ensures Output(fmt, i, args, a) == Some(Numeral(args[a].bits, if fmt[i + 1] == 'x' then 16 else 10, false) + rest)
  {
    UnsignedDirective(fmt, i, args, a);
    OutputDirective(fmt, i, args, a, rest);
  }

  // "%ud" and "%xd" print the lower half of a word, in base ten or sixteen and without padding
  lemma UnsignedDirective(fmt: string, i: nat, args: seq<Arg>, a: nat)
    requires i + 2 < |fmt| && fmt[i] == '%' && (fmt[i + 1] == 'u' || fmt[i + 1] == 'x') && fmt[i + 2] == 'd'
    requires a < |args| && args[a].Word? && args[a].bits < 0x1_0000_0000
    ensures Directive(fmt, i, args, a) ==
            Some((Numeral(args[a].bits, if fmt[i + 1] == 'x' then 16 else 10, false), i + 3, a + 1))
  {
    var st := Start(fmt, i + 1);
    assert st == Spec(' ', 0, true, 0, false, NO_LENGTH);
    var to := if fmt[i + 1] == 'x' then st.(hex := 1, sign := false) else st.(sign := false);
    var flags: Option<(nat, Spec, nat)> := Some((i + 2, to, a));
    assert ScanNumber(fmt, i + 1, 0) == (0, i + 1);
    assert ScanFlags(fmt, i + 2, to, args, a) == flags;
    assert ScanFlags(fmt, i + 1, st, args, a) == flags;
    var v := args[a].bits;
    assert Integer('d', to, v) == (v, to);
    var digits := Numeral(v, if fmt[i + 1] == 'x' then 16 else 10, false);
    assert Signed(v, to) == "" + (Repeat(' ', 0 - |digits|) + digits) == digits;
    var text: Option<(string, nat)> := Some((digits, a + 1));
    assert Convert('d', to, args, a) == text;
  }

  // "%5d" prints -3 in six characters.
  lemma {:induction false} WidthIsExceeded()
    ensures Output("%5d", 0, [Word(0xffff_fffd)], 0) == Some("-    3")
  {
    var fmt, args := "%5d", [Word(0xffff_fffd)];
    var st := Spec(' ', 5, true, 0, false, NO_LENGTH);
    assert ScanNumber(fmt, 1, 0) == (5, 2) by {
      assert ScanNumber(fmt, 2, 5) == (5, 2);
    }
    assert Start(fmt, 1) == st;
    var flags: Option<(nat, Spec, nat)> := Some((2, st, 0));
    assert ScanFlags(fmt, 2, st, args, 0) == flags;
    assert SignExtend(0xffff_fffd, 0x1_0000_0000) == -3;
    assert Integer('d', st, 0xffff_fffd) == (-3, st);
    assert Repeat(' ', 4) == "    ";
    assert Signed(-3, st) == "-    3";
    var text: Option<(string, nat)> := Some(("-    3", 1));
    assert Convert('d', st, args, 0) == text;
    var whole: Option<(string, nat, nat)> := Some(("-    3", 3, 1));
    assert Directive(fmt, 0, args, 0) == whole;
    OutputDirective(fmt, 0, args, 0, "");
    assert "-    3" + "" == "-    3";
  }
}

module Printf {
  import opened Base
  import opened Format

  // where writing text at n gets to when it must stop at last
  function Reach(n: nat, last: nat, text: string): nat
    requires n <= last
  {
    if |text| <= last - n then n + |text| else last
  }

  // what text of the text fits was written at n, and nothing else changed
  ghost predicate Wrote(before: string, after: string, n: nat, m: nat, last: nat, text: string)
  {
    && n <= last <= |before| && |after| == |before| && m == Reach(n, last, text)
    && forall j :: 0 <= j < |after| ==> after[j] == if n <= j < m then text[j - n] else before[j]
  }

  lemma WroteBoth(s0: string, s1: string, s2: string, n: nat, m: nat, k: nat, last: nat, t: string, u: string)
    requires Wrote(s0, s1, n, m, last, t) && Wrote(s1, s2, m, k, last, u)
    ensures Wrote(s0, s2, n, k, last, t + u)
  {
  }

  // a full buffer holds the front of whatever comes after as well
  lemma WroteFull(s0: string, s1: string, n: nat, last: nat, t: string, u: string)
    requires Wrote(s0, s1, n, last, last, t)
    ensures Wrote(s0, s1, n, last, last, t + u)
  {
  }

  // Of the same text, the shorter buffer gets the front of what the longer one gets.
  lemma TruncationIsPrefix(s0: string, s1: string, n: nat, m: nat, last: nat,
                           r0: string, r1: string, p: nat, q: nat, end: nat, text: string)
    requires Wrote(s0, s1, n, m, last, text) && Wrote(r0, r1, p, q, end, text) && last - n <= end - p
    ensures s1[n..m] == r1[p..q][..m - n] && (m < last ==> m - n == q - p)
  {
    assert |s1[n..m]| == m - n && |r1[p..q]| == q - p;
    forall j | 0 <= j < m - n ensures s1[n..m][j] == r1[p..q][j] {
      assert s1[n + j] == text[j] && r1[p + j] == text[j];
    }
  }

  // the plain character, one place of which is known to be free
  method PutChar(buf: array<char>, n: nat, last: nat, c: char) returns (m: nat)
    requires n < last <= buf.Length
    modifies buf
    ensures m == n + 1 && Wrote(old(buf[..]), buf[..], n, m, last, [c])
  {
    buf[n] := c;
    m := n + 1;
  }

  // a copy of as much of text as there is room for
  method Copy(buf: array<char>, n: nat, last: nat, text: string) returns (m: nat)
    requires n <= last <= buf.Length
    modifies buf
    ensures Wrote(old(buf[..]), buf[..], n, m, last, text)
  {
    var len := if last - n < |text| then last - n else |text|;
    forall j | 0 <= j < len {
      buf[n + j] := text[j];
    }
    m := n + len;
  }

  // The padding loop: len counts up to width.
  method Pad(buf: array<char>, n: nat, last: nat, c: char, len: nat, width: nat) returns (m: nat)
    requires n <= last <= buf.Length
    modifies buf
    ensures Wrote(old(buf[..]), buf[..], n, m, last, Repeat(c, width - len))
  {
    m := n;
    var i := len;
    while i < width && m < last
      invariant len <= i && (i <= width || i == len) && m == n + (i - len) <= last
      invariant forall j :: 0 <= j < buf.Length ==> buf[j] == if n <= j < m then c else old(buf[j])
    {
      buf[m] := c;
      m := m + 1;
      i := i + 1;
    }
    RepeatIs(c, width - len);
  }

  lemma NumeralStep(v: nat, base: nat, upper: bool)
    requires base == 10 || base == 16
    ensures 0 <= v % base < 16 && 0 <= v / base && (v / base == 0 <==> v < base) && (v / base != 0 ==> v / base < v)
    ensures Numeral(v, base, upper) ==
            (if v / base == 0 then "" else Numeral(v / base, base, upper)) + [DigitOf(v % base, upper)]
  {
    if base == 10 {
      assert v / 10 <= v;
    } else {
      assert v / 16 <= v;
    }
  }

  // One digit, the last of those that are left of the whole number.
  method FillDigit(temp: array<char>, p: nat, left: nat, base: nat, upper: bool, ghost whole: string) returns (p': nat, left': nat)
    requires p <= INT64_LEN < temp.Length && (base == 10 || base == 16) && |whole| <= INT64_LEN
    requires whole == Numeral(left, base, upper) + temp[p..INT64_LEN]
    modifies temp
    ensures p' <= INT64_LEN && (left' != 0 ==> left' < left) && (left' == 0 ==> whole == temp[p'..INT64_LEN])
    ensures left' != 0 ==> whole == Numeral(left', base, upper) + temp[p'..INT64_LEN]
  {
    ghost var done, digit := temp[p..INT64_LEN], [DigitOf(left % base, upper)];
    NumeralStep(left, base, upper);
    p', left' := p - 1, left / base;
    temp[p'] := DigitOf(left % base, upper);
    assert temp[p'..INT64_LEN] == digit + done;
    Regroup(if left' == 0 then "" else Numeral(left', base, upper), digit, done);
    assert "" + (digit + done) == digit + done;
  }

  // Write the digits of v backwards from the end of the scratch area.
  method FillDigits(temp: array<char>, v: uint64, base: nat, upper: bool) returns (p: nat)
    requires temp.Length == INT64_LEN + 1 && (base == 10 || base == 16)
    modifies temp
    ensures p <= INT64_LEN && temp[p..INT64_LEN] == Numeral(v, base, upper)
  {
    p := INT64_LEN;
    var left: nat := v;
    ScratchSuffices(v, upper);
    assert Numeral(v, base, upper) == Numeral(left, base, upper) + temp[p..INT64_LEN];
    while true
      invariant p <= INT64_LEN
      invariant Numeral(v, base, upper) == Numeral(left, base, upper) + temp[p..INT64_LEN]
      decreases left
    {
      p, left := FillDigit(temp, p, left, base, upper, Numeral(v, base, upper));
      if left == 0 {
        break;
      }
    }
  }

  method SprintfNum(buf: array<char>, n: nat, last: nat, v: uint64, zero: char, hex: nat, width: nat) returns (m: nat)
    requires n <= last <= buf.Length
    modifies buf
    ensures Wrote(old(buf[..]), buf[..], n, m, last, Padded(v, zero, hex, width))
  {
    var temp := new char[INT64_LEN + 1];
    var p;
    if hex == 0 {
      p := FillDigits(temp, v, 10, false);
    } else if hex == 1 {
      p := FillDigits(temp, v, 16, false);
    } else {
      p := FillDigits(temp, v, 16, true);
    }
    var digits := temp[p..INT64_LEN];
    m := Pad(buf, n, last, zero, |digits|, width);
    ghost var mid, k := buf[..], m;
    m := Copy(buf, m, last, digits);
    WroteBoth(old(buf[..]), mid, buf[..], n, k, m, last, Repeat(zero, width - |digits|), digits);
  }

  // a number with its sign
  method PutSigned(buf: array<char>, n: nat, last: nat, v: int, st: Spec) returns (m: nat)
    requires n < last <= buf.Length && -0x8000_0000_0000_0000 <= v < 0x1_0000_0000_0000_0000
    modifies buf
    ensures Wrote(old(buf[..]), buf[..], n, m, last, Signed(v, st))
  {
    m := n;
    var magnitude := v;
    ghost var mid, k, sign := buf[..], n, "";
    if v < 0 {
      m := PutChar(buf, n, last, '-');
      magnitude := -v;
      mid, k, sign := buf[..], m, "-";
    }
    m := SprintfNum(buf, m, last, magnitude, st.zero, st.hex, st.width);
    WroteBoth(old(buf[..]), mid, buf[..], n, k, m, last, sign, Padded(magnitude, st.zero, st.hex, st.width));
  }

  // Copy up to the terminator.
  method CopyString(buf: array<char>, n: nat, last: nat, data: string) returns (m: nat)
    requires n <= last <= buf.Length
    modifies buf
    ensures Wrote(old(buf[..]), buf[..], n, m, last, CString(data))
  {
    m := n;
    var i := 0;
    ghost var done := "";
    assert data[0..] == data;
    while i < |data| && data[i] != '\0' && m < last
      invariant 0 <= i <= |data|
      invariant CString(data) == done + CString(data[i..])
      invariant Wrote(old(buf[..]), buf[..], n, m, last, done)
    {
      ghost var was, mid, text, rest := buf[..], m, [data[i]], CString(data[i + 1..]);
      assert data[i..][1..] == data[i + 1..];
      Regroup(done, text, rest);
      m := PutChar(buf, m, last, data[i]);
      WroteBoth(old(buf[..]), was, buf[..], n, mid, m, last, done, text);
      done := done + text;
      i := i + 1;
    }
    if m == last {
      WroteFull(old(buf[..]), buf[..], n, last, done, CString(data[i..]));
    }
  }

  method ReadNumber(fmt: string, i: nat) returns (v: nat, j: nat)
    requires i <= |fmt|
    ensures (v, j) == ScanNumber(fmt, i, 0)
  {
    v, j := 0, i;
    while j < |fmt| && IsDigit(fmt[j])
      invariant j <= |fmt| && ScanNumber(fmt, i, 0) == ScanNumber(fmt, j, v)
    {
      v := v * 10 + (fmt[j] - '0') as nat;
      j := j + 1;
    }
  }

  method ReadFlags(fmt: string, i: nat, st: Spec, args: seq<Arg>, a: nat) returns (j: nat, to: Spec, b: nat)
    requires i <= |fmt| && a <= |args| && ScanFlags(fmt, i, st, args, a).Some?
    ensures ScanFlags(fmt, i, st, args, a) == Some((j, to, b))
  {
    j, to, b := i, st, a;
    while j < |fmt|
      invariant j <= |fmt| && b <= |args| && ScanFlags(fmt, i, st, args, a) == ScanFlags(fmt, j, to, args, b)
      decreases |fmt| - j
    {
      if fmt[j] == 'u' {
        to := to.(sign := false);
      } else if fmt[j] == 'm' {
        to := to.(maxWidth := true);
      } else if fmt[j] == 'X' {
        to := to.(hex := 2, sign := false);
      } else if fmt[j] == 'x' {
        to := to.(hex := 1, sign := false);
      } else if fmt[j] == '.' {
        var fraction;
        fraction, j := ReadNumber(fmt, j + 1);
        return;
      } else if fmt[j] == '*' {
        to := to.(slen := args[b].bits);
        b := b + 1;
      } else {
        return;
      }
      j := j + 1;
    }
  }

  // What follows the flags.
  method PutConversion(buf: array<char>, n: nat, last: nat, c: char, st: Spec, args: seq<Arg>, a: nat)
    returns (m: nat, b: nat)
    requires n < last <= buf.Length && a <= |args| && Convert(c, st, args, a).Some?
    modifies buf
    ensures b == Convert(c, st, args, a).value.1
    ensures Wrote(old(buf[..]), buf[..], n, m, last, Convert(c, st, args, a).value.0)
  {
    b := a;
    if c == 'V' || c == 'v' {
      m := Copy(buf, n, last, args[a].data);
      b := a + 1;
    } else if c == 's' {
      if st.slen == NO_LENGTH {
        m := CopyString(buf, n, last, args[a].data);
      } else {
        m := Copy(buf, n, last, args[a].data[..st.slen]);
      }
      b := a + 1;
    } else if c == 'c' {
      m := PutChar(buf, n, last, (args[a].bits % 256) as char);
      b := a + 1;
    } else if c == 'Z' {
      m := PutChar(buf, n, last, '\0');
    } else if c == 'N' {
      m := PutChar(buf, n, last, '\n');
    } else if IsNumber(c) {
      var (v, to) := Integer(c, st, args[a].bits);
      m := PutSigned(buf, n, last, v, to);
      b := a + 1;
    } else {
      m := PutChar(buf, n, last, c);
    }
  }

  // One directive, whose percent sign is at i.
  method PutDirective(buf: array<char>, n: nat, last: nat, fmt: string, i: nat, args: seq<Arg>, a: nat)
    returns (m: nat, j: nat, b: nat)
    requires n < last <= buf.Length && i < |fmt| && a <= |args| && Directive(fmt, i, args, a).Some?
    modifies buf
    ensures (j, b) == (Directive(fmt, i, args, a).value.1, Directive(fmt, i, args, a).value.2)
    ensures Wrote(old(buf[..]), buf[..], n, m, last, Directive(fmt, i, args, a).value.0)
  {
    j := i + 1;
    var zero := if j < |fmt| && fmt[j] == '0' then '0' else ' ';
    var width;
    width, j := ReadNumber(fmt, j);
    var st := Spec(zero, width, true, 0, false, NO_LENGTH);
    assert st == Start(fmt, i + 1);
    j, st, b := ReadFlags(fmt, j, st, args, a);
    m, b := PutConversion(buf, n, last, fmt[j], st, args, b);
    j := j + 1;
  }

  // what the format prints first, and all it prints after that
  ghost function Piece(fmt: string, i: nat, args: seq<Arg>, a: nat): string
    requires i < |fmt| && a <= |args| && Output(fmt, i, args, a).Some?
  {
    if fmt[i] == '%' then Directive(fmt, i, args, a).value.0 else [fmt[i]]
  }

  ghost function Remainder(fmt: string, i: nat, args: seq<Arg>, a: nat): (rest: string)
    requires i < |fmt| && a <= |args| && Output(fmt, i, args, a).Some?
    ensures Output(fmt, i, args, a).value == Piece(fmt, i, args, a) + rest
  {
    if fmt[i] == '%' then
      Output(fmt, Directive(fmt, i, args, a).value.1, args, Directive(fmt, i, args, a).value.2).value
    else Output(fmt, i + 1, args, a).value
  }

  // Bounded printing writes the front of the whole output, as much as fits, and nothing else.
  method Vslprintf(buf: array<char>, start: nat, last: nat, fmt: string, args: seq<Arg>) returns (n: nat)
    requires start <= last <= buf.Length && '\0' !in fmt && Output(fmt, 0, args, 0).Some?
    modifies buf
    ensures Wrote(old(buf[..]), buf[..], start, n, last, Output(fmt, 0, args, 0).value)
  {
    n := start;
    var i, a := 0, 0;
    ghost var done := "";
    ghost var whole := Output(fmt, 0, args, 0).value;
    while i < |fmt| && n < last
      invariant 0 <= i <= |fmt| && 0 <= a <= |args| && Output(fmt, i, args, a).Some?
      invariant whole == done + Output(fmt, i, args, a).value
      invariant Wrote(old(buf[..]), buf[..], start, n, last, done)
      decreases |fmt| - i
    {
      ghost var was, mid, text, rest := buf[..], n, Piece(fmt, i, args, a), Remainder(fmt, i, args, a);
      Regroup(done, text, rest);
      if fmt[i] == '%' {
        n, i, a := PutDirective(buf, n, last, fmt, i, args, a);
      } else {
        n := PutChar(buf, n, last, fmt[i]);
        i := i + 1;
      }
      WroteBoth(old(buf[..]), was, buf[..], start, mid, n, last, done, text);
      done := done + text;
    }
    if n == last {
      WroteFull(old(buf[..]), buf[..], start, last, done, Output(fmt, i, args, a).value);
    }
  }
}
