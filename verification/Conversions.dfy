// What each conversion of a format prints, told by the directive as it is spelled.
module Conversions {
  import opened Base
  import opened Format

  // t stands at position i of fmt
  predicate At(fmt: string, i: nat, t: string)
  {
    i + |t| <= |fmt| && fmt[i..i + |t|] == t
  }

  lemma {:induction false} AtParts(fmt: string, i: nat, a: string, b: string)
    requires At(fmt, i, a + b)
    ensures At(fmt, i, a) && At(fmt, i + |a|, b)
  {
    assert fmt[i..i + |a|] == fmt[i..i + |a + b|][..|a|] == a;
    assert fmt[i + |a|..i + |a| + |b|] == fmt[i..i + |a + b|][|a|..] == b;
  }

  // a zero asks for padding with zeros, and no digits at all for no width
  function Width(zero: bool, width: nat): string
  {
    (if zero then "0" else "") + (if width > 0 then Numeral(width, 10, false) else "")
  }

  // a format with one directive
  function Spelled(zero: bool, width: nat, flag: string, c: char): string
  {
    "%" + (Width(zero, width) + (flag + [c]))
  }

  // ---------- scanning a directive ----------

  lemma {:induction false} NumeralDigits(v: nat)
    ensures |Numeral(v, 10, false)| > 0 && forall k :: 0 <= k < |Numeral(v, 10, false)| ==> IsDigit(Numeral(v, 10, false)[k])
    ensures v > 0 ==> Numeral(v, 10, false)[0] != '0'
  {
    if v >= 10 { NumeralDigits(v / 10); }
  }

  // the digits of a number from i on are read as the number
  lemma {:induction false} ReadNumeral(fmt: string, i: nat, v: nat)
    requires At(fmt, i, Numeral(v, 10, false))
    ensures ScanNumber(fmt, i, 0) == ScanNumber(fmt, i + |Numeral(v, 10, false)|, v)
  {
    var high, d := if v < 10 then "" else Numeral(v / 10, 10, false), DigitOf(v % 10, false);
    assert At(fmt, i, high) && At(fmt, i + |high|, [d]) by { AtParts(fmt, i, high, [d]); }
    assert fmt[i + |high|] == d by { assert fmt[i + |high|..i + |high| + 1][0] == d; }
    LastDigit(v);
    if v >= 10 {
      ReadNumeral(fmt, i, v / 10);
    }
  }

  lemma LastDigit(v: nat)
    ensures var d := DigitOf(v % 10, false); IsDigit(d) && v / 10 * 10 + (d - '0') as nat == v
  {
  }

  lemma {:induction false} ReadWidth(fmt: string, i: nat, zero: bool, width: nat)
    requires At(fmt, i, Width(zero, width))
    requires var j := i + |Width(zero, width)|; j < |fmt| && !IsDigit(fmt[j])
    ensures ScanNumber(fmt, i, 0) == (width, i + |Width(zero, width)|)
    ensures Start(fmt, i) == Spec(if zero then '0' else ' ', width, true, 0, false, NO_LENGTH)
  {
    var front, digits := if zero then "0" else "", if width > 0 then Numeral(width, 10, false) else "";
    AtParts(fmt, i, front, digits);
    if width > 0 {
      NumeralDigits(width);
      ReadNumeral(fmt, i + |front|, width);
      assert fmt[i + |front|] == fmt[i + |front|..i + |front| + |digits|][0] == digits[0];
    }
    if zero { assert fmt[i] == fmt[i..i + 1][0] == '0'; }
  }

  // the flags that numbers take here: none, unsigned, and hexadecimal in either case
  predicate IsFlag(flag: string)
  {
    flag == "" || flag == "u" || flag == "x" || flag == "X"
  }

  function Flagged(st: Spec, flag: string): Spec
  {
    if flag == "" then st else st.(sign := false, hex := if flag == "X" then 2 else if flag == "x" then 1 else st.hex)
  }

  // no flag, and no digit
  predicate Closes(c: char)
  {
    c != 'u' && c != 'm' && c != 'X' && c != 'x' && c != '.' && c != '*' && !IsDigit(c)
  }

  // the flags from i on end at j and mean to
  ghost predicate Goes(fmt: string, i: nat, st: Spec, args: seq<Arg>, j: nat, to: Spec)
    requires i <= |fmt|
  {
    var r := ScanFlags(fmt, i, st, args, 0);
    r.Some? && r.value.0 == j && r.value.1 == to && r.value.2 == 0
  }

  lemma {:induction false} ReadFlag(fmt: string, i: nat, flag: string, c: char, st: Spec, args: seq<Arg>)
    requires At(fmt, i, flag + [c]) && IsFlag(flag) && Closes(c)
    ensures Goes(fmt, i, st, args, i + |flag|, Flagged(st, flag)) && fmt[i + |flag|] == c
  {
    AtParts(fmt, i, flag, [c]);
    assert fmt[i + |flag|] == fmt[i + |flag|..i + |flag| + 1][0];
    assert Goes(fmt, i + |flag|, Flagged(st, flag), args, i + |flag|, Flagged(st, flag));
    if flag != "" { assert fmt[i] == fmt[i..i + |flag|][0] == flag[0]; }
  }

  // a format with one directive prints what its conversion does
  lemma {:induction false} OneDirective(zero: bool, width: nat, flag: string, c: char, args: seq<Arg>, text: string)
    requires IsFlag(flag) && Closes(c)
    requires var r := Convert(c, Flagged(Spec(if zero then '0' else ' ', width, true, 0, false, NO_LENGTH), flag), args, 0);
             r.Some? && r.value.0 == text
    ensures Output(Spelled(zero, width, flag, c), 0, args, 0) == Some(text)
  {
    var fmt := Spelled(zero, width, flag, c);
    var st := Spec(if zero then '0' else ' ', width, true, 0, false, NO_LENGTH);
    var j := 1 + |Width(zero, width)|;
    assert fmt[0] == '%';
    assert At(fmt, 1, Width(zero, width) + (flag + [c]));
    AtParts(fmt, 1, Width(zero, width), flag + [c]);
    ReadFlag(fmt, j, flag, c, st, args);
    assert fmt[j] == fmt[j..j + |flag + [c]|][0] == (flag + [c])[0];
    ReadWidth(fmt, 1, zero, width);
    assert |fmt| == j + |flag| + 1;
    var d := Directive(fmt, 0, args, 0);
    assert d.Some? && d.value.0 == text && d.value.1 == |fmt|;
    OutputDirective(fmt, 0, args, 0, "");
    assert text + "" == text;
  }

  // ---------- numbers ----------

  const TWO32 := 0x1_0000_0000
  const TWO64 := 0x1_0000_0000_0000_0000

  // the types of the conversions for whole numbers: those of 32 bits, and those that have a sign
  // whatever the flag
  predicate Narrow(c: char)
  {
    c == 'd' || c == 'D' || c == 'P'
  }

  predicate Whole(c: char)
  {
    c == 'd' || c == 'D' || c == 'P' || c == 'i' || c == 'z' || c == 'l' || c == 'L' || c == 'A' || c == 'O' || c == 'T' || c == 'r'
  }

  predicate HasSign(c: char, flag: string)
  {
    flag == "" || c == 'O' || c == 'P' || c == 'T' || c == 'r'
  }

  // v is the number of its type that the argument's bits stand for
  predicate StandsFor(c: char, flag: string, bits: uint64, v: int)
  {
    var size := if Narrow(c) then TWO32 else TWO64;
    v % size == bits % size && if HasSign(c, flag) then -size / 2 <= v < size / 2 else 0 <= v < size
  }

  lemma SignExtendIs(bits: uint64, v: int)
    ensures v % TWO32 == bits % TWO32 && -TWO32 / 2 <= v < TWO32 / 2 ==> SignExtend(bits, TWO32) == v
    ensures v % TWO64 == bits % TWO64 && -TWO64 / 2 <= v < TWO64 / 2 ==> SignExtend(bits, TWO64) == v
  {
  }

  function Size(v: int): nat
  {
    if v < 0 then -v else v
  }

  function Radix(flag: string): nat
  {
    if flag == "x" || flag == "X" then 16 else 10
  }

  // The number in decimal, or for "x" and "X" in hexadecimal digits of that case, padded on the left
  // with blanks or zeros to the width; the sign comes first and does not count.
  lemma {:induction false} NumberPrints(zero: bool, width: nat, flag: string, c: char, bits: uint64, v: int)
    requires IsFlag(flag) && Whole(c) && StandsFor(c, flag, bits, v)
    ensures var digits := Numeral(Size(v), Radix(flag), flag == "X");
            Output(Spelled(zero, width, flag, c), 0, [Word(bits)], 0) ==
            Some((if v < 0 then "-" else "") + (Repeat(if zero then '0' else ' ', width - |digits|) + digits))
  {
    var st := Flagged(Spec(if zero then '0' else ' ', width, true, 0, false, NO_LENGTH), flag);
    assert Integer(c, st, bits) == (v, st) by { IntegerIs(c, flag, st, bits, v); }
    SignedPrints(zero, width, flag, c, bits, v, st);
  }

  lemma {:induction false} SignedPrints(zero: bool, width: nat, flag: string, c: char, bits: uint64, v: int, st: Spec)
    requires IsFlag(flag) && Whole(c) && Integer(c, st, bits) == (v, st)
    requires st == Flagged(Spec(if zero then '0' else ' ', width, true, 0, false, NO_LENGTH), flag)
    ensures var digits := Numeral(Size(v), Radix(flag), flag == "X");
            Output(Spelled(zero, width, flag, c), 0, [Word(bits)], 0) ==
            Some((if v < 0 then "-" else "") + (Repeat(if zero then '0' else ' ', width - |digits|) + digits))
  {
    assert Signed(v, st) == (if v < 0 then "-" else "") + Padded(Size(v), st.zero, st.hex, width);
    assert Digits(Size(v), st.hex) == Numeral(Size(v), Radix(flag), flag == "X");
    assert Convert(c, st, [Word(bits)], 0).Some? && Convert(c, st, [Word(bits)], 0).value.0 == Signed(v, st);
    OneDirective(zero, width, flag, c, [Word(bits)], Signed(v, st));
  }

  lemma {:induction false} IntegerIs(c: char, flag: string, st: Spec, bits: uint64, v: int)
    requires Whole(c) && StandsFor(c, flag, bits, v) && !st.maxWidth && (st.sign <==> flag == "")
    ensures Integer(c, st, bits) == (v, st)
  {
    if HasSign(c, flag) {
      SignExtendIs(bits, v);
    } else {
      UnsignedIs(bits, v);
    }
  }

  lemma UnsignedIs(bits: uint64, v: int)
    ensures v % TWO32 == bits % TWO32 && 0 <= v < TWO32 ==> bits % TWO32 == v
    ensures v % TWO64 == bits % TWO64 && 0 <= v < TWO64 ==> bits == v
  {
  }

  // times in milliseconds: the largest word is -1
  lemma {:induction false} MillisecondsPrint(bits: uint64)
    ensures Output(Spelled(false, 0, "", 'M'), 0, [Word(bits)], 0) == Some(if bits == TWO64 - 1 then "-1" else Numeral(bits, 10, false))
  {
    var st := Spec(' ', 0, true, 0, false, NO_LENGTH);
    var v: int := if bits == TWO64 - 1 then -1 else bits;
    assert Integer('M', st, bits) == (v, st);
    var digits := Numeral(Size(v), 10, false);
    assert Signed(v, st) == (if v < 0 then "-" else "") + (Repeat(' ', 0 - |digits|) + digits);
    assert Repeat(' ', 0 - |digits|) == "" && "" + ("" + digits) == digits;
    assert Numeral(1, 10, false) == "1" && "-" + ("" + "1") == "-1";
    OneDirective(false, 0, "", 'M', [Word(bits)], Signed(v, st));
  }

  // a pointer: sixteen upper-case hexadecimal digits
  lemma {:induction false} PointerPrints(bits: uint64)
    ensures var digits := Numeral(bits, 16, true);
            |digits| <= 16 && Output(Spelled(false, 0, "", 'p'), 0, [Word(bits)], 0) == Some(Repeat('0', 16 - |digits|) + digits)
  {
    var st := Spec(' ', 0, true, 0, false, NO_LENGTH);
    ScratchSuffices(bits, true);
    var digits := Numeral(bits, 16, true);
    assert Signed(bits, st.(hex := 2, zero := '0', width := 16)) == "" + (Repeat('0', 16 - |digits|) + digits);
    assert "" + (Repeat('0', 16 - |digits|) + digits) == Repeat('0', 16 - |digits|) + digits;
    OneDirective(false, 0, "", 'p', [Word(bits)], Repeat('0', 16 - |digits|) + digits);
  }

  // "%02d" of 7
  lemma {:induction false} TwoPlaces()
    ensures Spelled(true, 2, "", 'd') == "%02d" && Output("%02d", 0, [Word(7)], 0) == Some("07")
  {
    assert Numeral(2, 10, false) == "2" && Numeral(7, 10, false) == "7";
    assert Repeat('0', 1) == "0";
    NumberPrints(true, 2, "", 'd', 7, 7);
    assert "" + ("0" + "7") == "07";
  }

  // ---------- strings and characters ----------

  // counted strings are printed whole
  lemma {:induction false} CountedPrints(c: char, data: string)
    requires c == 'V' || c == 'v'
    ensures Output(Spelled(false, 0, "", c), 0, [Text(data)], 0) == Some(data)
  {
    OneDirective(false, 0, "", c, [Text(data)], data);
  }

  // other strings up to their terminator
  lemma {:induction false} TerminatedPrints(data: string, rest: string)
    requires '\0' !in data
    ensures Output(Spelled(false, 0, "", 's'), 0, [Text(data + (['\0'] + rest))], 0) == Some(data)
  {
    FrontOfCString(data, rest);
    OneDirective(false, 0, "", 's', [Text(data + (['\0'] + rest))], data);
  }

  lemma {:induction false} FrontOfCString(data: string, rest: string)
    requires '\0' !in data
    ensures CString(data + (['\0'] + rest)) == data
  {
    if data == "" {
      assert data + (['\0'] + rest) == ['\0'] + rest;
    } else {
      assert (data + (['\0'] + rest))[1..] == data[1..] + (['\0'] + rest);
      FrontOfCString(data[1..], rest);
    }
  }

  // or as many characters as an argument before them says
  lemma {:induction false} PartPrints(data: string, n: uint64)
    requires n <= |data| && n != NO_LENGTH
    ensures Output("%*s", 0, [Word(n), Text(data)], 0) == Some(data[..n])
  {
    var fmt, args := "%*s", [Word(n), Text(data)];
    var st := Spec(' ', 0, true, 0, false, NO_LENGTH);
    assert Start(fmt, 1) == st;
    var last := ScanFlags(fmt, 2, st.(slen := n), args, 1);
    assert last.Some? && last.value.0 == 2 && last.value.1 == st.(slen := n) && last.value.2 == 1;
    assert ScanFlags(fmt, 1, st, args, 0) == last;
    var d := Directive(fmt, 0, args, 0);
    assert d.Some? && d.value.0 == data[..n] && d.value.1 == 3;
    OutputDirective(fmt, 0, args, 0, "");
    assert data[..n] + "" == data[..n];
  }

  // a character, and the directives without an argument
  lemma {:induction false} CharacterPrints(ch: char)
    requires ch as int < 256
    ensures Output(Spelled(false, 0, "", 'c'), 0, [Word(ch as int)], 0) == Some([ch])
    ensures Output(Spelled(false, 0, "", '%'), 0, [], 0) == Some("%")
    ensures Output(Spelled(false, 0, "", 'Z'), 0, [], 0) == Some(['\0'])
    ensures Output(Spelled(false, 0, "", 'N'), 0, [], 0) == Some("\n")
  {
    OneDirective(false, 0, "", 'c', [Word(ch as int)], [ch]);
    OneDirective(false, 0, "", '%', [], "%");
    OneDirective(false, 0, "", 'Z', [], ['\0']);
    OneDirective(false, 0, "", 'N', [], "\n");
  }
}
