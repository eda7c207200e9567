// Whole configuration files: directives and nested blocks, parsed and printed.
module ConfTree {
  import opened Base
  import opened Lexer
  import opened Tokenizer
  import opened ConfText

  datatype Entry = Directive(words: seq<string>) | Nested(words: seq<string>, body: seq<Entry>)

  // what is being parsed: a file, the inside of a block of a file, or a parameter string
  datatype Kind = InFile | InBlock | InParam

  // the entries that were read; if all is well, also the text behind them and its line number
  datatype Parsed = Parsed(ok: bool, entries: seq<Entry>, rest: string, line: int)

  function Stopped(entries: seq<Entry>): Parsed
  {
    Parsed(false, entries, "", 0)
  }

  // es before what t says
  function Joined(es: seq<Entry>, t: Parsed): Parsed
  {
    t.(entries := es + t.entries)
  }

  // the entries of a text up to its end, or to the brace that closes the block
  function ParseText(text: string, line: int, capped: bool, kind: Kind): (r: Parsed)
    ensures |r.rest| <= |text|
    decreases |text|
  {
    var x := Lex(text, 0, Init(0, line), capped);
    LexConsumes(text, 0, Init(0, line), capped);
    match x.code
    case Ok => Joined([Directive(x.words)], ParseText(text[x.pos..], x.line, capped, kind))
    case BlockStart =>
      if kind.InParam? then Stopped([])
      else
        var inner := ParseText(text[x.pos..], x.line, capped, InBlock);
        if inner.ok then Joined([Nested(x.words, inner.entries)], ParseText(inner.rest, inner.line, capped, kind))
        else Stopped([Nested(x.words, inner.entries)])
    case BlockDone => if kind.InBlock? then Parsed(true, [], text[x.pos..], x.line) else Stopped([])
    case FileDone => if kind.InBlock? then Stopped([]) else Parsed(true, [], text[x.pos..], x.line)
    case Error(_) => Stopped([])
  }

  lemma JoinedTwice(a: seq<Entry>, b: seq<Entry>, t: Parsed)
    ensures Joined(a, Joined(b, t)) == Joined(a + b, t)
  {
    Regroup(a, b, t.entries);
  }

  lemma JoinedNone(t: Parsed)
    ensures Joined([], t) == t
  {
    assert [] + t.entries == t.entries;
  }

  // the parser ended with these entries, as r says
  ghost predicate Ended(cf: ConfFile, ok: bool, entries: seq<Entry>, r: Parsed)
    reads cf, cf.buffer
  {
    ok == r.ok && entries == r.entries && (ok ==> cf.Valid() && cf.Rest() == r.rest && cf.line == r.line)
  }

  // One turn of the parse loop: an entry, with its block if it has one, or the end.
  method ParseOne(cf: ConfFile, kind: Kind) returns (failed: bool, done: bool, ok: bool, es: seq<Entry>)
    requires cf.Valid() && (kind.InParam? <==> !cf.onDisk)
    modifies cf`pos, cf`last, cf`offset, cf`line, cf`args, cf.buffer, cf.env
    ensures cf.env.failures == old(cf.env.failures) + if failed then 1 else 0
    ensures !failed && done ==> Ended(cf, ok, es, old(ParseText(cf.Rest(), cf.line, cf.onDisk, kind)))
    ensures !failed && !done ==>
              && cf.Valid() && |cf.Rest()| < |old(cf.Rest())|
              && old(ParseText(cf.Rest(), cf.line, cf.onDisk, kind)) == Joined(es, ParseText(cf.Rest(), cf.line, cf.onDisk, kind))
    decreases |cf.Rest()|, 0
  {
    failed, done, ok, es := false, true, false, [];
    LexConsumes(cf.Rest(), 0, Init(0, cf.line), cf.onDisk);
    var rc, used := cf.ReadToken();
    match rc {
      case Error(why) =>
        failed := Faulty(rc);
      case BlockDone =>
        ok := kind.InBlock?;
      case FileDone =>
        ok := !kind.InBlock?;
      case BlockStart =>
        if !kind.InParam? {
          var words, inner := cf.args, [];
          failed, ok, inner := Parse(cf, InBlock);
          done, es := !ok, [Nested(words, inner)];
        }
      case Ok =>
        done, es := false, [Directive(cf.args)];
    }
  }

  // The parse loop with a handler that accepts every directive and parses every block.
  method Parse(cf: ConfFile, kind: Kind) returns (failed: bool, ok: bool, entries: seq<Entry>)
    requires cf.Valid() && (kind.InParam? <==> !cf.onDisk)
    modifies cf`pos, cf`last, cf`offset, cf`line, cf`args, cf.buffer, cf.env
    ensures cf.env.failures == old(cf.env.failures) + if failed then 1 else 0
    ensures !failed ==> Ended(cf, ok, entries, old(ParseText(cf.Rest(), cf.line, cf.onDisk, kind)))
    ensures !failed && ok ==> |cf.Rest()| <= |old(cf.Rest())|
    decreases |cf.Rest()|, 1
  {
    ghost var goal := ParseText(cf.Rest(), cf.line, cf.onDisk, kind);
    failed, ok, entries := false, false, [];
    JoinedNone(goal);
    while true
      invariant cf.Valid() && |cf.Rest()| <= |old(cf.Rest())|
      invariant cf.env.failures == old(cf.env.failures)
      invariant goal == Joined(entries, ParseText(cf.Rest(), cf.line, cf.onDisk, kind))
      decreases |cf.Rest()|
    {
      ghost var t := ParseText(cf.Rest(), cf.line, cf.onDisk, kind);
      var done, es;
      failed, done, ok, es := ParseOne(cf, kind);
      if !failed && !done {
        JoinedTwice(entries, es, ParseText(cf.Rest(), cf.line, cf.onDisk, kind));
      }
      entries := entries + es;
      if failed || done {
        return;
      }
    }
  }

  // ---------- writing files ----------

  // how an entry is written: the words, blanks and comments before its semicolon, or before the brace
  // that opens its block; and the blanks and comments before the brace that closes it
  datatype Written = Line(items: seq<Item>) | Section(items: seq<Item>, body: seq<Written>, gap: seq<Item>)

  function Meanings(ws: seq<Written>): seq<Entry>
    decreases ws
  {
    if ws == [] then []
    else
      [match ws[0]
       case Line(items) => Directive(WordsOf(items))
       case Section(items, body, _) => Nested(WordsOf(items), Meanings(body))]
      + Meanings(ws[1..])
  }

  // blanks and comments only
  predicate IsGap(items: seq<Item>)
  {
    WellFormed(Clear, items) && WordsOf(items) == []
  }

  // every entry has words, and the brace of a block is not taken for a variable's
  predicate Proper(ws: seq<Written>)
    decreases ws
  {
    ws == [] ||
    (&& WellFormed(Clear, ws[0].items) && WordsOf(ws[0].items) != []
     && (ws[0].Section? ==> MidAtEnd(Clear, ws[0].items) != Open(true) && Proper(ws[0].body) && IsGap(ws[0].gap))
     && Proper(ws[1..]))
  }

  function PrintAll(ws: seq<Written>): string
    decreases ws
  {
    if ws == [] then "" else
      (match ws[0]
       case Line(items) => SpellAll(items) + [';']
       case Section(items, body, gap) => (SpellAll(items) + ['{']) + (PrintAll(body) + (SpellAll(gap) + ['}'])))
      + PrintAll(ws[1..])
  }

  // everything fits the buffer
  predicate AllFit(ws: seq<Written>)
    decreases ws
  {
    ws == [] ||
    (FitsBuffer(ws[0].items) && (ws[0].Section? ==> AllFit(ws[0].body) && FitsBuffer(ws[0].gap)) && AllFit(ws[1..]))
  }

  // the entries that come before the first thing that does not fit
  function Fitting(ws: seq<Written>): seq<Entry>
    decreases ws
  {
    if ws == [] || !FitsBuffer(ws[0].items) then []
    else
      match ws[0]
      case Line(items) => [Directive(WordsOf(items))] + Fitting(ws[1..])
      case Section(items, body, gap) =>
        if !AllFit(body) then [Nested(WordsOf(items), Fitting(body))]
        else [Nested(WordsOf(items), Meanings(body))] + (if FitsBuffer(gap) then Fitting(ws[1..]) else [])
  }

  lemma {:induction false} FittingIsAll(ws: seq<Written>)
    requires AllFit(ws)
    ensures Fitting(ws) == Meanings(ws)
  {
    if ws != [] { FittingIsAll(ws[1..]); }
  }

  // a parameter string has no blocks
  predicate Allowed(kind: Kind, ws: seq<Written>)
  {
    kind.InParam? ==> forall i :: 0 <= i < |ws| ==> ws[i].Line?
  }

  // ---------- parsing them back ----------

  lemma {:induction false} EndsNoLine(text: string, c: char)
    requires c != LF
    ensures Lines(text + [c]) == Lines(text)
  {
    LinesJoin(text, [c]);
    assert [c][1..] == [];
  }

  lemma Behind(text: string, c: char, rest: string)
    ensures ((text + [c]) + rest)[|text| + 1..] == rest
  {
  }

  // what parsing a directive, or the head of a block, comes to, and a block's end
  lemma {:induction false} DirectiveFirst(items: seq<Item>, rest: string, line: int, capped: bool, kind: Kind, t: Parsed)
    requires WellFormed(Clear, items) && WordsOf(items) != []
    requires t == ParseText(rest, line + Lines(SpellAll(items)), capped, kind)
    ensures ParseText((SpellAll(items) + [';']) + rest, line, capped, kind) ==
            if capped && !FitsBuffer(items) then Stopped([])
            else Joined([Directive(WordsOf(items))], t)
  {
    LexWritten(items, ';', rest, line, capped);
    Behind(SpellAll(items), ';', rest);
  }

  lemma {:induction false} BlockFirst(items: seq<Item>, rest: string, line: int, capped: bool, kind: Kind, inner: Parsed)
    requires WellFormed(Clear, items) && WordsOf(items) != [] && MidAtEnd(Clear, items) != Open(true) && !kind.InParam?
    requires inner == ParseText(rest, line + Lines(SpellAll(items)), capped, InBlock)
    ensures ParseText((SpellAll(items) + ['{']) + rest, line, capped, kind) ==
            if capped && !FitsBuffer(items) then Stopped([])
            else if inner.ok then Joined([Nested(WordsOf(items), inner.entries)], ParseText(inner.rest, inner.line, capped, kind))
            else Stopped([Nested(WordsOf(items), inner.entries)])
  {
    LexWritten(items, '{', rest, line, capped);
    Behind(SpellAll(items), '{', rest);
  }

  lemma {:induction false} GapIsClear(mid: Mid, items: seq<Item>)
    requires WordsOf(items) == [] && mid.Clear?
    ensures MidAtEnd(mid, items) == Clear
    decreases |items|
  {
    if items != [] {
      GapIsClear(MidAfter(items[0]), items[1..]);
    }
  }

  lemma {:induction false} BlockEnds(gap: seq<Item>, rest: string, line: int, capped: bool)
    requires IsGap(gap)
    ensures ParseText((SpellAll(gap) + ['}']) + rest, line, capped, InBlock) ==
            if capped && !FitsBuffer(gap) then Stopped([]) else Parsed(true, [], rest, line + Lines(SpellAll(gap)))
  {
    GapIsClear(Clear, gap);
    LexWritten(gap, '}', rest, line, capped);
    Behind(SpellAll(gap), '}', rest);
  }

  lemma {:induction false} TextEnds(gap: seq<Item>, line: int, capped: bool, kind: Kind)
    requires IsGap(gap) && !kind.InBlock?
    ensures ParseText(SpellAll(gap), line, capped, kind) ==
            if capped && !Fits(gap, 0) then Stopped([]) else Parsed(true, [], "", line + Lines(SpellAll(gap)))
  {
    LexEnds(gap, line, capped);
  }

  // ---------- what stops the parser ----------

  // A closing brace outside a block, words before one, a separator without words, the end of the text
  // behind words or inside a block, and a block in a parameter string.
  lemma {:induction false} StrayBrace(gap: seq<Item>, rest: string, line: int, capped: bool, kind: Kind)
    requires IsGap(gap) && !kind.InBlock?
    ensures ParseText((SpellAll(gap) + ['}']) + rest, line, capped, kind) == Stopped([])
  {
    GapIsClear(Clear, gap);
    LexWritten(gap, '}', rest, line, capped);
  }

  lemma {:induction false} MisplacedEnd(items: seq<Item>, c: char, rest: string, line: int, capped: bool, kind: Kind)
    requires WellFormed(Clear, items)
    requires if WordsOf(items) == [] then c == ';' || c == '{' else c == '}' && !MidAtEnd(Clear, items).Open?
    ensures ParseText((SpellAll(items) + [c]) + rest, line, capped, kind) == Stopped([])
  {
    if WordsOf(items) == [] { GapIsClear(Clear, items); }
    LexWritten(items, c, rest, line, capped);
  }

  lemma {:induction false} EarlyEnd(items: seq<Item>, line: int, capped: bool, kind: Kind)
    requires WellFormed(Clear, items) && (WordsOf(items) != [] || kind.InBlock?)
    ensures ParseText(SpellAll(items), line, capped, kind) == Stopped([])
  {
    LexEnds(items, line, capped);
  }

  lemma {:induction false} BlockInParam(items: seq<Item>, rest: string, line: int, capped: bool)
    requires WellFormed(Clear, items) && WordsOf(items) != [] && MidAtEnd(Clear, items) != Open(true)
    ensures ParseText((SpellAll(items) + ['{']) + rest, line, capped, InParam) == Stopped([])
  {
    LexWritten(items, '{', rest, line, capped);
  }

  // ---------- round trips ----------

  // what parsing written entries comes to, when tail follows them
  function Reread(ws: seq<Written>, tail: Parsed, capped: bool): Parsed
  {
    if capped && !AllFit(ws) then Stopped(Fitting(ws)) else Joined(Meanings(ws), tail)
  }

  // what parsing the inside of a written block comes to
  function Inside(body: seq<Written>, gap: seq<Item>, rest: string, line: int, capped: bool): Parsed
  {
    if capped && !AllFit(body) then Stopped(Fitting(body))
    else if capped && !FitsBuffer(gap) then Stopped(Meanings(body))
    else Parsed(true, Meanings(body), rest, line)
  }

  // one entry more, given what the parser makes of the text behind it
  lemma {:induction false} DirectiveStep(text: string, ws: seq<Written>, rest: string, end: Parsed, line: int, after: int, capped: bool, kind: Kind)
    requires ws != [] && ws[0].Line? && WellFormed(Clear, ws[0].items) && WordsOf(ws[0].items) != []
    requires text == (SpellAll(ws[0].items) + [';']) + rest && after == line + Lines(SpellAll(ws[0].items))
    requires ParseText(rest, after, capped, kind) == Reread(ws[1..], end, capped)
    ensures ParseText(text, line, capped, kind) == Reread(ws, end, capped)
  {
    DirectiveFirst(ws[0].items, rest, line, capped, kind, Reread(ws[1..], end, capped));
    RereadFirst(ws, end, capped);
  }

  lemma {:induction false} BlockStep(text: string, ws: seq<Written>, body: string, rest: string, end: Parsed,
                                     line: int, inside: int, after: int, capped: bool, kind: Kind)
    requires ws != [] && ws[0].Section? && WellFormed(Clear, ws[0].items) && WordsOf(ws[0].items) != []
    requires MidAtEnd(Clear, ws[0].items) != Open(true) && !kind.InParam?
    requires text == (SpellAll(ws[0].items) + ['{']) + body && inside == line + Lines(SpellAll(ws[0].items))
    requires ParseText(body, inside, capped, InBlock) == Inside(ws[0].body, ws[0].gap, rest, after, capped)
    requires ParseText(rest, after, capped, kind) == Reread(ws[1..], end, capped)
    ensures ParseText(text, line, capped, kind) == Reread(ws, end, capped)
  {
    BlockFirst(ws[0].items, body, line, capped, kind, Inside(ws[0].body, ws[0].gap, rest, after, capped));
    RereadFirst(ws, end, capped);
  }

  lemma {:induction false} RereadFirst(ws: seq<Written>, tail: Parsed, capped: bool)
    requires ws != []
    ensures var w := ws[0];
            Reread(ws, tail, capped) ==
            if capped && !FitsBuffer(w.items) then Stopped([])
            else if capped && w.Section? && !AllFit(w.body) then Stopped([Nested(WordsOf(w.items), Fitting(w.body))])
            else if capped && w.Section? && !FitsBuffer(w.gap) then Stopped([Nested(WordsOf(w.items), Meanings(w.body))])
            else Joined([if w.Line? then Directive(WordsOf(w.items)) else Nested(WordsOf(w.items), Meanings(w.body))], Reread(ws[1..], tail, capped))
  {
    var w := ws[0];
    var e := if w.Line? then Directive(WordsOf(w.items)) else Nested(WordsOf(w.items), Meanings(w.body));
    assert Meanings(ws) == [e] + Meanings(ws[1..]);
    JoinedTwice([e], Meanings(ws[1..]), tail);
  }

  lemma {:induction false} DirectiveText(ws: seq<Written>, tail: string, line: int)
    requires ws != [] && ws[0].Line?
    ensures PrintAll(ws) + tail == (SpellAll(ws[0].items) + [';']) + (PrintAll(ws[1..]) + tail)
    ensures line + Lines(SpellAll(ws[0].items)) + Lines(PrintAll(ws[1..])) == line + Lines(PrintAll(ws))
  {
    Regroup(SpellAll(ws[0].items) + [';'], PrintAll(ws[1..]), tail);
    LinesJoin(SpellAll(ws[0].items) + [';'], PrintAll(ws[1..]));
    EndsNoLine(SpellAll(ws[0].items), ';');
  }

  lemma {:induction false} BlockText(ws: seq<Written>, tail: string, line: int)
    requires ws != [] && ws[0].Section?
    ensures PrintAll(ws) + tail ==
            (SpellAll(ws[0].items) + ['{']) + (PrintAll(ws[0].body) + ((SpellAll(ws[0].gap) + ['}']) + (PrintAll(ws[1..]) + tail)))
    ensures line + Lines(SpellAll(ws[0].items)) + Lines(PrintAll(ws[0].body)) + Lines(SpellAll(ws[0].gap)) + Lines(PrintAll(ws[1..]))
            == line + Lines(PrintAll(ws))
  {
    var head, body, close, others := SpellAll(ws[0].items) + ['{'], PrintAll(ws[0].body), SpellAll(ws[0].gap) + ['}'], PrintAll(ws[1..]);
    Braced(head, body, close, others, tail);
    EndsNoLine(SpellAll(ws[0].items), '{');
    EndsNoLine(SpellAll(ws[0].gap), '}');
    assert PrintAll(ws) == (head + (body + close)) + others;
  }

  lemma {:induction false} Braced(head: string, body: string, close: string, others: string, tail: string)
    ensures ((head + (body + close)) + others) + tail == head + (body + (close + (others + tail)))
    ensures Lines((head + (body + close)) + others) == Lines(head) + Lines(body) + Lines(close) + Lines(others)
  {
    LinesJoin(head + (body + close), others);
    LinesJoin(head, body + close);
    LinesJoin(body, close);
  }

  // Written entries are parsed back, blocks and all, whatever forms, blanks and comments they are
  // written with and whatever follows them; a capped parser stops at the first that do not fit.
  lemma {:induction false} PrintRoundTripAll(ws: seq<Written>, text: string, tail: string, line: int, after: int, capped: bool, kind: Kind, end: Parsed)
    requires Proper(ws) && Allowed(kind, ws)
    requires text == PrintAll(ws) + tail && after == line + Lines(PrintAll(ws)) && end == ParseText(tail, after, capped, kind)
    ensures ParseText(text, line, capped, kind) == Reread(ws, end, capped)
    decreases ws, 1
  {
    if ws == [] {
      assert text == tail;
      JoinedNone(end);
    } else if ws[0].Line? {
      DirectiveCase(ws, text, tail, line, after, capped, kind, end);
    } else {
      BlockCase(ws, text, tail, line, after, capped, kind, end);
    }
  }

  lemma {:induction false} DirectiveCase(ws: seq<Written>, text: string, tail: string, line: int, after: int, capped: bool, kind: Kind, end: Parsed)
    requires ws != [] && ws[0].Line? && Proper(ws) && Allowed(kind, ws)
    requires text == PrintAll(ws) + tail && after == line + Lines(PrintAll(ws)) && end == ParseText(tail, after, capped, kind)
    ensures ParseText(text, line, capped, kind) == Reread(ws, end, capped)
    decreases ws, 0
  {
    var rest, next := PrintAll(ws[1..]) + tail, line + Lines(SpellAll(ws[0].items));
    DirectiveText(ws, tail, line);
    PrintRoundTripAll(ws[1..], rest, tail, next, after, capped, kind, end);
    DirectiveStep(text, ws, rest, end, line, next, capped, kind);
  }

  lemma {:induction false} BlockCase(ws: seq<Written>, text: string, tail: string, line: int, after: int, capped: bool, kind: Kind, end: Parsed)
    requires ws != [] && ws[0].Section? && Proper(ws) && Allowed(kind, ws)
    requires text == PrintAll(ws) + tail && after == line + Lines(PrintAll(ws)) && end == ParseText(tail, after, capped, kind)
    ensures ParseText(text, line, capped, kind) == Reread(ws, end, capped)
    decreases ws, 0
  {
    var body, gap, rest, inside := ws[0].body, ws[0].gap, PrintAll(ws[1..]) + tail, line + Lines(SpellAll(ws[0].items));
    var next := inside + Lines(PrintAll(body)) + Lines(SpellAll(gap));
    var printed := PrintAll(body) + ((SpellAll(gap) + ['}']) + rest);
    BlockText(ws, tail, line);
    BodyRoundTrip(body, gap, printed, rest, inside, next, capped);
    PrintRoundTripAll(ws[1..], rest, tail, next, after, capped, kind, end);
    BlockStep(text, ws, printed, rest, end, line, inside, next, capped, kind);
  }

  // The inside of a written block is parsed back, and its closing brace is where it ends.
  lemma {:induction false} BodyRoundTrip(body: seq<Written>, gap: seq<Item>, text: string, rest: string, line: int, after: int, capped: bool)
    requires Proper(body) && IsGap(gap) && text == PrintAll(body) + ((SpellAll(gap) + ['}']) + rest)
    requires after == line + Lines(PrintAll(body)) + Lines(SpellAll(gap))
    ensures ParseText(text, line, capped, InBlock) == Inside(body, gap, rest, after, capped)
    decreases body, 2
  {
    var closing, last := (SpellAll(gap) + ['}']) + rest, line + Lines(PrintAll(body));
    var end := if capped && !FitsBuffer(gap) then Stopped([]) else Parsed(true, [], rest, after);
    assert end == ParseText(closing, last, capped, InBlock) by { BlockEnds(gap, rest, last, capped); }
    PrintRoundTripAll(body, text, closing, line, last, capped, InBlock, end);
    InsideIs(body, gap, rest, after, capped, end);
  }

  lemma {:induction false} InsideIs(body: seq<Written>, gap: seq<Item>, rest: string, line: int, capped: bool, end: Parsed)
    requires end == if capped && !FitsBuffer(gap) then Stopped([]) else Parsed(true, [], rest, line)
    ensures Reread(body, end, capped) == Inside(body, gap, rest, line, capped)
  {
    assert Meanings(body) + [] == Meanings(body);
  }

  // A file is parsed into the entries that are written in it, by a capped parser up to the first thing
  // that does not fit its buffer.
  lemma {:induction false} FileRoundTrip(ws: seq<Written>, gap: seq<Item>, line: int, capped: bool, kind: Kind)
    requires Proper(ws) && IsGap(gap) && Allowed(kind, ws) && !kind.InBlock?
    ensures ParseText(PrintAll(ws) + SpellAll(gap), line, capped, kind) ==
            if capped && !AllFit(ws) then Stopped(Fitting(ws))
            else if capped && !Fits(gap, 0) then Stopped(Meanings(ws))
            else Parsed(true, Meanings(ws), "", line + Lines(PrintAll(ws)) + Lines(SpellAll(gap)))
  {
    var after := line + Lines(PrintAll(ws));
    TextEnds(gap, after, capped, kind);
    PrintRoundTripAll(ws, PrintAll(ws) + SpellAll(gap), SpellAll(gap), line, after, capped, kind, ParseText(SpellAll(gap), after, capped, kind));
    assert Meanings(ws) + [] == Meanings(ws);
  }

  // A fault behind well-written entries: those entries are all that is read.
  lemma {:induction false} FaultStops(ws: seq<Written>, tail: string, line: int, capped: bool, kind: Kind)
    requires Proper(ws) && Allowed(kind, ws) && ParseText(tail, line + Lines(PrintAll(ws)), capped, kind) == Stopped([])
    ensures ParseText(PrintAll(ws) + tail, line, capped, kind) == Stopped(if capped then Fitting(ws) else Meanings(ws))
  {
    PrintRoundTripAll(ws, PrintAll(ws) + tail, tail, line, line + Lines(PrintAll(ws)), capped, kind, Stopped([]));
    assert Meanings(ws) + [] == Meanings(ws);
    if AllFit(ws) { FittingIsAll(ws); }
  }

  // ---------- every file can be written ----------

  // every directive has a name
  predicate Named(es: seq<Entry>)
    decreases es
  {
    es == [] || (es[0].words != [] && (es[0].Nested? ==> Named(es[0].body)) && Named(es[1..]))
  }

  function InQuotes(words: seq<string>): seq<(Form, string)>
  {
    if words == [] then [] else [(AsDouble, words[0])] + InQuotes(words[1..])
  }

  function Write(es: seq<Entry>): seq<Written>
    decreases es
  {
    if es == [] then [] else
      [match es[0]
       case Directive(words) => Line(WordItems(InQuotes(words)))
       case Nested(words, body) => Section(WordItems(InQuotes(words)), Write(body), [])]
      + Write(es[1..])
  }

  lemma {:induction false} InQuotesRead(words: seq<string>)
    ensures WellFormed(Clear, WordItems(InQuotes(words))) && WordsOf(WordItems(InQuotes(words))) == words
    ensures MidAtEnd(Clear, WordItems(InQuotes(words))) == Clear
  {
    AllInQuotes(words);
    WordItemsRead(Clear, InQuotes(words));
  }

  lemma {:induction false} AllInQuotes(words: seq<string>)
    ensures Values(InQuotes(words)) == words && forall i :: 0 <= i < |InQuotes(words)| ==> InQuotes(words)[i].0 == AsDouble
  {
    if words != [] {
      AllInQuotes(words[1..]);
      assert InQuotes(words)[1..] == InQuotes(words[1..]);
    }
  }

  lemma {:induction false} WriteMeans(es: seq<Entry>)
    requires Named(es)
    ensures Proper(Write(es)) && Meanings(Write(es)) == es
    decreases es
  {
    if es != [] {
      InQuotesRead(es[0].words);
      if es[0].Nested? { WriteMeans(es[0].body); }
      WriteMeans(es[1..]);
      assert Write(es)[1..] == Write(es[1..]) && es == [es[0]] + es[1..];
    }
  }

  // Reading a file through the buffer gives the entries that are written in it exactly if everything
  // fits, and otherwise what comes before the first thing that does not.
  method ReadPrinted(ws: seq<Written>, gap: seq<Item>, env: Environment) returns (failed: bool, ok: bool, read: seq<Entry>)
    requires Proper(ws) && IsGap(gap)
    modifies env
    ensures env.failures == old(env.failures) + if failed then 1 else 0
    ensures !failed ==> (ok <==> AllFit(ws) && Fits(gap, 0)) && read == Fitting(ws) && (ok ==> read == Meanings(ws))
  {
    var cf := new ConfFile.FromFile(PrintAll(ws) + SpellAll(gap), env);
    FileRoundTrip(ws, gap, 1, true, InFile);
    if AllFit(ws) { FittingIsAll(ws); }
    failed, ok, read := Parse(cf, InFile);
  }
}
