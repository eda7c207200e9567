// What the whole-text lexer means: the cap of the buffer, and printing words back.
module ConfText {
  import opened Base
  import opened Lexer
  import opened Tokenizer

  // no token has begun
  const Between := Flags(true, false, false, false, false, false, false)

  // ---------- the cap ----------

  // a capped scan fails on a long token, or returns what an unbounded one returns
  lemma {:induction false} CapOnlyRejects(text: string, p: nat, s: Scan)
    requires s.start <= p <= |text|
    ensures Lex(text, p, s, true).code == Error(TooLong) || Lex(text, p, s, true) == Lex(text, p, s, false)
    decreases |text| - p
  {
    if p < |text| && p - s.start != CONF_BUFFER {
      var (f, act) := Classify(s.f, text[p], |s.words|);
      if GoesOn(text[p], act) { CapOnlyRejects(text, p + 1, After(text, p, s, f, act)); }
    }
  }

  // the scan from p meets a position that is a whole buffer away from the start of its token
  ghost predicate Overlong(text: string, p: nat, s: Scan)
    requires s.start <= p <= |text|
    decreases |text| - p
  {
    p < |text| &&
    (p - s.start == CONF_BUFFER ||
     (var (f, act) := Classify(s.f, text[p], |s.words|);
      GoesOn(text[p], act) && Overlong(text, p + 1, After(text, p, s, f, act))))
  }

  lemma {:induction false} TooLongIffOverlong(text: string, p: nat, s: Scan)
    requires s.start <= p <= |text|
    ensures Lex(text, p, s, true).code == Error(TooLong) <==> Overlong(text, p, s)
    decreases |text| - p
  {
    if p < |text| && p - s.start != CONF_BUFFER {
      var (f, act) := Classify(s.f, text[p], |s.words|);
      if GoesOn(text[p], act) { TooLongIffOverlong(text, p + 1, After(text, p, s, f, act)); }
    }
  }

  lemma {:induction false} ShortTextFits(text: string, p: nat, s: Scan)
    requires s.start <= p <= |text| && |text| - s.start <= CONF_BUFFER
    ensures Lex(text, p, s, true) == Lex(text, p, s, false)
    decreases |text| - p
  {
    if p < |text| {
      var (f, act) := Classify(s.f, text[p], |s.words|);
      if GoesOn(text[p], act) { ShortTextFits(text, p + 1, After(text, p, s, f, act)); }
    }
  }

  // A run of blanks that reaches a whole buffer beyond the start of the last token is too long, if
  // there is text behind it.
  lemma {:induction false} LongBlanks(text: string, p: nat, s: Scan)
    requires s.f == Between && s.start <= p <= s.start + CONF_BUFFER < |text|
    requires forall k :: p <= k < s.start + CONF_BUFFER ==> Blank(text[k])
    ensures Lex(text, p, s, true).code == Error(TooLong)
    decreases |text| - p
  {
    if p < s.start + CONF_BUFFER {
      LexStep(text, p, s, true, Between, Skip);
      LongBlanks(text, p + 1, After(text, p, s, Between, Skip));
    }
  }

  // And so is a comment, although nothing of it is kept.
  lemma {:induction false} LongComment(text: string, p: nat, s: Scan)
    requires s.f == Between.(comment := true) && s.start <= p <= s.start + CONF_BUFFER < |text|
    requires forall k :: p <= k < s.start + CONF_BUFFER ==> text[k] != LF
    ensures Lex(text, p, s, true).code == Error(TooLong)
    decreases |text| - p
  {
    if p < s.start + CONF_BUFFER {
      LexStep(text, p, s, true, s.f, Skip);
      LongComment(text, p + 1, After(text, p, s, s.f, Skip));
    }
  }

  // ---------- how directives are written ----------

  // a character that stands for itself, or one behind a backslash
  datatype Piece = Plain(c: char) | Pair(c: char)

  // what a directive is made of: blanks, comments up to the end of their line, bare words, and words
  // between two quotation marks
  datatype Item = Space(c: char) | Comment(text: string) | Bare(pieces: seq<Piece>) | Quoted(mark: char, pieces: seq<Piece>)

  function Spelling(p: Piece): string
  {
    match p case Plain(c) => [c] case Pair(c) => ['\\', c]
  }

  // what a piece is read as: a backslash before any other character is itself part of the word
  function Reading(p: Piece): string
  {
    match p
    case Plain(c) => [c]
    case Pair(c) =>
      if c == 't' then "\t" else if c == 'r' then "\r" else if c == 'n' then "\n"
      else if c == '"' || c == '\'' || c == '\\' then [c]
      else ['\\', c]
  }

  function Spell(ps: seq<Piece>): string
  {
    if ps == [] then "" else Spelling(ps[0]) + Spell(ps[1..])
  }

  function Read(ps: seq<Piece>): string
  {
    if ps == [] then "" else Reading(ps[0]) + Read(ps[1..])
  }

  // whether an opening brace right behind the piece belongs to a variable: behind a dollar sign, or
  // behind such a brace; v tells it of a brace in place of the piece
  function Opens(v: bool, p: Piece): bool
  {
    p.Plain? && (p.c == '$' || (p.c == '{' && v))
  }

  function OpensLast(v: bool, ps: seq<Piece>): bool
    decreases ps
  {
    if ps == [] then v else OpensLast(Opens(v, ps[0]), ps[1..])
  }

  // c ends a word, in quotation marks or bare
  predicate Ends(mark: Option<char>, v: bool, c: char)
  {
    match mark
    case Some(q) => c == q
    case None => Blank(c) || c == ';' || (c == '{' && !v)
  }

  // no piece ends the word before its end
  predicate Unbroken(mark: Option<char>, v: bool, ps: seq<Piece>)
    decreases ps
  {
    ps == [] ||
    ((ps[0].Plain? ==> ps[0].c != '\\' && !Ends(mark, v, ps[0].c)) && Unbroken(mark, Opens(v, ps[0]), ps[1..]))
  }

  predicate Valid(it: Item)
  {
    match it
    case Space(c) => Blank(c)
    case Comment(text) => LF !in text
    case Bare(ps) =>
      && ps != [] && Unbroken(None, false, ps)
      && (ps[0].Plain? ==> ps[0].c != '}' && ps[0].c != '#' && ps[0].c != '"' && ps[0].c != '\'')
    case Quoted(mark, ps) => (mark == '"' || mark == '\'') && Unbroken(Some(mark), false, ps)
  }

  function SpellItem(it: Item): (r: string)
  {
    match it
    case Space(c) => [c]
    case Comment(text) => ['#'] + (text + [LF])
    case Bare(ps) => Spell(ps)
    case Quoted(mark, ps) => [mark] + (Spell(ps) + [mark])
  }

  function SpellAll(items: seq<Item>): string
  {
    if items == [] then "" else SpellItem(items[0]) + SpellAll(items[1..])
  }

  function WordOf(it: Item): seq<string>
  {
    match it
    case Space(_) => []
    case Comment(_) => []
    case Bare(ps) => [Read(ps)]
    case Quoted(_, ps) => [Read(ps)]
  }

  function WordsOf(items: seq<Item>): seq<string>
  {
    if items == [] then [] else WordOf(items[0]) + WordsOf(items[1..])
  }

  // between two items: nothing is open, a bare word is, or a quotation mark was just closed
  datatype Mid = Clear | Open(v: bool) | Closed

  function MidAfter(it: Item): Mid
  {
    match it
    case Space(_) => Clear
    case Comment(_) => Clear
    case Bare(ps) => Open(OpensLast(false, ps))
    case Quoted(_, _) => Closed
  }

  // a word must be set off by a blank; a closing parenthesis may follow a quotation mark at once
  predicate MayFollow(mid: Mid, it: Item)
  {
    mid.Clear? || it.Space? || (mid.Closed? && it.Bare? && it.pieces != [] && it.pieces[0] == Plain(')'))
  }

  predicate WellFormed(mid: Mid, items: seq<Item>)
    decreases items
  {
    items == [] || (Valid(items[0]) && MayFollow(mid, items[0]) && WellFormed(MidAfter(items[0]), items[1..]))
  }

  function MidAtEnd(mid: Mid, items: seq<Item>): Mid
    decreases items
  {
    if items == [] then mid else MidAtEnd(MidAfter(items[0]), items[1..])
  }

  // ---------- what fits the buffer ----------

  // how far from the start of the last token the scanner is behind an item, when it was d before it
  function Distance(it: Item, d: int): int
  {
    if it.Space? then d + 1 else if it.Quoted? then |SpellItem(it)| - 1 else |SpellItem(it)|
  }

  function DistanceAtEnd(items: seq<Item>, d: int): int
  {
    if items == [] then d else DistanceAtEnd(items[1..], Distance(items[0], d))
  }

  // nowhere before the end of the items is the scanner a whole buffer away from the start of a token
  predicate Fits(items: seq<Item>, d: int)
  {
    items == [] || (d < CONF_BUFFER && Distance(items[0], d) <= CONF_BUFFER && Fits(items[1..], Distance(items[0], d)))
  }

  // and it is not at their end
  predicate FitsBuffer(items: seq<Item>)
  {
    Fits(items, 0) && DistanceAtEnd(items, 0) < CONF_BUFFER
  }

  // ---------- lines ----------

  function Lines(w: string): nat
  {
    if w == [] then 0 else (if w[0] == LF then 1 else 0) + Lines(w[1..])
  }

  lemma {:induction false} LinesJoin(a: string, b: string)
    ensures Lines(a + b) == Lines(a) + Lines(b)
  {
    if a == [] {
      assert a + b == b;
    } else {
      assert (a + b)[1..] == a[1..] + b;
      LinesJoin(a[1..], b);
    }
  }

  // t stands at position p of text
  ghost predicate Has(text: string, p: nat, t: string)
    decreases |t|
  {
    p + |t| <= |text| && (t == [] || (text[p] == t[0] && Has(text, p + 1, t[1..])))
  }

  lemma {:induction false} HasParts(text: string, p: nat, a: string, b: string)
    requires Has(text, p, a + b)
    ensures Has(text, p, a) && Has(text, p + |a|, b)
    decreases |a|
  {
    if a == [] {
      assert a + b == b;
    } else {
      assert (a + b)[1..] == a[1..] + b;
      HasParts(text, p + 1, a[1..], b);
    }
  }

  lemma {:induction false} HasHead(text: string, p: nat, c: char, t: string)
    requires Has(text, p, [c] + t)
    ensures p < |text| && text[p] == c && Has(text, p + 1, t)
  {
    assert ([c] + t)[1..] == t;
  }

  lemma {:induction false} HasSlice(text: string, p: nat, t: string)
    requires Has(text, p, t)
    ensures text[p..p + |t|] == t
    decreases |t|
  {
    if t == [] {
      assert text[p..p] == [];
    } else {
      HasSlice(text, p + 1, t[1..]);
      assert text[p..p + |t|] == [text[p]] + text[p + 1..p + |t|] && t == [t[0]] + t[1..];
    }
  }

  lemma {:induction false} SliceHas(text: string, p: nat, t: string)
    requires p + |t| <= |text| && text[p..p + |t|] == t
    ensures Has(text, p, t)
    decreases |t|
  {
    if t != [] {
      assert text[p] == text[p..p + |t|][0] && text[p + 1..p + |t|] == t[1..];
      SliceHas(text, p + 1, t[1..]);
    }
  }

  // ---------- reading back ----------

  // the copy loop's function reads pieces as they are meant to be read
  lemma {:induction false} UnescapeReads(mark: Option<char>, v: bool, ps: seq<Piece>)
    requires Unbroken(mark, v, ps)
    ensures Unescape(Spell(ps)) == Read(ps)
    decreases ps
  {
    if ps != [] {
      UnescapeReads(mark, Opens(v, ps[0]), ps[1..]);
      UnescapePiece(ps[0], Spell(ps[1..]));
    }
  }

  lemma {:induction false} UnescapePiece(x: Piece, rest: string)
    requires x != Plain('\\')
    ensures Unescape(Spelling(x) + rest) == Reading(x) + Unescape(rest)
  {
    match x
    case Plain(c) => UnescapePlain(c, rest);
    case Pair(c) => UnescapePair(c, rest);
  }

  lemma {:induction false} UnescapePlain(c: char, rest: string)
    requires c != '\\'
    ensures Unescape([c] + rest) == [c] + Unescape(rest)
  {
    assert ([c] + rest)[1..] == rest;
  }

  lemma {:induction false} UnescapePair(c: char, rest: string)
    ensures Unescape(['\\', c] + rest) == Reading(Pair(c)) + Unescape(rest)
  {
    var text := ['\\', c] + rest;
    assert text[1..] == [c] + rest && text[2..] == rest;
    if Reading(Pair(c)) == ['\\', c] {
      UnescapePlain(c, rest);
      Regroup(['\\'], [c], Unescape(rest));
      assert ['\\'] + [c] == ['\\', c];
    }
  }

  const AfterQuote := Flags(false, true, false, false, false, false, false)

  // inside a word
  function InWord(mark: Option<char>, v: bool): Flags
  {
    Flags(false, false, false, v, false, mark == Some('\''), mark == Some('"'))
  }

  // the scanner is at most a whole buffer away from the start of its token
  predicate Near(capped: bool, n: int)
  {
    !capped || n <= CONF_BUFFER
  }

  // The scan from p, in state s, reaches q in state t.
  ghost predicate Reaches(text: string, p: nat, s: Scan, q: nat, t: Scan, capped: bool)
  {
    s.start <= p <= q <= |text| && t.start <= q && Lex(text, p, s, capped) == Lex(text, q, t, capped)
  }

  // it does so without beginning a token, unless it gives up because the token is too long
  ghost predicate Goes(text: string, p: nat, s: Scan, q: nat, t: Scan, capped: bool)
  {
    && s.start <= p <= q <= |text| && t.start == s.start
    && if Near(capped, q - s.start) then Reaches(text, p, s, q, t, capped) else Lex(text, p, s, capped).code == Error(TooLong)
  }

  lemma {:induction false} GoesOne(text: string, p: nat, s: Scan, f: Flags, capped: bool)
    requires s.start <= p < |text| && Near(capped, p - s.start) && (f, Skip) == Classify(s.f, text[p], |s.words|)
    ensures Goes(text, p, s, p + 1, s.(f := f, line := s.line + (if text[p] == LF then 1 else 0)), capped)
  {
    if !capped || p - s.start != CONF_BUFFER {
      LexStep(text, p, s, capped, f, Skip);
    }
  }

  lemma GoesTwice(text: string, p: nat, s: Scan, q: nat, t: Scan, r: nat, u: Scan, capped: bool)
    requires Goes(text, p, s, q, t, capped) && q <= r <= |text| && u.start == s.start
    requires Near(capped, q - s.start) ==> Goes(text, q, t, r, u, capped)
    ensures Goes(text, p, s, r, u, capped)
  {
  }

  // one piece inside a word
  lemma {:induction false} ScanPiece(text: string, p: nat, s: Scan, mark: Option<char>, v: bool, x: Piece, capped: bool)
    requires s.start <= p && Near(capped, p - s.start) && s.f == InWord(mark, v) && Has(text, p, Spelling(x))
    requires mark.Some? ==> mark.value == '"' || mark.value == '\''
    requires x.Plain? ==> x.c != '\\' && !Ends(mark, v, x.c)
    ensures Goes(text, p, s, p + |Spelling(x)|, s.(f := InWord(mark, Opens(v, x)), line := s.line + Lines(Spelling(x))), capped)
  {
    assert Spelling(x)[0] == text[p];
    match x
    case Plain(c) =>
      GoesOne(text, p, s, InWord(mark, Opens(v, x)), capped);
    case Pair(c) =>
      assert Spelling(x)[1] == text[p + 1];
      PairLines(c);
      ScanPair(text, p, s, mark, v, s.(f := InWord(mark, false), line := s.line + Lines(Spelling(x))), capped);
  }

  // a backslash and the character behind it
  lemma {:induction false} ScanPair(text: string, p: nat, s: Scan, mark: Option<char>, v: bool, t: Scan, capped: bool)
    requires s.start <= p && p + 2 <= |text| && Near(capped, p - s.start) && s.f == InWord(mark, v) && text[p] == '\\'
    requires t == s.(f := InWord(mark, false), line := s.line + (if text[p + 1] == LF then 1 else 0))
    ensures Goes(text, p, s, p + 2, t, capped)
  {
    var u := s.(f := InWord(mark, false).(quoted := true));
    GoesOne(text, p, s, u.f, capped);
    if Near(capped, p + 1 - s.start) {
      GoesOne(text, p + 1, u, t.f, capped);
    }
    GoesTwice(text, p, s, p + 1, u, p + 2, t, capped);
  }

  lemma {:induction false} PairLines(c: char)
    ensures Lines(['\\', c]) == if c == LF then 1 else 0
  {
    LinesJoin(['\\'], [c]);
    assert ['\\'] + [c] == ['\\', c] && ['\\'][1..] == [] && [c][1..] == [];
  }

  // inside a word the scanner runs over pieces that do not end it
  lemma {:induction false} ScanPieces(text: string, p: nat, s: Scan, mark: Option<char>, v: bool, ps: seq<Piece>, q: nat, t: Scan, capped: bool)
    requires s.start <= p <= |text| && Near(capped, p - s.start) && s.f == InWord(mark, v)
    requires mark.Some? ==> mark.value == '"' || mark.value == '\''
    requires Unbroken(mark, v, ps) && Has(text, p, Spell(ps))
    requires q == p + |Spell(ps)| && t == s.(f := InWord(mark, OpensLast(v, ps)), line := s.line + Lines(Spell(ps)))
    ensures Goes(text, p, s, q, t, capped)
    decreases |ps|
  {
    if ps != [] {
      var x := ps[0];
      var m := p + |Spelling(x)|;
      var u := s.(f := InWord(mark, Opens(v, x)), line := s.line + Lines(Spelling(x)));
      SplitPieces(text, p, ps);
      ScanPiece(text, p, s, mark, v, x, capped);
      if Near(capped, m - s.start) {
        ScanPieces(text, m, u, mark, Opens(v, x), ps[1..], q, t, capped);
      }
      GoesTwice(text, p, s, m, u, q, t, capped);
    }
  }

  lemma {:induction false} SplitPieces(text: string, p: nat, ps: seq<Piece>)
    requires ps != [] && Has(text, p, Spell(ps))
    ensures Has(text, p, Spelling(ps[0])) && Has(text, p + |Spelling(ps[0])|, Spell(ps[1..]))
    ensures Lines(Spell(ps)) == Lines(Spelling(ps[0])) + Lines(Spell(ps[1..]))
    ensures |Spell(ps)| == |Spelling(ps[0])| + |Spell(ps[1..])|
  {
    HasParts(text, p, Spelling(ps[0]), Spell(ps[1..]));
    LinesJoin(Spelling(ps[0]), Spell(ps[1..]));
  }

  // inside a comment the scanner runs to the end of the line
  lemma {:induction false} ScanComment(text: string, p: nat, s: Scan, rest: string, capped: bool)
    requires s.start <= p <= |text| && Near(capped, p - s.start) && s.f == Between.(comment := true)
    requires LF !in rest && Has(text, p, rest + [LF])
    ensures Goes(text, p, s, p + |rest| + 1, s.(f := Between, line := s.line + 1), capped)
    decreases |rest|
  {
    if rest == [] {
      assert (rest + [LF])[0] == LF;
      GoesOne(text, p, s, Between, capped);
    } else {
      assert rest + [LF] == [rest[0]] + (rest[1..] + [LF]);
      HasHead(text, p, rest[0], rest[1..] + [LF]);
      GoesOne(text, p, s, s.f, capped);
      if Near(capped, p + 1 - s.start) {
        ScanComment(text, p + 1, s, rest[1..], capped);
      }
      GoesTwice(text, p, s, p + 1, s, p + |rest| + 1, s.(f := Between, line := s.line + 1), capped);
    }
  }

  // the scanner stands at p between two items, and these are the words so far, the open one included
  ghost predicate Stands(text: string, p: nat, s: Scan, mid: Mid, words: seq<string>)
  {
    && s.start <= p <= |text|
    && match mid
       case Clear => s.f == Between && s.words == words
       case Closed => s.f == AfterQuote && s.words == words
       case Open(v) => s.f == InWord(None, v) && s.words + [Unescape(text[s.start..p])] == words
  }

  // where the scanner is between two items: its position and line, what is open, the words so far, and
  // how far the start of the last token is behind it
  datatype Place = Place(at: nat, line: int, mid: Mid, words: seq<string>, distance: int)

  function PlaceAfter(pl: Place, it: Item): Place
  {
    Place(pl.at + |SpellItem(it)|, pl.line + Lines(SpellItem(it)), MidAfter(it), pl.words + WordOf(it), Distance(it, pl.distance))
  }

  function PlaceAtEnd(pl: Place, items: seq<Item>): Place
    decreases items
  {
    if items == [] then pl else PlaceAtEnd(PlaceAfter(pl, items[0]), items[1..])
  }

  ghost predicate StandsAt(text: string, s: Scan, pl: Place)
  {
    Stands(text, pl.at, s, pl.mid, pl.words) && s.line == pl.line && pl.at - s.start == pl.distance
  }

  // where an item leads the scanner from a place, in state s: to t behind it, unless it gives up on it
  ghost predicate Passes(text: string, s: Scan, pl: Place, it: Item, t: Scan, capped: bool)
  {
    var next := PlaceAfter(pl, it);
    s.start <= pl.at <= |text| &&
    if Near(capped, next.distance) then Reaches(text, pl.at, s, next.at, t, capped) && StandsAt(text, t, next)
    else Lex(text, pl.at, s, capped).code == Error(TooLong)
  }

  // a blank, which ends a bare word
  lemma {:induction false} ScanSpace(text: string, s: Scan, pl: Place, c: char, capped: bool) returns (t: Scan)
    requires StandsAt(text, s, pl) && Blank(c) && Has(text, pl.at, [c]) && (!capped || pl.distance < CONF_BUFFER)
    ensures Passes(text, s, pl, Space(c), t, capped)
  {
    var p := pl.at;
    assert [c][0] == text[p] && [c][1..] == [] && pl.words + [] == pl.words;
    if pl.mid.Open? {
      LexStep(text, p, s, capped, Between, Word);
      t := After(text, p, s, Between, Word);
    } else {
      LexStep(text, p, s, capped, Between, Skip);
      t := After(text, p, s, Between, Skip);
    }
  }

  lemma {:induction false} ScanRemark(text: string, s: Scan, pl: Place, remark: string, capped: bool) returns (t: Scan)
    requires StandsAt(text, s, pl) && pl.mid.Clear? && LF !in remark && Has(text, pl.at, SpellItem(Comment(remark)))
    requires !capped || pl.distance < CONF_BUFFER
    ensures Passes(text, s, pl, Comment(remark), t, capped)
  {
    var it, p := Comment(remark), pl.at;
    HasHead(text, p, '#', remark + [LF]);
    var began := After(text, p, s, Between.(comment := true), Begin(false));
    LexStep(text, p, s, capped, Between.(comment := true), Begin(false));
    ScanComment(text, p + 1, began, remark, capped);
    t := began.(f := Between, line := s.line + 1);
    assert Lines(SpellItem(it)) == 1 by { OneLine(remark); }
    assert pl.words + [] == pl.words;
  }

  lemma {:induction false} OneLine(remark: string)
    requires LF !in remark
    ensures Lines(['#'] + (remark + [LF])) == 1
  {
    assert (['#'] + (remark + [LF]))[1..] == remark + [LF];
    NoLines(remark);
    LinesJoin(remark, [LF]);
    assert [LF][1..] == [];
  }

  lemma {:induction false} NoLines(w: string)
    requires LF !in w
    ensures Lines(w) == 0
  {
    if w != [] { NoLines(w[1..]); }
  }

  // the first piece of a bare word
  lemma {:induction false} ScanFirst(text: string, p: nat, s: Scan, x: Piece, capped: bool) returns (t: Scan)
    requires s.start <= p && (!capped || p - s.start < CONF_BUFFER) && Has(text, p, Spelling(x))
    requires s.f == Between || (s.f == AfterQuote && x == Plain(')'))
    requires x.Plain? ==> x.c != '\\' && !Ends(None, false, x.c) && x.c != '}' && x.c != '#' && x.c != '"' && x.c != '\''
    ensures t == Scan(InWord(None, Opens(false, x)), p, s.line, s.line + Lines(Spelling(x)), s.words)
    ensures Reaches(text, p, s, p + |Spelling(x)|, t, capped)
  {
    assert Spelling(x)[0] == text[p];
    match x
    case Plain(c) =>
      assert [c][1..] == [];
      t := After(text, p, s, InWord(None, Opens(false, x)), Begin(false));
      LexStep(text, p, s, capped, InWord(None, Opens(false, x)), Begin(false));
    case Pair(c) =>
      assert Spelling(x)[1] == text[p + 1];
      PairLines(c);
      var began := After(text, p, s, InWord(None, false).(quoted := true), Begin(false));
      LexStep(text, p, s, capped, began.f, Begin(false));
      LexStep(text, p + 1, began, capped, InWord(None, false), Skip);
      t := After(text, p + 1, began, InWord(None, false), Skip);
  }

  // a bare word, up to where it ends
  lemma {:induction false} RunBare(text: string, p: nat, s: Scan, ps: seq<Piece>, t: Scan, capped: bool)
    requires Valid(Bare(ps)) && Has(text, p, Spell(ps)) && s.start <= p && (!capped || p - s.start < CONF_BUFFER)
    requires s.f == Between || (s.f == AfterQuote && ps[0] == Plain(')'))
    requires t == Scan(InWord(None, OpensLast(false, ps)), p, s.line, s.line + Lines(Spell(ps)), s.words)
    ensures p + |Spell(ps)| <= |text| && Unescape(text[p..p + |Spell(ps)|]) == Read(ps)
    ensures if Near(capped, |Spell(ps)|) then Reaches(text, p, s, p + |Spell(ps)|, t, capped)
            else Lex(text, p, s, capped).code == Error(TooLong)
  {
    SplitPieces(text, p, ps);
    var began := ScanFirst(text, p, s, ps[0], capped);
    ScanPieces(text, p + |Spelling(ps[0])|, began, None, Opens(false, ps[0]), ps[1..], p + |Spell(ps)|, t, capped);
    HasSlice(text, p, Spell(ps));
    UnescapeReads(None, false, ps);
  }

  lemma {:induction false} ScanBare(text: string, s: Scan, pl: Place, ps: seq<Piece>, capped: bool) returns (t: Scan)
    requires StandsAt(text, s, pl) && Valid(Bare(ps)) && MayFollow(pl.mid, Bare(ps)) && Has(text, pl.at, Spell(ps))
    requires !capped || pl.distance < CONF_BUFFER
    ensures Passes(text, s, pl, Bare(ps), t, capped)
  {
    t := Scan(InWord(None, OpensLast(false, ps)), pl.at, s.line, s.line + Lines(Spell(ps)), s.words);
    RunBare(text, pl.at, s, ps, t, capped);
  }

  lemma {:induction false} QuotedText(text: string, p: nat, mark: char, ps: seq<Piece>)
    requires Valid(Quoted(mark, ps)) && Has(text, p, SpellItem(Quoted(mark, ps)))
    ensures var inside := Spell(ps);
            var q := p + 1 + |inside|;
            && q < |text| && text[p] == mark && Has(text, p + 1, inside) && text[q] == mark
            && Lines(SpellItem(Quoted(mark, ps))) == Lines(inside) && Unescape(text[p + 1..q]) == Read(ps)
  {
    var inside := Spell(ps);
    var q := p + 1 + |inside|;
    HasHead(text, p, mark, inside + [mark]);
    HasParts(text, p + 1, inside, [mark]);
    assert [mark][0] == mark;
    QuotedLines(mark, inside);
    HasSlice(text, p + 1, inside);
    UnescapeReads(Some(mark), false, ps);
  }

  lemma {:induction false} ScanQuoted(text: string, s: Scan, pl: Place, mark: char, ps: seq<Piece>, capped: bool) returns (t: Scan)
    requires StandsAt(text, s, pl) && pl.mid.Clear? && Valid(Quoted(mark, ps)) && Has(text, pl.at, SpellItem(Quoted(mark, ps)))
    requires !capped || pl.distance < CONF_BUFFER
    ensures Passes(text, s, pl, Quoted(mark, ps), t, capped)
  {
    var inside, p := Spell(ps), pl.at;
    var q := p + 1 + |inside|;
    QuotedText(text, p, mark, ps);
    var began := Scan(InWord(Some(mark), false), p + 1, s.line, s.line, s.words);
    var closing := began.(f := InWord(Some(mark), OpensLast(false, ps)), line := s.line + Lines(inside));
    QuoteOpens(text, p, s, mark, began, capped);
    ScanPieces(text, p + 1, began, Some(mark), false, ps, q, closing, capped);
    t := Scan(AfterQuote, p + 1, s.line, closing.line, pl.words + [Read(ps)]);
    if Near(capped, |inside|) { QuoteCloses(text, q, closing, mark, t, capped); }
  }

  lemma {:induction false} QuoteOpens(text: string, p: nat, s: Scan, mark: char, t: Scan, capped: bool)
    requires s.f == Between && s.start <= p < |text| && text[p] == mark && (mark == '"' || mark == '\'')
    requires !capped || p - s.start < CONF_BUFFER
    requires t == Scan(InWord(Some(mark), false), p + 1, s.line, s.line, s.words)
    ensures Reaches(text, p, s, p + 1, t, capped)
  {
    LexStep(text, p, s, capped, t.f, Begin(true));
  }

  lemma {:induction false} QuoteCloses(text: string, q: nat, s: Scan, mark: char, t: Scan, capped: bool)
    requires s.start <= q < |text| && text[q] == mark && (mark == '"' || mark == '\'') && Near(capped, q - s.start)
    requires s.f == InWord(Some(mark), s.f.variable)
    requires t == s.(f := AfterQuote, words := s.words + [Unescape(text[s.start..q])])
    ensures if Near(capped, q + 1 - s.start) then Reaches(text, q, s, q + 1, t, capped)
            else Lex(text, q, s, capped).code == Error(TooLong)
  {
    if Near(capped, q + 1 - s.start) {
      LexStep(text, q, s, capped, AfterQuote, Word);
    } else {
      FullBuffer(text, q, s);
    }
  }

  lemma QuotedLines(mark: char, inside: string)
    requires mark != LF
    ensures Lines([mark] + (inside + [mark])) == Lines(inside)
  {
    assert ([mark] + (inside + [mark]))[1..] == inside + [mark];
    LinesJoin(inside, [mark]);
    assert [mark][1..] == [];
  }

  lemma {:induction false} ScanItem(text: string, s: Scan, pl: Place, it: Item, capped: bool) returns (t: Scan)
    requires StandsAt(text, s, pl) && Valid(it) && MayFollow(pl.mid, it) && Has(text, pl.at, SpellItem(it))
    requires !capped || pl.distance < CONF_BUFFER
    ensures Passes(text, s, pl, it, t, capped)
  {
    match it
    case Space(c) => t := ScanSpace(text, s, pl, c, capped);
    case Comment(remark) => t := ScanRemark(text, s, pl, remark, capped);
    case Bare(ps) => t := ScanBare(text, s, pl, ps, capped);
    case Quoted(mark, ps) => t := ScanQuoted(text, s, pl, mark, ps, capped);
  }

  // The scanner runs over well-formed items, or gives up where they do not fit its buffer; r is what it
  // returns in the end.
  lemma {:induction false} ScanItems(text: string, s: Scan, pl: Place, items: seq<Item>, capped: bool, r: Lexed) returns (t: Scan)
    requires StandsAt(text, s, pl) && WellFormed(pl.mid, items) && Has(text, pl.at, SpellAll(items)) && Near(capped, pl.distance)
    requires r == Lex(text, pl.at, s, capped)
    ensures if !capped || Fits(items, pl.distance) then Comes(text, t, PlaceAtEnd(pl, items), capped, r) else r.code == Error(TooLong)
    decreases |items|
  {
    t := s;
    if items != [] {
      if capped && pl.distance == CONF_BUFFER {
        TextGoesOn(text, pl.at, items);
        FullBuffer(text, pl.at, s);
      } else {
        var next := ScanHead(text, s, pl, items, capped, r);
        var pl' := PlaceAfter(pl, items[0]);
        if Near(capped, pl'.distance) {
          t := ScanItems(text, next, pl', items[1..], capped, r);
        }
      }
    }
  }

  // the scanner comes to a place on its way to r
  ghost predicate Comes(text: string, s: Scan, pl: Place, capped: bool, r: Lexed)
  {
    StandsAt(text, s, pl) && Lex(text, pl.at, s, capped) == r
  }

  lemma {:induction false} ScanHead(text: string, s: Scan, pl: Place, items: seq<Item>, capped: bool, r: Lexed) returns (next: Scan)
    requires StandsAt(text, s, pl) && WellFormed(pl.mid, items) && Has(text, pl.at, SpellAll(items))
    requires items != [] && (!capped || pl.distance < CONF_BUFFER) && r == Lex(text, pl.at, s, capped)
    ensures var pl' := PlaceAfter(pl, items[0]);
            && WellFormed(pl'.mid, items[1..]) && Has(text, pl'.at, SpellAll(items[1..]))
            && if Near(capped, pl'.distance) then Comes(text, next, pl', capped, r) else r.code == Error(TooLong)
  {
    SplitItems(text, pl.at, items);
    next := ScanItem(text, s, pl, items[0], capped);
  }

  lemma {:induction false} TextGoesOn(text: string, p: nat, items: seq<Item>)
    requires items != [] && Valid(items[0]) && Has(text, p, SpellAll(items))
    ensures p < |text|
  {
    SpelledNonEmpty(items[0]);
  }

  lemma {:induction false} FullBuffer(text: string, p: nat, s: Scan)
    requires s.start <= p < |text| && p - s.start == CONF_BUFFER
    ensures Lex(text, p, s, true).code == Error(TooLong)
  {
  }

  // the place behind all items
  lemma {:induction false} PlaceAtEndIs(pl: Place, items: seq<Item>)
    ensures PlaceAtEnd(pl, items) == Place(pl.at + |SpellAll(items)|, pl.line + Lines(SpellAll(items)), MidAtEnd(pl.mid, items),
                                           pl.words + WordsOf(items), DistanceAtEnd(items, pl.distance))
    decreases items
  {
    if items == [] {
      assert pl.words + [] == pl.words;
    } else {
      PlaceAtEndIs(PlaceAfter(pl, items[0]), items[1..]);
      LinesJoin(SpellItem(items[0]), SpellAll(items[1..]));
      Regroup(pl.words, WordOf(items[0]), WordsOf(items[1..]));
    }
  }

  lemma {:induction false} SplitItems(text: string, p: nat, items: seq<Item>)
    requires items != [] && Has(text, p, SpellAll(items))
    ensures Has(text, p, SpellItem(items[0])) && Has(text, p + |SpellItem(items[0])|, SpellAll(items[1..]))
  {
    HasTwo(text, p, SpellAll(items), SpellItem(items[0]), SpellAll(items[1..]));
  }

  lemma {:induction false} HasTwo(text: string, p: nat, whole: string, a: string, b: string)
    requires whole == a + b && Has(text, p, whole)
    ensures Has(text, p, a) && Has(text, p + |a|, b)
  {
    HasParts(text, p, a, b);
  }

  lemma {:induction false} SpelledNonEmpty(it: Item)
    requires Valid(it)
    ensures SpellItem(it) != []
  {
    if it.Bare? { assert Spelling(it.pieces[0]) != []; }
  }

  // ---------- directives read back ----------

  // what the scanner answers to a character behind these words, if it answers at all
  function Answer(mid: Mid, words: seq<string>, c: char): Option<Code>
  {
    if c == ';' then Some(if words == [] then Error(UnexpectedChar) else Ok)
    else if c == '{' && mid != Open(true) then Some(if words == [] then Error(UnexpectedChar) else BlockStart)
    else if c == '}' && !mid.Open? then Some(if words == [] then BlockDone else Error(UnexpectedChar))
    else if mid.Closed? && !Blank(c) && c != ')' then Some(Error(UnexpectedChar))
    else None
  }

  // a word is there if one is open or was just closed
  lemma {:induction false} WordIsThere(mid: Mid, items: seq<Item>)
    requires items != [] && !MidAtEnd(mid, items).Clear?
    ensures WordsOf(items) != []
    decreases items
  {
    if items[1..] != [] { WordIsThere(MidAfter(items[0]), items[1..]); }
  }

  lemma {:induction false} Answers(text: string, p: nat, s: Scan, mid: Mid, words: seq<string>, capped: bool)
    requires Stands(text, p, s, mid, words) && p < |text| && (!mid.Clear? ==> words != [])
    requires Answer(mid, words, text[p]).Some?
    requires !capped || p - s.start < CONF_BUFFER
    ensures Lex(text, p, s, capped) == Lexed(Answer(mid, words, text[p]).value, words, s.line, p + 1)
  {
    var (f, act) := Classify(s.f, text[p], |s.words|);
    LexStep(text, p, s, capped, f, act);
  }

  // Directives and block heads are read back, whatever mixture of words and blanks they are written
  // in, and so are the faults in them; a capped scanner gives up exactly if they do not fit.
  lemma {:induction false} LexWritten(items: seq<Item>, c: char, rest: string, line: int, capped: bool)
    requires WellFormed(Clear, items) && Answer(MidAtEnd(Clear, items), WordsOf(items), c).Some?
    ensures var r := Lex((SpellAll(items) + [c]) + rest, 0, Init(0, line), capped);
            if capped && !FitsBuffer(items) then r.code == Error(TooLong)
            else r == Lexed(Answer(MidAtEnd(Clear, items), WordsOf(items), c).value, WordsOf(items),
                            line + Lines(SpellAll(items)), |SpellAll(items)| + 1)
  {
    var text, q := (SpellAll(items) + [c]) + rest, |SpellAll(items)|;
    var t := ScanText(items, text, line, capped);
    if !capped || Fits(items, 0) {
      if items != [] && !MidAtEnd(Clear, items).Clear? { WordIsThere(Clear, items); }
      assert text[q] == c;
      if capped && DistanceAtEnd(items, 0) == CONF_BUFFER {
        FullBuffer(text, q, t);
      } else {
        if capped { FitsNear(items, 0); }
        Answers(text, q, t, MidAtEnd(Clear, items), WordsOf(items), capped);
      }
    }
  }

  lemma {:induction false} FitsNear(items: seq<Item>, d: int)
    requires Fits(items, d) && d <= CONF_BUFFER
    ensures DistanceAtEnd(items, d) <= CONF_BUFFER
  {
    if items != [] { FitsNear(items[1..], Distance(items[0], d)); }
  }

  // the text of a file, or of a parameter string, ends
  lemma {:induction false} LexEnds(items: seq<Item>, line: int, capped: bool)
    requires WellFormed(Clear, items)
    ensures var r := Lex(SpellAll(items), 0, Init(0, line), capped);
            if capped && !Fits(items, 0) then r.code == Error(TooLong)
            else if WordsOf(items) != [] then r.code == Error(UnexpectedEnd)
            else r == Lexed(FileDone, [], line + Lines(SpellAll(items)), |SpellAll(items)|)
  {
    var t := ScanText(items, SpellAll(items), line, capped);
    if items != [] && !MidAtEnd(Clear, items).Clear? { WordIsThere(Clear, items); }
  }

  lemma {:induction false} ScanText(items: seq<Item>, text: string, line: int, capped: bool) returns (t: Scan)
    requires WellFormed(Clear, items) && SpellAll(items) <= text
    ensures if capped && !Fits(items, 0) then Lex(text, 0, Init(0, line), capped).code == Error(TooLong)
            else
              && Reaches(text, 0, Init(0, line), |SpellAll(items)|, t, capped)
              && Stands(text, |SpellAll(items)|, t, MidAtEnd(Clear, items), WordsOf(items))
              && t.line == line + Lines(SpellAll(items)) && |SpellAll(items)| - t.start == DistanceAtEnd(items, 0)
  {
    assert [] + WordsOf(items) == WordsOf(items);
    SliceHas(text, 0, SpellAll(items));
    var pl := Place(0, line, Clear, [], 0);
    PlaceAtEndIs(pl, items);
    t := ScanItems(text, Init(0, line), pl, items, capped, Lex(text, 0, Init(0, line), capped));
  }

  // ---------- writing any words ----------

  datatype Form = AsBare | AsSingle | AsDouble

  // w needs no quotation marks and no escapes
  predicate Simple(w: string)
  {
    && w != [] && w[0] != '}' && w[0] != '#' && w[0] != '"' && w[0] != '\''
    && forall k :: 0 <= k < |w| ==> !Blank(w[k]) && w[k] != ';' && w[k] != '{' && w[k] != '\\' && w[k] != '$'
  }

  function Plains(w: string): seq<Piece>
  {
    if w == [] then [] else [Plain(w[0])] + Plains(w[1..])
  }

  // inside quotation marks, these and backslashes stand behind a backslash
  function Escaped(mark: char, w: string): seq<Piece>
  {
    if w == [] then [] else [if w[0] == mark || w[0] == '\\' then Pair(w[0]) else Plain(w[0])] + Escaped(mark, w[1..])
  }

  function WordItem(form: Form, w: string): Item
  {
    match form
    case AsBare => Bare(Plains(w))
    case AsSingle => Quoted('\'', Escaped('\'', w))
    case AsDouble => Quoted('"', Escaped('"', w))
  }

  lemma {:induction false} PlainsReadBack(w: string)
    ensures Spell(Plains(w)) == w && Read(Plains(w)) == w
    ensures (forall k :: 0 <= k < |w| ==> !Blank(w[k]) && w[k] != ';' && w[k] != '{' && w[k] != '\\' && w[k] != '$') ==> Unbroken(None, false, Plains(w))
  {
    if w != [] {
      PlainsReadBack(w[1..]);
      assert Plains(w)[1..] == Plains(w[1..]) && [w[0]] + w[1..] == w;
    }
  }

  lemma {:induction false} EscapedReadsBack(mark: char, v: bool, w: string)
    requires mark == '"' || mark == '\''
    ensures Read(Escaped(mark, w)) == w && Unbroken(Some(mark), v, Escaped(mark, w))
    decreases w
  {
    if w != [] {
      var ps := Escaped(mark, w);
      EscapedReadsBack(mark, Opens(v, ps[0]), w[1..]);
      assert ps[1..] == Escaped(mark, w[1..]) && [w[0]] + w[1..] == w;
    }
  }

  // a simple word may be written bare, and every word, the empty one too, in quotation marks
  lemma {:induction false} WordItemReads(form: Form, w: string)
    requires form.AsBare? ==> Simple(w)
    ensures Valid(WordItem(form, w)) && WordOf(WordItem(form, w)) == [w]
    ensures form.AsBare? ==> SpellItem(WordItem(form, w)) == w
  {
    match form
    case AsBare => PlainsReadBack(w);
    case AsSingle => EscapedReadsBack('\'', false, w);
    case AsDouble => EscapedReadsBack('"', false, w);
  }

  // the words in the given forms, with a blank behind each
  function WordItems(ws: seq<(Form, string)>): seq<Item>
  {
    if ws == [] then [] else [WordItem(ws[0].0, ws[0].1), Space(' ')] + WordItems(ws[1..])
  }

  function Values(ws: seq<(Form, string)>): seq<string>
  {
    if ws == [] then [] else [ws[0].1] + Values(ws[1..])
  }

  lemma {:induction false} WordItemsRead(mid: Mid, ws: seq<(Form, string)>)
    requires mid.Clear? && forall i :: 0 <= i < |ws| && ws[i].0.AsBare? ==> Simple(ws[i].1)
    ensures WellFormed(mid, WordItems(ws)) && WordsOf(WordItems(ws)) == Values(ws) && MidAtEnd(mid, WordItems(ws)) == Clear
    decreases |ws|
  {
    if ws != [] {
      var it, items := WordItem(ws[0].0, ws[0].1), WordItems(ws[1..]);
      WordItemReads(ws[0].0, ws[0].1);
      WordItemsRead(Clear, ws[1..]);
      Prepend(Space(' '), items, MidAfter(it));
      Prepend(it, [Space(' ')] + items, mid);
      assert [it] + ([Space(' ')] + items) == WordItems(ws);
      assert [] + Values(ws[1..]) == Values(ws[1..]);
    }
  }

  lemma {:induction false} Prepend(it: Item, items: seq<Item>, mid: Mid)
    ensures var all := [it] + items;
            && SpellAll(all) == SpellItem(it) + SpellAll(items) && WordsOf(all) == WordOf(it) + WordsOf(items)
            && WellFormed(mid, all) == (Valid(it) && MayFollow(mid, it) && WellFormed(MidAfter(it), items))
            && MidAtEnd(mid, all) == MidAtEnd(MidAfter(it), items)
  {
    assert ([it] + items)[0] == it && ([it] + items)[1..] == items;
  }

  // Any words at all, in any mixture of bare and quoted forms, are read back.
  lemma {:induction false} WordsReadBack(ws: seq<(Form, string)>, end: char, rest: string, line: int, capped: bool)
    requires ws != [] && (end == ';' || end == '{') && forall i :: 0 <= i < |ws| && ws[i].0.AsBare? ==> Simple(ws[i].1)
    ensures var r := Lex((SpellAll(WordItems(ws)) + [end]) + rest, 0, Init(0, line), capped);
            if capped && !FitsBuffer(WordItems(ws)) then r.code == Error(TooLong)
            else r == Lexed(if end == ';' then Ok else BlockStart, Values(ws),
                            line + Lines(SpellAll(WordItems(ws))), |SpellAll(WordItems(ws))| + 1)
  {
    WordItemsRead(Clear, ws);
    LexWritten(WordItems(ws), end, rest, line, capped);
  }

  // ---------- examples ----------

  // a text that is read, by a scanner with no buffer, is read the same through the buffer if it is short
  lemma {:induction false} ReadsAs(items: seq<Item>, c: char, text: string, capped: bool)
    requires WellFormed(Clear, items) && Answer(MidAtEnd(Clear, items), WordsOf(items), c).Some?
    requires text == SpellAll(items) + [c] && |text| <= CONF_BUFFER
    ensures Lex(text, 0, Init(0, 1), capped) ==
            Lexed(Answer(MidAtEnd(Clear, items), WordsOf(items), c).value, WordsOf(items), 1 + Lines(SpellAll(items)), |text|)
  {
    LexWritten(items, c, "", 1, false);
    assert (SpellAll(items) + [c]) + "" == text;
    ShortTextFits(text, 0, Init(0, 1));
  }

  lemma {:induction false} SpellPieces(x: Piece, ps: seq<Piece>, mark: Option<char>, v: bool)
    ensures var all := [x] + ps;
            && Spell(all) == Spelling(x) + Spell(ps) && Read(all) == Reading(x) + Read(ps) && OpensLast(v, all) == OpensLast(Opens(v, x), ps)
            && Unbroken(mark, v, all) == ((x.Plain? ==> x.c != '\\' && !Ends(mark, v, x.c)) && Unbroken(mark, Opens(v, x), ps))
  {
    assert ([x] + ps)[0] == x && ([x] + ps)[1..] == ps;
  }

  // two bare words and a blank
  lemma {:induction false} TwoBareWords(capped: bool)
    ensures Lex("ab c;", 0, Init(0, 1), capped) == Lexed(Ok, ["ab", "c"], 1, 5)
  {
    var ab, c := WordItem(AsBare, "ab"), WordItem(AsBare, "c");
    WordItemReads(AsBare, "ab");
    WordItemReads(AsBare, "c");
    Prepend(c, [], Clear);
    Prepend(Space(' '), [c] + [], MidAfter(ab));
    Prepend(ab, [Space(' ')] + ([c] + []), Clear);
    var items := [ab] + ([Space(' ')] + ([c] + []));
    assert SpellAll(items) == "ab c" && WordsOf(items) == ["ab", "c"];
    NoLines("ab c");
    ReadsAs(items, ';', "ab c;", capped);
  }

  // pieces of two and three characters between quotation marks, and a variable
  lemma {:induction false} EscapedQuote()
    ensures var it := Quoted('"', [Plain('a'), Pair('"')]);
            Valid(it) && SpellItem(it) == "\"a\\\"\"" && WordOf(it) == ["a\""]
  {
    var ps := [Plain('a')] + ([Pair('"')] + []);
    SpellPieces(Pair('"'), [], Some('"'), false);
    SpellPieces(Plain('a'), [Pair('"')] + [], Some('"'), false);
    assert Read(ps) == "a\"";
    assert ps == [Plain('a'), Pair('"')];
  }

  lemma {:induction false} EscapedBlanks()
    ensures var it := Quoted('\'', [Pair('t'), Pair('r'), Pair('n')]);
            Valid(it) && SpellItem(it) == "'\\t\\r\\n'" && WordOf(it) == ["\t\r\n"]
  {
    var ps := [Pair('t')] + ([Pair('r')] + ([Pair('n')] + []));
    SpellPieces(Pair('n'), [], Some('\''), false);
    SpellPieces(Pair('r'), [Pair('n')] + [], Some('\''), false);
    SpellPieces(Pair('t'), [Pair('r')] + ([Pair('n')] + []), Some('\''), false);
    assert ps == [Pair('t'), Pair('r'), Pair('n')] && Read(ps) == "\t\r\n";
  }

  lemma {:induction false} Variable()
    ensures var it := Bare([Plain('$'), Plain('{'), Plain('}')]);
            Valid(it) && SpellItem(it) == "${}" && WordOf(it) == ["${}"] && MidAfter(it) == Open(false)
  {
    var ps := [Plain('$')] + ([Plain('{')] + ([Plain('}')] + []));
    SpellPieces(Plain('}'), [], None, true);
    SpellPieces(Plain('{'), [Plain('}')] + [], None, true);
    SpellPieces(Plain('$'), [Plain('{')] + ([Plain('}')] + []), None, false);
    assert ps == [Plain('$'), Plain('{'), Plain('}')];
  }

  // behind mid, the items make up this text and these words, and end like this
  ghost predicate MakesUp(items: seq<Item>, mid: Mid, text: string, words: seq<string>, end: Mid)
  {
    WellFormed(mid, items) && SpellAll(items) == text && WordsOf(items) == words && MidAtEnd(mid, items) == end
  }

  lemma {:induction false} Grow(it: Item, head: string, word: seq<string>, items: seq<Item>, text: string, words: seq<string>, mid: Mid, end: Mid)
    requires Valid(it) && MayFollow(mid, it) && SpellItem(it) == head && WordOf(it) == word && MakesUp(items, MidAfter(it), text, words, end)
    ensures MakesUp([it] + items, mid, head + text, word + words, end)
  {
    Prepend(it, items, mid);
  }

  // a comment, words in both kinds of quotation marks with escapes in them, and a variable
  lemma {:induction false} MixedForms(spelled: string, text: string, capped: bool)
    requires spelled == "\"a\\\"\" '\\t\\r\\n' ${}" && text == ("#!\n" + spelled) + "{"
    ensures Lex(text, 0, Init(0, 1), capped) == Lexed(BlockStart, ["a\"", "\t\r\n", "${}"], 2, |text|)
  {
    var items := MixedItems();
    var words := ["a\"", "\t\r\n", "${}"];
    assert "#!\n" == ['#'] + ("!" + [LF]) && [] + words == words;
    assert Lines("#!\n" + spelled) == 1 by { LinesBehind(spelled); }
    assert |text| <= CONF_BUFFER;
    Grow(Comment("!"), "#!\n", [], items, spelled, words, Clear, Open(false));
    ReadsAs([Comment("!")] + items, '{', text, capped);
  }

  lemma {:induction false} LinesBehind(spelled: string)
    requires LF !in spelled
    ensures Lines("#!\n" + spelled) == 1
  {
    NoLines(spelled);
    LinesJoin("#!\n", spelled);
  }

  lemma {:induction false} MixedItems() returns (items: seq<Item>)
    ensures MakesUp(items, Clear, "\"a\\\"\" '\\t\\r\\n' ${}", ["a\"", "\t\r\n", "${}"], Open(false))
  {
    items := MixedTail();
    assert "\"a\\\"\" '\\t\\r\\n' ${}" == "\"a\\\"\"" + " '\\t\\r\\n' ${}";
    EscapedQuote();
    items := GrowOne(Quoted('"', [Plain('a'), Pair('"')]), items, " '\\t\\r\\n' ${}", ["\t\r\n", "${}"], Clear, Open(false),
                     "\"a\\\"\" '\\t\\r\\n' ${}", ["a\"", "\t\r\n", "${}"]);
  }

  lemma {:induction false} MixedTail() returns (items: seq<Item>)
    ensures MakesUp(items, Closed, " '\\t\\r\\n' ${}", ["\t\r\n", "${}"], Open(false))
  {
    EscapedBlanks();
    Variable();
    items := GrowOne(Bare([Plain('$'), Plain('{'), Plain('}')]), [], "", [], Clear, Open(false), "${}", ["${}"]);
    items := GrowOne(Space(' '), items, "${}", ["${}"], Closed, Open(false), " ${}", ["${}"]);
    items := GrowOne(Quoted('\'', [Pair('t'), Pair('r'), Pair('n')]), items, " ${}", ["${}"], Clear, Open(false),
                     "'\\t\\r\\n' ${}", ["\t\r\n", "${}"]);
    items := GrowOne(Space(' '), items, "'\\t\\r\\n' ${}", ["\t\r\n", "${}"], Closed, Open(false), " '\\t\\r\\n' ${}", ["\t\r\n", "${}"]);
  }

  lemma {:induction false} GrowOne(it: Item, items: seq<Item>, text: string, words: seq<string>, mid: Mid, end: Mid, whole: string, all: seq<string>)
    returns (grown: seq<Item>)
    requires Valid(it) && MayFollow(mid, it) && MakesUp(items, MidAfter(it), text, words, end)
    requires whole == SpellItem(it) + text && all == WordOf(it) + words
    ensures MakesUp(grown, mid, whole, all, end)
  {
    Grow(it, SpellItem(it), WordOf(it), items, text, words, mid, end);
    grown := [it] + items;
  }
}
