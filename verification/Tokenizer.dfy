// The configuration tokenizer: a character state machine over a buffer that is refilled while a
// token is being scanned, and the lexer over the whole text that it implements.
module Lexer {
  import opened Base

  const LF := '\n'
  const CR := '\r'
  const CONF_BUFFER := 4096

  datatype Why = TooLong | UnexpectedChar | UnexpectedEnd | ReadFailed | NoMemory
  datatype Code = Ok | BlockStart | BlockDone | FileDone | Error(why: Why)

  datatype Flags = Flags(lastSpace: bool, needSpace: bool, comment: bool, variable: bool,
                         quoted: bool, sQuoted: bool, dQuoted: bool)

  // what one character makes the scanner do: nothing, note the start of a token (after skipping an
  // opening quote), end a word, or return
  datatype Action = Skip | Begin(quote: bool) | Word | Finish(code: Code)

  predicate Blank(ch: char)
  {
    ch == ' ' || ch == '\t' || ch == CR || ch == LF
  }

  // a character met between tokens, n words after the last separator
  function Fresh(f: Flags, ch: char, n: nat): (Flags, Action)
  {
    if Blank(ch) then (f, Skip)
    else if ch == ';' || ch == '{' then
      (f, Finish(if n == 0 then Error(UnexpectedChar) else if ch == '{' then BlockStart else Ok))
    else if ch == '}' then (f, Finish(if n != 0 then Error(UnexpectedChar) else BlockDone))
    else if ch == '#' then (f.(comment := true), Begin(false))
    else if ch == '\\' then (f.(quoted := true, lastSpace := false), Begin(false))
    else if ch == '"' then (f.(dQuoted := true, lastSpace := false), Begin(true))
    else if ch == '\'' then (f.(sQuoted := true, lastSpace := false), Begin(true))
    else if ch == '$' then (f.(variable := true, lastSpace := false), Begin(false))
    else (f.(lastSpace := false), Begin(false))
  }

  // a character met inside a token
  function Inside(f: Flags, ch: char): (Flags, Action)
  {
    if ch == '{' && f.variable then (f, Skip)
    else
      var g := f.(variable := false);
      if ch == '\\' then (g.(quoted := true), Skip)
      else if ch == '$' then (g.(variable := true), Skip)
      else if g.dQuoted then
        if ch == '"' then (g.(dQuoted := false, needSpace := true), Word) else (g, Skip)
      else if g.sQuoted then
        if ch == '\'' then (g.(sQuoted := false, needSpace := true), Word) else (g, Skip)
      else if Blank(ch) || ch == ';' || ch == '{' then (g.(lastSpace := true), Word)
      else (g, Skip)
  }

  function Classify(f: Flags, ch: char, n: nat): (Flags, Action)
  {
    var g := if ch == LF then f.(comment := false) else f;
    if g.comment then (g, Skip)
    else if g.quoted then (g.(quoted := false), Skip)
    else if g.needSpace then
      if Blank(ch) then (g.(lastSpace := true, needSpace := false), Skip)
      else if ch == ';' then (g, Finish(Ok))
      else if ch == '{' then (g, Finish(BlockStart))
      else if ch == ')' then Fresh(g.(lastSpace := true, needSpace := false), ch, n)
      else (g, Finish(Error(UnexpectedChar)))
    else if g.lastSpace then Fresh(g, ch, n)
    else Inside(g, ch)
  }

  // the text of a word without its escapes
  function Unescape(s: string): string
  {
    if s == [] then []
    else if s[0] == '\\' && |s| > 1 then
      if s[1] == '"' || s[1] == '\'' || s[1] == '\\' then [s[1]] + Unescape(s[2..])
      else if s[1] == 't' then ['\t'] + Unescape(s[2..])
      else if s[1] == 'r' then ['\r'] + Unescape(s[2..])
      else if s[1] == 'n' then ['\n'] + Unescape(s[2..])
      else [s[0]] + Unescape(s[1..])
    else [s[0]] + Unescape(s[1..])
  }

  // every backslash that is not itself escaped has a character after it
  predicate Paired(s: string)
  {
    if s == [] then true
    else if s[0] == '\\' then |s| > 1 && Paired(s[2..])
    else Paired(s[1..])
  }

  // the character that unescaping produces at s[k], and where it goes on
  function Unescaped(s: string): (char, nat)
    requires s != []
  {
    if s[0] == '\\' && |s| > 1 then
      var c := s[1];
      if c == '"' || c == '\'' || c == '\\' then (c, 2)
      else if c == 't' then ('\t', 2)
      else if c == 'r' then ('\r', 2)
      else if c == 'n' then ('\n', 2)
      else (s[0], 1)
    else (s[0], 1)
  }

  lemma {:induction false} UnescapeHead(s: string)
    requires s != [] && Paired(s)
    ensures s[0] == '\\' ==> |s| > 1
    ensures var (c, n) := Unescaped(s); n <= |s| && Paired(s[n..]) && Unescape(s) == [c] + Unescape(s[n..])
  {
    if s[0] == '\\' {
      assert s[1..][1..] == s[2..];
    }
  }

  // one turn of the copy loop, after done was copied
  lemma {:induction false} UnescapeAt(s: string, done: string)
    requires s != [] && Paired(s)
    ensures s[0] == '\\' ==> |s| > 1
    ensures var (c, n) := Unescaped(s);
      n <= |s| && Paired(s[n..]) && done + Unescape(s) == (done + [c]) + Unescape(s[n..])
  {
    UnescapeHead(s);
    var (c, n) := Unescaped(s);
    Regroup(done, [c], Unescape(s[n..]));
  }

  datatype Scan = Scan(f: Flags, start: nat, startLine: int, line: int, words: seq<string>)
  datatype Lexed = Lexed(code: Code, words: seq<string>, line: int, pos: nat)

  function Init(p: nat, line: int): Scan
  {
    Scan(Flags(true, false, false, false, false, false, false), p, line, line, [])
  }

  // the scan after the character at p, which left flags f and asked for act
  function After(text: string, p: nat, s: Scan, f: Flags, act: Action): Scan
    requires s.start <= p < |text|
  {
    var t := s.(f := f, line := if text[p] == LF then s.line + 1 else s.line);
    match act
    case Begin(quote) => t.(start := if quote then p + 1 else p, startLine := t.line)
    case Word => t.(words := s.words + [Unescape(text[s.start..p])])
    case _ => t
  }

  // the scan goes on at the next character
  predicate GoesOn(ch: char, act: Action)
  {
    !act.Finish? && !(act.Word? && (ch == ';' || ch == '{'))
  }

  // what is returned otherwise
  function Returned(ch: char, act: Action): Code
  {
    if act.Finish? then act.code else if ch == ';' then Ok else BlockStart
  }

  // What the scanner returns on the text from p on, in state s. A capped scanner gives up on a token
  // that does not fit its buffer.
  function Lex(text: string, p: nat, s: Scan, capped: bool): Lexed
    requires s.start <= p <= |text|
    decreases |text| - p
  {
    if p == |text| then
      Lexed(if s.words != [] || !s.f.lastSpace then Error(UnexpectedEnd) else FileDone, s.words, s.line, p)
    else if capped && p - s.start == CONF_BUFFER then
      Lexed(Error(TooLong), s.words, s.startLine, p)
    else
      var (f, act) := Classify(s.f, text[p], |s.words|);
      var t := After(text, p, s, f, act);
      if GoesOn(text[p], act) then Lex(text, p + 1, t, capped)
      else Lexed(Returned(text[p], act), t.words, t.line, p + 1)
  }

  // the scanner consumes a part of the text, and a directive is never empty
  lemma {:induction false} LexConsumes(text: string, p: nat, s: Scan, capped: bool)
    requires s.start <= p <= |text|
    ensures p <= Lex(text, p, s, capped).pos <= |text|
    ensures Lex(text, p, s, capped).code == Ok || Lex(text, p, s, capped).code == BlockStart ==> p < Lex(text, p, s, capped).pos
    decreases |text| - p
  {
    if p < |text| && !(capped && p - s.start == CONF_BUFFER) {
      var (f, act) := Classify(s.f, text[p], |s.words|);
      if GoesOn(text[p], act) { LexConsumes(text, p + 1, After(text, p, s, f, act), capped); }
    }
  }

  // Scanning pairs backslashes with the character after them, as the copy loop does: inside a token
  // the text so far is paired, or its last backslash is waiting for its character.
  ghost predicate WellScanned(text: string, p: nat, s: Scan)
  {
    && s.start <= p <= |text|
    && (s.f.comment ==> s.f.lastSpace) && !(s.f.dQuoted && s.f.sQuoted)
    && (if s.f.lastSpace || s.f.needSpace then !s.f.quoted && !s.f.dQuoted && !s.f.sQuoted
        else if s.f.quoted then s.start < p && text[p - 1] == '\\' && Paired(text[s.start..p - 1])
        else Paired(text[s.start..p]))
  }

  lemma {:induction false} PairedGrows(s: string, c: char, d: char)
    requires Paired(s)
    ensures c != '\\' ==> Paired(s + [c])
    ensures c == '\\' ==> Paired(s + [c, d])
  {
    if s != [] {
      var k := if s[0] == '\\' then 2 else 1;
      PairedGrows(s[k..], c, d);
      assert (s + [c])[k..] == s[k..] + [c] && (s + [c, d])[k..] == s[k..] + [c, d];
    } else {
      assert (s + [c])[1..] == [] && (s + [c, d])[2..] == [];
    }
  }

  // A word always ends where no backslash is pending.
  lemma {:induction false} ScanStaysPaired(text: string, p: nat, s: Scan, f: Flags, act: Action)
    requires WellScanned(text, p, s) && p < |text| && (f, act) == Classify(s.f, text[p], |s.words|)
    ensures act.Word? ==> Paired(text[s.start..p])
    ensures !act.Finish? ==> WellScanned(text, p + 1, After(text, p, s, f, act))
  {
    if s.f.lastSpace || s.f.needSpace {
      PairedBetween(text, p, s, f, act);
    } else {
      PairedInside(text, p, s, f, act);
    }
  }

  lemma {:induction false} PairedBetween(text: string, p: nat, s: Scan, f: Flags, act: Action)
    requires WellScanned(text, p, s) && p < |text| && (f, act) == Classify(s.f, text[p], |s.words|)
    requires s.f.lastSpace || s.f.needSpace
    ensures !act.Word? && (!act.Finish? ==> WellScanned(text, p + 1, After(text, p, s, f, act)))
  {
    TokenOpens(text, p);
  }

  lemma {:induction false} PairedInside(text: string, p: nat, s: Scan, f: Flags, act: Action)
    requires WellScanned(text, p, s) && p < |text| && (f, act) == Classify(s.f, text[p], |s.words|)
    requires !s.f.lastSpace && !s.f.needSpace
    ensures act.Word? ==> Paired(text[s.start..p])
    ensures !act.Finish? ==> WellScanned(text, p + 1, After(text, p, s, f, act))
  {
    TokenGrows(text, p, s.start, s.f.quoted);
  }

  lemma {:induction false} TokenOpens(text: string, p: nat)
    requires p < |text|
    ensures Paired(text[p + 1..p + 1]) && (text[p] != '\\' ==> Paired(text[p..p + 1])) && Paired(text[p..p])
  {
    assert text[p + 1..p + 1] == [] && text[p..p] == [];
    assert text[p..p + 1] == [text[p]];
    assert [text[p]][1..] == [];
  }

  lemma {:induction false} TokenGrows(text: string, p: nat, from: nat, quoted: bool)
    requires from <= p < |text|
    requires if quoted then from < p && text[p - 1] == '\\' && Paired(text[from..p - 1]) else Paired(text[from..p])
    ensures quoted || text[p] != '\\' ==> Paired(text[from..p + 1])
  {
    if quoted {
      assert text[from..p + 1] == text[from..p - 1] + ['\\', text[p]];
      PairedGrows(text[from..p - 1], '\\', text[p]);
    } else {
      assert text[from..p + 1] == text[from..p] + [text[p]];
      PairedGrows(text[from..p], text[p], text[p]);
    }
  }

  // a read or an allocation failed
  predicate Faulty(code: Code)
  {
    code == Error(ReadFailed) || code == Error(NoMemory)
  }

  // the text is never to blame for that
  lemma NeverFaulty(f: Flags, ch: char, n: nat)
    ensures !Faulty(Returned(ch, Classify(f, ch, n).1))
  {
  }

  lemma {:induction false} LexStep(text: string, p: nat, s: Scan, capped: bool, f: Flags, act: Action)
    requires s.start <= p < |text| && !(capped && p - s.start == CONF_BUFFER)
    requires (f, act) == Classify(s.f, text[p], |s.words|)
    ensures var t := After(text, p, s, f, act);
      Lex(text, p, s, capped) ==
        if GoesOn(text[p], act) then Lex(text, p + 1, t, capped)
        else Lexed(Returned(text[p], act), t.words, t.line, p + 1)
  {
  }
}

module Tokenizer {
  import opened Lexer

  datatype Fetched = End | Full | Failed | Got(ch: char)

  // what the scanner asks the system for: reads and memory. The requests that failed are counted.
  class Environment {
    ghost var failures: nat

    constructor ()
      ensures failures == 0
    {
      failures := 0;
    }

    method Grant() returns (ok: bool)
      modifies this
      ensures failures == old(failures) + if ok then 0 else 1
    {
      ok := *;
      if !ok {
        failures := failures + 1;
      }
    }
  }

  class ConfFile {
    const env: Environment
    const buffer: array<char>
    var pos: nat
    var last: nat
    const onDisk: bool        // false for a parameter string: the buffer holds all of it
    const content: string     // the file's bytes
    var offset: nat
    var line: int
    var args: seq<string>

    ghost predicate Valid()
      reads this`pos, this`last, this`offset
    {
      && pos <= last <= buffer.Length
      && offset <= |content|
      && (if onDisk then buffer.Length == CONF_BUFFER else content == [])
    }

    // the text that has not been scanned yet
    ghost function Rest(): string
      requires Valid()
      reads this`pos, this`last, this`offset, buffer
    {
      buffer[pos..last] + content[offset..]
    }

    constructor FromFile(text: string, env: Environment)
      ensures Valid() && onDisk && Rest() == text && line == 1 && fresh(buffer) && this.env == env
    {
      this.env := env;
      buffer := new char[CONF_BUFFER];
      pos, last, offset, line, args := 0, 0, 0, 1, [];
      onDisk, content := true, text;
    }

    constructor FromParam(text: string, env: Environment)
      ensures Valid() && !onDisk && Rest() == text && line == 0 && fresh(buffer) && this.env == env
    {
      this.env := env;
      var b := new char[|text|](i requires 0 <= i < |text| => text[i]);
      buffer := b;
      pos, last, offset, line, args := 0, |text|, 0, 0, [];
      onDisk, content := false, [];
      new;
      assert buffer[..] == text;
    }

    // The unfinished token moves to the front of the buffer.
    method MoveToFront(start: nat, len: nat)
      requires start + len <= buffer.Length
      modifies buffer
      ensures buffer[..len] == old(buffer[start..start + len])
    {
      forall i | 0 <= i < len {
        buffer[i] := buffer[start + i];
      }
    }

    // The file's next size bytes, from byte from on, go behind the first len characters of the buffer.
    method ReadFile(len: nat, from: nat, size: nat)
      requires from + size <= |content| && len + size <= buffer.Length
      modifies buffer
      ensures buffer[..len] == old(buffer[..len]) && buffer[len..len + size] == content[from..from + size]
    {
      forall i | 0 <= i < size {
        buffer[len + i] := content[from + i];
      }
    }

    // The size bytes that were read are the unscanned part of the buffer.
    method Advance(len: nat, size: nat)
      requires Valid() && len + size <= buffer.Length && offset + size <= |content|
      requires buffer[len..len + size] == content[offset..offset + size]
      modifies this`pos, this`last, this`offset
      ensures Valid() && Rest() == content[old(offset)..] && pos == len && last == len + size
    {
      pos := len;
      last := pos + size;
      offset := offset + size;
      assert content[old(offset)..] == content[old(offset)..offset] + content[offset..];
    }

    lemma NothingLeft()
      requires Valid() && pos == last
      ensures Rest() == content[offset..]
    {
    }

    // Moves the unfinished token to the front of the buffer and reads on behind it. The read may
    // fail or come up short.
    method Refill(start: nat) returns (ok: bool)
      requires Valid() && start <= pos == last && pos - start < CONF_BUFFER && offset < |content|
      modifies this`pos, this`last, this`offset, buffer, env
      ensures env.failures == old(env.failures) + if ok then 0 else 1
      ensures ok ==> Valid() && Rest() == old(Rest()) && pos == old(pos) - start && pos < last
      ensures ok ==> buffer[..pos] == old(buffer[start..pos])
    {
      NothingLeft();
      var len := pos - start;
      MoveToFront(start, len);
      var size := |content| - offset;
      if size > buffer.Length - len {
        size := buffer.Length - len;
      }
      ok := env.Grant();
      if !ok {
        return false;
      }
      ReadFile(len, offset, size);
      Advance(len, size);
      return true;
    }

    // one turn of the copy loop: a character, or what the escape stands for
    method CopyChar(src: nat, end: nat, dst: array<char>, d: nat) returns (next: nat)
      requires src < end < buffer.Length && d < dst.Length && dst != buffer
      requires buffer[src] == '\\' ==> src + 1 < end
      modifies dst
      ensures (dst[d], next - src) == old(Unescaped(buffer[src..end]))
      ensures dst[..d + 1] == old(dst[..d]) + [dst[d]]
    {
      ghost var s := buffer[src..end];
      assert s[0] == buffer[src] && (|s| > 1 ==> s[1] == buffer[src + 1]);
      next := src;
      var c := if buffer[src] == '\\' then buffer[src + 1] else '\0';
      if c == 't' || c == 'r' || c == 'n' {
        dst[d] := if c == 't' then '\t' else if c == 'r' then '\r' else '\n';
        next := src + 2;
      } else {
        if c == '"' || c == '\'' || c == '\\' {
          next := src + 1;
        }
        dst[d] := buffer[next];
        next := next + 1;
      }
    }

    // the copy loop of a finished word; false when there is no memory for it
    method CopyWord(start: nat, end: nat) returns (ok: bool, word: string)
      requires start <= end < buffer.Length && Paired(buffer[start..end])
      modifies env
      ensures env.failures == old(env.failures) + if ok then 0 else 1
      ensures ok ==> word == Unescape(buffer[start..end])
    {
      word := [];
      ok := env.Grant();
      if !ok {
        return;
      }
      ghost var whole := Unescape(buffer[start..end]);
      var dst := new char[end - start + 1];
      var src, d := start, 0;
      while src < end
        invariant start <= src <= end && 0 <= d <= src - start && env.failures == old(env.failures)
        invariant Paired(buffer[src..end]) && whole == dst[..d] + Unescape(buffer[src..end])
      {
        ghost var rest := buffer[src..end];
        assert rest[0] == buffer[src] && |rest| == end - src;
        UnescapeAt(rest, dst[..d]);
        ghost var n := Unescaped(rest).1;
        assert rest[n..] == buffer[src + n..end];
        src := CopyChar(src, end, dst, d);
        d := d + 1;
      }
      dst[d] := '\0';
      word := dst[..d];
    }

    // The character switch of the scanner: the flags it leaves and what it makes the scanner do.
    static method ScanChar(flags: Flags, ch: char, nargs: nat) returns (f: Flags, act: Action)
      ensures (f, act) == Classify(flags, ch, nargs)
    {
      f := flags;
      if ch == LF {
        if f.comment {
          f := f.(comment := false);
        }
      }
      if f.comment {
        return f, Skip;
      }
      if f.quoted {
        f := f.(quoted := false);
        return f, Skip;
      }
      if f.needSpace {
        if ch == ' ' || ch == '\t' || ch == CR || ch == LF {
          f := f.(lastSpace := true, needSpace := false);
          return f, Skip;
        }
        if ch == ';' {
          return f, Finish(Ok);
        }
        if ch == '{' {
          return f, Finish(BlockStart);
        }
        if ch == ')' {
          f := f.(lastSpace := true, needSpace := false);
        } else {
          return f, Finish(Error(UnexpectedChar));
        }
      }
      if f.lastSpace {
        if ch == ' ' || ch == '\t' || ch == CR || ch == LF {
          return f, Skip;
        }
        match ch {
          case ';' | '{' =>
            if nargs == 0 {
              return f, Finish(Error(UnexpectedChar));
            }
            if ch == '{' {
              return f, Finish(BlockStart);
            }
            return f, Finish(Ok);
          case '}' =>
            if nargs != 0 {
              return f, Finish(Error(UnexpectedChar));
            }
            return f, Finish(BlockDone);
          case '#' =>
            f := f.(comment := true);
            return f, Begin(false);
          case '\\' =>
            f := f.(quoted := true, lastSpace := false);
            return f, Begin(false);
          case '"' =>
            f := f.(dQuoted := true, lastSpace := false);
            return f, Begin(true);
          case '\'' =>
            f := f.(sQuoted := true, lastSpace := false);
            return f, Begin(true);
          case '$' =>
            f := f.(variable := true, lastSpace := false);
            return f, Begin(false);
          case _ =>
            f := f.(lastSpace := false);
            return f, Begin(false);
        }
      }
      if ch == '{' && f.variable {
        return f, Skip;
      }
      f := f.(variable := false);
      if ch == '\\' {
        f := f.(quoted := true);
        return f, Skip;
      }
      if ch == '$' {
        f := f.(variable := true);
        return f, Skip;
      }
      var found := false;
      if f.dQuoted {
        if ch == '"' {
          f := f.(dQuoted := false, needSpace := true);
          found := true;
        }
      } else if f.sQuoted {
        if ch == '\'' {
          f := f.(sQuoted := false, needSpace := true);
          found := true;
        }
      } else if ch == ' ' || ch == '\t' || ch == CR || ch == LF || ch == ';' || ch == '{' {
        f := f.(lastSpace := true);
        found := true;
      }
      act := if found then Word else Skip;
    }

    // used characters of text have been taken; the token that began at from lies at start in the buffer
    ghost predicate At(text: string, used: nat, start: nat, from: int)
      reads this`pos, this`last, this`offset, buffer
    {
      && Valid() && start <= pos && used <= |text| && Rest() == text[used..]
      && 0 <= from == used - (pos - start) && buffer[start..pos] == text[from..used]
    }

    lemma AtLater(text: string, used: nat, start: nat, from: int, next: nat)
      requires At(text, used, start, from) && start <= next <= pos
      ensures At(text, used, next, from + (next - start))
    {
      assert buffer[next..pos] == buffer[start..pos][next - start..];
      assert text[from + (next - start)..used] == text[from..used][next - start..];
    }

    // the next character, after a refill if the buffer is used up
    method Fetch(start: nat, ghost text: string, ghost used: nat, ghost from: nat) returns (got: Fetched, at: nat)
      requires At(text, used, start, from)
      modifies this`pos, this`last, this`offset, buffer, env
      ensures env.failures == old(env.failures) + if got == Failed then 1 else 0
      ensures got == End <==> used == |text|
      ensures got == Full <==> used < |text| && onDisk && used - from == CONF_BUFFER
      ensures got == End || got == Full ==> At(text, used, start, from)
      ensures got.Got? ==> used < |text| && got.ch == text[used] && At(text, used + 1, at, from) && at < pos
    {
      at := start;
      if pos >= last {
        if offset >= |content| {
          return End, at;
        }
        var len := pos - start;
        if len == CONF_BUFFER {
          return Full, at;
        }
        var ok := Refill(start);
        if !ok {
          return Failed, at;
        }
        at := 0;
      }
      var ch := TakeChar(at, text, used, from);
      got := Got(ch);
    }

    method TakeChar(ghost at: nat, ghost text: string, ghost used: nat, ghost from: nat) returns (ch: char)
      requires At(text, used, at, from) && pos < last
      modifies this`pos
      ensures used < |text| && ch == text[used] && At(text, used + 1, at, from) && at < pos
    {
      assert Rest()[0] == buffer[pos];
      ch := buffer[pos];
      assert text[used..][0] == text[used] && text[used..][1..] == text[used + 1..];
      pos := pos + 1;
      assert buffer[at..pos] == buffer[at..pos - 1] + [ch];
      assert text[from..used + 1] == text[from..used] + [ch];
      assert Rest() == text[used + 1..];
    }

    // the word that ended one character ago
    method EndWord(start: nat, ghost text: string, ghost used: nat, ghost from: nat) returns (ok: bool, word: string)
      requires At(text, used + 1, start, from) && start < pos && from <= used && Paired(text[from..used])
      modifies env
      ensures env.failures == old(env.failures) + if ok then 0 else 1
      ensures ok ==> word == Unescape(text[from..used])
    {
      assert buffer[start..pos - 1] == buffer[start..pos][..pos - 1 - start] == text[from..used];
      ok, word := CopyWord(start, pos - 1);
    }

    method AddWord(start: nat, ghost text: string, ghost used: nat, ghost from: nat) returns (ok: bool)
      requires At(text, used + 1, start, from) && start < pos && from <= used && Paired(text[from..used])
      modifies this`args, env
      ensures env.failures == old(env.failures) + if ok then 0 else 1
      ensures At(text, used + 1, start, from) && args == if ok then old(args) + [Unescape(text[from..used])] else old(args)
    {
      var word;
      ok, word := EndWord(start, text, used, from);
      if ok {
        args := args + [word];
      }
      assert At(text, used + 1, start, from);
    }

    // one turn of the scanner: what it does, and that this is what the lexer over the whole text does
    method Turn(flags: Flags, ch: char, nargs: nat, ghost text: string, ghost used: nat, ghost s: Scan)
      returns (f: Flags, act: Action)
      requires WellScanned(text, used, s) && used < |text| && ch == text[used] && flags == s.f && nargs == |s.words|
      requires !(onDisk && used - s.start == CONF_BUFFER)
      ensures !Faulty(Returned(ch, act)) && (act.Word? ==> Paired(text[s.start..used]))
      ensures !act.Finish? ==> WellScanned(text, used + 1, After(text, used, s, f, act))
      ensures var t := After(text, used, s, f, act);
        Lex(text, used, s, onDisk) ==
          if GoesOn(ch, act) then Lex(text, used + 1, t, onDisk)
          else Lexed(Returned(ch, act), t.words, t.line, used + 1)
    {
      f, act := ScanChar(flags, ch, nargs);
      LexStep(text, used, s, onDisk, f, act);
      NeverFaulty(flags, ch, nargs);
      ScanStaysPaired(text, used, s, f, act);
    }

    // where the token that is being scanned starts in the buffer after the last character
    function Opened(act: Action, start: nat): nat
      requires 0 < pos
      reads this`pos
    {
      match act
      case Begin(quote) => if quote then pos else pos - 1
      case _ => start
    }

    lemma AtOpened(text: string, used: nat, start: nat, s: Scan, f: Flags, act: Action)
      requires s.start <= used < |text| && At(text, used + 1, start, s.start) && start < pos
      ensures At(text, used + 1, Opened(act, start), After(text, used, s, f, act).start)
    {
      AtLater(text, used + 1, start, s.start, Opened(act, start));
    }

    // what a character leaves to record: the word that it ends; false when there is no memory for it
    method Record(start: nat, ch: char, f: Flags, act: Action, ghost text: string, ghost used: nat, ghost s: Scan) returns (ok: bool)
      requires used < |text| && ch == text[used] && At(text, used + 1, start, s.start) && start < pos && s.start <= used
      requires act.Word? ==> Paired(text[s.start..used])
      requires args == s.words && line == s.line + if ch == LF then 1 else 0
      modifies this`args, env
      ensures env.failures == old(env.failures) + if ok then 0 else 1
      ensures var t := After(text, used, s, f, act);
              && At(text, used + 1, Opened(act, start), t.start)
              && t == Scan(f, t.start, if act.Begin? then line else s.startLine, line, t.words) && (ok ==> args == t.words)
    {
      ok := true;
      if act.Word? {
        ok := AddWord(start, text, used, s.start);
      }
      AtOpened(text, used, start, s, f, act);
    }

    // what one character does to the scanner's variables; done when the scanner returns
    method Process(flags: Flags, start: nat, startLine: int, ch: char, ghost text: string, ghost used: nat, ghost s: Scan)
      returns (f: Flags, start': nat, startLine': int, done: bool, code: Code, ghost t: Scan)
      requires used < |text| && ch == text[used] && At(text, used + 1, start, s.start) && start < pos
      requires s == Scan(flags, s.start, startLine, line, args) && WellScanned(text, used, s)
      requires !(onDisk && used - s.start == CONF_BUFFER)
      modifies this`line, this`args, env
      ensures env.failures == old(env.failures) + if done && Faulty(code) then 1 else 0
      ensures At(text, used + 1, start', t.start)
      ensures !done ==>
                && t == Scan(f, t.start, startLine', line, args)
                && WellScanned(text, used + 1, t) && Lex(text, used, s, onDisk) == Lex(text, used + 1, t, onDisk)
      ensures done && !Faulty(code) ==> Lex(text, used, s, onDisk) == Lexed(code, args, line, used + 1)
    {
      if ch == LF {
        line := line + 1;
      }
      var act;
      f, act := Turn(flags, ch, |args|, text, used, s);
      t := After(text, used, s, f, act);
      start', startLine' := Opened(act, start), if act.Begin? then line else startLine;
      var ok := Record(start, ch, f, act, text, used, s);
      done, code := !GoesOn(ch, act), Returned(ch, act);
      if !ok {
        done, code := true, Error(NoMemory);
      }
    }

    // what the scanner's variables say of the scan of text, whose outcome is goal
    ghost predicate Scanning(text: string, used: nat, start: nat, s: Scan, flags: Flags, startLine: int, goal: Lexed)
      reads this, buffer
    {
      && At(text, used, start, s.start) && s == Scan(flags, s.start, startLine, line, args)
      && WellScanned(text, used, s) && Lex(text, used, s, onDisk) == goal
    }

    // the outcome is what the method returns, unless a read or an allocation failed
    ghost predicate Finished(text: string, used: nat, code: Code, goal: Lexed)
      reads this, buffer
    {
      !Faulty(code) ==>
        Valid() && used <= |text| && Rest() == text[used..] && Lexed(code, args, line, used) == goal
    }

    // the end of the file, or of the room for a token
    lemma ScanEnds(text: string, used: nat, start: nat, s: Scan, flags: Flags, startLine: int, goal: Lexed)
      requires Scanning(text, used, start, s, flags, startLine, goal)
      ensures used == |text| ==>
                goal == Lexed(if args != [] || !flags.lastSpace then Error(UnexpectedEnd) else FileDone, args, line, used)
      ensures used < |text| && onDisk && used - s.start == CONF_BUFFER ==>
                goal == Lexed(Error(TooLong), args, startLine, used)
    {
    }

    // The character that was fetched.
    method TakeFetched(flags: Flags, start: nat, startLine: int, ch: char, ghost text: string, ghost used: nat, ghost s: Scan, ghost goal: Lexed)
      returns (f: Flags, start': nat, startLine': int, done: bool, code: Code, ghost t: Scan)
      requires used < |text| && ch == text[used] && At(text, used + 1, start, s.start) && start < pos
      requires s == Scan(flags, s.start, startLine, line, args) && WellScanned(text, used, s)
      requires !(onDisk && used - s.start == CONF_BUFFER) && Lex(text, used, s, onDisk) == goal
      modifies this`line, this`args, env
      ensures env.failures == old(env.failures) + if done && Faulty(code) then 1 else 0
      ensures done ==> Finished(text, used + 1, code, goal)
      ensures !done ==> Scanning(text, used + 1, start', t, f, startLine', goal)
    {
      f, start', startLine', done, code, t := Process(flags, start, startLine, ch, text, used, s);
      assert !done ==> Scanning(text, used + 1, start', t, f, startLine', goal);
    }

    // One turn of the loop: a character, or the end.
    method NextChar(flags: Flags, start: nat, startLine: int, ghost text: string, ghost used: nat, ghost s: Scan, ghost goal: Lexed)
      returns (f: Flags, start': nat, startLine': int, done: bool, code: Code, ghost used': nat, ghost t: Scan)
      requires Scanning(text, used, start, s, flags, startLine, goal)
      modifies this`pos, this`last, this`offset, this`line, this`args, buffer, env
      ensures env.failures == old(env.failures) + if done && Faulty(code) then 1 else 0
      ensures done ==> Finished(text, used', code, goal)
      ensures !done ==> used' == used + 1 <= |text| && Scanning(text, used', start', t, f, startLine', goal)
    {
      f, startLine', done, code, used', t := flags, startLine, true, Ok, used, s;
      ScanEnds(text, used, start, s, flags, startLine, goal);
      var got;
      got, start' := Fetch(start, text, used, s.start);
      match got {
        case End =>
          code := if |args| > 0 || !flags.lastSpace then Error(UnexpectedEnd) else FileDone;
        case Full =>
          line := startLine;
          code := Error(TooLong);
        case Failed =>
          code := Error(ReadFailed);
          assert Finished(text, used', code, goal);
        case Got(ch) =>
          f, start', startLine', done, code, t := TakeFetched(flags, start', startLine, ch, text, used, s, goal);
          used' := used + 1;
      }
    }

    // Reads one directive. Whatever the alignment of the tokens to the buffer, the result is that of
    // the lexer over the whole remaining text, unless a read or an allocation fails.
    method ReadToken() returns (code: Code, ghost used: nat)
      requires Valid()
      modifies this`pos, this`last, this`offset, this`line, this`args, buffer, env
      ensures env.failures == old(env.failures) + if Faulty(code) then 1 else 0
      ensures !Faulty(code) ==>
                && Valid() && used <= |old(Rest())| && Rest() == old(Rest())[used..]
                && Lexed(code, args, line, used) == Lex(old(Rest()), 0, Init(0, old(line)), onDisk)
    {
      var flags := Flags(true, false, false, false, false, false, false);
      args := [];
      var start: nat := pos;
      var startLine := line;
      var done := false;
      ghost var text, s := Rest(), Init(0, line);
      ghost var goal := Lex(text, 0, s, onDisk);
      used, code := 0, Ok;
      while !done
        invariant !done ==> Scanning(text, used, start, s, flags, startLine, goal)
        invariant done ==> Finished(text, used, code, goal)
        invariant env.failures == old(env.failures) + if done && Faulty(code) then 1 else 0
        decreases !done, |text| - used
      {
        flags, start, startLine, done, code, used, s := NextChar(flags, start, startLine, text, used, s, goal);
      }
    }
  }
}
