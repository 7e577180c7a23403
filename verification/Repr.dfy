/** The quoted form of strings that sdscatrepr prints and sdssplitargs reads, from sds.c. */
module Repr {
  import opened Bytes
  import opened Options
  import Sds

  const QUOTE: byte := 34
  const APOSTROPHE: byte := 39
  const BACKSLASH: byte := 92
  const BLANK: byte := 32

  /** isprint and isspace in the C locale. */
  predicate IsPrint(b: byte) { 32 <= b <= 126 }

  predicate IsSpace(b: byte) { 9 <= b <= 13 || b == 32 }

  predicate IsHexDigit(b: byte) { 48 <= b <= 57 || 97 <= b <= 102 || 65 <= b <= 70 }

  function HexValue(b: byte): (v: int)
    ensures 0 <= v < 16
  {
    if 48 <= b <= 57 then b - 48 else if 97 <= b <= 102 then b - 87 else if 65 <= b <= 70 then b - 55 else 0
  }

  /** A digit of %02x. */
  function HexDigit(v: int): (b: byte)
    requires 0 <= v < 16
    ensures IsHexDigit(b) && HexValue(b) == v
  {
    if v < 10 then 48 + v else 87 + v
  }

  // ---------- Printing ----------

  function Escape(b: byte): bytes {
    if b == BACKSLASH || b == QUOTE then [BACKSLASH, b]
    else if b == 10 then [BACKSLASH, 110]
    else if b == 13 then [BACKSLASH, 114]
    else if b == 9 then [BACKSLASH, 116]
    else if b == 7 then [BACKSLASH, 97]
    else if b == 8 then [BACKSLASH, 98]
    else if IsPrint(b) then [b]
    else [BACKSLASH, 120, HexDigit(b / 16), HexDigit(b % 16)]
  }

  function Escapes(s: bytes): bytes {
    if s == [] then [] else Escape(s[0]) + Escapes(s[1..])
  }

  /** What sdscatrepr appends. */
  function Quoted(s: bytes): bytes { [QUOTE] + Escapes(s) + [QUOTE] }

  lemma EscapesHead(s: bytes, i: nat)
    requires i < |s|
    ensures Escapes(s[i..]) == Escape(s[i]) + Escapes(s[i + 1..])
  {
    assert s[i..][1..] == s[i + 1..];
  }

  /** sdscatrepr. */
  method CatRepr(s: bytes, p: bytes) returns (r: bytes)
    ensures r == s + Quoted(p)
  {
    hide Escape, Escapes;
    r := s + [QUOTE];
    var i := 0;
    assert p[0..] == p;
    while i < |p|
      invariant i <= |p| && r + Escapes(p[i..]) == s + [QUOTE] + Escapes(p)
    {
      EscapesHead(p, i);
      assert r + (Escape(p[i]) + Escapes(p[i + 1..])) == r + Escape(p[i]) + Escapes(p[i + 1..]);
      r := r + Escape(p[i]);
      i := i + 1;
    }
    NoEscapes(p[i..]);
    assert r + [] == r;
    r := r + [QUOTE];
    assert s + [QUOTE] + Escapes(p) + [QUOTE] == s + ([QUOTE] + Escapes(p) + [QUOTE]);
  }

  lemma NoEscapes(s: bytes)
    ensures s == [] ==> Escapes(s) == []
  {
  }

  // ---------- Reading ----------

  datatype Mode = Plain | InQuotes | InApostrophes

  /** The byte at a place of a C string: NUL behind its end. */
  function At(s: bytes, i: nat): byte { if i < |s| then s[i] else 0 }

  /** The character that an escape letter stands for. */
  function Unescape(b: byte): byte {
    if b == 110 then 10 else if b == 114 then 13 else if b == 116 then 9 else if b == 98 then 8 else if b == 97 then 7 else b
  }

  predicate HexEscape(s: bytes) {
    At(s, 0) == BACKSLASH && At(s, 1) == 120 && IsHexDigit(At(s, 2)) && IsHexDigit(At(s, 3))
  }

  /** Whether a token may end at the quote that `s` begins with: a blank comes next, or a NUL, or the end. */
  predicate Closes(s: bytes) { At(s, 1) == 0 || IsSpace(At(s, 1)) }

  /** What one turn of the inner loop of sdssplitargs does: the mode, the bytes for the token, and how far it goes; Stop ends the token. */
  datatype Turn = Go(mode: Mode, text: bytes, step: nat) | Stop(step: nat) | Wrong

  function TurnOf(mode: Mode, s: bytes): (t: Turn)
    ensures t.Go? ==> 0 < t.step <= |s|
    ensures t.Stop? ==> t.step <= |s|
  {
    match mode
    case InQuotes =>
      if HexEscape(s) then Go(InQuotes, [HexValue(s[2]) * 16 + HexValue(s[3])], 4)
      else if At(s, 0) == BACKSLASH && At(s, 1) != 0 then Go(InQuotes, [Unescape(s[1])], 2)
      else if At(s, 0) == QUOTE then (if Closes(s) then Stop(1) else Wrong)
      else if At(s, 0) == 0 then Wrong
      else Go(InQuotes, [s[0]], 1)
    case InApostrophes =>
      if At(s, 0) == BACKSLASH && At(s, 1) == APOSTROPHE then Go(InApostrophes, [APOSTROPHE], 2)
      else if At(s, 0) == APOSTROPHE then (if Closes(s) then Stop(1) else Wrong)
      else if At(s, 0) == 0 then Wrong
      else Go(InApostrophes, [s[0]], 1)
    case Plain =>
      if At(s, 0) == 0 then Stop(0)
      else if s[0] == BLANK || s[0] == 10 || s[0] == 13 || s[0] == 9 then Stop(1)
      else if s[0] == QUOTE then Go(InQuotes, [], 1)
      else if s[0] == APOSTROPHE then Go(InApostrophes, [], 1)
      else Go(Plain, [s[0]], 1)
  }

  /** The rest of a token, appended to `cur`, and what follows it; None when the quotes are wrong. */
  function Token(mode: Mode, s: bytes, cur: bytes): (r: Option<(bytes, bytes)>)
    ensures r.Some? ==> |r.value.1| <= |s|
    ensures r.Some? && mode == Plain && At(s, 0) != 0 ==> |r.value.1| < |s|
    decreases |s|
  {
    match TurnOf(mode, s)
    case Wrong => None
    case Stop(step) => Some((cur, s[step..]))
    case Go(mode', text, step) => Token(mode', s[step..], cur + text)
  }

  function SkipBlanks(s: bytes): (r: bytes)
    ensures |r| <= |s|
  {
    if s != [] && s[0] != 0 && IsSpace(s[0]) then SkipBlanks(s[1..]) else s
  }

  /** sdssplitargs: the arguments of a line, or None. */
  function SplitArgs(line: bytes): Option<seq<bytes>>
    decreases |line|
  {
    var s := SkipBlanks(line);
    if At(s, 0) == 0 then Some([])
    else
      match Token(Plain, s, [])
      case None => None
      case Some((token, rest)) =>
        match SplitArgs(rest)
        case None => None
        case Some(more) => Some([token] + more)
  }

  /** What one turn of the inner loop leaves behind: the token so far, the place, and whether the token is done. */
  ghost predicate Follows(t: Turn, mode: Mode, current: bytes, p: nat, ok: bool, done: bool, mode': Mode, current': bytes, p': nat) {
    match t
    case Wrong => !ok
    case Stop(step) => ok && done && current' == current && p' == p + step
    case Go(m, text, step) => ok && !done && mode' == m && current' == current + text && p' == p + step
  }

  lemma AtFrom(line: bytes, p: nat)
    requires p <= |line|
    ensures forall k: nat :: At(line[p..], k) == At(line, p + k)
  {
  }

  /** One turn inside quotes. */
  method QuotesTurn(line: bytes, from: nat, current: bytes) returns (ok: bool, done: bool, current': bytes, p: nat)
    requires from <= |line|
    ensures Follows(TurnOf(InQuotes, line[from..]), InQuotes, current, from, ok, done, InQuotes, current', p)
  {
    hide IsHexDigit, IsSpace;
    AtFrom(line, from);
    ok, done, current', p := true, false, current, from;
    if At(line, p) == BACKSLASH && At(line, p + 1) == 120 && IsHexDigit(At(line, p + 2)) && IsHexDigit(At(line, p + 3)) {
      NotNul(At(line, p + 3));
      current' := current + [HexValue(line[p + 2]) * 16 + HexValue(line[p + 3])];
      p := p + 3;
    } else if At(line, p) == BACKSLASH && At(line, p + 1) != 0 {
      p := p + 1;
      current' := current + [Unescape(line[p])];
    } else if At(line, p) == QUOTE {
      if At(line, p + 1) != 0 && !IsSpace(At(line, p + 1)) { ok := false; }
      done := true;
    } else if At(line, p) == 0 {
      ok := false;
    } else {
      current' := current + [line[p]];
    }
    if At(line, p) != 0 { p := p + 1; }
  }

  lemma NotNul(b: byte)
    ensures IsHexDigit(b) ==> b != 0
  {
  }

  /** One turn inside apostrophes. */
  method ApostrophesTurn(line: bytes, from: nat, current: bytes) returns (ok: bool, done: bool, current': bytes, p: nat)
    requires from <= |line|
    ensures Follows(TurnOf(InApostrophes, line[from..]), InApostrophes, current, from, ok, done, InApostrophes, current', p)
  {
    hide IsSpace;
    AtFrom(line, from);
    ok, done, current', p := true, false, current, from;
    if At(line, p) == BACKSLASH && At(line, p + 1) == APOSTROPHE {
      p := p + 1;
      current' := current + [APOSTROPHE];
    } else if At(line, p) == APOSTROPHE {
      if At(line, p + 1) != 0 && !IsSpace(At(line, p + 1)) { ok := false; }
      done := true;
    } else if At(line, p) == 0 {
      ok := false;
    } else {
      current' := current + [line[p]];
    }
    if At(line, p) != 0 { p := p + 1; }
  }

  /** One turn outside. */
  method PlainTurn(line: bytes, from: nat, current: bytes) returns (done: bool, mode: Mode, current': bytes, p: nat)
    requires from <= |line|
    ensures Follows(TurnOf(Plain, line[from..]), Plain, current, from, true, done, mode, current', p)
  {
    AtFrom(line, from);
    done, mode, current', p := false, Plain, current, from;
    var b := At(line, p);
    if b == BLANK || b == 10 || b == 13 || b == 9 || b == 0 {
      done := true;
    } else if b == QUOTE {
      mode := InQuotes;
    } else if b == APOSTROPHE {
      mode := InApostrophes;
    } else {
      current' := current + [line[p]];
    }
    if At(line, p) != 0 { p := p + 1; }
  }

  lemma TokenTurn(line: bytes, p: nat, mode: Mode, current: bytes, ok: bool, done: bool, mode': Mode, current': bytes, p': nat)
    requires p <= |line| && Follows(TurnOf(mode, line[p..]), mode, current, p, ok, done, mode', current', p')
    ensures ok ==> p <= p' <= |line| && (!done ==> p < p')
    ensures Token(mode, line[p..], current) ==
      if !ok then None else if done then Some((current', line[p'..])) else Token(mode', line[p'..], current')
  {
    hide TurnOf;
    match TurnOf(mode, line[p..])
    case Stop(step) => assert line[p..][step..] == line[p + step..];
    case Go(_, _, step) => assert line[p..][step..] == line[p + step..];
    case Wrong =>
  }

  /** The inner loop of sdssplitargs. */
  method ReadToken(line: bytes, from: nat) returns (token: Option<bytes>, p: nat)
    requires from <= |line|
    ensures from <= p <= |line|
    ensures (if token.None? then None else Some((token.value, line[p..]))) == Token(Plain, line[from..], [])
  {
    hide TurnOf, Follows, Token;
    p := from;
    var current: bytes, mode, done := [], Plain, false;
    while !done
      invariant from <= p <= |line|
      invariant Token(Plain, line[from..], []) == if done then Some((current, line[p..])) else Token(mode, line[p..], current)
      decreases !done, |line| - p
    {
      ghost var p0, mode0, current0 := p, mode, current;
      var ok := true;
      match mode {
        case InQuotes => ok, done, current, p := QuotesTurn(line, p, current);
        case InApostrophes => ok, done, current, p := ApostrophesTurn(line, p, current);
        case Plain => done, mode, current, p := PlainTurn(line, p, current);
      }
      TokenTurn(line, p0, mode0, current0, ok, done, mode, current, p);
      if !ok { return None, from; }
    }
    return Some(current), p;
  }

  /** The loop of sdssplitargs that skips blanks. */
  method SkipFrom(line: bytes, from: nat) returns (p: nat)
    requires from <= |line|
    ensures from <= p <= |line| && SkipBlanks(line[from..]) == line[p..]
  {
    p := from;
    while p < |line| && line[p] != 0 && IsSpace(line[p])
      invariant from <= p <= |line| && SkipBlanks(line[p..]) == SkipBlanks(line[from..])
    {
      assert line[p..][1..] == line[p + 1..];
      p := p + 1;
    }
  }

  /** The arguments `vector` and those of the rest of the line. */
  function Plus(vector: seq<bytes>, more: Option<seq<bytes>>): Option<seq<bytes>> {
    match more case None => None case Some(args) => Some(vector + args)
  }

  lemma PlusOne(vector: seq<bytes>, token: bytes, more: Option<seq<bytes>>)
    ensures Plus(vector, Plus([token], more)) == Plus(vector + [token], more)
    ensures Plus([], more) == more && Plus(vector, Some([])) == Some(vector) && Plus(vector, None) == None
  {
    assert vector + [] == vector;
    if more.Some? {
      assert [] + more.value == more.value;
      assert vector + ([token] + more.value) == vector + [token] + more.value;
    }
  }

  lemma SplitStep(s: bytes)
    ensures var t := SkipBlanks(s);
      SplitArgs(s) == if At(t, 0) == 0 then Some([]) else match Token(Plain, t, [])
        case None => None
        case Some((token, rest)) => Plus([token], SplitArgs(rest))
  {
  }

  /** sdssplitargs. */
  method SplitLine(line: bytes) returns (argv: Option<seq<bytes>>)
    ensures argv == SplitArgs(line)
  {
    hide SplitArgs, SkipBlanks, Token, Plus;
    var p, vector := 0, [];
    assert line[0..] == line;
    PlusOne([], [], SplitArgs(line));
    while true
      invariant p <= |line| && SplitArgs(line) == Plus(vector, SplitArgs(line[p..]))
      decreases |line| - p
    {
      SplitStep(line[p..]);
      p := SkipFrom(line, p);
      if p == |line| || line[p] == 0 {
        PlusOne(vector, [], None);
        return Some(vector);
      }
      var token, next := ReadToken(line, p);
      if token.None? {
        PlusOne(vector, [], None);
        return None;
      }
      PlusOne(vector, token.value, SplitArgs(line[next..]));
      TokenMoves(line[p..]);
      vector := vector + [token.value];
      p := next;
    }
  }

  lemma TokenMoves(s: bytes)
    requires At(s, 0) != 0 && Token(Plain, s, []).Some?
    ensures |Token(Plain, s, []).value.1| < |s|
  {
  }

  // ---------- The round trip ----------

  /** Reading back one printed byte inside quotes. */
  lemma EscapeReads(b: byte, rest: bytes)
    requires rest != [] && rest[0] != 0
    ensures TurnOf(InQuotes, Escape(b) + rest) == Go(InQuotes, [b], |Escape(b)|)
    ensures (Escape(b) + rest)[|Escape(b)|..] == rest
  {
  }

  lemma EscapeStarts(s: bytes, rest: bytes)
    requires rest != [] && rest[0] != 0
    ensures Escapes(s) + rest != [] && (Escapes(s) + rest)[0] != 0
  {
    if s != [] { assert (Escapes(s) + rest)[0] == Escape(s[0])[0]; }
  }

  /** One turn of the loop inside quotes, at a printed byte. */
  lemma TokenEscape(b: byte, tail: bytes, cur: bytes)
    requires tail != [] && tail[0] != 0
    ensures Token(InQuotes, Escape(b) + tail, cur) == Token(InQuotes, tail, cur + [b])
  {
    EscapeReads(b, tail);
    hide TurnOf, Escape;
  }

  /** And at the closing quote. */
  lemma TokenCloses(rest: bytes, cur: bytes)
    requires rest == [] || IsSpace(rest[0])
    ensures Token(InQuotes, [QUOTE] + rest, cur) == Some((cur, rest))
  {
    assert ([QUOTE] + rest)[1..] == rest;
  }

  /** Reading to the closing quote gives the string back. */
  lemma {:induction false} QuotedReads(s: bytes, rest: bytes, cur: bytes)
    requires rest == [] || IsSpace(rest[0])
    ensures Token(InQuotes, Escapes(s) + [QUOTE] + rest, cur) == Some((cur + s, rest))
    decreases |s|
  {
    hide Token, Escape;
    var close := [QUOTE] + rest;
    if s == [] {
      assert Escapes(s) + [QUOTE] + rest == close && cur + s == cur;
      TokenCloses(rest, cur);
    } else {
      var tail := Escapes(s[1..]) + close;
      assert Escapes(s) + [QUOTE] + rest == Escape(s[0]) + tail;
      assert tail == Escapes(s[1..]) + [QUOTE] + rest;
      EscapeStarts(s[1..], close);
      TokenEscape(s[0], tail, cur);
      QuotedReads(s[1..], rest, cur + [s[0]]);
      assert cur + [s[0]] + s[1..] == cur + s;
    }
  }

  function Quoteds(args: seq<bytes>): (r: seq<bytes>)
    ensures |r| == |args|
  {
    seq(|args|, i requires 0 <= i < |args| => Quoted(args[i]))
  }

  lemma TokenOfQuoted(s: bytes, rest: bytes)
    requires rest == [] || IsSpace(rest[0])
    ensures Token(Plain, Quoted(s) + rest, []) == Some((s, rest))
  {
    hide Escapes;
    var body := Escapes(s) + [QUOTE] + rest;
    QuotedReads(s, rest, []);
    var none: bytes := [];
    assert Quoted(s) + rest == [QUOTE] + body && ([QUOTE] + body)[1..] == body;
    assert TurnOf(Plain, [QUOTE] + body) == Go(InQuotes, none, 1);
    hide TurnOf;
    assert none + s == s && none + none == none;
  }

  /** What follows the first of the joined strings. */
  lemma JoinedFirst(args: seq<bytes>)
    requires args != []
    ensures Quoteds(args)[1..] == Quoteds(args[1..])
    ensures Sds.Join(Quoteds(args), [BLANK]) ==
      Quoted(args[0]) + (if |args| == 1 then [] else [BLANK] + Sds.Join(Quoteds(args[1..]), [BLANK]))
  {
    assert Quoteds(args)[1..] == Quoteds(args[1..]);
    if |args| > 1 {
      var more := Sds.Join(Quoteds(args[1..]), [BLANK]);
      assert Quoted(args[0]) + [BLANK] + more == Quoted(args[0]) + ([BLANK] + more);
    }
  }

  /** Any list of byte strings, printed, joined by blanks and split again, is the same list. */
  lemma SplitInvertsRepr(args: seq<bytes>)
    ensures SplitArgs(Sds.Join(Quoteds(args), [BLANK])) == Some(args)
  {
    if args == [] {
      assert SkipBlanks([]) == [];
    } else {
      SplitQuoted(args, []);
      assert [] + Sds.Join(Quoteds(args), [BLANK]) == Sds.Join(Quoteds(args), [BLANK]);
    }
  }

  /** The same with blanks before the first string. */
  lemma {:induction false} SplitQuoted(args: seq<bytes>, blanks: bytes)
    requires args != [] && forall i :: 0 <= i < |blanks| ==> blanks[i] == BLANK
    ensures SplitArgs(blanks + Sds.Join(Quoteds(args), [BLANK])) == Some(args)
    decreases |args|
  {
    hide Token, TurnOf, SkipBlanks;
    var line := Sds.Join(Quoteds(args), [BLANK]);
    var rest := if |args| == 1 then [] else [BLANK] + Sds.Join(Quoteds(args[1..]), [BLANK]);
    JoinedFirst(args);
    TokenOfQuoted(args[0], rest);
    assert line[0] == QUOTE;
    SkipsBlanks(blanks, line);
    hide Token, Quoted, SkipBlanks, Sds.Join;
    if |args| > 1 {
      SplitQuoted(args[1..], [BLANK]);
    } else {
      assert SplitArgs([]) == Some([]) by { NothingToSplit(); }
    }
    assert [args[0]] + args[1..] == args;
  }

  lemma NothingToSplit()
    ensures SplitArgs([]) == Some([])
  {
    assert SkipBlanks([]) == [];
  }

  lemma {:induction false} SkipsBlanks(blanks: bytes, line: bytes)
    requires line != [] && !IsSpace(line[0]) && forall i :: 0 <= i < |blanks| ==> blanks[i] == BLANK
    ensures SkipBlanks(blanks + line) == line
  {
    if blanks == [] {
      assert [] + line == line;
    } else {
      assert (blanks + line)[1..] == blanks[1..] + line;
      SkipsBlanks(blanks[1..], line);
    }
  }
}
