/**
  Which lines sdssplitargs splits into which arguments: the lines are put together from arguments as
  a user writes them, bare, in quotes or in apostrophes, and the bytes are written out here.
 */
module SplitWords {
  import opened Bytes
  import opened Options
  import opened Repr

  // ---------- Arguments as they are written ----------

  /** A byte inside quotes: itself, a letter behind a backslash, or two hexadecimal digits behind \x. */
  datatype Atom = Raw(b: byte) | Escaped(b: byte) | Hex(hi: byte, lo: byte)

  /** An argument: bytes without quotes, and then perhaps a part in quotes or in apostrophes, which ends it. */
  datatype Item = Bare(text: bytes) | Quotes(text: bytes, atoms: seq<Atom>) | Apostrophes(text: bytes, inside: bytes)

  predicate White(b: byte) { b == 32 || 9 <= b <= 13 }

  predicate HexByte(b: byte) { 48 <= b <= 57 || 65 <= b <= 70 || 97 <= b <= 102 }

  function HexDigitValue(b: byte): (v: int)
    ensures 0 <= v < 16
  {
    if 48 <= b <= 57 then b - 48 else if 65 <= b <= 70 then b - 65 + 10 else if 97 <= b <= 102 then b - 97 + 10 else 0
  }

  function AtomText(a: Atom): bytes {
    match a case Raw(b) => [b] case Escaped(b) => [92, b] case Hex(hi, lo) => [92, 120, hi, lo]
  }

  function AtomValue(a: Atom): byte {
    match a
    case Raw(b) => b
    case Escaped(b) => if b == 110 then 10 else if b == 114 then 13 else if b == 116 then 9 else if b == 98 then 8 else if b == 97 then 7 else b
    case Hex(hi, lo) => HexDigitValue(hi) * 16 + HexDigitValue(lo)
  }

  function AtomsText(atoms: seq<Atom>): bytes {
    if atoms == [] then [] else AtomText(atoms[0]) + AtomsText(atoms[1..])
  }

  function AtomsValue(atoms: seq<Atom>): bytes {
    if atoms == [] then [] else [AtomValue(atoms[0])] + AtomsValue(atoms[1..])
  }

  /** No NUL, quote or backslash on its own; an escaped x is not followed by two digits. */
  predicate WellQuoted(atoms: seq<Atom>) {
    atoms != [] ==>
      && (match atoms[0]
          case Raw(b) => b != 0 && b != 34 && b != 92
          case Escaped(b) =>
            var t := AtomsText(atoms[1..]);
            b != 0 && !(b == 120 && |t| >= 2 && HexByte(t[0]) && HexByte(t[1]))
          case Hex(hi, lo) => HexByte(hi) && HexByte(lo))
      && WellQuoted(atoms[1..])
  }

  /** A string between apostrophes: a backslash before each apostrophe. */
  function ApostropheText(s: bytes): bytes {
    if s == [] then [] else (if s[0] == 39 then [92, 39] else [s[0]]) + ApostropheText(s[1..])
  }

  /** A byte outside quotes that stands for itself: not a NUL, a blank, a tab, a line end, a quote or an apostrophe. */
  predicate BareByte(b: byte) { b != 0 && b != 32 && b != 9 && b != 10 && b != 13 && b != 34 && b != 39 }

  /** Bytes outside quotes; the first one is not skipped. */
  predicate WellBare(s: bytes) {
    && (forall b :: b in s ==> BareByte(b))
    && (s != [] ==> s[0] != 11 && s[0] != 12)
  }

  predicate WellWritten(item: Item) {
    WellBare(item.text) &&
    match item
    case Bare(text) => text != []
    case Quotes(_, atoms) => WellQuoted(atoms)
    case Apostrophes(_, s) => 0 !in s && (s != [] ==> s[|s| - 1] != 92)
  }

  /** The argument on the line. */
  function Written(item: Item): bytes {
    match item
    case Bare(text) => text
    case Quotes(text, atoms) => text + [34] + AtomsText(atoms) + [34]
    case Apostrophes(text, s) => text + [39] + ApostropheText(s) + [39]
  }

  /** The argument that it stands for. */
  function Meaning(item: Item): bytes {
    match item
    case Bare(text) => text
    case Quotes(text, atoms) => text + AtomsValue(atoms)
    case Apostrophes(text, s) => text + s
  }

  function Meanings(items: seq<Item>): seq<bytes> {
    if items == [] then [] else [Meaning(items[0])] + Meanings(items[1..])
  }

  /** White space that ends an argument: behind a bare one it begins with a blank, a tab or a line end. */
  predicate Ends(item: Item, gap: bytes) {
    && gap != [] && (forall b :: b in gap ==> White(b))
    && (item.Bare? ==> gap[0] != 11 && gap[0] != 12)
  }

  /** The arguments, with white space behind each. */
  function Spread(items: seq<Item>, gaps: seq<bytes>): bytes
    requires |items| == |gaps|
  {
    if items == [] then [] else Written(items[0]) + gaps[0] + Spread(items[1..], gaps[1..])
  }

  predicate WellSpread(items: seq<Item>, gaps: seq<bytes>)
    requires |items| == |gaps|
  {
    items != [] ==> WellWritten(items[0]) && Ends(items[0], gaps[0]) && WellSpread(items[1..], gaps[1..])
  }

  /** The end of a C string. */
  predicate AtNul(s: bytes) { s == [] || s[0] == 0 }

  // ---------- Turns ----------

  lemma TokenTurns(mode: Mode, s: bytes, cur: bytes)
    ensures var t := TurnOf(mode, s);
      Token(mode, s, cur) == if t.Wrong? then None else if t.Stop? then Some((cur, s[t.step..])) else Token(t.mode, s[t.step..], cur + t.text)
  {
  }

  lemma BareTurn(b: byte, rest: bytes)
    requires BareByte(b)
    ensures TurnOf(Plain, [b] + rest) == Go(Plain, [b], 1)
  {
  }

  lemma {:induction false} BareReads(s: bytes, rest: bytes, cur: bytes)
    requires forall b :: b in s ==> BareByte(b)
    ensures Token(Plain, s + rest, cur) == Token(Plain, rest, cur + s)
    decreases |s|
  {
    hide Token, TurnOf;
    if s == [] {
      assert s + rest == rest && cur + s == cur;
    } else {
      assert s + rest == [s[0]] + (s[1..] + rest) && ([s[0]] + (s[1..] + rest))[1..] == s[1..] + rest;
      assert s[0] in s && forall b :: b in s[1..] ==> b in s;
      BareTurn(s[0], s[1..] + rest);
      TokenTurns(Plain, s + rest, cur);
      BareReads(s[1..], rest, cur + [s[0]]);
      assert cur + [s[0]] + s[1..] == cur + s;
    }
  }

  lemma RawTurn(b: byte, t: bytes)
    requires b != 0 && b != 34 && b != 92
    ensures TurnOf(InQuotes, [b] + t) == Go(InQuotes, [b], 1) && ([b] + t)[1..] == t
  {
  }

  lemma HexTurn(hi: byte, lo: byte, t: bytes)
    requires HexByte(hi) && HexByte(lo)
    ensures var s := [92, 120, hi, lo] + t;
      TurnOf(InQuotes, s) == Go(InQuotes, [HexDigitValue(hi) * 16 + HexDigitValue(lo)], 4) && s[4..] == t
  {
  }

  lemma EscapedTurn(b: byte, t: bytes)
    requires b != 0 && !(b == 120 && |t| >= 2 && HexByte(t[0]) && HexByte(t[1]))
    ensures TurnOf(InQuotes, [92, b] + t) == Go(InQuotes, [AtomValue(Escaped(b))], 2) && ([92, b] + t)[2..] == t
  {
    var s := [92, b] + t;
    assert At(s, 2) == At(t, 0) && At(s, 3) == At(t, 1);
  }

  /** One atom, with what follows it. */
  lemma AtomTurn(a: Atom, atoms: seq<Atom>, rest: bytes)
    requires WellQuoted([a] + atoms) && (rest == [] || !HexByte(rest[0]))
    ensures var s := AtomText(a) + (AtomsText(atoms) + rest);
      TurnOf(InQuotes, s) == Go(InQuotes, [AtomValue(a)], |AtomText(a)|) && s[|AtomText(a)|..] == AtomsText(atoms) + rest
  {
    hide TurnOf, AtomsText, HexByte;
    var all := [a] + atoms;
    assert all[0] == a && all[1..] == atoms;
    var u, t := AtomsText(atoms), AtomsText(atoms) + rest;
    match a
    case Raw(b) => RawTurn(b, t);
    case Hex(hi, lo) => HexTurn(hi, lo, t);
    case Escaped(b) =>
      if |u| >= 2 { assert t[0] == u[0] && t[1] == u[1]; } else if |u| == 1 && rest != [] { assert t[1] == rest[0]; } else if u == [] { assert t == rest; }
      EscapedTurn(b, t);
  }

  lemma {:induction false} AtomsRead(atoms: seq<Atom>, rest: bytes, cur: bytes)
    requires WellQuoted(atoms) && (rest == [] || !HexByte(rest[0]))
    ensures Token(InQuotes, AtomsText(atoms) + rest, cur) == Token(InQuotes, rest, cur + AtomsValue(atoms))
    decreases |atoms|
  {
    hide Token, TurnOf, AtomText, AtomValue;
    if atoms == [] {
      assert AtomsText(atoms) + rest == rest && cur + AtomsValue(atoms) == cur;
    } else {
      var a, more := atoms[0], atoms[1..];
      assert [a] + more == atoms;
      AtomTurn(a, more, rest);
      assert AtomsText(atoms) + rest == AtomText(a) + (AtomsText(more) + rest);
      TokenTurns(InQuotes, AtomsText(atoms) + rest, cur);
      AtomsRead(more, rest, cur + [AtomValue(a)]);
      assert cur + [AtomValue(a)] + AtomsValue(more) == cur + AtomsValue(atoms);
    }
  }

  /** One byte between apostrophes, with what follows it. */
  lemma ApostropheTurn(b: byte, rest: bytes)
    requires b != 0 && (b == 92 ==> rest == [] || rest[0] != 39)
    ensures var text: bytes := if b == 39 then [92, 39] else [b]; var s := text + rest;
      TurnOf(InApostrophes, s) == Go(InApostrophes, [b], |text|) && s[|text|..] == rest
  {
  }

  /** No string begins with an apostrophe between apostrophes. */
  lemma ApostropheNext(s: bytes, rest: bytes)
    ensures var t := ApostropheText(s) + rest; if s == [] then t == rest else t != [] && t[0] != 39
  {
    if s == [] { assert ApostropheText(s) + rest == rest; }
  }

  lemma ApostropheHead(s: bytes)
    ensures ApostropheText(s) == if s == [] then [] else (if s[0] == 39 then [92, 39] else [s[0]]) + ApostropheText(s[1..])
  {
  }

  lemma {:induction false} ApostropheReads(s: bytes, rest: bytes, cur: bytes)
    requires 0 !in s && (s != [] && s[|s| - 1] == 92 ==> rest == [] || rest[0] != 39)
    ensures Token(InApostrophes, ApostropheText(s) + rest, cur) == Token(InApostrophes, rest, cur + s)
    decreases |s|
  {
    hide Token, TurnOf, ApostropheText;
    ApostropheHead(s);
    if s == [] {
      assert ApostropheText(s) + rest == rest && cur + s == cur;
    } else {
      assert |s| > 1 ==> s[1..][|s[1..]| - 1] == s[|s| - 1];
      var more := ApostropheText(s[1..]) + rest;
      var text: bytes := if s[0] == 39 then [92, 39] else [s[0]];
      ApostropheNext(s[1..], rest);
      assert s[0] in s && forall b :: b in s[1..] ==> b in s;
      ApostropheTurn(s[0], more);
      assert ApostropheText(s) + rest == text + more;
      TokenTurns(InApostrophes, ApostropheText(s) + rest, cur);
      ApostropheReads(s[1..], rest, cur + [s[0]]);
      assert cur + [s[0]] + s[1..] == cur + s;
    }
  }

  // ---------- One argument ----------

  /** The quote that opens a part in quotes, or the apostrophe. */
  lemma Opens(quote: byte, rest: bytes, cur: bytes)
    requires quote == 34 || quote == 39
    ensures Token(Plain, [quote] + rest, cur) == Token(if quote == 34 then InQuotes else InApostrophes, rest, cur)
  {
    var none: bytes := [];
    assert TurnOf(Plain, [quote] + rest) == Go(if quote == 34 then InQuotes else InApostrophes, none, 1);
    TokenTurns(Plain, [quote] + rest, cur);
    hide Token, TurnOf;
    assert ([quote] + rest)[1..] == rest && cur + none == cur;
  }

  /** The quote that closes it: white space or the end must follow. */
  lemma ClosesAt(quote: byte, rest: bytes, cur: bytes)
    requires quote == 34 || quote == 39
    ensures Token(if quote == 34 then InQuotes else InApostrophes, [quote] + rest, cur) ==
      if AtNul(rest) || White(rest[0]) then Some((cur, rest)) else None
  {
    var mode := if quote == 34 then InQuotes else InApostrophes;
    assert At([quote] + rest, 1) == At(rest, 0) && ([quote] + rest)[1..] == rest;
    TokenTurns(mode, [quote] + rest, cur);
    hide Token;
  }

  /** The end inside quotes or apostrophes. */
  lemma NotClosed(mode: Mode, rest: bytes, cur: bytes)
    requires AtNul(rest) && mode != Plain
    ensures Token(mode, rest, cur) == None
  {
    TokenTurns(mode, rest, cur);
    hide Token;
  }

  /** White space behind a bare argument, or the end. */
  lemma BareEnds(rest: bytes, cur: bytes)
    requires AtNul(rest) || rest[0] == 32 || rest[0] == 9 || rest[0] == 10 || rest[0] == 13
    ensures Token(Plain, rest, cur) == Some((cur, if AtNul(rest) then rest else rest[1..]))
  {
    assert AtNul(rest) ==> rest[0..] == rest;
  }

  /** Up to the end of the part in quotes. */
  lemma QuotesRead(text: bytes, atoms: seq<Atom>, rest: bytes)
    requires WellBare(text) && WellQuoted(atoms) && (rest == [] || !HexByte(rest[0]))
    ensures Token(Plain, text + ([34] + (AtomsText(atoms) + rest)), []) == Token(InQuotes, rest, text + AtomsValue(atoms))
  {
    hide Token, WellQuoted, AtomsText, AtomsValue;
    var none: bytes := [];
    assert none + text == text;
    BareReads(text, [34] + (AtomsText(atoms) + rest), []);
    Opens(34, AtomsText(atoms) + rest, text);
    AtomsRead(atoms, rest, text);
  }

  /** Up to the end of the part in apostrophes. */
  lemma ApostrophesRead(text: bytes, s: bytes, rest: bytes)
    requires WellBare(text) && 0 !in s && (s != [] && s[|s| - 1] == 92 ==> rest == [] || rest[0] != 39)
    ensures Token(Plain, text + ([39] + (ApostropheText(s) + rest)), []) == Token(InApostrophes, rest, text + s)
  {
    hide Token, ApostropheText;
    var none: bytes := [];
    assert none + text == text;
    BareReads(text, [39] + (ApostropheText(s) + rest), []);
    Opens(39, ApostropheText(s) + rest, text);
    ApostropheReads(s, rest, text);
  }

  /** A part in quotes or apostrophes, and what is behind it. */
  lemma ClosedReads(item: Item, rest: bytes)
    requires WellWritten(item) && !item.Bare?
    ensures Token(Plain, Written(item) + rest, []) == if AtNul(rest) || White(rest[0]) then Some((Meaning(item), rest)) else None
  {
    hide Token, WellQuoted, WellBare, AtomsText, AtomsValue, ApostropheText;
    match item
    case Quotes(text, atoms) =>
      assert Written(item) + rest == text + ([34] + (AtomsText(atoms) + ([34] + rest)));
      QuotesRead(text, atoms, [34] + rest);
      ClosesAt(34, rest, Meaning(item));
    case Apostrophes(text, s) =>
      assert Written(item) + rest == text + ([39] + (ApostropheText(s) + ([39] + rest)));
      ApostrophesRead(text, s, [39] + rest);
      ClosesAt(39, rest, Meaning(item));
  }

  /** What is read of a well-written argument, up to its closing quote or its last byte. */
  lemma ItemReads(item: Item, rest: bytes)
    requires WellWritten(item) && (if item.Bare? then AtNul(rest) || rest[0] in {32, 9, 10, 13} else AtNul(rest) || White(rest[0]))
    ensures Token(Plain, Written(item) + rest, []) ==
      Some((Meaning(item), if item.Bare? && !AtNul(rest) then rest[1..] else rest))
  {
    hide Token;
    if item.Bare? {
      var none: bytes := [];
      assert none + item.text == item.text;
      BareReads(item.text, rest, []);
      BareEnds(rest, item.text);
    } else {
      hide WellWritten, Written, Meaning;
      ClosedReads(item, rest);
    }
  }

  // ---------- Lines ----------

  lemma {:induction false} SkipsWhite(gap: bytes, line: bytes)
    requires (forall b :: b in gap ==> White(b)) && (AtNul(line) || !White(line[0]))
    ensures SkipBlanks(gap + line) == line
    decreases |gap|
  {
    if gap == [] {
      assert gap + line == line;
    } else {
      assert gap[0] in gap && White(gap[0]);
      assert (gap + line)[1..] == gap[1..] + line;
      SkipsWhite(gap[1..], line);
    }
  }

  /** An argument begins with a byte that is not skipped. */
  lemma ItemStarts(item: Item, rest: bytes)
    requires WellWritten(item)
    ensures var s := Written(item) + rest; s != [] && s[0] != 0 && !White(s[0])
  {
    hide AtomsText, ApostropheText, WellQuoted;
    if item.text != [] { assert item.text[0] in item.text; }
  }

  /** The first argument of a line and the others. */
  lemma SplitFirst(lead: bytes, item: Item, rest: bytes, rest': bytes)
    requires (forall b :: b in lead ==> White(b)) && WellWritten(item)
    requires Token(Plain, Written(item) + rest, []) == Some((Meaning(item), rest'))
    ensures SplitArgs(lead + (Written(item) + rest)) == match SplitArgs(rest')
      case None => None
      case Some(more) => Some([Meaning(item)] + more)
  {
    hide Token, WellWritten, Written, Meaning;
    ItemStarts(item, rest);
    SkipsWhite(lead, Written(item) + rest);
    SplitStep(lead + (Written(item) + rest));
    hide SplitArgs;
  }

  lemma EndsReads(item: Item, gap: bytes, tail: bytes)
    requires WellWritten(item) && Ends(item, gap)
    ensures Token(Plain, Written(item) + (gap + tail), []) == Some((Meaning(item), (if item.Bare? then gap[1..] else gap) + tail))
  {
    hide Token, Written, WellWritten, Meaning;
    assert gap[0] in gap && White(gap[0]);
    ItemReads(item, gap + tail);
    assert (gap + tail)[1..] == gap[1..] + tail;
  }

  /** The arguments of the line are read, and white space and the end of the line are left. */
  lemma {:induction false} SplitSpread(lead: bytes, items: seq<Item>, gaps: seq<bytes>, last: bytes) returns (left: bytes)
    requires (forall b :: b in lead ==> White(b)) && |items| == |gaps| && WellSpread(items, gaps)
    ensures forall b :: b in left ==> White(b)
    ensures var r := SplitArgs(left + last);
      SplitArgs(lead + Spread(items, gaps) + last) == if r.None? then None else Some(Meanings(items) + r.value)
    decreases |items|
  {
    hide SplitArgs, Token, Written, WellWritten, Meaning;
    if items == [] {
      left := lead;
      assert lead + Spread(items, gaps) + last == lead + last;
      if SplitArgs(lead + last).Some? { assert Meanings(items) + SplitArgs(lead + last).value == SplitArgs(lead + last).value; }
    } else {
      var item, gap, tail := items[0], gaps[0], Spread(items[1..], gaps[1..]) + last;
      assert lead + Spread(items, gaps) + last == lead + (Written(item) + (gap + tail));
      assert gap[0] in gap && White(gap[0]);
      EndsReads(item, gap, tail);
      var gap' := if item.Bare? then gap[1..] else gap;
      SplitFirst(lead, item, gap + tail, gap' + tail);
      assert gap' + tail == gap' + Spread(items[1..], gaps[1..]) + last;
      left := SplitSpread(gap', items[1..], gaps[1..], last);
      var r := SplitArgs(left + last);
      if r.Some? { assert [Meaning(item)] + (Meanings(items[1..]) + r.value) == Meanings(items) + r.value; }
    }
  }

  /**
    Any list of arguments, each one written bare, in quotes or in apostrophes, with any white space
    between them, is split into exactly these arguments; what stands behind a NUL is not read.
   */
  lemma SplitReadsLine(lead: bytes, items: seq<Item>, gaps: seq<bytes>, end: bytes)
    requires (forall b :: b in lead ==> White(b)) && |items| == |gaps| && WellSpread(items, gaps) && AtNul(end)
    ensures SplitArgs(lead + Spread(items, gaps) + end) == Some(Meanings(items))
  {
    var left := SplitSpread(lead, items, gaps, end);
    hide SplitArgs, Token;
    NothingLeft(left, end);
    assert Meanings(items) + [] == Meanings(items);
  }

  lemma NothingLeft(lead: bytes, end: bytes)
    requires (forall b :: b in lead ==> White(b)) && AtNul(end)
    ensures SplitArgs(lead + end) == Some([])
  {
    SkipsWhite(lead, end);
    SplitStep(lead + end);
    hide SplitArgs;
  }

  /** The same when no white space follows the last argument. */
  lemma SplitReadsLast(lead: bytes, items: seq<Item>, gaps: seq<bytes>, last: Item, end: bytes)
    requires (forall b :: b in lead ==> White(b)) && |items| == |gaps| && WellSpread(items, gaps) && WellWritten(last) && AtNul(end)
    ensures SplitArgs(lead + Spread(items, gaps) + (Written(last) + end)) == Some(Meanings(items) + [Meaning(last)])
  {
    var left := SplitSpread(lead, items, gaps, Written(last) + end);
    hide SplitArgs, Token, Written, WellWritten, Meaning;
    ItemReads(last, end);
    SplitFirst(left, last, end, end);
    var none: bytes := [];
    NothingLeft(none, end);
    assert none + end == end && [Meaning(last)] + [] == [Meaning(last)];
  }

  // ---------- Lines that are refused ----------

  /** A part in quotes or apostrophes without its closing quote. */
  function Unclosed(item: Item): bytes {
    match item
    case Bare(text) => text
    case Quotes(text, atoms) => text + [34] + AtomsText(atoms)
    case Apostrophes(text, s) => text + [39] + ApostropheText(s)
  }

  lemma UnclosedReads(item: Item, end: bytes)
    requires WellWritten(item) && !item.Bare? && AtNul(end)
    ensures Token(Plain, Unclosed(item) + end, []) == None
  {
    hide Token, WellQuoted, WellBare, AtomsText, AtomsValue, ApostropheText;
    match item
    case Quotes(text, atoms) =>
      assert Unclosed(item) + end == text + ([34] + (AtomsText(atoms) + end));
      QuotesRead(text, atoms, end);
      NotClosed(InQuotes, end, Meaning(item));
    case Apostrophes(text, s) =>
      assert Unclosed(item) + end == text + ([39] + (ApostropheText(s) + end));
      ApostrophesRead(text, s, end);
      NotClosed(InApostrophes, end, Meaning(item));
  }

  lemma SplitRefuses(lead: bytes, line: bytes)
    requires (forall b :: b in lead ==> White(b)) && line != [] && line[0] != 0 && !White(line[0]) && Token(Plain, line, []) == None
    ensures SplitArgs(lead + line) == None
  {
    hide Token;
    SkipsWhite(lead, line);
    SplitStep(lead + line);
    hide SplitArgs;
  }

  /** Behind any arguments, a quote or an apostrophe that is not closed before the end. */
  lemma UnclosedIsRefused(lead: bytes, items: seq<Item>, gaps: seq<bytes>, last: Item, end: bytes)
    requires (forall b :: b in lead ==> White(b)) && |items| == |gaps| && WellSpread(items, gaps)
    requires WellWritten(last) && !last.Bare? && AtNul(end)
    ensures SplitArgs(lead + Spread(items, gaps) + (Unclosed(last) + end)) == None
  {
    var left := SplitSpread(lead, items, gaps, Unclosed(last) + end);
    hide SplitArgs, Token;
    UnclosedReads(last, end);
    UnclosedStarts(last, end);
    SplitRefuses(left, Unclosed(last) + end);
  }

  lemma UnclosedStarts(item: Item, rest: bytes)
    requires WellWritten(item)
    ensures var s := Unclosed(item) + rest; s != [] && s[0] != 0 && !White(s[0])
  {
    hide AtomsText, ApostropheText, WellQuoted;
    if item.text != [] { assert item.text[0] in item.text; }
  }

  /** Behind any arguments, a closing quote or apostrophe with anything but white space or the end behind it. */
  lemma FollowedIsRefused(lead: bytes, items: seq<Item>, gaps: seq<bytes>, last: Item, rest: bytes)
    requires (forall b :: b in lead ==> White(b)) && |items| == |gaps| && WellSpread(items, gaps)
    requires WellWritten(last) && !last.Bare? && !AtNul(rest) && !White(rest[0])
    ensures SplitArgs(lead + Spread(items, gaps) + (Written(last) + rest)) == None
  {
    var left := SplitSpread(lead, items, gaps, Written(last) + rest);
    hide SplitArgs, Token;
    hide Written, WellWritten;
    ClosedReads(last, rest);
    ItemStarts(last, rest);
    SplitRefuses(left, Written(last) + rest);
  }

  // ---------- What is printed ----------

  function LowerDigit(v: int): byte
    requires 0 <= v < 16
  {
    if v < 10 then 48 + v else 97 + v - 10
  }

  /** Quote and backslash, and the five control characters with a letter, are escaped; other bytes outside 32 to 126 are hexadecimal. */
  function Printed(b: byte): Atom {
    if b == 34 || b == 92 then Escaped(b)
    else if b == 10 then Escaped(110)
    else if b == 13 then Escaped(114)
    else if b == 9 then Escaped(116)
    else if b == 7 then Escaped(97)
    else if b == 8 then Escaped(98)
    else if 32 <= b <= 126 then Raw(b)
    else Hex(LowerDigit(b / 16), LowerDigit(b % 16))
  }

  function PrintedAll(s: bytes): seq<Atom> { if s == [] then [] else [Printed(s[0])] + PrintedAll(s[1..]) }

  /** sdscatrepr prints each byte in this form, so its output is printable ASCII. */
  lemma {:induction false} ReprIsWritten(s: bytes)
    ensures Escapes(s) == AtomsText(PrintedAll(s))
    ensures Quoted(s) == [34] + AtomsText(PrintedAll(s)) + [34]
    ensures forall b :: b in Quoted(s) ==> 32 <= b <= 126
  {
    if s != [] {
      ReprIsWritten(s[1..]);
      EscapeIs(s[0]);
      hide Escape, Printed, AtomText;
      assert PrintedAll(s)[1..] == PrintedAll(s[1..]);
      forall b | b in Quoted(s) ensures 32 <= b <= 126 {
        assert Quoted(s) == [34] + (Escape(s[0]) + Escapes(s[1..])) + [34];
        assert b in Escapes(s[1..]) ==> b in Quoted(s[1..]);
      }
    }
  }

  lemma EscapeIs(b: byte)
    ensures Escape(b) == AtomText(Printed(b)) && forall c :: c in Escape(b) ==> 32 <= c <= 126
  {
  }
}
