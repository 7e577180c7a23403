/**
  Which arguments a format string of redisCommand stands for: the format is put together from words
  of characters and conversions, and its bytes are written out here.
 */
module FormatWords {
  import opened Bytes
  import opened CInt
  import opened Format
  import opened Options

  // ---------- Words ----------

  /** A printf conversion: its flags, width, precision, size and letter. */
  datatype Printf = Printf(hash: bool, zero: bool, minus: bool, blank: bool, plus: bool, width: bytes, precision: Option<bytes>,
                           size: bytes, letter: byte)

  /** A character, %s, %b, %%, a printf conversion with the text that it prints, or a percent sign at the end of the format. */
  datatype Item = Char(b: byte) | Str(arg: bytes) | Bin(arg: bytes) | Percent | Print(conv: Printf, text: bytes) | Last

  predicate AllDigits(s: bytes) { forall b :: b in s ==> 48 <= b <= 57 }

  function Flag(on: bool, b: byte): bytes { if on then [b] else [] }

  /** The flags, the width and the precision as they are written. */
  function OptionText(c: Printf): bytes {
    Flag(c.hash, 35) + Flag(c.zero, 48) + Flag(c.minus, 45) + Flag(c.blank, 32) + Flag(c.plus, 43) + c.width
    + (match c.precision case Some(digits) => [46] + digits case None => [])
  }

  function Written(c: Printf): bytes { [37] + OptionText(c) + c.size + [c.letter] }

  /** diouxX, with h, hh, l or ll before it; or eEfFgGaA. */
  predicate WellTyped(c: Printf) {
    || (c.letter in {100, 105, 111, 117, 120, 88} && c.size in {[], [104], [104, 104], [108], [108, 108]})
    || (c.letter in {101, 69, 102, 70, 103, 71, 97, 65} && c.size == [])
  }

  /** Digits; a zero that begins the width is the flag. */
  predicate WellOptioned(c: Printf) {
    && AllDigits(c.width) && (c.precision.Some? ==> AllDigits(c.precision.value))
    && (!c.zero && !c.minus && !c.blank && !c.plus && c.width != [] ==> c.width[0] != 48)
  }

  predicate WellItem(i: Item) {
    match i
    case Char(b) => b != 0 && b != 32 && b != 37
    case Print(c, _) => WellOptioned(c) && WellTyped(c) && |Written(c)| < 14
    case Last => false
    case _ => true
  }

  /** What is written into the format. */
  function Rendered(i: Item): bytes {
    match i
    case Char(b) => [b]
    case Str(_) => [37, 115]
    case Bin(_) => [37, 98]
    case Percent => [37, 37]
    case Print(c, _) => Written(c)
    case Last => [37]
  }

  /** What is passed behind the format. */
  function Passed(i: Item): seq<bytes> {
    match i case Str(arg) => [arg] case Bin(arg) => [arg] case Print(_, text) => [text] case _ => []
  }

  /** What it stands for. */
  function Meaning(i: Item): bytes {
    match i
    case Char(b) => [b]
    case Str(arg) => CString(arg)
    case Bin(arg) => arg
    case Percent => [37]
    case Print(_, text) => text
    case Last => [37]
  }

  type Word = seq<Item>

  function RenderedWord(w: Word): bytes { if w == [] then [] else Rendered(w[0]) + RenderedWord(w[1..]) }

  function PassedWord(w: Word): seq<bytes> { if w == [] then [] else Passed(w[0]) + PassedWord(w[1..]) }

  function MeaningWord(w: Word): bytes { if w == [] then [] else Meaning(w[0]) + MeaningWord(w[1..]) }

  predicate WellWord(w: Word, last: bool) {
    w != [] ==> (WellItem(w[0]) || (last && |w| == 1 && w[0].Last?)) && WellWord(w[1..], last)
  }

  predicate WellWords(ws: seq<Word>) { ws != [] ==> WellWord(ws[0], |ws| == 1) && WellWords(ws[1..]) }

  /** The words with one blank between them. */
  function RenderedAll(ws: seq<Word>): bytes {
    if ws == [] then [] else if |ws| == 1 then RenderedWord(ws[0]) else RenderedWord(ws[0]) + [32] + RenderedAll(ws[1..])
  }

  function PassedAll(ws: seq<Word>): seq<bytes> { if ws == [] then [] else PassedWord(ws[0]) + PassedAll(ws[1..]) }

  /** The arguments: one for each word that is not empty. */
  function MeaningAll(ws: seq<Word>): seq<bytes> {
    if ws == [] then [] else (if ws[0] == [] then [] else [MeaningWord(ws[0])]) + MeaningAll(ws[1..])
  }

  // ---------- One item ----------

  lemma CharReads(b: byte, rest: bytes, args: seq<bytes>)
    requires b != 0 && b != 32 && b != 37
    ensures Pieces([b] + rest, args) == Prepend(Part([b]), Pieces(rest, args))
  {
    assert ([b] + rest)[1..] == rest;
  }

  lemma BlankReads(rest: bytes, args: seq<bytes>)
    ensures Pieces([32] + rest, args) == Prepend(Space, Pieces(rest, args))
  {
    assert ([32] + rest)[1..] == rest;
  }

  lemma StrReads(arg: bytes, rest: bytes, args: seq<bytes>)
    ensures Pieces([37, 115] + rest, [arg] + args) == Prepend(Part(CString(arg)), Pieces(rest, args))
    ensures Pieces([37, 98] + rest, [arg] + args) == Prepend(Part(arg), Pieces(rest, args))
    ensures Pieces([37, 37] + rest, args) == Prepend(Part([37]), Pieces(rest, args))
  {
    hide CString;
    assert ([37, 115] + rest)[2..] == rest && ([37, 98] + rest)[2..] == rest && ([37, 37] + rest)[2..] == rest;
    assert ([arg] + args)[1..] == args;
  }

  // ---------- Conversions ----------

  /** Digits are skipped up to the first other byte. */
  lemma {:induction false} DigitsSkipped(f: bytes, p: nat, digits: bytes, rest: bytes)
    requires p <= |f| && f[p..] == digits + rest && AllDigits(digits) && (rest == [] || !(48 <= rest[0] <= 57))
    ensures SkipDigits(f, p) == p + |digits| && f[p + |digits|..] == rest
    decreases |digits|
  {
    if digits == [] {
      assert f[p..] == rest;
      if rest != [] { assert f[p] == rest[0]; }
    } else {
      assert digits[0] in digits && f[p] == f[p..][0] == digits[0];
      assert f[p + 1..] == f[p..][1..] == digits[1..] + rest;
      assert forall b :: b in digits[1..] ==> b in digits;
      DigitsSkipped(f, p + 1, digits[1..], rest);
    }
  }

  lemma FlagSkipped(f: bytes, p: nat, on: bool, b: byte, rest: bytes)
    requires p <= |f| && f[p..] == Flag(on, b) + rest && (on || rest == [] || rest[0] != b)
    ensures Skip(f, p, b) == p + |Flag(on, b)| && f[p + |Flag(on, b)|..] == rest
  {
    if on {
      assert f[p] == f[p..][0] == b;
      assert f[p + 1..] == f[p..][1..] == rest;
    } else {
      assert Flag(on, b) + rest == rest;
      if rest != [] { assert f[p] == f[p..][0]; }
    }
  }

  /** The bytes that can stand among the options. */
  predicate OptionByte(b: byte) { b in {35, 45, 32, 43, 46} || 48 <= b <= 57 }

  /** The digits of the precision, when there is one. */
  function SkipPrecision(f: bytes, q: nat): nat
    requires q <= |f|
  {
    if q < |f| && f[q] == 46 then SkipDigits(f, q + 1) else q
  }

  lemma PrecisionSkipped(f: bytes, q: nat, precision: Option<bytes>, tail: bytes)
    requires q <= |f| && (precision.Some? ==> AllDigits(precision.value)) && (tail == [] || !OptionByte(tail[0]))
    requires f[q..] == (match precision case Some(digits) => [46] + digits case None => []) + tail
    ensures SkipPrecision(f, q) <= |f| && f[SkipPrecision(f, q)..] == tail
  {
    hide SkipDigits, AllDigits;
    match precision
    case Some(digits) =>
      assert f[q..] == [46] + (digits + tail) && f[q] == f[q..][0] == 46;
      assert f[q + 1..] == f[q..][1..] == digits + tail;
      DigitsSkipped(f, q + 1, digits, tail);
    case None =>
      assert f[q..] == tail;
      if q < |f| { assert f[q] == f[q..][0] == tail[0]; }
  }

  /** Width and precision are skipped up to a byte that cannot belong to them. */
  lemma NumbersSkipped(f: bytes, p: nat, c: Printf, tail: bytes)
    requires WellOptioned(c) && (tail == [] || !OptionByte(tail[0])) && p <= |f|
    requires f[p..] == Numbers(c, tail)
    ensures var q := SkipDigits(f, p); q <= |f| && SkipPrecision(f, q) <= |f| && f[SkipPrecision(f, q)..] == tail
  {
    hide SkipDigits, AllDigits, SkipPrecision;
    var more := (match c.precision case Some(digits) => [46] + digits case None => []) + tail;
    assert c.precision.None? ==> more == tail;
    DigitsSkipped(f, p, c.width, more);
    PrecisionSkipped(f, SkipDigits(f, p), c.precision, tail);
  }

  function Numbers(c: Printf, tail: bytes): bytes {
    c.width + ((match c.precision case Some(digits) => [46] + digits case None => []) + tail)
  }

  /** What the flags meet behind them. */
  lemma NumbersStart(c: Printf, tail: bytes)
    requires WellOptioned(c) && (tail == [] || !OptionByte(tail[0]))
    ensures var n := Numbers(c, tail);
      && (n != [] ==> n[0] != 35 && n[0] != 45 && n[0] != 32 && n[0] != 43)
      && (n != [] && !c.zero && !c.minus && !c.blank && !c.plus ==> n[0] != 48)
  {
    if c.width != [] { assert c.width[0] in c.width; }
  }

  lemma Assoc(a: bytes, b: bytes, c: bytes, d: bytes, e: bytes, w: bytes, p: bytes, t: bytes)
    ensures ([37] + (a + b + c + d + e + w + p) + t)[1..] == a + (b + (c + (d + (e + (w + (p + t))))))
  {
    var all := a + b + c + d + e + w + p;
    assert ([37] + all + t)[1..] == all + t;
    assert all + t == a + b + c + d + e + w + (p + t) == a + b + c + d + e + (w + (p + t));
    assert a + b + c + d + e + (w + (p + t)) == a + b + c + d + (e + (w + (p + t))) == a + b + c + (d + (e + (w + (p + t))));
  }

  /** The flags and what is behind them. */
  function Flagged(c: Printf, r5: bytes): bytes {
    Flag(c.hash, 35) + (Flag(c.zero, 48) + (Flag(c.minus, 45) + (Flag(c.blank, 32) + (Flag(c.plus, 43) + r5))))
  }

  lemma FlagsSkipped(f: bytes, c: Printf, tail: bytes)
    requires WellOptioned(c) && (tail == [] || !OptionByte(tail[0])) && f == [37] + OptionText(c) + tail
    ensures f[SkipFlags(f)..] == Numbers(c, tail)
  {
    FlaggedIs(f, c, tail);
    NumbersStart(c, tail);
    hide Numbers, OptionText, SkipFlags, Flagged, WellOptioned;
    FlagChain(f, c, Numbers(c, tail));
  }

  lemma FlaggedIs(f: bytes, c: Printf, tail: bytes)
    requires f == [37] + OptionText(c) + tail
    ensures f[1..] == Flagged(c, Numbers(c, tail))
  {
    hide Flag;
    Assoc(Flag(c.hash, 35), Flag(c.zero, 48), Flag(c.minus, 45), Flag(c.blank, 32), Flag(c.plus, 43), c.width,
      match c.precision case Some(digits) => [46] + digits case None => [], tail);
  }

  lemma FlagChain(f: bytes, c: Printf, r5: bytes)
    requires |f| >= 1 && f[1..] == Flagged(c, r5)
    requires r5 != [] ==> r5[0] != 35 && r5[0] != 45 && r5[0] != 32 && r5[0] != 43
    requires r5 != [] && !c.zero && !c.minus && !c.blank && !c.plus ==> r5[0] != 48
    ensures f[SkipFlags(f)..] == r5
  {
    FlagStart(c, r5);
    hide Skip, Flag;
    var r4 := Flag(c.plus, 43) + r5;
    var r3 := Flag(c.blank, 32) + r4;
    var r2 := Flag(c.minus, 45) + r3;
    TwoFlags(f, 1, c.hash, 35, c.zero, 48, r2);
    var p := Skip(f, Skip(f, 1, 35), 48);
    TwoFlags(f, p, c.minus, 45, c.blank, 32, r4);
    p := Skip(f, Skip(f, p, 45), 32);
    FlagSkipped(f, p, c.plus, 43, r5);
  }

  lemma TwoFlags(f: bytes, p: nat, on: bool, b: byte, on': bool, b': byte, rest: bytes)
    requires p <= |f| && f[p..] == Flag(on, b) + (Flag(on', b') + rest)
    requires on || Flag(on', b') + rest == [] || (Flag(on', b') + rest)[0] != b
    requires on' || rest == [] || rest[0] != b'
    ensures f[Skip(f, Skip(f, p, b), b')..] == rest
  {
    hide Skip, Flag;
    FlagSkipped(f, p, on, b, Flag(on', b') + rest);
    FlagSkipped(f, Skip(f, p, b), on', b', rest);
  }

  /** Behind a flag that is not there no such byte stands. */
  lemma FlagStart(c: Printf, r5: bytes)
    requires r5 != [] ==> r5[0] != 35 && r5[0] != 45 && r5[0] != 32 && r5[0] != 43
    requires r5 != [] && !c.zero && !c.minus && !c.blank && !c.plus ==> r5[0] != 48
    ensures var r4 := Flag(c.plus, 43) + r5; var r3 := Flag(c.blank, 32) + r4; var r2 := Flag(c.minus, 45) + r3; var r1 := Flag(c.zero, 48) + r2;
      && (c.hash || r1 == [] || r1[0] != 35) && (c.zero || r2 == [] || r2[0] != 48) && (c.minus || r3 == [] || r3[0] != 45)
      && (c.blank || r4 == [] || r4[0] != 32) && (c.plus || r5 == [] || r5[0] != 43)
  {
  }

  lemma OptionsSkipped(f: bytes, c: Printf, tail: bytes)
    requires WellOptioned(c) && (tail == [] || !OptionByte(tail[0])) && f == [37] + OptionText(c) + tail
    ensures SkipOptions(f) == 1 + |OptionText(c)| && f[SkipOptions(f)..] == tail
  {
    hide SkipFlags, SkipDigits, OptionText;
    FlagsSkipped(f, c, tail);
    NumbersSkipped(f, SkipFlags(f), c, tail);
    var q := SkipDigits(f, SkipFlags(f));
    assert SkipOptions(f) == SkipPrecision(f, q);
    assert |f[SkipOptions(f)..]| == |tail|;
  }

  /** The bytes behind the options. */
  lemma AtTail(f: bytes, p: nat, tail: bytes, k: nat)
    requires p <= |f| && f[p..] == tail
    ensures At(f, p + k) == (if k < |tail| then tail[k] else 0)
  {
    if k < |tail| { assert f[p + k] == f[p..][k]; }
  }

  /** A whole conversion, with anything behind it. */
  lemma ConversionIs(c: Printf, rest: bytes)
    requires WellOptioned(c) && WellTyped(c)
    ensures Conversion(Written(c) + rest) == Some(|Written(c)| - 1)
  {
    hide SkipOptions, OptionText, At, WellOptioned;
    var f, tail := Written(c) + rest, c.size + [c.letter] + rest;
    assert f == [37] + OptionText(c) + tail;
    OptionsSkipped(f, c, tail);
    TailBytes(f, SkipOptions(f), c, rest);
    var p := SkipOptions(f);
    if |c.size| == 0 { LetterEnds(f, p, c.letter); } else { SizeEnds(f, p, c); }
  }

  lemma TailBytes(f: bytes, p: nat, c: Printf, rest: bytes)
    requires p <= |f| && f[p..] == c.size + [c.letter] + rest
    ensures At(f, p + |c.size|) == c.letter && p + |c.size| < |f|
    ensures forall k :: 0 <= k < |c.size| ==> At(f, p + k) == c.size[k]
  {
    var tail := c.size + [c.letter] + rest;
    AtTail(f, p, tail, |c.size|);
    forall k | 0 <= k < |c.size| ensures At(f, p + k) == c.size[k] { AtTail(f, p, tail, k); }
  }

  lemma LetterEnds(f: bytes, p: nat, letter: byte)
    requires |f| >= 1 && SkipOptions(f) == p && At(f, p) == letter && letter in {100, 105, 111, 117, 120, 88, 101, 69, 102, 70, 103, 71, 97, 65}
    ensures Conversion(f) == Some(p)
  {
    hide SkipOptions, At;
  }

  lemma SizeEnds(f: bytes, p: nat, c: Printf)
    requires |f| >= 1 && SkipOptions(f) == p && c.size in {[104], [104, 104], [108], [108, 108]} && c.letter in {100, 105, 111, 117, 120, 88}
    requires At(f, p + |c.size|) == c.letter && p + |c.size| < |f| && forall k :: 0 <= k < |c.size| ==> At(f, p + k) == c.size[k]
    ensures Conversion(f) == Some(p + |c.size|)
  {
    hide SkipOptions;
    assert c.size[0] == 104 || c.size[0] == 108;
    assert At(f, p + 0) == c.size[0];
    if |c.size| == 2 { assert At(f, p + 1) == c.size[1]; }
  }

  /** A conversion that is passed on. */
  lemma PrintReads(c: Printf, text: bytes, rest: bytes, args: seq<bytes>)
    requires WellOptioned(c) && WellTyped(c) && |Written(c)| < 14
    ensures Pieces(Written(c) + rest, [text] + args) == Prepend(Part(text), Pieces(rest, args))
  {
    ConversionIs(c, rest);
    PrintStarts(c, rest);
    hide Written, Conversion, CString, WellOptioned, WellTyped;
    var f := Written(c) + rest;
    assert f[|Written(c)|..] == rest && ([text] + args)[1..] == args;
  }

  /** It begins with a percent sign, and not with one of the conversions that the code reads itself. */
  lemma PrintStarts(c: Printf, rest: bytes)
    requires WellOptioned(c) && WellTyped(c)
    ensures var f := Written(c) + rest; |Written(c)| >= 2 && f[0] == 37 && f[1] != 37 && f[1] != 115 && f[1] != 98
  {
    if c.width != [] { assert c.width[0] in c.width; }
  }

  /** A conversion of fourteen bytes and more prints nothing; the bytes behind its first two are read again. */
  lemma LongPrint(c: Printf, text: bytes, rest: bytes, args: seq<bytes>)
    requires WellOptioned(c) && WellTyped(c) && |Written(c)| >= 14
    ensures Pieces(Written(c) + rest, [text] + args) == Prepend(Part([]), Pieces((Written(c) + rest)[2..], args))
  {
    ConversionIs(c, rest);
    PrintStarts(c, rest);
    hide Written, Conversion, CString, WellOptioned, WellTyped;
    assert ([text] + args)[1..] == args;
  }

  // ---------- Words and formats ----------

  lemma ItemReads(i: Item, rest: bytes, args: seq<bytes>)
    requires WellItem(i) || (i.Last? && rest == [])
    ensures Pieces(Rendered(i) + rest, Passed(i) + args) == Prepend(Part(Meaning(i)), Pieces(rest, args))
  {
    hide Pieces, Written, CString;
    assert [] + args == args;
    match i
    case Char(b) => CharReads(b, rest, args);
    case Str(arg) => StrReads(arg, rest, args);
    case Bin(arg) => StrReads(arg, rest, args);
    case Percent => StrReads([], rest, args);
    case Print(c, text) => PrintReads(c, text, rest, args);
    case Last =>
      assert [37] + rest == [37];
      LastReads(args);
  }

  lemma LastReads(args: seq<bytes>)
    ensures Pieces([37], args) == Prepend(Part([37]), Pieces([], args))
  {
    var one: bytes := [37];
    assert one[1..] == [];
  }

  function Parts(w: Word): seq<Piece> { if w == [] then [] else [Part(Meaning(w[0]))] + Parts(w[1..]) }

  function PartsAll(ws: seq<Word>): seq<Piece> {
    if ws == [] then [] else if |ws| == 1 then Parts(ws[0]) else Parts(ws[0]) + [Space] + PartsAll(ws[1..])
  }

  lemma {:induction false} WordReads(w: Word, rest: bytes, args: seq<bytes>, ps: seq<Piece>)
    requires WellWord(w, rest == []) && Pieces(rest, args) == Scanned(ps)
    ensures Pieces(RenderedWord(w) + rest, PassedWord(w) + args) == Scanned(Parts(w) + ps)
    decreases |w|
  {
    hide Pieces, Rendered, Passed, Meaning, WellItem, RenderedWord, PassedWord, Parts;
    WordSplit(w, rest, args, ps);
    if w != [] {
      var i, more := w[0], w[1..];
      WordReads(more, rest, args, ps);
      LastIsAlone(w, rest);
      ItemReads(i, RenderedWord(more) + rest, PassedWord(more) + args);
    }
  }

  /** The first item of a word and the others. */
  lemma WordSplit(w: Word, rest: bytes, args: seq<bytes>, ps: seq<Piece>)
    ensures RenderedWord(w) + rest == if w == [] then rest else Rendered(w[0]) + (RenderedWord(w[1..]) + rest)
    ensures PassedWord(w) + args == if w == [] then args else Passed(w[0]) + (PassedWord(w[1..]) + args)
    ensures Parts(w) + ps == if w == [] then ps else [Part(Meaning(w[0]))] + (Parts(w[1..]) + ps)
  {
    hide Rendered, Passed, Meaning;
  }

  lemma LastIsAlone(w: Word, rest: bytes)
    requires w != [] && WellWord(w, rest == [])
    ensures WellItem(w[0]) || (w[0].Last? && RenderedWord(w[1..]) + rest == [])
  {
  }

  lemma {:induction false} AllReads(ws: seq<Word>, extra: seq<bytes>)
    requires WellWords(ws)
    ensures Pieces(RenderedAll(ws), PassedAll(ws) + extra) == Scanned(PartsAll(ws))
    decreases |ws|
  {
    hide Pieces, WellWord, RenderedAll, RenderedWord, PassedAll, PassedWord, Parts, PartsAll;
    AllSplit(ws, extra);
    AtEnd(extra);
    if |ws| == 1 {
      WordReads(ws[0], [], extra, []);
    } else if |ws| > 1 {
      var more := RenderedAll(ws[1..]);
      AllReads(ws[1..], extra);
      BlankReads(more, PassedAll(ws[1..]) + extra);
      WordReads(ws[0], [32] + more, PassedAll(ws[1..]) + extra, [Space] + PartsAll(ws[1..]));
    }
  }

  /** The first word and the others. */
  lemma AllSplit(ws: seq<Word>, extra: seq<bytes>)
    ensures RenderedAll(ws) == if ws == [] then [] else RenderedWord(ws[0]) + (if |ws| == 1 then [] else [32] + RenderedAll(ws[1..]))
    ensures PassedAll(ws) + extra == if ws == [] then extra else PassedWord(ws[0]) + (if |ws| == 1 then extra else PassedAll(ws[1..]) + extra)
    ensures PartsAll(ws) == if ws == [] then [] else Parts(ws[0]) + (if |ws| == 1 then [] else [Space] + PartsAll(ws[1..]))
  {
    hide *;
    RenderedSplit(ws);
    PassedSplit(ws, extra);
    PartsSplit(ws);
  }

  lemma RenderedSplit(ws: seq<Word>)
    ensures RenderedAll(ws) == if ws == [] then [] else RenderedWord(ws[0]) + (if |ws| == 1 then [] else [32] + RenderedAll(ws[1..]))
  {
    hide RenderedWord;
    if |ws| == 1 { assert RenderedWord(ws[0]) + [] == RenderedWord(ws[0]); }
  }

  lemma PassedSplit(ws: seq<Word>, extra: seq<bytes>)
    ensures PassedAll(ws) + extra == if ws == [] then extra else PassedWord(ws[0]) + (if |ws| == 1 then extra else PassedAll(ws[1..]) + extra)
  {
    PassedHead(ws);
    hide PassedWord, PassedAll;
    if ws == [] {
      assert [] + extra == extra;
    } else {
      ArgsAssoc(PassedWord(ws[0]), PassedAll(ws[1..]), extra);
      if |ws| == 1 { assert [] + extra == extra; }
    }
  }

  lemma PassedHead(ws: seq<Word>)
    ensures PassedAll(ws) == if ws == [] then [] else PassedWord(ws[0]) + PassedAll(ws[1..])
    ensures |ws| == 1 ==> PassedAll(ws[1..]) == []
  {
    hide PassedWord;
  }

  lemma ArgsAssoc(a: seq<bytes>, b: seq<bytes>, c: seq<bytes>)
    ensures a + b + c == a + (b + c)
  {
  }

  lemma PartsSplit(ws: seq<Word>)
    ensures PartsAll(ws) == if ws == [] then [] else Parts(ws[0]) + (if |ws| == 1 then [] else [Space] + PartsAll(ws[1..]))
  {
    hide Parts;
    if |ws| == 1 { assert Parts(ws[0]) + [] == Parts(ws[0]); }
  }

  function Texts(w: Word): seq<bytes> { if w == [] then [] else [Meaning(w[0])] + Texts(w[1..]) }

  lemma {:induction false} ConcatTexts(w: Word)
    ensures Concat(Texts(w)) == MeaningWord(w)
  {
    if w != [] {
      ConcatTexts(w[1..]);
      assert Texts(w)[1..] == Texts(w[1..]);
    }
  }

  lemma {:induction false} PartsFrom(run: seq<bytes>, w: Word)
    ensures From(run, Parts(w)) == From(run + Texts(w), [])
    decreases |w|
  {
    hide From, Meaning;
    if w == [] {
      assert run + Texts(w) == run;
    } else {
      FromPart(run, Meaning(w[0]), Parts(w[1..]));
      PartsFrom(run + [Meaning(w[0])], w[1..]);
      assert run + [Meaning(w[0])] + Texts(w[1..]) == run + Texts(w);
    }
  }

  lemma WordArguments(w: Word)
    ensures Arguments(Parts(w)) == if w == [] then [] else [MeaningWord(w)]
  {
    var none: seq<bytes> := [];
    FromStart(Parts(w));
    PartsFrom(none, w);
    assert none + Texts(w) == Texts(w);
    FromEnd(Texts(w));
    ConcatTexts(w);
    hide From, Arguments, Concat, MeaningWord;
  }

  lemma {:induction false} AllArguments(ws: seq<Word>)
    ensures Arguments(PartsAll(ws)) == MeaningAll(ws)
    decreases |ws|
  {
    hide Arguments, Parts, MeaningWord;
    if ws == [] {
      WordArguments([]);
      assert Parts([]) == [] by { NoParts(); }
    } else {
      WordArguments(ws[0]);
      if |ws| == 1 {
        assert MeaningAll(ws[1..]) == [];
      } else {
        AllArguments(ws[1..]);
        SpaceSeparates(Parts(ws[0]), PartsAll(ws[1..]));
      }
    }
  }

  lemma NoParts()
    ensures Parts([]) == []
  {
  }

  /**
    A format made of words with blanks between them, and the arguments that its conversions ask for:
    it stands for one argument for each word that is not empty, with each %s replaced by its C string,
    each %b by its bytes, each %% by a percent sign, and each printf conversion by its text.
   */
  lemma FormatReads(ws: seq<Word>, extra: seq<bytes>)
    requires WellWords(ws)
    ensures var ps := Pieces(RenderedAll(ws), PassedAll(ws) + extra);
      ps.Scanned? && Arguments(ps.pieces) == MeaningAll(ws)
  {
    AllReads(ws, extra);
    AllArguments(ws);
  }

  /** The command that redisFormatCommand writes for such a format. */
  method FormatWords(ws: seq<Word>) returns (out: Outcome, cmd: array<byte>)
    requires WellWords(ws)
    ensures fresh(cmd) && (out.Formatted? <==> |Wire(MeaningAll(ws))| < INT_MAX)
    ensures out.Formatted? ==>
      var wire := Wire(MeaningAll(ws)); cmd.Length == |wire| + 1 && cmd[..|wire|] == wire && cmd[|wire|] == 0
  {
    FormatReads(ws, []);
    assert PassedAll(ws) + [] == PassedAll(ws);
    hide Pieces, Arguments, Wire, RenderedAll, PassedAll, MeaningAll;
    out, cmd := FormatCommand(RenderedAll(ws), PassedAll(ws));
  }

  // ---------- Formats that are refused ----------

  /** A conversion with a byte that is no letter for it. */
  lemma InvalidPrint(c: Printf, b: byte, rest: bytes, args: seq<bytes>)
    requires WellOptioned(c) && !OptionByte(b) && b != 0 && b != 104 && b != 108 && b !in {100, 105, 111, 117, 120, 88}
    requires b !in {101, 69, 102, 70, 103, 71, 97, 65} && (OptionText(c) == [] ==> b !in {37, 115, 98})
    ensures Pieces([37] + OptionText(c) + ([b] + rest), args) == Invalid
  {
    var tail := [b] + rest;
    var f := [37] + OptionText(c) + tail;
    OptionsSkipped(f, c, tail);
    OptionStarts(c, b, rest);
    hide SkipOptions, OptionText, CString, WellOptioned;
    AtTail(f, SkipOptions(f), tail, 0);
  }

  /** The byte behind the percent sign. */
  lemma OptionStarts(c: Printf, b: byte, rest: bytes)
    requires WellOptioned(c) && (OptionText(c) == [] ==> b !in {37, 115, 98})
    ensures var f := [37] + OptionText(c) + ([b] + rest); |f| >= 2 && f[0] == 37 && f[1] !in {37, 115, 98}
  {
    if c.width != [] { assert c.width[0] in c.width; }
  }

  /** The code reads behind the NUL of a format that ends inside a conversion. */
  lemma UnfinishedPrint(c: Printf, text: bytes, args: seq<bytes>)
    requires WellOptioned(c) && 0 < |OptionText(c)| < 12
    ensures Pieces([37] + OptionText(c), [text] + args) == PastEnd
  {
    var none: bytes := [];
    var f := [37] + OptionText(c);
    assert f + none == f;
    OptionsSkipped(f, c, none);
    OptionFirst(c);
    hide SkipOptions, OptionText, CString, WellOptioned;
  }

  lemma OptionFirst(c: Printf)
    requires WellOptioned(c) && OptionText(c) != []
    ensures OptionText(c)[0] !in {37, 115, 98}
  {
    if c.width != [] { assert c.width[0] in c.width; }
  }
}
