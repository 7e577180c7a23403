/** The requests at the edges of the protocol: no arguments, too many, lengths that are refused, and the name of quit. */
module RequestEdges {
  import opened Bytes
  import opened Integers
  import opened Options
  import opened RequestModel
  import Sds

  /** quit is recognized in any case, up to a NUL. */
  lemma QuitNames(name: bytes)
    ensures IsQuit(name) <==> Spells(CString(name), "quit")
  {
    hide CString;
    var s := CString(name);
    assert "quit"[0] == 'q' && "quit"[1] == 'u' && "quit"[2] == 'i' && "quit"[3] == 't';
    if |s| == 4 && Spells(s, "quit") { assert Lower(s[0]) == 113 && Lower(s[1]) == 117 && Lower(s[2]) == 105 && Lower(s[3]) == 116; }
  }

  // ---------- Headers that carry no arguments, and refusals ----------

  /** A client between two requests. */
  predicate Fresh(c: Client) { c.argv == [] && c.multibulklen == 0 && c.bulklen == -1 && c.reqtype == UNKNOWN && !c.failed }

  /** The line of a header or of a length: its CR is the first one. */
  lemma LineFound(b: byte, n: int, rest: bytes)
    requires b != 0 && b != CR
    ensures var s := [b] + Text(n) + CRLF + rest;
      FindCr(s, 0) == Some(1 + |Text(n)|) && s[1..1 + |Text(n)|] == Text(n) && s[1 + |Text(n)| + 2..] == rest
  {
    var s, k := [b] + Text(n) + CRLF + rest, 1 + |Text(n)|;
    forall i | 0 <= i < k ensures s[i] != 0 && s[i] != CR {
      if i > 0 { TextBytes(n, i - 1); }
    }
    FirstCr(s, 0, k);
  }

  lemma TextBytes(n: int, i: nat)
    requires i < |Text(n)|
    ensures Text(n)[i] == 45 || IsDigit(Text(n)[i])
  {
    hide Decimal;
    var d := if n < 0 then Decimal(-n) else Decimal(n);
    if n >= 0 { assert Text(n)[i] in d; } else if i > 0 { assert Text(n)[i] == d[i - 1] && d[i - 1] in d; }
  }

  lemma {:induction false} FirstCr(s: bytes, from: nat, n: nat)
    requires from <= n < |s| && s[n] == CR && forall i :: from <= i < n ==> s[i] != 0 && s[i] != CR
    ensures FindCr(s, from) == Some(n)
    decreases n - from
  {
    if from < n { FirstCr(s, from + 1, n); }
  }

  /** What processMultibulkBuffer does with a header of a number. */
  lemma HeaderOf(c: Client, n: int, rest: bytes)
    requires Fresh(c) && InRange(n) && c.buf == [42] + Text(n) + CRLF + rest
    ensures var c1 := Classify(c); var r := ProcessMultibulk(c1);
      && c1 == c.(reqtype := MULTIBULK)
      && (n > 1048576 ==> r == (c1, false))
      && (n <= 0 ==> r == (c1.(buf := rest), true))
  {
    LineFound(42, n, rest);
    ParseInvertsText(Text(n), n);
    hide FindCr, ParseLL, Text, Arguments;
    assert c.buf[0] == 42;
    var p := 1 + |Text(n)| + 2;
    SliceToEnd(c.buf, p);
  }

  lemma SliceToEnd(s: bytes, p: nat)
    requires p <= |s|
    ensures Sds.Slice(s, p, -1) == s[p..]
  {
  }

  /** A request with a count of zero or less is skipped, and the next one is seen. */
  lemma NoArguments(c: Client, n: int, rest: bytes)
    requires Fresh(c) && InRange(n) && n <= 0 && c.buf == [42] + Text(n) + CRLF + rest
    ensures ProcessInput(c) == ProcessInput(c.(buf := rest))
  {
    HeaderOf(c, n, rest);
    hide ProcessMultibulk, Text;
    assert Reset(c.(reqtype := MULTIBULK, buf := rest)) == c.(buf := rest);
    InputStep(c);
  }

  lemma InputStep(c: Client)
    requires Fresh(c) && c.buf != [] && Classify(c).reqtype == MULTIBULK
    ensures var (c2, ok) := ProcessMultibulk(Classify(c));
      && (ok && c2.argv == [] ==> ProcessInput(c) == ProcessInput(Reset(c2)))
      && (!ok ==> ProcessInput(c) == (c2, []))
  {
    hide ProcessMultibulk, Classify, Reset, IsQuit;
    var (c2, ok) := ProcessMultibulk(Classify(c));
    if ok && c2.argv == [] { assert [] + ProcessInput(Reset(c2)).1 == ProcessInput(Reset(c2)).1; }
  }

  /** A request with more than 1024 * 1024 arguments is refused. */
  lemma TooManyArguments(c: Client, n: int, rest: bytes)
    requires Fresh(c) && InRange(n) && n > 1048576 && c.buf == [42] + Text(n) + CRLF + rest
    ensures ProcessInput(c) == (c.(reqtype := MULTIBULK), [])
  {
    HeaderOf(c, n, rest);
    hide ProcessMultibulk, Text;
    InputStep(c);
  }

  /** An argument is refused when its length is negative or more than 512 MB, and when it does not begin with a dollar sign. */
  lemma LengthRefused(c: Client, b: byte, n: int, rest: bytes)
    requires c.multibulklen > 0 && c.bulklen == -1 && InRange(n) && b != 0 && b != CR && c.buf == [b] + Text(n) + CRLF + rest
    ensures b != 36 || n < 0 || n > 536870912 ==> ReadArgs(c, 0) == (c, 0, true) && ProcessMultibulk(c) == (c, false)
  {
    LineFound(b, n, rest);
    ParseInvertsText(Text(n), n);
    hide FindCr, ParseLL, Text;
    assert c.buf[0] == b;
  }

  /** So are a count and a length that are not numbers. */
  lemma NotANumber(c: Client, b: byte, text: bytes, rest: bytes)
    requires c.buf == [b] + text + CRLF + rest && b != 0 && b != CR && 0 !in text && CR !in text
    requires forall n :: !(InRange(n) && text == Text(n))
    ensures c.multibulklen > 0 && c.bulklen == -1 ==> ReadArgs(c, 0) == (c, 0, true) && ProcessMultibulk(c) == (c, false)
    ensures Fresh(c) && b == 42 ==> ProcessInput(c) == (c.(reqtype := MULTIBULK), [])
  {
    var k := 1 + |text|;
    forall i | 0 <= i < k ensures c.buf[i] != 0 && c.buf[i] != CR {
      if i > 0 { assert c.buf[i] == text[i - 1] && text[i - 1] in text; }
    }
    FirstCr(c.buf, 0, k);
    assert c.buf[1..k] == text;
    if ParseLL(text).Some? { ParseInvertsText(text, ParseLL(text).value); }
    hide ParseLL, Text, FindCr;
    if Fresh(c) && b == 42 { InputStep(c); }
  }

  /** Without a CR the server waits for more of the line, up to 64 KB. */
  lemma LengthAwaited(c: Client)
    requires c.multibulklen > 0 && c.bulklen == -1 && FindCr(c.buf, 0).None?
    ensures ReadArgs(c, 0) == (c, 0, |c.buf| > 65536)
  {
  }

  /** At an inline request, which does not begin with a star, the loop stops as long as inline requests are not modelled. */
  lemma InlineStays(c: Client)
    requires Fresh(c) && c.buf != [] && c.buf[0] != 42
    ensures var (c', seen) := ProcessInput(c); seen == [] && c'.buf == c.buf && !c'.failed && c'.argv == []
  {
    hide ProcessMultibulk;
  }
}
