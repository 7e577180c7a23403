/** Splitting a string at a separator and joining strings with one: sdssplitlen and sdsjoinsds of sds.c. */
module SplitJoin {
  import opened Bytes
  import opened Options
  import opened Sds

  /** Whether `sep` stands in `s` at place `j`. */
  predicate Stands(s: bytes, sep: bytes, j: nat) { j + |sep| <= |s| && s[j..j + |sep|] == sep }

  /** The tokens from place `start` on, when no separator has been found between `start` and `j`. */
  function TokensFrom(s: bytes, sep: bytes, start: nat, j: nat): (r: seq<bytes>)
    requires start <= j && start <= |s| && sep != []
    ensures |r| > 0
    decreases |s| - j
  {
    if j + |sep| > |s| then [s[start..]]
    else if s[j..j + |sep|] == sep then [s[start..j]] + TokensFrom(s, sep, j + |sep|, j + |sep|)
    else TokensFrom(s, sep, start, j + 1)
  }

  /** sdssplitlen: no tokens for the empty string, NULL for an empty separator. */
  function Split(s: bytes, sep: bytes): Option<seq<bytes>> {
    if sep == [] then None else if s == [] then Some([]) else Some(TokensFrom(s, sep, 0, 0))
  }

  lemma TokensStep(s: bytes, sep: bytes, start: nat, j: nat)
    requires start <= j && start <= |s| && sep != []
    ensures TokensFrom(s, sep, start, j) ==
      if j + |sep| > |s| then [s[start..]]
      else if s[j..j + |sep|] == sep then [s[start..j]] + TokensFrom(s, sep, j + |sep|, j + |sep|)
      else TokensFrom(s, sep, start, j + 1)
  {
  }

  lemma Regroup(found: seq<bytes>, token: bytes, rest: seq<bytes>)
    ensures found + ([token] + rest) == found + [token] + rest
  {
  }

  /** s_realloc of an array of which `elements` places are used. */
  method Resized(tokens: array<bytes>, elements: nat, slots: nat) returns (bigger: array<bytes>)
    requires elements <= tokens.Length && elements <= slots
    ensures fresh(bigger) && bigger.Length == slots && bigger[..elements] == tokens[..elements]
  {
    bigger := new bytes[slots];
    for i := 0 to elements
      invariant bigger[..i] == tokens[..i]
    {
      bigger[i] := tokens[i];
    }
  }

  /** The token array of sdssplitlen: `slots` places, of which `elements` are used. */
  class TokenArray {
    var tokens: array<bytes>
    var slots: nat
    var elements: nat

    ghost predicate Valid()
      reads this
    {
      tokens.Length == slots >= 5 && elements + 1 <= slots
    }

    ghost function Contents(): seq<bytes>
      requires elements <= tokens.Length
      reads this, tokens
    {
      tokens[..elements]
    }

    constructor ()
      ensures Valid() && fresh(tokens) && elements == 0 && Contents() == []
    {
      slots, elements := 5, 0;
      tokens := new bytes[5];
    }

    /** Doubles the array when fewer than two places are free. */
    method Reserve()
      requires Valid()
      modifies this
      ensures Valid() && elements + 2 <= slots && Contents() == old(Contents()) && (tokens == old(tokens) || fresh(tokens))
      ensures elements == old(elements)
    {
      if slots < elements + 2 {
        slots := slots * 2;
        tokens := Resized(tokens, elements, slots);
      }
    }

    /** Stores the next element; there is room for it. */
    method Add(token: bytes)
      requires Valid()
      modifies this`elements, tokens
      ensures tokens == old(tokens) && slots == old(slots) && elements == old(elements) + 1 <= slots == tokens.Length
      ensures Contents() == old(Contents()) + [token]
    {
      tokens[elements] := token;
      elements := elements + 1;
    }
  }

  /** What is still to be read when `r` holds the tokens before place `start`. */
  ghost predicate Progress(r: TokenArray, s: bytes, sep: bytes, start: nat, j: nat)
    requires sep != []
    reads r, r.tokens
  {
    r.Valid() && start <= j && start <= |s| && r.Contents() + TokensFrom(s, sep, start, j) == TokensFrom(s, sep, 0, 0)
  }

  /** One turn of the loop of sdssplitlen. */
  method SplitTurn(r: TokenArray, s: bytes, sep: bytes, start: nat, j: nat) returns (start': nat, j': nat)
    requires sep != [] && j < |s| - (|sep| - 1) && Progress(r, s, sep, start, j)
    modifies r, r.tokens
    ensures Progress(r, s, sep, start', j') && j' > j && (r.tokens == old(r.tokens) || fresh(r.tokens))
  {
    r.Reserve();
    TokensStep(s, sep, start, j);
    hide TokensFrom;
    start', j' := start, j;
    if s[j..j + |sep|] == sep {
      Regroup(r.Contents(), s[start..j], TokensFrom(s, sep, j + |sep|, j + |sep|));
      r.Add(s[start..j]);
      start' := j + |sep|;
      j' := j + |sep| - 1;
    }
    j' := j' + 1;
  }

  /** sdssplitlen: there is always room for the next token and for the final one. */
  method SplitLen(s: bytes, sep: bytes) returns (r: TokenArray?)
    ensures r == null <==> sep == []
    ensures r != null ==> fresh(r) && r.elements <= r.tokens.Length && Split(s, sep) == Some(r.Contents())
  {
    if |sep| < 1 { return null; }
    r := new TokenArray();
    if |s| == 0 { return; }
    var start: nat, j: nat := 0, 0;
    assert [] + TokensFrom(s, sep, 0, 0) == TokensFrom(s, sep, 0, 0);
    while j < |s| - (|sep| - 1)
      invariant fresh(r) && fresh(r.tokens) && Progress(r, s, sep, start, j)
    {
      start, j := SplitTurn(r, s, sep, start, j);
    }
    TokensStep(s, sep, start, j);
    r.Add(s[start..]);
  }

  /** sdsjoinsds. */
  method JoinSds(argv: seq<bytes>, sep: bytes) returns (join: bytes)
    ensures join == Join(argv, sep)
  {
    join := [];
    for j := 0 to |argv|
      invariant join + Join(argv[j..], sep) == Join(argv, sep)
    {
      assert argv[j..][0] == argv[j] && argv[j..][1..] == argv[j + 1..];
      if j != |argv| - 1 {
        assert join + (argv[j] + sep + Join(argv[j + 1..], sep)) == join + argv[j] + sep + Join(argv[j + 1..], sep);
        join := join + argv[j] + sep;
      } else {
        assert join + argv[j] + [] == join + argv[j];
        join := join + argv[j];
      }
    }
    assert join + [] == join;
  }

  // ---------- Joining what was split ----------

  lemma {:induction false} JoinTokens(s: bytes, sep: bytes, start: nat, j: nat)
    requires start <= j && start <= |s| && sep != []
    ensures Join(TokensFrom(s, sep, start, j), sep) == s[start..]
    decreases |s| - j
  {
    if j + |sep| > |s| {
    } else if s[j..j + |sep|] == sep {
      var next := j + |sep|;
      var rest := TokensFrom(s, sep, next, next);
      JoinTokens(s, sep, next, next);
      hide TokensFrom;
      assert ([s[start..j]] + rest)[1..] == rest;
      assert s[start..] == s[start..j] + s[j..next] + s[next..];
    } else {
      JoinTokens(s, sep, start, j + 1);
    }
  }

  /** Joining the tokens restores the string, for every separator that is not empty. */
  lemma JoinInvertsSplit(s: bytes, sep: bytes)
    requires sep != []
    ensures Split(s, sep).Some? && Join(Split(s, sep).value, sep) == s
  {
    JoinTokens(s, sep, 0, 0);
    assert s[0..] == s;
  }

  ghost predicate Free(t: bytes, sep: bytes) { forall i: nat :: !Stands(t, sep, i) }

  lemma StandsInside(s: bytes, sep: bytes, a: nat, b: nat, i: nat)
    requires a <= b <= |s| && sep != []
    ensures Stands(s[a..b], sep, i) ==> Stands(s, sep, a + i) && a + i < b
  {
    var n := |sep|;
    if i + n <= |s[a..b]| {
      assert s[a..b] == s[a..][..b - a];
      assert s[a..b][i..i + n] == s[a + i..a + i + n];
    }
  }

  lemma {:induction false} TokensAreFree(s: bytes, sep: bytes, start: nat, j: nat)
    requires start <= j && start <= |s| && sep != []
    requires forall i: nat :: start <= i < j ==> !Stands(s, sep, i)
    ensures forall k :: 0 <= k < |TokensFrom(s, sep, start, j)| ==> Free(TokensFrom(s, sep, start, j)[k], sep)
    decreases |s| - j
  {
    if j + |sep| > |s| {
      forall i: nat ensures !Stands(s[start..|s|], sep, i) { StandsInside(s, sep, start, |s|, i); }
      assert s[start..] == s[start..|s|];
    } else if s[j..j + |sep|] == sep {
      TokensAreFree(s, sep, j + |sep|, j + |sep|);
      forall i: nat ensures !Stands(s[start..j], sep, i) { StandsInside(s, sep, start, j, i); }
    } else {
      assert !Stands(s, sep, j);
      TokensAreFree(s, sep, start, j + 1);
    }
  }

  /** No token contains the separator. */
  lemma SplitIsFree(s: bytes, sep: bytes)
    requires sep != []
    ensures forall k :: 0 <= k < |Split(s, sep).value| ==> Free(Split(s, sep).value[k], sep)
  {
    TokensAreFree(s, sep, 0, 0);
  }

  // ---------- Splitting what was joined ----------

  ghost predicate NoneHas(ts: seq<bytes>, c: byte) { forall k :: 0 <= k < |ts| ==> c !in ts[k] }

  lemma FreeOfByte(t: bytes, c: byte)
    ensures Free(t, [c]) <==> c !in t
  {
    if c in t {
      var i :| 0 <= i < |t| && t[i] == c;
      assert t[i..i + 1] == [c] && Stands(t, [c], i);
    } else {
      forall i: nat ensures !Stands(t, [c], i) {
        if i < |t| { assert t[i..i + 1][0] == t[i] != c; }
      }
    }
  }

  /** Reading on through bytes that are not the separator. */
  lemma {:induction false} TokensSkip(s: bytes, c: byte, start: nat, j: nat, to: nat)
    requires start <= j <= to <= |s| && forall i :: j <= i < to ==> s[i] != c
    ensures TokensFrom(s, [c], start, j) == TokensFrom(s, [c], start, to)
    decreases |s| - j
  {
    if j < to {
      assert s[j..j + 1] == [s[j]];
      TokensSkip(s, c, start, j + 1, to);
    }
  }

  lemma {:induction false} TokensOfJoin(before: bytes, ts: seq<bytes>, c: byte)
    requires ts != [] && NoneHas(ts, c)
    ensures TokensFrom(before + Join(ts, [c]), [c], |before|, |before|) == ts
    decreases |ts|
  {
    var s, n := before + Join(ts, [c]), |before|;
    var end := n + |ts[0]|;
    assert forall i :: n <= i < end ==> s[i] == ts[0][i - n];
    TokensSkip(s, c, n, n, end);
    if |ts| == 1 {
      assert s[n..] == ts[0] && ts == [ts[0]];
    } else {
      assert s[end..end + 1] == [c] && s[n..end] == ts[0];
      var before' := before + ts[0] + [c];
      assert s == before' + Join(ts[1..], [c]);
      TokensOfJoin(before', ts[1..], c);
      assert ts == [ts[0]] + ts[1..];
    }
  }

  /**
    For a separator of one byte, splitting a join gives the list back if and only if no string of
    the list contains the separator and the list is not the single empty string.
   */
  lemma SplitInvertsJoin(ts: seq<bytes>, c: byte)
    ensures Split(Join(ts, [c]), [c]) == Some(ts) <==> NoneHas(ts, c) && ts != [[]]
  {
    var s := Join(ts, [c]);
    if Split(s, [c]) == Some(ts) {
      SplitIsFree(s, [c]);
      forall k | 0 <= k < |ts| ensures c !in ts[k] { FreeOfByte(ts[k], c); }
    }
    if NoneHas(ts, c) && ts != [[]] && ts != [] {
      TokensOfJoin([], ts, c);
      assert [] + s == s;
      if |ts| == 1 { assert ts == [ts[0]]; }
    }
  }
}
