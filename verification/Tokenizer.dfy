/** The command line tokenizer (src/kernel/shell.c, shell_run_line): spaces separate, double
    quotes group, and the tokens are cut out of the line by writing NULs into it. */
module Tokenizer {
  const LINE_MAX: nat := 240
  const ARGS: nat := 16
  const SPACE: int := 32
  const QUOTE: int := 34

  // -------------------------------------------------------- what it computes

  /** The first place from i on where `stop` stands, or the end. */
  function Find(s: seq<int>, i: nat, stop: int): (j: nat)
    requires i <= |s|
    ensures i <= j <= |s| && (j < |s| ==> s[j] == stop) && stop !in s[i..j]
    decreases |s| - i
  {
    if i == |s| || s[i] == stop then i
    else
      var j := Find(s, i + 1, stop);
      assert s[i..j] == [s[i]] + s[i + 1..j];
      j
  }

  function SkipSpaces(s: seq<int>, i: nat): (j: nat)
    requires i <= |s|
    ensures i <= j <= |s| && (j < |s| ==> s[j] != SPACE)
    decreases |s| - i
  {
    if i == |s| || s[i] != SPACE then i else SkipSpaces(s, i + 1)
  }

  /** Where the token at i starts and ends: after an opening quote and before the closing
      one, or up to the next space. */
  function Start(s: seq<int>, i: nat): nat
    requires i < |s|
  {
    if s[i] == QUOTE then i + 1 else i
  }

  function End(s: seq<int>, i: nat): (e: nat)
    requires i < |s|
    ensures Start(s, i) <= e <= |s|
  {
    Find(s, Start(s, i), if s[i] == QUOTE then QUOTE else SPACE)
  }

  /** The tokens from i on: any number of them. */
  function Tokens(s: seq<int>, i: nat): seq<seq<int>>
    requires i <= |s|
    decreases |s| - i
  {
    var b := SkipSpaces(s, i);
    if b == |s| then []
    else
      var e := End(s, b);
      [s[Start(s, b)..e]] + Tokens(s, if e < |s| then e + 1 else e)
  }

  // ------------------------------------------------------------- round trip

  /** A token as it is written: between quotes, or bare. */
  datatype Word = Word(text: seq<int>, quoted: bool) {
    predicate Writable() {
      && 0 !in text
      && if quoted then QUOTE !in text else text != [] && SPACE !in text && text[0] != QUOTE
    }

    function Shown(): seq<int> { if quoted then [QUOTE] + text + [QUOTE] else text }
  }

  /** Words written one after the other, spaces between. */
  function Line(ws: seq<Word>): seq<int> {
    if ws == [] then []
    else if |ws| == 1 then ws[0].Shown()
    else ws[0].Shown() + [SPACE] + Line(ws[1..])
  }

  lemma {:induction false} FindIs(s: seq<int>, i: nat, stop: int, j: nat)
    requires i <= j <= |s| && stop !in s[i..j] && (j < |s| ==> s[j] == stop)
    ensures Find(s, i, stop) == j
    decreases j - i
  {
    if i < j {
      assert s[i] in s[i..j];
      assert forall k :: i + 1 <= k < j ==> s[k] in s[i..j];
      FindIs(s, i + 1, stop, j);
    }
  }

  lemma Within(text: seq<int>)
    ensures ([QUOTE] + text + [QUOTE])[1..1 + |text|] == text
  {
  }

  lemma SliceSlice(s: seq<int>, at: nat, n: nat, i: nat, j: nat)
    requires at + n <= |s| && i <= j <= n
    ensures s[at..at + n][i..j] == s[at + i..at + j]
  {
    var inner, outer := s[at..at + n][i..j], s[at + i..at + j];
    assert |inner| == |outer|;
    forall k | 0 <= k < |inner| ensures inner[k] == outer[k] {
      assert inner[k] == s[at..at + n][i + k] == s[at + (i + k)];
    }
  }

  /** The word written at `at` is the token read there. */
  lemma WordRead(s: seq<int>, at: nat, w: Word)
    requires w.Writable() && at + |w.Shown()| <= |s| && s[at..at + |w.Shown()|] == w.Shown()
    requires at + |w.Shown()| < |s| ==> s[at + |w.Shown()|] == SPACE
    ensures at < |s| && s[at] != SPACE && s[Start(s, at)..End(s, at)] == w.text
    ensures End(s, at) == if w.quoted then at + 1 + |w.text| else at + |w.text|
    ensures w.quoted ==> End(s, at) < |s|
  {
    hide Find;
    var n := |w.Shown()|;
    var shown := s[at..at + n];
    assert s[at] == shown[0];
    if w.quoted {
      assert s[at + n - 1] == shown[n - 1];
      Within(w.text);
      assert shown == [QUOTE] + w.text + [QUOTE];
      SliceSlice(s, at, n, 1, n - 1);
      FindIs(s, at + 1, QUOTE, at + 1 + |w.text|);
    } else {
      FindIs(s, at, SPACE, at + |w.text|);
    }
  }

  lemma TokenHere(s: seq<int>, i: nat)
    requires i <= |s| && (i < |s| ==> s[i] != SPACE)
    ensures i == |s| ==> Tokens(s, i) == []
    ensures i < |s| ==> var e := End(s, i);
              Tokens(s, i) == [s[Start(s, i)..e]] + Tokens(s, if e < |s| then e + 1 else e)
  {
  }

  lemma SkipOne(s: seq<int>, i: nat)
    requires i < |s| && s[i] == SPACE
    ensures Tokens(s, i) == Tokens(s, i + 1)
  {
  }

  /** Reading back what was written gives the words. */
  lemma {:induction false} LineReadBack(s: seq<int>, at: nat, ws: seq<Word>)
    requires forall i :: 0 <= i < |ws| ==> ws[i].Writable()
    requires at <= |s| && s[at..] == Line(ws)
    ensures |Tokens(s, at)| == |ws| && forall i :: 0 <= i < |ws| ==> Tokens(s, at)[i] == ws[i].text
    decreases |ws|
  {
    hide Tokens, Find;
    if ws == [] {
      TokenHere(s, at);
    } else {
      var n := |ws[0].Shown()|;
      LineStarts(s, at, ws);
      WordRead(s, at, ws[0]);
      TokenHere(s, at);
      if |ws| > 1 {
        LineReadBack(s, at + n + 1, ws[1..]);
        if ws[0].quoted { SkipOne(s, at + n); }
      } else {
        TokenHere(s, |s|);
      }
    }
  }

  lemma LineStarts(s: seq<int>, at: nat, ws: seq<Word>)
    requires ws != [] && at <= |s| && s[at..] == Line(ws)
    ensures var n := |ws[0].Shown()|;
            && at + n <= |s| && s[at..at + n] == ws[0].Shown()
            && (|ws| == 1 <==> at + n == |s|)
            && (|ws| > 1 ==> s[at + n] == SPACE && s[at + n + 1..] == Line(ws[1..]))
  {
    var n := |ws[0].Shown()|;
    var m := |s| - at;
    assert Line(ws)[..n] == ws[0].Shown();
    assert s[at..at + m] == s[at..];
    SliceSlice(s, at, m, 0, n);
    if |ws| > 1 {
      SliceSlice(s, at, m, n + 1, m);
      assert s[at + n + 1..at + m] == s[at + n + 1..];
      assert Line(ws)[n] == SPACE && Line(ws)[n + 1..] == Line(ws[1..]);
      assert s[at..at + m][n] == s[at + n];
    }
  }

  // -------------------------------------------------------------- any line

  lemma {:induction false} FindShift(s: seq<int>, i: nat, stop: int, k: nat)
    requires k <= i <= |s|
    ensures Find(s[k..], i - k, stop) == Find(s, i, stop) - k
    decreases |s| - i
  {
    if i < |s| && s[i] != stop { FindShift(s, i + 1, stop, k); }
  }

  lemma {:induction false} SkipShift(s: seq<int>, i: nat, k: nat)
    requires k <= i <= |s|
    ensures SkipSpaces(s[k..], i - k) == SkipSpaces(s, i) - k
    decreases |s| - i
  {
    if i < |s| && s[i] == SPACE { SkipShift(s, i + 1, k); }
  }

  lemma TokenShift(s: seq<int>, b: nat, k: nat)
    requires k <= b < |s|
    ensures var a, e := Start(s, b), End(s, b);
            && Start(s[k..], b - k) == a - k && End(s[k..], b - k) == e - k && s[k..][a - k..e - k] == s[a..e]
            && (s[b] != SPACE ==> b < e)
  {
    FindShift(s, Start(s, b), if s[b] == QUOTE then QUOTE else SPACE, k);
  }

  lemma ToToken(s: seq<int>, i: nat)
    requires i <= |s|
    ensures Tokens(s, i) == Tokens(s, SkipSpaces(s, i))
  {
  }

  /** What is read from i on does not depend on what stands before. */
  lemma {:induction false} TokensShift(s: seq<int>, i: nat, k: nat)
    requires k <= i <= |s|
    ensures Tokens(s[k..], i - k) == Tokens(s, i)
    decreases |s| - i
  {
    hide Find, SkipSpaces, Tokens, Start, End;
    var t, b := s[k..], SkipSpaces(s, i);
    SkipShift(s, i, k);
    ToToken(s, i);
    ToToken(t, i - k);
    TokenHere(s, b);
    TokenHere(t, b - k);
    if b < |s| {
      TokenShift(s, b, k);
      var e := End(s, b);
      TokensShift(s, if e < |s| then e + 1 else e, k);
    }
  }

  /** Reading starts over behind the first character. */
  lemma ReadOn(s: seq<int>, i: nat)
    requires i <= |s|
    ensures Tokens(s, i) == Tokens(s[i..], 0)
  {
    TokensShift(s, i, i);
  }

  /** Every line, read from the left: spaces before a token are skipped; an opening quote takes
      everything up to the next quote, with nothing needed behind it, or, unclosed, to the end
      of the line; anything else is taken up to the next space, quotes in it included. */
  lemma AnyLine(text: seq<int>, rest: seq<int>)
    ensures Tokens([], 0) == []
    ensures Tokens([SPACE] + rest, 0) == Tokens(rest, 0)
    ensures QUOTE !in text ==> Tokens([QUOTE] + text, 0) == [text]
    ensures QUOTE !in text ==> Tokens([QUOTE] + text + [QUOTE] + rest, 0) == [text] + Tokens(rest, 0)
    ensures text != [] && SPACE !in text && text[0] != QUOTE ==> Tokens(text, 0) == [text]
    ensures text != [] && SPACE !in text && text[0] != QUOTE ==>
              Tokens(text + [SPACE] + rest, 0) == [text] + Tokens(rest, 0)
  {
    SpaceThen(rest);
    if QUOTE !in text {
      Unclosed(text);
      QuotedThen(text, rest);
    }
    if text != [] && SPACE !in text && text[0] != QUOTE { BareThen(text, rest); }
  }

  lemma SpaceThen(rest: seq<int>)
    ensures Tokens([SPACE] + rest, 0) == Tokens(rest, 0)
  {
    var s := [SPACE] + rest;
    SkipOne(s, 0);
    ReadOn(s, 1);
    assert s[1..] == rest;
  }

  lemma Unclosed(text: seq<int>)
    requires QUOTE !in text
    ensures Tokens([QUOTE] + text, 0) == [text]
  {
    var s := [QUOTE] + text;
    assert s[1..|s|] == text;
    FindIs(s, 1, QUOTE, |s|);
    TokenHere(s, 0);
    TokenHere(s, |s|);
  }

  lemma QuotedThen(text: seq<int>, rest: seq<int>)
    requires QUOTE !in text
    ensures Tokens([QUOTE] + text + [QUOTE] + rest, 0) == [text] + Tokens(rest, 0)
  {
    hide Tokens, Find;
    var s := [QUOTE] + text + [QUOTE] + rest;
    var e := 1 + |text|;
    assert s[1..e] == text;
    FindIs(s, 1, QUOTE, e);
    TokenHere(s, 0);
    ReadOn(s, e + 1);
    assert s[e + 1..] == rest;
  }

  lemma BareThen(text: seq<int>, rest: seq<int>)
    requires text != [] && SPACE !in text && text[0] != QUOTE
    ensures Tokens(text, 0) == [text]
    ensures Tokens(text + [SPACE] + rest, 0) == [text] + Tokens(rest, 0)
  {
    hide Tokens, Find;
    var s, e := text + [SPACE] + rest, |text|;
    assert s[0..e] == text && text[0..e] == text;
    FindIs(text, 0, SPACE, e);
    TokenHere(text, 0);
    TokenHere(text, e);
    FindIs(s, 0, SPACE, e);
    TokenHere(s, 0);
    ReadOn(s, e + 1);
    assert s[e + 1..] == rest;
  }

  // ------------------------------------------------------------- in place

  /** The C string at p: up to the first NUL. */
  ghost predicate StringAt(buf: seq<int>, p: nat, text: seq<int>) {
    p + |text| < |buf| && buf[p..p + |text|] == text && buf[p + |text|] == 0 && 0 !in text
  }

  /** C strings end at their first NUL, so no two texts stand at one place. */
  lemma OneString(buf: seq<int>, p: nat, a: seq<int>, b: seq<int>)
    requires StringAt(buf, p, a) && StringAt(buf, p, b)
    ensures a == b
  {
    assert forall k :: 0 <= k < |a| ==> a[k] == buf[p..p + |a|][k] == buf[p + k];
    assert forall k :: 0 <= k < |b| ==> b[k] == buf[p..p + |b|][k] == buf[p + k];
    assert |a| == |b|;
  }

  /** The line from p on, as the loops see it. */
  ghost predicate Rest(buf: seq<int>, s: seq<int>, p: nat) {
    |buf| == LINE_MAX && |s| < LINE_MAX && 0 !in s && p <= |s| && buf[p..|s|] == s[p..] && buf[|s|] == 0
  }

  /** A token cut out, with its NUL, before p (or the line is used up). */
  ghost predicate Done(buf: seq<int>, q: nat, text: seq<int>, p: nat, n: nat) {
    StringAt(buf, q, text) && (q + |text| < p || p == n)
  }

  /** Midway: the tokens up to p are cut out, the line from p on is untouched. */
  ghost predicate Cut(buf: seq<int>, argv: seq<nat>, s: seq<int>, p: nat) {
    && Rest(buf, s, p)
    && |argv| <= |Tokens(s, 0)| && Tokens(s, 0)[|argv|..] == Tokens(s, p)
    && forall i {:trigger argv[i]} :: 0 <= i < |argv| ==> Done(buf, argv[i], Tokens(s, 0)[i], p, |s|)
  }

  lemma DoneStays(buf: seq<int>, buf': seq<int>, q: nat, text: seq<int>, p: nat, p': nat, n: nat)
    requires Done(buf, q, text, p, n) && p < n && p <= p' && |buf'| == |buf|
    requires forall k :: 0 <= k < p && k < |buf| ==> buf'[k] == buf[k]
    ensures Done(buf', q, text, p', n)
  {
    assert buf'[q..q + |text|] == buf[q..q + |text|];
  }

  /** The next token appears in the buffer. */
  lemma DoneNow(buf: seq<int>, buf': seq<int>, s: seq<int>, p: nat, a: nat, e: nat)
    requires Rest(buf, s, p) && p <= a <= e <= |s|
    requires buf' == if e < |s| then buf[e := 0] else buf
    ensures Done(buf', a, s[a..e], if e < |s| then e + 1 else e, |s|)
    ensures Rest(buf', s, if e < |s| then e + 1 else e)
  {
    assert forall k :: p <= k < |s| ==> buf[k] == buf[p..|s|][k - p] == s[p..][k - p] == s[k];
  }

  /** One more token, from b to e, is cut out. */
  lemma CutMore(buf: seq<int>, buf': seq<int>, argv: seq<nat>, s: seq<int>, p: nat, b: nat)
    requires Cut(buf, argv, s, p) && b == SkipSpaces(s, p) < |s|
    requires buf' == if End(s, b) < |s| then buf[End(s, b) := 0] else buf
    ensures Cut(buf', argv + [Start(s, b)], s, if End(s, b) < |s| then End(s, b) + 1 else End(s, b))
  {
    hide Done;
    var e := End(s, b);
    var a := Start(s, b);
    var p' := if e < |s| then e + 1 else e;
    var ts := Tokens(s, 0);
    DoneNow(buf, buf', s, p, a, e);
    assert ts[|argv|..] == [s[a..e]] + Tokens(s, p');
    assert ts[|argv|] == ts[|argv|..][0] == s[a..e];
    assert ts[|argv| + 1..] == ts[|argv|..][1..] == Tokens(s, p');
    var argv' := argv + [a];
    forall i {:trigger argv'[i]} | 0 <= i < |argv'| ensures Done(buf', argv'[i], ts[i], p', |s|) {
      if i < |argv| {
        assert argv'[i] == argv[i];
        DoneStays(buf, buf', argv[i], ts[i], p, p', |s|);
      }
    }
  }

  /** The tokenizer. Of a line (its first 239 characters) it cuts out exactly the tokens of
      the left-to-right reading, as NUL-terminated strings in the buffer, in order; a
      seventeenth token sets the overflow instead. */
  method Tokenize(line: seq<int>, buf: array<int>) returns (argv: seq<nat>, overflow: bool)
    requires 0 !in line && buf.Length == LINE_MAX
    modifies buf
    ensures var ts := Tokens(if |line| < LINE_MAX then line else line[..LINE_MAX - 1], 0);
            && |argv| == (if |ts| < ARGS then |ts| else ARGS) && (overflow <==> |ts| > ARGS)
            && forall i :: 0 <= i < |argv| ==> StringAt(buf[..], argv[i], ts[i])
  {
    hide Done, Tokens, Find, Rest, StringAt;
    var n := Copy(line, buf);
    ghost var s := line[..n];
    assert s == if |line| < LINE_MAX then line else line[..LINE_MAX - 1];
    argv, overflow := [], false;
    var p := 0;
    while true
      invariant p <= n && Cut(buf[..], argv, s, p) && |argv| <= ARGS && !overflow
      decreases n - p
    {
      RestNext(buf[..], s, p);
      if buf[p] == 0 { break; }
      var b := AfterSpaces(buf, s, p);
      if buf[b] == 0 { break; }
      if |argv| == ARGS { overflow := true; break; }
      var a, p' := CutOne(buf, argv, s, p, b);
      argv, p := argv + [a], p';
    }
    Ended(buf[..], argv, s, p);
  }

  /** memcpy of the line, cut at 239 characters, and its NUL. */
  method Copy(line: seq<int>, buf: array<int>) returns (n: nat)
    requires 0 !in line && buf.Length == LINE_MAX
    modifies buf
    ensures n == (if |line| < LINE_MAX then |line| else LINE_MAX - 1) && Cut(buf[..], [], line[..n], 0)
  {
    n := |line|;
    if n >= LINE_MAX { n := LINE_MAX - 1; }
    for i := 0 to n
      invariant buf[..i] == line[..i]
    {
      buf[i] := line[i];
    }
    buf[n] := 0;
    assert buf[..][0..n] == line[..n];
  }

  /** One token: find its end and put a NUL there. */
  method CutOne(buf: array<int>, ghost argv: seq<nat>, ghost s: seq<int>, p: nat, b: nat) returns (a: nat, p': nat)
    requires buf.Length == LINE_MAX && Cut(buf[..], argv, s, p)
    requires b == SkipSpaces(s, p) < |s| && Rest(buf[..], s, b) && buf[b] == s[b]
    modifies buf
    ensures Cut(buf[..], argv + [a], s, p') && b < p' <= |s|
  {
    hide Done, Tokens;
    ghost var was := buf[..];
    RestNext(was, s, b);
    var stop := SPACE;
    a := b;
    if buf[b] == QUOTE { stop, a := QUOTE, b + 1; }
    var e := AfterToken(buf, s, a, stop);
    p' := e;
    if buf[e] != 0 { buf[e] := 0; p' := e + 1; }
    CutMore(was, buf[..], argv, s, p, b);
  }

  /** What the loop leaves behind. */
  lemma Ended(buf: seq<int>, argv: seq<nat>, s: seq<int>, p: nat)
    requires Cut(buf, argv, s, p)
    ensures |Tokens(s, 0)| == |argv| + |Tokens(s, p)|
    ensures SkipSpaces(s, p) == |s| <==> Tokens(s, p) == []
    ensures forall i :: 0 <= i < |argv| ==> StringAt(buf, argv[i], Tokens(s, 0)[i])
  {
    forall i | 0 <= i < |argv| ensures StringAt(buf, argv[i], Tokens(s, 0)[i]) {
      assert Done(buf, argv[i], Tokens(s, 0)[i], p, |s|);
    }
  }

  method AfterSpaces(buf: array<int>, ghost s: seq<int>, p: nat) returns (b: nat)
    requires buf.Length == LINE_MAX && Rest(buf[..], s, p)
    ensures b == SkipSpaces(s, p) && Rest(buf[..], s, b) && (buf[b] == 0 <==> b == |s|) && (b < |s| ==> buf[b] == s[b])
  {
    b := p;
    while buf[b] == SPACE
      invariant p <= b <= |s| && SkipSpaces(s, b) == SkipSpaces(s, p) && Rest(buf[..], s, b)
      decreases |s| - b
    {
      RestNext(buf[..], s, b);
      b := b + 1;
    }
    RestNext(buf[..], s, b);
  }

  method AfterToken(buf: array<int>, ghost s: seq<int>, a: nat, stop: int) returns (e: nat)
    requires buf.Length == LINE_MAX && Rest(buf[..], s, a) && stop != 0
    ensures e == Find(s, a, stop) && e < buf.Length && (buf[e] == 0 <==> e == |s|)
  {
    e := a;
    while buf[e] != 0 && buf[e] != stop
      invariant a <= e <= |s| && Find(s, e, stop) == Find(s, a, stop) && Rest(buf[..], s, e)
      decreases |s| - e
    {
      RestNext(buf[..], s, e);
      e := e + 1;
    }
    RestNext(buf[..], s, e);
  }

  lemma RestNext(buf: seq<int>, s: seq<int>, p: nat)
    requires Rest(buf, s, p)
    ensures p < |s| ==> buf[p] == s[p] != 0 && Rest(buf, s, p + 1)
    ensures buf[p] == 0 <==> p == |s|
  {
    if p < |s| {
      assert buf[p] == buf[p..|s|][0] == s[p..][0];
      assert buf[p + 1..|s|] == buf[p..|s|][1..] == s[p + 1..];
    }
  }

  /** Round trip: up to 16 words, at most 239 characters written out, come back as exactly
      their texts. */
  method WriteAndTokenize(ws: seq<Word>, buf: array<int>) returns (argv: seq<nat>)
    requires 1 <= |ws| <= ARGS && |Line(ws)| < LINE_MAX && buf.Length == LINE_MAX
    requires forall i :: 0 <= i < |ws| ==> ws[i].Writable()
    modifies buf
    ensures |argv| == |ws| && forall i :: 0 <= i < |ws| ==> StringAt(buf[..], argv[i], ws[i].text)
  {
    LineClean(ws);
    LineReadBack(Line(ws), 0, ws);
    var overflow;
    argv, overflow := Tokenize(Line(ws), buf);
  }

  lemma {:induction false} LineClean(ws: seq<Word>)
    requires forall i :: 0 <= i < |ws| ==> ws[i].Writable()
    ensures 0 !in Line(ws)
  {
    if |ws| > 1 { LineClean(ws[1..]); }
  }
}
