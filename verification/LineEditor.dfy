/** The shell's line editor (src/kernel/shell.c): a buffer edited in place with memmove,
    and a console row repainted after each keystroke. */
module LineEditor {
  import opened Terminal
  import opened KeyCodes

  const HIST_MAX: nat := 16

  predicate Printable(c: int) { 0x20 <= c <= 0x7E }
  predicate Plain(s: seq<int>) { forall i :: 0 <= i < |s| ==> Printable(s[i]) }

  // ------------------------------------------------------- what a key means

  /** The line as its halves left and right of the cursor, and the history position. */
  datatype Edit = Edit(before: seq<int>, after: seq<int>, at: int)

  function Line(e: Edit): seq<int> { e.before + e.after }

  /** One keystroke, on the two halves. A character needs a free column and a free byte. */
  function Key(e: Edit, hist: seq<seq<int>>, c: int, room: bool): Edit {
    if c == BACKSPACE then
      if e.before == [] then e else e.(before := e.before[..|e.before| - 1])
    else if c == KEY_DEL then
      if e.after == [] then e else e.(after := e.after[1..])
    else if c == KEY_LEFT then
      if e.before == [] then e
      else e.(before := e.before[..|e.before| - 1], after := [e.before[|e.before| - 1]] + e.after)
    else if c == KEY_RIGHT then
      if e.after == [] then e else e.(before := e.before + [e.after[0]], after := e.after[1..])
    else if c == KEY_HOME then e.(before := [], after := Line(e))
    else if c == KEY_END then e.(before := Line(e), after := [])
    else if c == KEY_UP || c == KEY_DOWN then
      var want := if c == KEY_UP then e.at - 1 else e.at + 1;
      if want < 0 || want > |hist| then e
      else Edit(if want == |hist| then [] else hist[want], [], want)
    else if Printable(c) && room then e.(before := e.before + [c])
    else e
  }

  /** Room for one more character: stay on one row and inside the buffer. */
  predicate Room(len: nat, px: nat, cols: nat, max: nat) { !(px + len + 2 >= cols || len + 1 >= max) }

  /** A run of keystrokes. */
  function Keys(e: Edit, hist: seq<seq<int>>, cs: seq<int>, px: nat, cols: nat, max: nat): Edit
    decreases |cs|
  {
    if cs == [] then e
    else
      var e' := Keys(e, hist, cs[..|cs| - 1], px, cols, max);
      Key(e', hist, cs[|cs| - 1], Room(|Line(e')|, px, cols, max))
  }

  /** Left and Right are inverse where both move. */
  lemma LeftRight(e: Edit, hist: seq<seq<int>>, room: bool)
    ensures e.before != [] ==> Key(Key(e, hist, KEY_LEFT, room), hist, KEY_RIGHT, room) == e
    ensures e.after != [] ==> Key(Key(e, hist, KEY_RIGHT, room), hist, KEY_LEFT, room) == e
  {
    if e.before != [] {
      var n := |e.before| - 1;
      assert e.before[..n] + [e.before[n]] == e.before;
      assert ([e.before[n]] + e.after)[1..] == e.after;
    }
    if e.after != [] {
      assert (e.before + [e.after[0]])[..|e.before|] == e.before;
      assert [e.after[0]] + e.after[1..] == e.after;
    }
  }

  /** Typing a character and rubbing it out leaves the line as it was. */
  lemma TypeAndErase(e: Edit, hist: seq<seq<int>>, c: int, room: bool)
    requires Printable(c) && room
    ensures Key(Key(e, hist, c, true), hist, BACKSPACE, room) == e
  {
    assert (e.before + [c])[..|e.before|] == e.before;
  }

  /** Up (0x100) goes to the line entered before, from the empty line to the last one; Down
      (0x101) goes the other way, at the end to an empty line. The cursor goes to its end. */
  lemma UpAndDown(e: Edit, hist: seq<seq<int>>, room: bool)
    requires 0 <= e.at <= |hist|
    ensures e.at > 0 ==> Key(e, hist, 0x100, room) == Edit(hist[e.at - 1], [], e.at - 1)
    ensures e.at == 0 ==> Key(e, hist, 0x100, room) == e
    ensures e.at + 1 < |hist| ==> Key(e, hist, 0x101, room) == Edit(hist[e.at + 1], [], e.at + 1)
    ensures e.at + 1 == |hist| ==> Key(e, hist, 0x101, room) == Edit([], [], |hist|)
    ensures e.at == |hist| ==> Key(e, hist, 0x101, room) == e
  {
  }

  /** k times Up from a fresh line recalls the k-th last line. */
  lemma {:induction false} UpRecalls(hist: seq<seq<int>>, k: nat, px: nat, cols: nat, max: nat)
    requires 0 < k <= |hist|
    ensures Keys(Edit([], [], |hist|), hist, seq(k, _ => 0x100), px, cols, max)
            == Edit(hist[|hist| - k], [], |hist| - k)
  {
    var ups: seq<int> := seq(k, _ => 0x100);
    assert ups[..k - 1] == seq(k - 1, _ => 0x100);
    if k == 1 {
      assert Keys(Edit([], [], |hist|), hist, ups[..0], px, cols, max) == Edit([], [], |hist|);
    } else {
      UpRecalls(hist, k - 1, px, cols, max);
    }
  }

  /** Home (0x105) and End (0x106) put the cursor before and after the whole line; Delete
      (0x104) takes the character after the cursor, and only that. */
  lemma HomeEndDelete(e: Edit, hist: seq<seq<int>>, room: bool)
    ensures Key(e, hist, 0x105, room) == Edit([], Line(e), e.at)
    ensures Key(e, hist, 0x106, room) == Edit(Line(e), [], e.at)
    ensures Key(e, hist, 0x104, room) == Edit(e.before, if e.after == [] then [] else e.after[1..], e.at)
    ensures e.after != [] ==> Line(Key(e, hist, 0x104, room)) == Line(e)[..|e.before|] + Line(e)[|e.before| + 1..]
  {
    if e.after != [] {
      assert Line(e)[|e.before| + 1..] == e.after[1..] && Line(e)[..|e.before|] == e.before;
    }
  }

  /** A character goes in before the cursor. */
  lemma TypeInserts(e: Edit, hist: seq<seq<int>>, c: int)
    requires 0x20 <= c <= 0x7E
    ensures Key(e, hist, c, true) == Edit(e.before + [c], e.after, e.at) && Key(e, hist, c, false) == e
  {
  }

  // ------------------------------------------------------------ the console

  /** A cell past the line: blanked, or as it was. */
  predicate Tail(t: Term, t0: Term, cols: nat, rows: nat, py: nat, x: nat)
    requires TermOk(t, cols, rows) && TermOk(t0, cols, rows) && py < rows && x < cols
  {
    t.cells[py][x].ch == SPACE || t.cells[py][x] == t0.cells[py][x]
  }

  /** Row py shows the prompt as it was up to px, then the line, then blanks as far as
      anything was ever painted, and what was there before. */
  ghost predicate RowShows(t: Term, t0: Term, cols: nat, rows: nat, px: nat, py: nat, line: seq<int>) {
    && TermOk(t, cols, rows) && TermOk(t0, cols, rows) && px < cols && py < rows && px + |line| <= cols
    && (forall y :: 0 <= y < rows && y != py ==> t.cells[y] == t0.cells[y])
    && (forall x :: 0 <= x < px ==> t.cells[py][x] == t0.cells[py][x])
    && (forall x :: px <= x < cols ==>
          if x < px + |line| then t.cells[py][x].ch == line[x - px] else Tail(t, t0, cols, rows, py, x))
  }

  /** What the user sees while a key is awaited: the line, and the cursor at its place in it. */
  ghost predicate Awaits(w: Term, t0: Term, cols: nat, rows: nat, px: nat, py: nat, e: Edit) {
    RowShows(w, t0, cols, rows, px, py, Line(e)) && w.cx == px + |e.before| && w.cy == py
  }

  /** Row py while it is being repainted: new text up to the cursor, something old after. */
  ghost predicate RowPainting(t: Term, t0: Term, cols: nat, rows: nat, px: nat, py: nat, done: seq<int>,
                              was: seq<int>) {
    && TermOk(t, cols, rows) && TermOk(t0, cols, rows) && py < rows
    && px + |done| < cols && px + |was| <= cols
    && t.cy == py && t.cx == px + |done|
    && (forall y :: 0 <= y < rows && y != py ==> t.cells[y] == t0.cells[y])
    && (forall x :: 0 <= x < px ==> t.cells[py][x] == t0.cells[py][x])
    && (forall x :: px <= x < cols ==>
          if x < px + |done| then t.cells[py][x].ch == done[x - px]
          else if x < px + |was| then t.cells[py][x].ch == was[x - px]
          else Tail(t, t0, cols, rows, py, x))
  }

  /** A printable character away from the last column goes in place and moves on one. */
  lemma PaintOne(t: Term, t0: Term, cols: nat, rows: nat, px: nat, py: nat, done: seq<int>, was: seq<int>,
                 c: int, fg: nat, bg: nat)
    requires RowPainting(t, t0, cols, rows, px, py, done, was) && Printable(c) && px + |done| + 1 < cols
    ensures RowPainting(Putc(t, cols, rows, c, fg, bg), t0, cols, rows, px, py, done + [c], was)
  {
  }

  lemma StartPainting(t: Term, t0: Term, cols: nat, rows: nat, px: nat, py: nat, was: seq<int>)
    requires RowShows(t, t0, cols, rows, px, py, was)
    ensures RowPainting(SetXY(t, cols, rows, px, py), t0, cols, rows, px, py, [], was)
  {
  }

  /** Painting the line and enough blanks to cover the old one finishes the row. */
  lemma DonePainting(t: Term, t0: Term, cols: nat, rows: nat, px: nat, py: nat, line: seq<int>, pad: nat, was: seq<int>)
    requires RowPainting(t, t0, cols, rows, px, py, line + seq(pad, _ => SPACE), was) && |was| <= |line| + pad
    ensures RowShows(t, t0, cols, rows, px, py, line)
  {
  }

  /** Any row shows the empty line at the cursor. */
  lemma FreshRow(t: Term, cols: nat, rows: nat)
    requires TermOk(t, cols, rows)
    ensures RowShows(t, t, cols, rows, t.cx, t.cy, [])
  {
  }

  lemma KeysNext(hist: seq<seq<int>>, keys: seq<int>, i: nat, px: nat, cols: nat, max: nat)
    requires i < |keys|
    ensures var e0 := Edit([], [], |hist|);
            && Keys(e0, hist, keys[..0], px, cols, max) == e0
            && var e := Keys(e0, hist, keys[..i], px, cols, max);
               Keys(e0, hist, keys[..i + 1], px, cols, max) == Key(e, hist, keys[i], Room(|Line(e)|, px, cols, max))
  {
    assert keys[..i + 1][..i] == keys[..i];
  }

  lemma MoveKeepsRow(t: Term, t0: Term, cols: nat, rows: nat, px: nat, py: nat, line: seq<int>, x: nat)
    requires RowShows(t, t0, cols, rows, px, py, line)
    ensures TermOk(t, cols, rows)
    ensures RowShows(SetXY(t, cols, rows, x, py), t0, cols, rows, px, py, line)
  {
  }

  lemma AwaitKey(t: Term, t0: Term, cols: nat, rows: nat, px: nat, py: nat, e: Edit)
    requires RowShows(t, t0, cols, rows, px, py, Line(e)) && px + |e.before| < cols
    ensures TermOk(t, cols, rows)
    ensures Awaits(SetXY(t, cols, rows, px + |e.before|, py), t0, cols, rows, px, py, e)
    ensures RowShows(SetXY(t, cols, rows, px + |e.before|, py), t0, cols, rows, px, py, Line(e))
  {
    MoveKeepsRow(t, t0, cols, rows, px, py, Line(e), px + |e.before|);
  }

  /** The screens seen while these keys were awaited, one for each. */
  ghost predicate AwaitsAll(awaits: seq<Term>, t0: Term, cols: nat, rows: nat, hist: seq<seq<int>>, keys: seq<int>,
                            max: nat)
  {
    |awaits| <= |keys| && forall i :: 0 <= i < |awaits| ==>
      Awaits(awaits[i], t0, cols, rows, t0.cx, t0.cy,
             Keys(Edit([], [], |hist|), hist, keys[..i], t0.cx, cols, max))
  }

  lemma AwaitsNone(t0: Term, cols: nat, rows: nat, hist: seq<seq<int>>, keys: seq<int>, max: nat)
    ensures AwaitsAll([], t0, cols, rows, hist, keys, max)
  {
  }

  lemma AwaitsMore(awaits: seq<Term>, w: Term, t0: Term, cols: nat, rows: nat, hist: seq<seq<int>>, keys: seq<int>,
                   max: nat)
    requires |awaits| < |keys| && AwaitsAll(awaits, t0, cols, rows, hist, keys, max)
    requires Awaits(w, t0, cols, rows, t0.cx, t0.cy,
                    Keys(Edit([], [], |hist|), hist, keys[..|awaits|], t0.cx, cols, max))
    ensures AwaitsAll(awaits + [w], t0, cols, rows, hist, keys, max)
  {
    hide Awaits, Keys;
  }

  lemma Inserted(e: Edit, was: seq<int>, c: int)
    requires was == Line(e) && Plain(was) && Printable(c)
    ensures var now := was[..|e.before|] + [c] + was[|e.before|..];
            now == Line(e.(before := e.before + [c])) && Plain(now)
  {
    assert was[..|e.before|] == e.before && was[|e.before|..] == e.after;
  }

  /** Taking out the byte at the end of the left half, or at the start of the right one. */
  lemma Removed(e: Edit, was: seq<int>, i: nat)
    requires was == Line(e) && Plain(was) && i < |was|
    ensures var now := was[..i] + was[i + 1..];
            && Plain(now)
            && (i == |e.before| - 1 ==> now == Line(e.(before := e.before[..i])))
            && (i == |e.before| && e.after != [] ==> now == Line(e.(after := e.after[1..])))
  {
    if i == |e.before| - 1 {
      assert was[..i] == e.before[..i] && was[i + 1..] == e.after;
    }
    if i == |e.before| && e.after != [] {
      assert was[..i] == e.before && was[i + 1..] == e.after[1..];
    }
  }

  // ------------------------------------------------------------- the editor

  class Editor {
    const cols: nat
    const rows: nat
    /** The console, through its terminal model. */
    var t: Term
    var fg: nat
    var bg: nat
    /** read_line's buffer and history. */
    const b: array<int>
    var hist: seq<seq<int>>
    var histAt: int

    /** History lines came from this editor at the same prompt width. */
    ghost predicate HistoryFits(px: nat)
      reads this
    {
      |hist| <= HIST_MAX
      && forall k {:trigger hist[k]} :: 0 <= k < |hist| ==> Fits(hist[k], px)
    }

    predicate Fits(line: seq<int>, px: nat) {
      Plain(line) && |line| < b.Length && (line == [] || px + |line| + 1 < cols)
    }

    /** What holds between keystrokes: the buffer is the two halves of the line, it fits
        the buffer and the row, and the row shows it. */
    ghost predicate Editing(e: Edit, t0: Term, px: nat, py: nat, len: nat, cur: nat)
      reads this, b
    {
      && HistoryFits(px)
      && cur == |e.before| && len == |Line(e)| < b.Length && b[..len] == Line(e) && Fits(Line(e), px)
      && histAt == e.at && 0 <= e.at <= |hist|
      && RowShows(t, t0, cols, rows, px, py, Line(e))
    }

    constructor (cols: nat, rows: nat, t: Term, max: nat)
      requires TermOk(t, cols, rows)
      ensures this.cols == cols && this.rows == rows && this.t == t && b.Length == max && hist == [] && fresh(b)
    {
      this.cols, this.rows, this.t, fg, bg, hist, histAt := cols, rows, t, 7, 0, [], 0;
      b := new int[max](_ => 0);
    }

    /** memmove inside the buffer: forwards or backwards, whichever does not overtake. */
    method Memmove(dst: nat, src: nat, n: nat)
      requires dst + n <= b.Length && src + n <= b.Length
      modifies b
      ensures forall k :: 0 <= k < b.Length ==>
                b[k] == if dst <= k < dst + n then old(b[src + (k - dst)]) else old(b[k])
    {
      if dst < src {
        for i := 0 to n
          invariant forall k :: 0 <= k < b.Length ==>
                      b[k] == if dst <= k < dst + i then old(b[src + (k - dst)]) else old(b[k])
        {
          b[dst + i] := b[src + i];
        }
      } else if src < dst {
        for i := n downto 0
          invariant forall k :: 0 <= k < b.Length ==>
                      b[k] == if dst + i <= k < dst + n then old(b[src + (k - dst)]) else old(b[k])
        {
          b[dst + i] := b[src + i];
        }
      }
    }

    /** con_putc of one character of the line. */
    method Emit(c: int, ghost t0: Term, ghost px: nat, ghost py: nat, ghost done: seq<int>, ghost was: seq<int>)
      requires RowPainting(t, t0, cols, rows, px, py, done, was) && Printable(c) && px + |done| + 1 < cols
      modifies this`t
      ensures RowPainting(t, t0, cols, rows, px, py, done + [c], was)
    {
      PaintOne(t, t0, cols, rows, px, py, done, was, c, fg, bg);
      t := Putc(t, cols, rows, c, fg, bg);
    }

    /** The colour of a token; which names are known commands or programs is left open. */
    method TokenColour(tok: seq<int>, first: bool, known: seq<int> -> bool) returns (col: nat)
      requires tok != []
    {
      if first { col := if known(tok) then 10 else 12; }
      else if tok[0] == 0x22 { col := 14; }
      else if tok[0] == 0x2D { col := 13; }
      else if forall i :: 0 <= i < |tok| ==> 0x30 <= tok[i] <= 0x39 { col := 11; }
      else { col := 15; }
    }

    /** render_line: token by token in its colours, then the padding. Whatever the row
        showed from px on, it now shows the line; nothing wraps and nothing scrolls. */
    method RenderLine(px: nat, py: nat, len: nat, pad: nat, known: seq<int> -> bool, ghost t0: Term,
                      ghost was: seq<int>)
      requires len <= b.Length && Plain(b[..len]) && RowShows(t, t0, cols, rows, px, py, was)
      requires |was| <= len + pad && px + len + pad < cols
      modifies this`t, this`fg
      ensures RowShows(t, t0, cols, rows, px, py, b[..len])
    {
      StartPainting(t, t0, cols, rows, px, py, was);
      t := SetXY(t, cols, rows, px, py);
      var i, firstDone := 0, false;
      while i < len
        invariant i <= len && RowPainting(t, t0, cols, rows, px, py, b[..i], was)
      {
        if b[i] == SPACE {
          fg := 7;
          Emit(SPACE, t0, px, py, b[..i], was);
          assert b[..i] + [SPACE] == b[..i + 1];
          i := i + 1;
          continue;
        }
        var j := TokenEnd(i, len);
        var col := TokenColour(b[i..j], !firstDone, known);
        firstDone, fg := true, col;
        while i < j
          invariant i <= j <= len && RowPainting(t, t0, cols, rows, px, py, b[..i], was)
        {
          Emit(b[i], t0, px, py, b[..i], was);
          assert b[..i] + [b[i]] == b[..i + 1];
          i := i + 1;
        }
      }
      fg := 7;
      ghost var line := b[..len];
      assert line + seq(0, _ => SPACE) == line;
      for k := 0 to pad
        invariant RowPainting(t, t0, cols, rows, px, py, line + seq(k, _ => SPACE), was)
      {
        Emit(SPACE, t0, px, py, line + seq(k, _ => SPACE), was);
        assert line + seq(k, _ => SPACE) + [SPACE] == line + seq(k + 1, _ => SPACE);
      }
      DonePainting(t, t0, cols, rows, px, py, line, pad, was);
    }

    /** Where the token starting at i ends: past the closing quote, or at the next space. */
    method TokenEnd(i: nat, len: nat) returns (j: nat)
      requires i < len <= b.Length && b[i] != SPACE
      ensures i < j <= len
    {
      j := i;
      if b[i] == 0x22 {
        j := j + 1;
        while j < len && b[j] != 0x22 invariant i < j <= len { j := j + 1; }
        if j < len { j := j + 1; }
      } else {
        while j < len && b[j] != SPACE invariant i <= j <= len && (j == i ==> b[j] != SPACE) { j := j + 1; }
      }
    }

    // ---------------------------------------------------------- keystrokes

    /** The buffer now holds the new line; repaint the row. */
    method Repaint(px: nat, py: nat, len: nat, pad: nat, known: seq<int> -> bool, ghost t0: Term,
                   ghost e: Edit, ghost e': Edit, ghost oldLen: nat)
      requires HistoryFits(px) && RowShows(t, t0, cols, rows, px, py, Line(e)) && oldLen == |Line(e)|
      requires len == |Line(e')| < b.Length && b[..len] == Line(e') && Fits(Line(e'), px)
      requires (oldLen == 0 || px + oldLen + 1 < cols) && oldLen <= len + pad && (pad == 0 || len + pad == oldLen)
      requires histAt == e'.at && 0 <= e'.at <= |hist|
      modifies this`t, this`fg
      ensures Editing(e', t0, px, py, len, |e'.before|)
    {
      RenderLine(px, py, len, pad, known, t0, Line(e));
    }

    /** memmove down by one over byte i. */
    method CloseGap(i: nat, len: nat)
      requires i < len <= b.Length
      modifies b
      ensures b[..len - 1] == old(b[..len])[..i] + old(b[..len])[i + 1..]
    {
      Memmove(i, i + 1, len - 1 - i);
      forall k | i <= k < len - 1 ensures b[k] == old(b[k + 1]) {
        assert old(b[i + 1 + (k - i)]) == old(b[k + 1]);
      }
    }

    method Backspace(px: nat, py: nat, len: nat, cur: nat, known: seq<int> -> bool, ghost t0: Term, ghost e: Edit)
      requires Editing(e, t0, px, py, len, cur) && cur > 0
      modifies this`t, this`fg, b
      ensures Editing(e.(before := e.before[..|e.before| - 1]), t0, px, py, len - 1, cur - 1)
    {
      hide RowShows, Plain;
      ghost var was := b[..len];
      CloseGap(cur - 1, len);
      Removed(e, was, cur - 1);
      Repaint(px, py, len - 1, 1, known, t0, e, e.(before := e.before[..|e.before| - 1]), len);
    }

    method Delete(px: nat, py: nat, len: nat, cur: nat, known: seq<int> -> bool, ghost t0: Term, ghost e: Edit)
      requires Editing(e, t0, px, py, len, cur) && cur < len
      modifies this`t, this`fg, b
      ensures Editing(e.(after := e.after[1..]), t0, px, py, len - 1, cur)
    {
      hide RowShows, Plain;
      ghost var was := b[..len];
      CloseGap(cur, len);
      Removed(e, was, cur);
      Repaint(px, py, len - 1, 1, known, t0, e, e.(after := e.after[1..]), len);
    }

    /** memmove up by one, then the character in the gap. */
    method OpenGap(c: int, len: nat, cur: nat)
      requires cur <= len && len + 1 <= b.Length
      modifies b
      ensures b[..len + 1] == old(b[..len])[..cur] + [c] + old(b[..len])[cur..]
    {
      ghost var was := b[..len];
      Memmove(cur + 1, cur, len - cur);
      b[cur] := c;
      ghost var want := was[..cur] + [c] + was[cur..];
      forall k | 0 <= k <= len ensures b[k] == want[k] {
        if k > cur {
          assert old(b[cur + (k - (cur + 1))]) == old(b[k - 1]) == was[k - 1];
        }
      }
      assert b[..len + 1] == want;
    }

    method Insert(c: int, px: nat, py: nat, len: nat, cur: nat, known: seq<int> -> bool, ghost t0: Term, ghost e: Edit)
      requires Editing(e, t0, px, py, len, cur) && Printable(c) && Room(len, px, cols, b.Length)
      modifies this`t, this`fg, b
      ensures Editing(e.(before := e.before + [c]), t0, px, py, len + 1, cur + 1)
    {
      hide RowShows, Plain;
      ghost var was := b[..len];
      OpenGap(c, len, cur);
      Inserted(e, was, c);
      Repaint(px, py, len + 1, 0, known, t0, e, e.(before := e.before + [c]), len);
    }

    /** memcpy of a history line. */
    method CopyLine(line: seq<int>)
      requires |line| <= b.Length
      modifies b
      ensures b[..|line|] == line
    {
      for i := 0 to |line|
        invariant b[..i] == line[..i]
      {
        b[i] := line[i];
      }
    }

    method Recall(want: nat, px: nat, py: nat, len: nat, known: seq<int> -> bool, ghost t0: Term, ghost e: Edit)
      returns (n: nat)
      requires Editing(e, t0, px, py, len, |e.before|) && want <= |hist|
      modifies this`t, this`fg, this`histAt, b
      ensures Editing(Edit(if want == |hist| then [] else hist[want], [], want), t0, px, py, n, n)
    {
      var line := if want == |hist| then [] else hist[want];
      ghost var e' := Edit(line, [], want);
      n := |line|;
      CopyLine(line);
      histAt := want;
      assert Line(e') == line;
      Repaint(px, py, n, if len > n then len - n else 0, known, t0, e, e', len);
    }

    /** One pass of read_line's loop, for any key but Enter: the buffer, the cursor and the
        row all follow the two-halves model. */
    method Keystroke(c: int, px: nat, py: nat, len: nat, cur: nat, known: seq<int> -> bool, ghost t0: Term,
                     ghost e: Edit)
      returns (len': nat, cur': nat)
      requires Editing(e, t0, px, py, len, cur) && c != NEWLINE
      modifies this`t, this`fg, this`histAt, b
      ensures Editing(Key(e, hist, c, Room(len, px, cols, b.Length)), t0, px, py, len', cur')
    {
      hide RowShows, Plain, Keys;
      len', cur' := len, cur;
      if c == BACKSPACE {
        if cur > 0 {
          Backspace(px, py, len, cur, known, t0, e);
          len', cur' := len - 1, cur - 1;
        }
      } else if c == KEY_DEL {
        if cur < len {
          Delete(px, py, len, cur, known, t0, e);
          len' := len - 1;
        }
      } else if c == KEY_LEFT {
        if cur > 0 { cur' := cur - 1; Halves(e, t0, px, py, len, cur, cur - 1); }
      } else if c == KEY_RIGHT {
        if cur < len { cur' := cur + 1; Halves(e, t0, px, py, len, cur, cur + 1); }
      } else if c == KEY_HOME {
        cur' := 0;
        Halves(e, t0, px, py, len, cur, 0);
      } else if c == KEY_END {
        cur' := len;
        Halves(e, t0, px, py, len, cur, len);
      } else if c == KEY_UP || c == KEY_DOWN {
        var want := if c == KEY_UP then histAt - 1 else histAt + 1;
        if 0 <= want <= |hist| {
          len' := Recall(want, px, py, len, known, t0, e);
          cur' := len';
        }
      } else if 0x20 <= c <= 0x7E {
        if !(px + len + 2 >= cols || len + 1 >= b.Length) {
          Insert(c, px, py, len, cur, known, t0, e);
          len', cur' := len + 1, cur + 1;
        }
      }
    }

    /** Moving the cursor only moves the split. */
    lemma Halves(e: Edit, t0: Term, px: nat, py: nat, len: nat, cur: nat, cur': nat)
      requires Editing(e, t0, px, py, len, cur) && cur' <= len
      ensures Editing(e.(before := Line(e)[..cur'], after := Line(e)[cur'..]), t0, px, py, len, cur')
      ensures cur' == cur - 1 ==> Line(e)[..cur'] == e.before[..cur'] && Line(e)[cur'..] == [e.before[cur']] + e.after
      ensures cur' == cur + 1 ==> Line(e)[..cur'] == e.before + [e.after[0]] && Line(e)[cur'..] == e.after[1..]
      ensures cur' == 0 ==> Line(e)[..cur'] == [] && Line(e)[cur'..] == Line(e)
      ensures cur' == len ==> Line(e)[..cur'] == Line(e) && Line(e)[cur'..] == []
    {
      assert Line(e)[..cur'] + Line(e)[cur'..] == Line(e);
    }

    /** read_line, for the keys up to and including Enter: the buffer ends up holding the
        edited line, the row shows it, and only Enter moves to the next row. Before each key
        the row shows the line so far with the cursor at its place. */
    method ReadLine(keys: seq<int>, known: seq<int> -> bool) returns (len: nat, ghost awaits: seq<Term>)
      requires TermOk(t, cols, rows) && 0 < b.Length && HistoryFits(t.cx)
      requires Entered(keys)
      modifies this`t, this`fg, this`histAt, b
      ensures len < b.Length && b[len] == 0 && Fits(b[..len], old(t.cx))
      ensures b[..len] == Line(Keys(Edit([], [], |hist|), hist, keys[..|keys| - 1], old(t.cx), cols, b.Length))
      ensures exists row: Term ::
                && RowShows(row, old(t), cols, rows, old(t.cx), old(t.cy), b[..len])
                && t == Putc(SetXY(row, cols, rows, old(t.cx) + len, old(t.cy)), cols, rows, NEWLINE, fg, bg)
      ensures |awaits| == |keys| && AwaitsAll(awaits, old(t), cols, rows, hist, keys, b.Length)
    {
      hide RowShows, Keys, Awaits, AwaitsAll;
      var px, py := t.cx, t.cy;
      ghost var t0 := t;
      FreshRow(t, cols, rows);
      KeysNext(hist, keys, 0, px, cols, b.Length);
      histAt := |hist|;
      var cur: nat := 0;
      len := 0;
      var i := 0;
      ghost var e := Edit([], [], |hist|);
      awaits := [];
      AwaitsNone(t0, cols, rows, hist, keys, b.Length);
      while i < |keys| - 1
        invariant i <= |keys| - 1 && |awaits| == i && AwaitsAll(awaits, t0, cols, rows, hist, keys, b.Length)
        invariant e == Keys(Edit([], [], |hist|), hist, keys[..i], px, cols, b.Length)
        invariant Editing(e, t0, px, py, len, cur)
      {
        AwaitKey(t, t0, cols, rows, px, py, e);
        t := SetXY(t, cols, rows, px + cur, py);
        AwaitsMore(awaits, t, t0, cols, rows, hist, keys, b.Length);
        awaits := awaits + [t];
        KeysNext(hist, keys, i, px, cols, b.Length);
        assert keys[i] in keys[..|keys| - 1];
        len, cur := Keystroke(keys[i], px, py, len, cur, known, t0, e);
        e := Keys(Edit([], [], |hist|), hist, keys[..i + 1], px, cols, b.Length);
        i := i + 1;
      }
      AwaitKey(t, t0, cols, rows, px, py, e);
      t := SetXY(t, cols, rows, px + cur, py);
      AwaitsMore(awaits, t, t0, cols, rows, hist, keys, b.Length);
      awaits := awaits + [t];
      b[len] := 0;
      assert b[..len] == Line(e);
      ghost var row := t;
      MoveKeepsRow(t, t0, cols, rows, px, py, Line(e), px + len);
      t := SetXY(t, cols, rows, px + len, py);
      t := Putc(t, cols, rows, NEWLINE, fg, bg);
      assert RowShows(row, t0, cols, rows, px, py, b[..len]);
    }

    /** shell_main's history: the line goes last, and the oldest makes room when it must. */
    method Remember(line: seq<int>, px: nat)
      requires HistoryFits(px) && Fits(line, px)
      modifies this`hist
      ensures HistoryFits(px)
      ensures hist == (if |old(hist)| == HIST_MAX then old(hist)[1..] else old(hist)) + [line]
    {
      if |hist| == HIST_MAX {
        hist := hist[1..];
      }
      hist := hist + [line];
    }

    /** put_prompt, and whatever ran before it: some screen with the cursor at column px. */
    method Prompt(px: nat)
      requires 0 < rows && px < cols
      modifies this`t
      ensures TermOk(t, cols, rows) && t.cx == px
    {
      var any: Term := *;
      t := (if TermOk(any, cols, rows) then any else Clear(cols, rows, fg, bg)).(cx := px);
    }

    /** shell_main's loop: read a line, skip it if empty, else remember it. What a line is
        depends on the lines remembered before, which the arrows recall; they go on fitting the
        prompt, so every line can be read as the one before. */
    method Shell(px: nat, inputs: seq<seq<int>>, known: seq<int> -> bool)
      requires 0 < rows && px < cols && 0 < b.Length && HistoryFits(px) && AllEntered(inputs)
      modifies this`t, this`fg, this`histAt, this`hist, b
      ensures HistoryFits(px) && hist == HistoryAfter(old(hist), inputs, px, cols, b.Length)
    {
      hide HistoryAfter, Keys, Line, RowShows, Putc, SetXY;
      ghost var h0 := hist;
      HistoryNone(h0, inputs, px, cols, b.Length);
      for i := 0 to |inputs|
        invariant HistoryFits(px) && hist == HistoryAfter(h0, inputs[..i], px, cols, b.Length)
      {
        HistoryNext(h0, inputs, i, px, cols, b.Length);
        Prompt(px);
        ghost var awaits;
        var len: nat;
        len, awaits := ReadLine(inputs[i], known);
        if len > 0 {
          Remember(b[..len], px);
        }
      }
      assert inputs[..|inputs|] == inputs;
    }
  }

  /** Keys up to and including the first Enter. */
  predicate Entered(keys: seq<int>) {
    keys != [] && keys[|keys| - 1] == NEWLINE && NEWLINE !in keys[..|keys| - 1]
  }

  predicate AllEntered(inputs: seq<seq<int>>) { forall i :: 0 <= i < |inputs| ==> Entered(inputs[i]) }

  /** The line some keys make, with this history to recall. */
  function LineOf(hist: seq<seq<int>>, keys: seq<int>, px: nat, cols: nat, max: nat): seq<int>
    requires Entered(keys)
  {
    Line(Keys(Edit([], [], |hist|), hist, keys[..|keys| - 1], px, cols, max))
  }

  /** The history after each of these inputs has been entered. */
  function HistoryAfter(hist: seq<seq<int>>, inputs: seq<seq<int>>, px: nat, cols: nat, max: nat): seq<seq<int>>
    requires AllEntered(inputs)
  {
    if inputs == [] then hist
    else
      assert Entered(inputs[|inputs| - 1]);
      var h := HistoryAfter(hist, inputs[..|inputs| - 1], px, cols, max);
      var line := LineOf(h, inputs[|inputs| - 1], px, cols, max);
      if line == [] then h else (if |h| == HIST_MAX then h[1..] else h) + [line]
  }

  lemma HistoryNone(hist: seq<seq<int>>, inputs: seq<seq<int>>, px: nat, cols: nat, max: nat)
    ensures AllEntered(inputs[..0]) && HistoryAfter(hist, inputs[..0], px, cols, max) == hist
  {
  }

  lemma HistoryNext(hist: seq<seq<int>>, inputs: seq<seq<int>>, i: nat, px: nat, cols: nat, max: nat)
    requires AllEntered(inputs) && i < |inputs|
    ensures AllEntered(inputs[..i]) && AllEntered(inputs[..i + 1]) && Entered(inputs[i])
    ensures var h := HistoryAfter(hist, inputs[..i], px, cols, max);
            var line := LineOf(h, inputs[i], px, cols, max);
            HistoryAfter(hist, inputs[..i + 1], px, cols, max) ==
            if line == [] then h else (if |h| == HIST_MAX then h[1..] else h) + [line]
  {
    assert inputs[..i + 1][..i] == inputs[..i];
    assert Entered(inputs[i]);
  }
}
