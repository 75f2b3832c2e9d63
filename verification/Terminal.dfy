/** The console's meaning, without pixels: a grid of cells and a cursor. `Console` is
    proved to keep exactly this, and the line editor is proved against it. */
module Terminal {
  const C_BLACK: nat := 0
  const NEWLINE: int := 10
  const RETURN: int := 13
  const BACKSPACE: int := 8
  const SPACE: int := 32

  /** One character cell; ch is a character code. */
  datatype Cell = Cell(ch: int, fg: nat, bg: nat)

  datatype Term = Term(cells: seq<seq<Cell>>, cx: nat, cy: nat)

  predicate TermOk(t: Term, cols: nat, rows: nat) {
    && |t.cells| == rows && (forall y :: 0 <= y < rows ==> |t.cells[y]| == cols)
    && t.cx < cols && t.cy < rows
  }

  function Blanks(cols: nat, fg: nat, bg: nat): (r: seq<Cell>)
    ensures |r| == cols
  {
    seq(cols, _ => Cell(SPACE, fg, bg))
  }

  function SetCell(t: Term, x: nat, y: nat, c: Cell): Term
    requires y < |t.cells| && x < |t.cells[y]|
  {
    t.(cells := t.cells[y := t.cells[y][x := c]])
  }

  /** Where a character takes the cursor; the row may be one past the last. */
  function Advance(cx: nat, cy: nat, cols: nat, c: int): (nat, nat) {
    if c == NEWLINE then (0, cy + 1)
    else if c == RETURN then (0, cy)
    else if c == BACKSPACE then (if cx > 0 then cx - 1 else 0, cy)
    else if cx + 1 >= cols then (0, cy + 1) else (cx + 1, cy)
  }

  /** The cells after a character, before any scrolling. */
  function Written(t: Term, cols: nat, rows: nat, c: int, fg: nat, bg: nat): Term
    requires TermOk(t, cols, rows)
  {
    if c == NEWLINE || c == RETURN then t
    else if c == BACKSPACE then (if t.cx > 0 then SetCell(t, t.cx - 1, t.cy, Cell(SPACE, fg, bg)) else t)
    else SetCell(t, t.cx, t.cy, Cell(c, fg, bg))
  }

  predicate Scrolls(t: Term, cols: nat, rows: nat, c: int) { Advance(t.cx, t.cy, cols, c).1 >= rows }

  /** con_putc on the grid. */
  function Putc(t: Term, cols: nat, rows: nat, c: int, fg: nat, bg: nat): (t': Term)
    requires TermOk(t, cols, rows)
    ensures TermOk(t', cols, rows)
  {
    var w := Written(t, cols, rows, c, fg, bg);
    var (x, y) := Advance(t.cx, t.cy, cols, c);
    if y >= rows then Term(w.cells[1..] + [Blanks(cols, fg, bg)], x, rows - 1) else Term(w.cells, x, y)
  }

  /** con_setxy on the grid: out-of-range coordinates stop at the edge. */
  function SetXY(t: Term, cols: nat, rows: nat, x: nat, y: nat): (t': Term)
    requires TermOk(t, cols, rows)
    ensures TermOk(t', cols, rows)
  {
    t.(cx := if x < cols then x else cols - 1, cy := if y < rows then y else rows - 1)
  }

  /** con_clear on the grid. */
  function Clear(cols: nat, rows: nat, fg: nat, bg: nat): Term {
    Term(seq(rows, _ => Blanks(cols, fg, bg)), 0, 0)
  }

  // ------------------------------------------------- what the grid model means

  /** A newline goes to the start of the next row; below the last row everything moves up. */
  lemma NewlineGoesDown(t: Term, cols: nat, rows: nat, fg: nat, bg: nat)
    requires TermOk(t, cols, rows)
    ensures var t' := Putc(t, cols, rows, NEWLINE, fg, bg);
            && t'.cx == 0
            && (t.cy + 1 < rows ==> t'.cy == t.cy + 1 && t'.cells == t.cells)
            && (t.cy + 1 == rows ==> t'.cy == t.cy && t'.cells == t.cells[1..] + [Blanks(cols, fg, bg)])
  {
  }

  lemma ReturnGoesBack(t: Term, cols: nat, rows: nat, fg: nat, bg: nat)
    requires TermOk(t, cols, rows)
    ensures Putc(t, cols, rows, RETURN, fg, bg) == t.(cx := 0)
  {
  }

  /** A character goes where the cursor is, and the cursor one to the right; from the last
      column, to the start of the next row. */
  lemma CharacterGoesRight(t: Term, cols: nat, rows: nat, c: int, fg: nat, bg: nat)
    requires TermOk(t, cols, rows) && c != NEWLINE && c != RETURN && c != BACKSPACE
    ensures t.cx + 1 < cols ==>
              Putc(t, cols, rows, c, fg, bg)
              == Term(t.cells[t.cy := t.cells[t.cy][t.cx := Cell(c, fg, bg)]], t.cx + 1, t.cy)
    ensures t.cx + 1 == cols && t.cy + 1 < rows ==>
              Putc(t, cols, rows, c, fg, bg)
              == Term(t.cells[t.cy := t.cells[t.cy][t.cx := Cell(c, fg, bg)]], 0, t.cy + 1)
    ensures t.cx + 1 == cols && t.cy + 1 == rows ==>
              Putc(t, cols, rows, c, fg, bg)
              == Term(t.cells[t.cy := t.cells[t.cy][t.cx := Cell(c, fg, bg)]][1..] + [Blanks(cols, fg, bg)], 0, t.cy)
  {
  }

  /** Backspace takes a character back: the cursor is where it was, on a blank. */
  lemma BackspaceTakesBack(t: Term, cols: nat, rows: nat, c: int, fg: nat, bg: nat)
    requires TermOk(t, cols, rows) && c != NEWLINE && c != RETURN && c != BACKSPACE && t.cx + 1 < cols
    ensures Putc(Putc(t, cols, rows, c, fg, bg), cols, rows, BACKSPACE, fg, bg)
            == t.(cells := t.cells[t.cy := t.cells[t.cy][t.cx := Cell(SPACE, fg, bg)]])
  {
    var row := t.cells[t.cy];
    assert row[t.cx := Cell(c, fg, bg)][t.cx := Cell(SPACE, fg, bg)] == row[t.cx := Cell(SPACE, fg, bg)];
    assert t.cells[t.cy := row[t.cx := Cell(c, fg, bg)]][t.cy := row[t.cx := Cell(SPACE, fg, bg)]]
        == t.cells[t.cy := row[t.cx := Cell(SPACE, fg, bg)]];
  }

  /** At the left edge it does nothing. */
  lemma BackspaceAtTheEdge(t: Term, cols: nat, rows: nat, fg: nat, bg: nat)
    requires TermOk(t, cols, rows) && t.cx == 0
    ensures Putc(t, cols, rows, BACKSPACE, fg, bg) == t
  {
  }

  /** con_puts. */
  function Puts(t: Term, cols: nat, rows: nat, s: seq<int>, fg: nat, bg: nat): (t': Term)
    requires TermOk(t, cols, rows)
    ensures TermOk(t', cols, rows)
    decreases |s|
  {
    if s == [] then t else Puts(Putc(t, cols, rows, s[0], fg, bg), cols, rows, s[1..], fg, bg)
  }

  /** Text of these lines, each ended by a newline. */
  function Joined(lines: seq<seq<int>>): seq<int> {
    if lines == [] then [] else lines[0] + [NEWLINE] + Joined(lines[1..])
  }

  predicate OneLine(s: seq<int>, room: int) {
    |s| < room && forall i :: 0 <= i < |s| ==> s[i] != NEWLINE && s[i] != RETURN && s[i] != BACKSPACE
  }

  /** Row y of t shows s from column x on and is otherwise as in t0. */
  ghost predicate RowHolds(t: Term, t0: Term, cols: nat, rows: nat, y: nat, x: nat, s: seq<int>, fg: nat, bg: nat)
    requires TermOk(t, cols, rows) && TermOk(t0, cols, rows) && y < rows
  {
    forall k :: 0 <= k < cols ==>
      t.cells[y][k] == if x <= k < x + |s| then Cell(s[k - x], fg, bg) else t0.cells[y][k]
  }

  ghost predicate OtherRows(t: Term, t0: Term, rows: nat, from: nat, upto: nat)
    requires |t.cells| == rows && |t0.cells| == rows
  {
    forall y :: 0 <= y < rows && !(from <= y < upto) ==> t.cells[y] == t0.cells[y]
  }

  lemma {:induction false} LineStands(t: Term, cols: nat, rows: nat, s: seq<int>, fg: nat, bg: nat)
    requires TermOk(t, cols, rows) && OneLine(s, cols - t.cx)
    ensures var t' := Puts(t, cols, rows, s, fg, bg);
            && t'.cx == t.cx + |s| && t'.cy == t.cy
            && RowHolds(t', t, cols, rows, t.cy, t.cx, s, fg, bg) && OtherRows(t', t, rows, t.cy, t.cy + 1)
    decreases |s|
  {
    if s != [] {
      CharacterGoesRight(t, cols, rows, s[0], fg, bg);
      LineStands(Putc(t, cols, rows, s[0], fg, bg), cols, rows, s[1..], fg, bg);
    }
  }

  lemma {:induction false} PutsJoins(t: Term, cols: nat, rows: nat, a: seq<int>, b: seq<int>, fg: nat, bg: nat)
    requires TermOk(t, cols, rows)
    ensures Puts(t, cols, rows, a + b, fg, bg) == Puts(Puts(t, cols, rows, a, fg, bg), cols, rows, b, fg, bg)
    decreases |a|
  {
    if a == [] {
      assert a + b == b;
    } else {
      assert (a + b)[1..] == a[1..] + b;
      PutsJoins(Putc(t, cols, rows, a[0], fg, bg), cols, rows, a[1..], b, fg, bg);
    }
  }

  /** Lines that fit, printed from the left edge with room below, stand one under the other
      from the left edge on. */
  lemma {:induction false} TextStands(t: Term, cols: nat, rows: nat, lines: seq<seq<int>>, fg: nat, bg: nat)
    requires TermOk(t, cols, rows) && t.cx == 0 && t.cy + |lines| < rows
    requires forall i :: 0 <= i < |lines| ==> OneLine(lines[i], cols)
    ensures var t' := Puts(t, cols, rows, Joined(lines), fg, bg);
            && t'.cx == 0 && t'.cy == t.cy + |lines|
            && (forall i :: 0 <= i < |lines| ==> RowHolds(t', t, cols, rows, t.cy + i, 0, lines[i], fg, bg))
            && OtherRows(t', t, rows, t.cy, t.cy + |lines|)
    decreases |lines|
  {
    hide OneLine, Putc;
    if lines != [] {
      var first, rest := lines[0] + [NEWLINE], Joined(lines[1..]);
      LineStands(t, cols, rows, lines[0], fg, bg);
      var t1 := Puts(t, cols, rows, lines[0], fg, bg);
      PutsJoins(t, cols, rows, lines[0], [NEWLINE], fg, bg);
      NewlineGoesDown(t1, cols, rows, fg, bg);
      var t2 := Putc(t1, cols, rows, NEWLINE, fg, bg);
      assert Puts(t1, cols, rows, [NEWLINE], fg, bg) == t2;
      PutsJoins(t, cols, rows, first, rest, fg, bg);
      TextStands(t2, cols, rows, lines[1..], fg, bg);
      var t' := Puts(t2, cols, rows, rest, fg, bg);
      forall i | 0 <= i < |lines| ensures RowHolds(t', t, cols, rows, t.cy + i, 0, lines[i], fg, bg) {
        if i > 0 {
          assert lines[i] == lines[1..][i - 1];
          assert RowHolds(t', t2, cols, rows, t2.cy + (i - 1), 0, lines[1..][i - 1], fg, bg);
        }
      }
    }
  }
}
