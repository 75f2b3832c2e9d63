/** The framebuffer console (src/kernel/console.c): a grid of cells, a shadow of the
    screen in RAM, and the screen itself, all updated in place a little at a time. */
module Console {
  import opened Terminal

  const FONT_W: nat := 8
  const FONT_H: nat := 16
  const FONT_FIRST: int := 32
  const FONT_LAST: int := 126
  const WIN_PAD: nat := 8

  /** The glyph a character is drawn with: its own, or the first one. */
  function Glyph(ch: int): nat { if FONT_FIRST <= ch <= FONT_LAST then ch - FONT_FIRST else 0 }

  /** Where the text goes. */
  /** The font starts at the space; what it does not have is drawn as one. */
  lemma GlyphIs(ch: int)
    ensures Glyph(0x20) == 0 && Glyph(0x41) == 33 && Glyph(0x7E) == 94
    ensures 0x20 <= ch <= 0x7E ==> Glyph(ch) == Glyph(0x20) + (ch - 0x20)
    ensures !(0x20 <= ch <= 0x7E) ==> Glyph(ch) == Glyph(0x20)
  {
  }

  datatype Geometry = Geometry(windowed: bool, fbw: nat, fbh: nat, pitch: nat,
                               pnX: nat, pnY: nat, pnW: nat, pnH: nat)
  {
    predicate WantsPanel() {
      && pnW != 0 && pnH != 0 && pnW <= fbw && pnH <= fbh
      && pnX <= fbw - pnW && pnY <= fbh - pnH
      && pnW > 2 * WIN_PAD + FONT_W && pnH > 2 * WIN_PAD + FONT_H
    }

    function WinX(): nat { if windowed then pnX + WIN_PAD else 0 }
    function WinY(): nat { if windowed then pnY + WIN_PAD else 0 }
    function Cols(): int { (if windowed then pnW - 2 * WIN_PAD else fbw) / FONT_W }
    function Rows(): int { (if windowed then pnH - 2 * WIN_PAD else fbh) / FONT_H }

    /** What con_init leaves true when it returns 1. */
    predicate Usable() { (windowed ==> WantsPanel()) && Cols() > 0 && Rows() > 0 }

    /** con_init's choice: the panel if there is a splash, the rectangle fits, and its
        background could be allocated. Then there is always room for text. */
    static function Init(splash: bool, roomForPanel: bool, fbw: nat, fbh: nat, pitch: nat,
                         pnX: nat, pnY: nat, pnW: nat, pnH: nat): (g: Geometry)
      ensures g.windowed ==> g.Cols() > 0 && g.Rows() > 0
      ensures g.Usable() <==> g.Cols() > 0 && g.Rows() > 0
    {
      var g := Geometry(false, fbw, fbh, pitch, pnX, pnY, pnW, pnH);
      g.(windowed := splash && g.WantsPanel() && roomForPanel)
    }

    /** The panel is taken exactly when there is a splash and memory, it lies on the screen, and
        it is more than a character of 8 by 16 inside a padding of 8 all round. */
    lemma PanelTaken(splash: bool, roomForPanel: bool)
      ensures var g := Init(splash, roomForPanel, fbw, fbh, pitch, pnX, pnY, pnW, pnH);
              && g == Geometry(g.windowed, fbw, fbh, pitch, pnX, pnY, pnW, pnH)
              && (g.windowed <==> splash && roomForPanel && pnX + pnW <= fbw && pnY + pnH <= fbh
                                  && pnW > 24 && pnH > 32)
              && (!g.windowed ==> g.Cols() == fbw / 8 && g.Rows() == fbh / 16 && g.WinX() == g.WinY() == 0)
              && (g.windowed ==> g.Cols() == (pnW - 16) / 8 && g.Rows() == (pnH - 16) / 16
                                 && g.WinX() == pnX + 8 && g.WinY() == pnY + 8)
    {
    }

    /** The text grid lies on the screen, and in panel mode inside the panel. */
    lemma GridFits()
      requires Usable()
      ensures WinX() + Cols() * FONT_W <= fbw && WinY() + Rows() * FONT_H <= fbh
      ensures windowed ==> pnX <= WinX() && WinX() + Cols() * FONT_W <= pnX + pnW
                           && pnY <= WinY() && WinY() + Rows() * FONT_H <= pnY + pnH
    {
    }
  }

  /** The colour of one pixel of a cell: glyph bit, flipped under the cursor, over a
      solid background or over the panel's texture. */
  function Ink(font: (nat, nat, nat) -> bool, pix: nat -> nat, solid: bool, tex: nat,
               c: Cell, inverted: bool, gy: nat, gx: nat): nat {
    if font(Glyph(c.ch), gy, gx) != inverted then pix(c.fg)
    else if solid then pix(c.bg) else tex
  }

  // ------------------------------------------------------------ stale cells

  /** The cells a set of cells lands on when everything moves up a row. */
  function Lifted(s: set<(int, int)>): set<(int, int)> { set p | p in s :: (p.0, p.1 - 1) }

  /** Those on the grid. */
  function Within(s: set<(int, int)>, cols: nat, rows: nat): set<(int, int)> {
    set p | p in s && 0 <= p.0 < cols && 0 <= p.1 < rows
  }

  function AllCells(cols: nat, rows: nat): set<(int, int)> {
    set x: int, y: int | 0 <= x < cols && 0 <= y < rows :: (x, y)
  }

  /** The cells that may be shown wrong after con_putc, given those before. */
  function StaleAfterPutc(stale: set<(int, int)>, windowed: bool, t: Term, cols: nat, rows: nat, c: int)
      : set<(int, int)>
    requires 0 < rows
  {
    var (x, y) := Advance(t.cx, t.cy, cols, c);
    if y < rows then stale - {(t.cx, t.cy)} - {(x, y)}
    else if windowed then {}
    else Within(Lifted(stale + {(t.cx, rows - 1)}), cols, rows) - {(x, rows - 1)}
  }

  /** A scroll leaves the cell under the cursor one row up, as con_putc wrote it. */
  lemma Carried(t: Term, cols: nat, rows: nat, c: int, fg: nat, bg: nat)
    requires TermOk(t, cols, rows) && Scrolls(t, cols, rows, c) && rows > 1
    ensures var t' := Terminal.Putc(t, cols, rows, c, fg, bg);
            && t.cy == rows - 1 == t'.cy
            && t'.cells[rows - 2][t.cx] == if c == NEWLINE then t.cells[t.cy][t.cx] else Cell(c, fg, bg)
  {
  }

  class Screen {
    const g: Geometry
    const font: (nat, nat, nat) -> bool
    const pix: nat -> nat
    const cols: nat
    const rows: nat
    const cells: array2<Cell>
    const shadow: array2<nat>
    const fb: array2<nat>
    const panelbg: array2<nat>
    var cx: nat
    var cy: nat
    var curFg: nat
    var curBg: nat
    var cursorOn: bool

    /** con_init after the geometry checks: the buffers, with the baked panel. The firmware
        gives rows of the screen at least their width. */
    constructor (g: Geometry, font: (nat, nat, nat) -> bool, pix: nat -> nat, panel: (nat, nat) -> nat)
      requires g.Usable() && g.fbw <= g.pitch
      ensures Valid() && this.g == g && this.font == font && this.pix == pix
      ensures cursorOn && curFg == 7 && curBg == C_BLACK
      ensures panelbg.Length0 == g.pnH && panelbg.Length1 == g.pnW
      ensures forall y: nat, x: nat :: y < g.pnH && x < g.pnW ==> panelbg[y, x] == panel(y, x)
      ensures fresh(cells) && fresh(shadow) && fresh(fb) && fresh(panelbg)
    {
      this.g, this.font, this.pix := g, font, pix;
      cols, rows := g.Cols(), g.Rows();
      cells := new Cell[g.Rows(), g.Cols()]((y, x) => Cell(0, 0, 0));
      shadow := new nat[g.fbh, g.fbw]((y, x) => 0);
      fb := new nat[g.fbh, g.pitch]((y, x) => 0);
      panelbg := new nat[g.pnH, g.pnW]((y, x) => 0);
      cx, cy, curFg, curBg, cursorOn := 0, 0, 7, C_BLACK, true;
      new;
      forall y, x | 0 <= y < g.pnH && 0 <= x < g.pnW {
        panelbg[y, x] := panel(y, x);
      }
    }

    /** Everything fits, the cursor is on the grid, and the buffers are apart. */
    ghost predicate Valid()
      reads this
    {
      && g.Usable() && g.fbw <= g.pitch && cols == g.Cols() && rows == g.Rows()
      && cells.Length0 == rows && cells.Length1 == cols
      && shadow.Length0 == g.fbh && shadow.Length1 == g.fbw
      && fb.Length0 == g.fbh && fb.Length1 == g.pitch
      && (g.windowed ==> panelbg.Length0 == g.pnH && panelbg.Length1 == g.pnW)
      && shadow != fb && shadow != panelbg && fb != panelbg
      && cx < cols && cy < rows
    }

    predicate OnGrid(r: int, c: int) {
      g.WinY() <= r < g.WinY() + rows * FONT_H && g.WinX() <= c < g.WinX() + cols * FONT_W
    }

    /** The cell a grid pixel belongs to. */
    function RowOf(r: int): int { (r - g.WinY()) / FONT_H }
    function ColOf(c: int): int { (c - g.WinX()) / FONT_W }

    lemma CellOnGrid(r: int, c: int)
      requires OnGrid(r, c)
      ensures 0 <= RowOf(r) < rows && 0 <= ColOf(c) < cols
    {
    }

    /** What pixel (r, c) should show, given the cells and with the cursor drawn at `at`. */
    ghost function ExpectedAt(r: int, c: int, at: (int, int)): nat
      requires Valid() && OnGrid(r, c)
      reads this, cells, panelbg
    {
      CellOnGrid(r, c);
      g.GridFits();
      var y, x := RowOf(r), ColOf(c);
      Ink(font, pix, !g.windowed || cells[y, x].bg != C_BLACK, if g.windowed then panelbg[r - g.pnY, c - g.pnX] else 0,
          cells[y, x], cursorOn && (x, y) == at, (r - g.WinY()) % FONT_H, (c - g.WinX()) % FONT_W)
    }

    ghost function Expected(r: int, c: int): nat
      requires Valid() && OnGrid(r, c)
      reads this, cells, panelbg
    {
      ExpectedAt(r, c, (cx, cy))
    }

    /** Shadow and screen both show it. */
    ghost predicate ShownAt(r: int, c: int, at: (int, int))
      requires Valid() && OnGrid(r, c)
      reads this, cells, panelbg, shadow, fb
    {
      g.GridFits();
      shadow[r, c] == ExpectedAt(r, c, at) && fb[r, c] == shadow[r, c]
    }

    /** All cells but the stale ones are shown, with the cursor drawn at `at`. */
    ghost predicate FreshAt(stale: set<(int, int)>, at: (int, int))
      requires Valid()
      reads this, cells, panelbg, shadow, fb
    {
      forall r, c {:trigger ShownAt(r, c, at)} :: OnGrid(r, c) && (ColOf(c), RowOf(r)) !in stale ==> ShownAt(r, c, at)
    }

    ghost predicate Fresh(stale: set<(int, int)>)
      requires Valid()
      reads this, cells, panelbg, shadow, fb
    {
      FreshAt(stale, (cx, cy))
    }

    /** blit: copy a shadow rectangle to the screen. */
    method Blit(x: nat, y: nat, w: nat, h: nat)
      requires Valid() && x + w <= g.fbw && y + h <= g.fbh
      modifies fb
      ensures forall r, c :: 0 <= r < g.fbh && 0 <= c < g.pitch ==>
                fb[r, c] == if y <= r < y + h && x <= c < x + w then shadow[r, c] else old(fb[r, c])
    {
      for i := 0 to h
        invariant forall r, c :: 0 <= r < g.fbh && 0 <= c < g.pitch ==>
                    fb[r, c] == if y <= r < y + i && x <= c < x + w then shadow[r, c] else old(fb[r, c])
      {
        for j := 0 to w
          invariant forall r, c :: 0 <= r < g.fbh && 0 <= c < g.pitch ==>
                      fb[r, c] == if (y <= r < y + i && x <= c < x + w) || (r == y + i && x <= c < x + j)
                                  then shadow[r, c] else old(fb[r, c])
        {
          fb[y + i, x + j] := shadow[y + i, x + j];
        }
      }
    }

    lemma Inside(x: nat, y: nat, gy: nat, gx: nat)
      requires Valid() && x < cols && y < rows && gy < FONT_H && gx < FONT_W
      ensures var r, c := g.WinY() + y * FONT_H + gy, g.WinX() + x * FONT_W + gx;
              OnGrid(r, c) && RowOf(r) == y && ColOf(c) == x && r < g.fbh && c < g.fbw
              && (r - g.WinY()) % FONT_H == gy && (c - g.WinX()) % FONT_W == gx
    {
      g.GridFits();
    }

    /** The value render_cell computes for a pixel is what it should show. */
    method PixelFor(x: nat, y: nat, gy: nat, gx: nat) returns (p: nat)
      requires Valid() && x < cols && y < rows && gy < FONT_H && gx < FONT_W
      ensures OnGrid(g.WinY() + y * FONT_H + gy, g.WinX() + x * FONT_W + gx)
      ensures p == Expected(g.WinY() + y * FONT_H + gy, g.WinX() + x * FONT_W + gx)
    {
      Inside(x, y, gy, gx);
      g.GridFits();
      var cell := cells[y, x];
      var solid := !g.windowed || cell.bg != C_BLACK;
      var invert := cursorOn && x == cx && y == cy;
      var on := font(Glyph(cell.ch), gy, gx) != invert;
      p := if on then pix(cell.fg) else if solid then pix(cell.bg)
           else panelbg[g.WinY() + y * FONT_H + gy - g.pnY, g.WinX() + x * FONT_W + gx - g.pnX];
    }

    predicate InRow(r: int, c: int, py: nat, px: nat, w: nat) { r == py && px <= c < px + w }

    /** One row of render_cell. */
    method RenderRow(x: nat, y: nat, gy: nat)
      requires Valid() && x < cols && y < rows && gy < FONT_H
      modifies shadow
      ensures forall r, c :: 0 <= r < g.fbh && 0 <= c < g.fbw ==>
                shadow[r, c] == if OnGrid(r, c) && RowOf(r) == y && ColOf(c) == x && (r - g.WinY()) % FONT_H == gy
                                then Expected(r, c) else old(shadow[r, c])
    {
      hide ExpectedAt, Ink;
      g.GridFits();
      var py, px := g.WinY() + y * FONT_H + gy, g.WinX() + x * FONT_W;
      for gx := 0 to FONT_W
        invariant forall r, c :: 0 <= r < g.fbh && 0 <= c < g.fbw ==>
                    shadow[r, c] ==
                    if InRow(r, c, py, px, gx) && OnGrid(r, c) then Expected(r, c) else old(shadow[r, c])
      {
        Inside(x, y, gy, gx);
        var p := PixelFor(x, y, gy, gx);
        shadow[py, px + gx] := p;
      }
      forall r, c | OnGrid(r, c)
        ensures InRow(r, c, py, px, FONT_W) <==> RowOf(r) == y && ColOf(c) == x && (r - g.WinY()) % FONT_H == gy
      {
      }
    }

    /** render_cell: the cell's 128 pixels become what they should show. */
    method RenderCell(x: nat, y: nat)
      requires Valid() && x < cols && y < rows
      modifies shadow
      ensures forall r, c :: 0 <= r < g.fbh && 0 <= c < g.fbw ==>
                shadow[r, c] ==
                if OnGrid(r, c) && RowOf(r) == y && ColOf(c) == x then Expected(r, c) else old(shadow[r, c])
    {
      hide ExpectedAt, Ink;
      for gy := 0 to FONT_H
        invariant forall r, c :: 0 <= r < g.fbh && 0 <= c < g.fbw ==>
                    shadow[r, c] == if OnGrid(r, c) && RowOf(r) == y && ColOf(c) == x && (r - g.WinY()) % FONT_H < gy
                                    then Expected(r, c) else old(shadow[r, c])
      {
        RenderRow(x, y, gy);
      }
    }

    predicate InCell(r: int, c: int, x: nat, y: nat) { OnGrid(r, c) && RowOf(r) == y && ColOf(c) == x }

    /** paint_cell: one cell more is shown. */
    method PaintCell(x: nat, y: nat, ghost stale: set<(int, int)>)
      requires Valid() && x < cols && y < rows && Fresh(stale)
      modifies shadow, fb
      ensures Fresh(stale - {(x, y)})
      ensures forall r, c :: 0 <= r < g.fbh && 0 <= c < g.fbw && !InCell(r, c, x, y) ==>
                shadow[r, c] == old(shadow[r, c]) && fb[r, c] == old(fb[r, c])
    {
      hide ExpectedAt, Ink;
      g.GridFits();
      RenderCell(x, y);
      Blit(g.WinX() + x * FONT_W, g.WinY() + y * FONT_H, FONT_W, FONT_H);
      forall r, c | 0 <= r < g.fbh && 0 <= c < g.fbw
        ensures InCell(r, c, x, y) <==>
                  g.WinY() + y * FONT_H <= r < g.WinY() + y * FONT_H + FONT_H
                    && g.WinX() + x * FONT_W <= c < g.WinX() + x * FONT_W + FONT_W
      {
      }
      forall r, c | OnGrid(r, c) && (ColOf(c), RowOf(r)) !in stale - {(x, y)} ensures ShownAt(r, c, (cx, cy)) {
        if !InCell(r, c, x, y) { assert old(ShownAt(r, c, (cx, cy))); }
      }
    }

    /** The grid and the cursor, as a value. */
    ghost function Text(): Term
      requires Valid()
      reads this, cells
    {
      Term(CellRows(), cx, cy)
    }

    ghost function CellRows(): seq<seq<Cell>>
      requires cells.Length0 == rows && cells.Length1 == cols
      reads cells
    {
      seq(rows, y requires 0 <= y < rows reads cells => seq(cols, x requires 0 <= x < cols reads cells => cells[y, x]))
    }

    lemma TextIs(t: Term)
      requires Valid() && TermOk(t, cols, rows) && t.cx == cx && t.cy == cy
      requires forall y, x :: 0 <= y < rows && 0 <= x < cols ==> cells[y, x] == t.cells[y][x]
      ensures Text() == t
    {
      forall y | 0 <= y < rows ensures Text().cells[y] == t.cells[y] {
      }
    }

    lemma TextAt(y: nat, x: nat)
      requires Valid() && y < rows && x < cols
      ensures TermOk(Text(), cols, rows) && Text().cells[y][x] == cells[y, x]
    {
    }

    /** The space glyph has no ink. */
    ghost predicate BlankSpace() { forall gy, gx {:trigger font(Glyph(SPACE), gy, gx)} :: !font(Glyph(SPACE), gy, gx) }

    // ------------------------------------------------------- small changes

    /** Drawing the cursor elsewhere only concerns the two cells. */
    lemma CursorMoved(stale: set<(int, int)>, at: (int, int), at': (int, int))
      requires Valid() && FreshAt(stale, at)
      ensures FreshAt(stale + {at, at'}, at')
    {
      forall r, c | OnGrid(r, c) && (ColOf(c), RowOf(r)) !in stale + {at, at'} ensures ShownAt(r, c, at') {
        assert ShownAt(r, c, at);
      }
    }

    /** A cell written is a cell stale. */
    method WriteCell(x: nat, y: nat, cell: Cell, ghost stale: set<(int, int)>, ghost at: (int, int))
      requires Valid() && x < cols && y < rows && FreshAt(stale, at)
      modifies cells
      ensures FreshAt(stale + {(x, y)}, at)
      ensures Text() == SetCell(old(Text()), x, y, cell)
      ensures forall v, u :: 0 <= v < rows && 0 <= u < cols ==>
                cells[v, u] == if v == y && u == x then cell else old(cells[v, u])
    {
      cells[y, x] := cell;
      forall r, c | OnGrid(r, c) && (ColOf(c), RowOf(r)) !in stale + {(x, y)} ensures ShownAt(r, c, at) {
        assert old(ShownAt(r, c, at));
      }
      forall v: nat, u: nat | v < rows && u < cols ensures old(Text()).cells[v][u] == old(cells[v, u]) {
      }
      TextIs(SetCell(old(Text()), x, y, cell));
    }

    /** con_cursor: the cursor's cell is repainted. */
    method SetCursor(on: bool, ghost stale: set<(int, int)>)
      requires Valid() && Fresh(stale)
      modifies this`cursorOn, shadow, fb
      ensures Valid() && Fresh(stale - {(cx, cy)}) && Text() == old(Text()) && cursorOn == on
    {
      ghost var at := (cx, cy);
      cursorOn := on;
      forall r, c | OnGrid(r, c) && (ColOf(c), RowOf(r)) !in stale + {at} ensures ShownAt(r, c, at) {
        assert old(ShownAt(r, c, at));
      }
      PaintCell(cx, cy, stale + {at});
      assert stale + {at} - {at} == stale - {at};
    }

    /** con_color. */
    method SetColor(fg: nat, bg: nat, ghost stale: set<(int, int)>)
      requires Valid() && Fresh(stale)
      modifies this`curFg, this`curBg
      ensures Valid() && curFg == fg && curBg == bg && Text() == old(Text())
      ensures Fresh(stale)
    {
      curFg, curBg := fg, bg;
      forall r, c | OnGrid(r, c) && (ColOf(c), RowOf(r)) !in stale ensures ShownAt(r, c, (cx, cy)) {
        assert old(ShownAt(r, c, (cx, cy)));
      }
    }

    /** con_setxy: both the cell the cursor left and the one it reached are repainted. */
    method SetXY(x: nat, y: nat, ghost stale: set<(int, int)>)
      requires Valid() && Fresh(stale)
      modifies this`cx, this`cy, shadow, fb
      ensures Valid() && Text() == Terminal.SetXY(old(Text()), cols, rows, x, y)
      ensures Fresh(stale - {old((cx, cy))} - {(cx, cy)})
    {
      var ox, oy := cx, cy;
      MoveCursor(if x < cols then x else cols - 1, if y < rows then y else rows - 1, stale);
      ghost var wider := stale + {(ox, oy), (cx, cy)};
      PaintCell(ox, oy, wider);
      PaintCell(cx, cy, wider - {(ox, oy)});
      assert wider - {(ox, oy)} - {(cx, cy)} == stale - {(ox, oy)} - {(cx, cy)};
    }

    /** The cursor's coordinates change; nothing is repainted yet. */
    method MoveCursor(x: nat, y: nat, ghost stale: set<(int, int)>)
      requires Valid() && x < cols && y < rows && Fresh(stale)
      modifies this`cx, this`cy
      ensures Valid() && cx == x && cy == y && Fresh(stale + {old((cx, cy)), (x, y)})
      ensures FreshAt(stale, old((cx, cy)))
      ensures Text() == old(Text()).(cx := x, cy := y)
    {
      ghost var at := (cx, cy);
      cx, cy := x, y;
      forall r, c | OnGrid(r, c) && (ColOf(c), RowOf(r)) !in stale ensures ShownAt(r, c, at) {
        assert old(ShownAt(r, c, at));
      }
      CursorMoved(stale, at, (x, y));
    }

    // ---------------------------------------------------------- scrolling

    /** The memmove of the cells, and the blank last row. */
    method ScrollCells()
      requires Valid()
      modifies cells
      ensures Text() == old(Text()).(cells := old(Text()).cells[1..] + [Blanks(cols, curFg, curBg)])
      ensures forall v, u :: 0 <= v < rows && 0 <= u < cols ==>
                cells[v, u] == if v < rows - 1 then old(cells[v + 1, u]) else Cell(SPACE, curFg, curBg)
    {
      for y := 0 to rows - 1
        invariant forall v, u :: 0 <= v < rows && 0 <= u < cols ==>
                    cells[v, u] == if v < y then old(cells[v + 1, u]) else old(cells[v, u])
      {
        for x := 0 to cols
          invariant forall v, u :: 0 <= v < rows && 0 <= u < cols ==>
                      cells[v, u] == if v < y || (v == y && u < x) then old(cells[v + 1, u]) else old(cells[v, u])
        {
          cells[y, x] := cells[y + 1, x];
        }
      }
      for x := 0 to cols
        invariant forall v, u :: 0 <= v < rows && 0 <= u < cols ==>
                    cells[v, u] == if v < rows - 1 then old(cells[v + 1, u])
                                   else if u < x then Cell(SPACE, curFg, curBg) else old(cells[v, u])
      {
        cells[rows - 1, x] := Cell(SPACE, curFg, curBg);
      }
      ghost var t := old(Text()).(cells := old(Text()).cells[1..] + [Blanks(cols, curFg, curBg)]);
      forall v, u | 0 <= v < rows && 0 <= u < cols ensures cells[v, u] == t.cells[v][u] {
        if v < rows - 1 {
          assert old(Text()).cells[v + 1][u] == old(cells[v + 1, u]);
        }
      }
      TextIs(t);
    }

    /** Panel mode: every cell is rendered again over its texture, then shown at once. */
    method Redraw()
      requires Valid()
      modifies shadow, fb
      ensures Fresh({})
    {
      hide ExpectedAt, Ink;
      g.GridFits();
      for y := 0 to rows
        invariant forall r, c :: OnGrid(r, c) && RowOf(r) < y ==> shadow[r, c] == Expected(r, c)
      {
        for x := 0 to cols
          invariant forall r, c :: OnGrid(r, c) && (RowOf(r) < y || (RowOf(r) == y && ColOf(c) < x)) ==>
                    shadow[r, c] == Expected(r, c)
        {
          RenderCell(x, y);
        }
        forall r, c | OnGrid(r, c) ensures 0 <= ColOf(c) < cols { CellOnGrid(r, c); }
      }
      Blit(g.WinX(), g.WinY(), cols * FONT_W, rows * FONT_H);
      forall r, c | OnGrid(r, c) ensures ShownAt(r, c, (cx, cy)) {
        CellOnGrid(r, c);
      }
    }

    /** Fullscreen: the pixels move up one text row, the last band is filled, and the
        whole grid goes to the screen. */
    method ShiftPixels()
      requires Valid() && !g.windowed
      modifies shadow, fb
      ensures forall r, c :: 0 <= r < rows * FONT_H && 0 <= c < g.fbw ==>
                shadow[r, c] == (if r < (rows - 1) * FONT_H then old(shadow[r + FONT_H, c]) else pix(curBg))
                && fb[r, c] == shadow[r, c]
    {
      g.GridFits();
      var gridH := rows * FONT_H;
      for y := 0 to gridH - FONT_H
        invariant forall r, c :: 0 <= r < g.fbh && 0 <= c < g.fbw ==>
                    shadow[r, c] == if r < y then old(shadow[r + FONT_H, c]) else old(shadow[r, c])
      {
        for x := 0 to g.fbw
          invariant forall r, c :: 0 <= r < g.fbh && 0 <= c < g.fbw ==>
                      shadow[r, c] ==
                      if r < y || (r == y && c < x) then old(shadow[r + FONT_H, c]) else old(shadow[r, c])
        {
          shadow[y, x] := shadow[y + FONT_H, x];
        }
      }
      for y := gridH - FONT_H to gridH
        invariant forall r, c :: 0 <= r < gridH && 0 <= c < g.fbw ==>
                    shadow[r, c] == if r < gridH - FONT_H then old(shadow[r + FONT_H, c])
                                    else if r < y then pix(curBg) else old(shadow[r, c])
      {
        for x := 0 to g.fbw
          invariant forall r, c :: 0 <= r < gridH && 0 <= c < g.fbw ==>
                      shadow[r, c] == if r < gridH - FONT_H then old(shadow[r + FONT_H, c])
                                      else if r < y || (r == y && c < x) then pix(curBg) else old(shadow[r, c])
        {
          shadow[y, x] := pix(curBg);
        }
      }
      Blit(0, 0, g.fbw, gridH);
    }

    /** The memmove scroll stands in for a full re-render: with a blank space glyph, a cell
        that showed its contents without the cursor shows the cell that moved into it. The
        cursor, which was drawn at `at` on the last row, travels up with the pixels. */
    method Scroll(ghost stale: set<(int, int)>, ghost at: (int, int))
      requires Valid() && cy == rows - 1 && FreshAt(stale, at) && at.1 == rows - 1
      requires BlankSpace()
      modifies cells, shadow, fb
      ensures Valid() && Text() == old(Text()).(cells := old(Text()).cells[1..] + [Blanks(cols, curFg, curBg)])
      ensures g.windowed ==> Fresh({})
      ensures !g.windowed ==> FreshAt(Lifted(stale + {at}), (-1, -1))
      ensures !g.windowed ==> forall r, c :: OnGrid(r, c) && RowOf(r) < rows - 1 ==>
                shadow[r, c] == old(shadow[r + FONT_H, c]) && fb[r, c] == shadow[r, c]
    {
      hide ExpectedAt, Ink, FreshAt, BlankSpace;
      ghost var was, t := Pixels(), Text();
      if !g.windowed { InkedNow(stale, at); }
      ScrollCells();
      if g.windowed {
        Redraw();
      } else {
        ShiftPixels();
        TextAt(0, 0);
        InkedUp(stale, at, was, t);
      }
    }

    /** The shadow, row by row. */
    ghost function Pixels(): (p: seq<seq<nat>>)
      requires Valid()
      reads this, shadow
      ensures |p| == g.fbh
      ensures forall r, c :: 0 <= r < g.fbh && 0 <= c < g.fbw ==> |p[r]| == g.fbw && p[r][c] == shadow[r, c]
    {
      seq(g.fbh, r requires 0 <= r < shadow.Length0 reads shadow =>
                   seq(g.fbw, c requires 0 <= c < shadow.Length1 reads shadow => shadow[r, c]))
    }

    /** On the pixels p, fullscreen, cell (x, y) of t shows at (r, c) with the cursor at `at`. */
    ghost predicate InkedAt(p: seq<seq<nat>>, t: Term, r: int, c: int, at: (int, int))
      reads this
    {
      && 0 <= r < |p| && 0 <= c < |p[r]| && 0 <= RowOf(r) < |t.cells| && 0 <= ColOf(c) < |t.cells[RowOf(r)]|
      && g.WinY() <= r && g.WinX() <= c
      && p[r][c] == Ink(font, pix, true, 0, t.cells[RowOf(r)][ColOf(c)], cursorOn && (ColOf(c), RowOf(r)) == at,
                        (r - g.WinY()) % FONT_H, (c - g.WinX()) % FONT_W)
    }

    ghost predicate Inked(stale: set<(int, int)>, at: (int, int), p: seq<seq<nat>>, t: Term)
      reads this
    {
      forall r, c {:trigger InkedAt(p, t, r, c, at)} ::
        OnGrid(r, c) && (ColOf(c), RowOf(r)) !in stale ==> InkedAt(p, t, r, c, at)
    }

    lemma InkedNow(stale: set<(int, int)>, at: (int, int))
      requires Valid() && !g.windowed && FreshAt(stale, at)
      ensures Inked(stale, at, Pixels(), Text())
    {
      hide ExpectedAt, Ink;
      forall r, c | OnGrid(r, c) && (ColOf(c), RowOf(r)) !in stale ensures InkedAt(Pixels(), Text(), r, c, at) {
        assert ShownAt(r, c, at);
        ShownIs(r, c, at);
        TextAt(RowOf(r), ColOf(c));
      }
    }

    /** After the shift, with the pixels and the text as they were. */
    lemma InkedUp(stale: set<(int, int)>, at: (int, int), was: seq<seq<nat>>, t: Term)
      requires Valid() && !g.windowed && BlankSpace() && Inked(stale, at, was, t) && at.1 == rows - 1
      requires TermOk(t, cols, rows) && Text().cells == t.cells[1..] + [Blanks(cols, curFg, curBg)]
      requires |was| == g.fbh && forall r :: 0 <= r < g.fbh ==> |was[r]| == g.fbw
      requires forall r, c :: OnGrid(r, c) ==>
                 shadow[r, c] == (if r < (rows - 1) * FONT_H then was[r + FONT_H][c] else pix(curBg))
                 && fb[r, c] == shadow[r, c]
      ensures FreshAt(Lifted(stale + {at}), (-1, -1))
    {
      hide ExpectedAt, Ink, BlankSpace, InkedAt;
      forall r, c | OnGrid(r, c) && (ColOf(c), RowOf(r)) !in Lifted(stale + {at}) ensures ShownAt(r, c, (-1, -1)) {
        PointUp(stale, at, was, t, r, c);
      }
    }

    lemma PointUp(stale: set<(int, int)>, at: (int, int), was: seq<seq<nat>>, t: Term, r: int, c: int)
      requires Valid() && !g.windowed && BlankSpace() && Inked(stale, at, was, t) && at.1 == rows - 1
      requires TermOk(t, cols, rows) && Text().cells == t.cells[1..] + [Blanks(cols, curFg, curBg)]
      requires |was| == g.fbh && (forall r :: 0 <= r < g.fbh ==> |was[r]| == g.fbw)
      requires OnGrid(r, c) && (ColOf(c), RowOf(r)) !in Lifted(stale + {at})
      requires shadow[r, c] == (if r < (rows - 1) * FONT_H then was[r + FONT_H][c] else pix(curBg))
               && fb[r, c] == shadow[r, c]
      ensures ShownAt(r, c, (-1, -1))
    {
      hide ExpectedAt, Ink;
      ShownIs(r, c, (-1, -1));
      TextAt(RowOf(r), ColOf(c));
      if RowOf(r) < rows - 1 {
        RowBelow(r);
        assert (ColOf(c), RowOf(r) + 1) !in stale + {at};
        assert InkedAt(was, t, r + FONT_H, c, at);
      } else {
        InkBlank((r - g.WinY()) % FONT_H, (c - g.WinX()) % FONT_W);
      }
    }

    lemma RowBelow(r: int)
      requires g.WinY() <= r
      ensures RowOf(r + FONT_H) == RowOf(r) + 1 && (r + FONT_H - g.WinY()) % FONT_H == (r - g.WinY()) % FONT_H
    {
    }

    /** Fullscreen, a pixel is shown when it has the ink of its cell. */
    lemma ShownIs(r: int, c: int, at: (int, int))
      requires Valid() && !g.windowed && OnGrid(r, c)
      ensures 0 <= RowOf(r) < rows && 0 <= ColOf(c) < cols && 0 <= r < g.fbh && 0 <= c < g.fbw
      ensures ShownAt(r, c, at) <==>
                fb[r, c] == shadow[r, c]
                == Ink(font, pix, true, 0, cells[RowOf(r), ColOf(c)], cursorOn && (ColOf(c), RowOf(r)) == at,
                       (r - g.WinY()) % FONT_H, (c - g.WinX()) % FONT_W)
    {
      CellOnGrid(r, c);
      g.GridFits();
    }

    lemma InkBlank(gy: nat, gx: nat)
      requires BlankSpace()
      ensures Ink(font, pix, true, 0, Cell(SPACE, curFg, curBg), false, gy, gx) == pix(curBg)
    {
    }

    // ------------------------------------------------------------ con_putc

    /** con_putc's first half: the character goes into the cells. */
    method WriteChar(c: int, ghost stale: set<(int, int)>)
      requires Valid() && Fresh(stale)
      modifies cells
      ensures Valid() && Text() == Written(old(Text()), cols, rows, c, curFg, curBg)
      ensures FreshAt(if c == BACKSPACE && cx > 0 then stale + {(cx, cy), (cx - 1, cy)} else stale + {(cx, cy)},
                      (cx, cy))
    {
      ghost var at := (cx, cy);
      TextAt(cy, cx);
      if c == NEWLINE || c == RETURN {
      } else if c == BACKSPACE {
        if cx > 0 {
          WriteCell(cx - 1, cy, Cell(SPACE, curFg, curBg), stale, at);
        }
      } else {
        WriteCell(cx, cy, Cell(c, curFg, curBg), stale, at);
      }
      Wider(if c == BACKSPACE && cx > 0 then stale + {(cx - 1, cy)} else stale + {(cx, cy)},
            if c == BACKSPACE && cx > 0 then stale + {at, (cx - 1, cy)} else stale + {at}, at);
    }

    /** More cells may be called stale than are. */
    lemma Wider(stale: set<(int, int)>, stale': set<(int, int)>, at: (int, int))
      requires Valid() && (FreshAt(stale, at) || FreshAt(stale - {at}, at)) && stale <= stale'
      ensures FreshAt(stale', at)
    {
      forall r, c | OnGrid(r, c) && (ColOf(c), RowOf(r)) !in stale' ensures ShownAt(r, c, at) {
        assert (ColOf(c), RowOf(r)) !in stale && (ColOf(c), RowOf(r)) !in stale - {at};
      }
    }

    /** con_putc. The grid changes exactly as the terminal model says, whatever the screen
        showed before. A stale cell is repaired when the cursor leaves or reaches it, and in
        panel mode by any scroll; a fullscreen scroll moves stale cells up, and with them the
        cell the cursor was on, which nothing repaints. */
    method Putc(c: int, ghost stale: set<(int, int)>)
      requires Valid() && Fresh(stale) && BlankSpace()
      modifies this`cx, this`cy, cells, shadow, fb
      ensures Valid() && Text() == Terminal.Putc(old(Text()), cols, rows, c, curFg, curBg)
      ensures Fresh(StaleAfterPutc(stale, g.windowed, old(Text()), cols, rows, c))
      ensures !g.windowed && Scrolls(old(Text()), cols, rows, c) ==>
                forall r, q :: OnGrid(r, q) && RowOf(r) == rows - 2 && ColOf(q) == old(cx) ==>
                  shadow[r, q] == old(shadow[r + FONT_H, q]) && fb[r, q] == shadow[r, q]
    {
      hide ExpectedAt, Ink;
      var ox, oy := cx, cy;
      WriteChar(c, stale);
      var (x, y) := Advance(cx, cy, cols, c);
      ghost var wide := if c == BACKSPACE && cx > 0 then stale + {(ox, oy), (cx - 1, oy)} else stale + {(ox, oy)};
      if y >= rows {
        MoveTo(x, rows - 1, wide, (ox, oy));
        PutcScrolled(ox, wide);
      } else {
        MoveTo(x, y, wide, (ox, oy));
        CursorMoved(wide, (ox, oy), (cx, cy));
        ghost var all := wide + {(ox, oy), (cx, cy)};
        if ox != cx || oy != cy {
          PaintCell(ox, oy, all);
        }
        PaintCell(cx, cy, if ox != cx || oy != cy then all - {(ox, oy)} else all);
        assert all - {(ox, oy)} - {(cx, cy)} == stale - {(ox, oy)} - {(cx, cy)};
      }
    }

    method MoveTo(x: nat, y: nat, ghost stale: set<(int, int)>, ghost at: (int, int))
      requires Valid() && x < cols && y < rows && FreshAt(stale, at)
      modifies this`cx, this`cy
      ensures Valid() && cx == x && cy == y && FreshAt(stale, at)
      ensures Text() == old(Text()).(cx := x, cy := y)
    {
      cx, cy := x, y;
      forall r, c | OnGrid(r, c) && (ColOf(c), RowOf(r)) !in stale ensures ShownAt(r, c, at) {
        assert old(ShownAt(r, c, at));
      }
    }

    /** con_putc's tail when the character ran off the last row. */
    method PutcScrolled(ghost ox: int, ghost stale: set<(int, int)>)
      requires Valid() && cy == rows - 1 && 0 <= ox < cols && FreshAt(stale, (ox, rows - 1)) && BlankSpace()
      modifies cells, shadow, fb
      ensures Valid() && Text() == old(Text()).(cells := old(Text()).cells[1..] + [Blanks(cols, curFg, curBg)])
      ensures g.windowed ==> Fresh({})
      ensures !g.windowed ==>
                Fresh(Within(Lifted(stale + {(ox, rows - 1)}), cols, rows) - {(cx, cy)})
                && forall r, c :: OnGrid(r, c) && RowOf(r) == rows - 2 && ColOf(c) == ox ==>
                     shadow[r, c] == old(shadow[r + FONT_H, c]) && fb[r, c] == shadow[r, c]
    {
      hide ExpectedAt, Ink;
      ghost var at := (ox, rows - 1);
      Scroll(stale, at);
      if g.windowed {
        ghost var none: set<(int, int)> := {};
        PaintCell(cx, cy, none);
        assert none - {(cx, cy)} == none;
      } else {
        ghost var up := Lifted(stale + {at});
        CursorMoved(up, (-1, -1), (cx, cy));
        ghost var wide := up + {(-1, -1), (cx, cy)};
        PaintCell(cx, cy, wide);
        OffGrid(wide - {(cx, cy)}, Within(up, cols, rows) - {(cx, cy)});
      }
    }

    /** A stale set only matters on the grid. */
    lemma OffGrid(stale: set<(int, int)>, stale': set<(int, int)>)
      requires Valid() && Fresh(stale)
      requires forall p :: p in stale && 0 <= p.0 < cols && 0 <= p.1 < rows ==> p in stale'
      ensures Fresh(stale')
    {
      forall r, c | OnGrid(r, c) && (ColOf(c), RowOf(r)) !in stale' ensures ShownAt(r, c, (cx, cy)) {
        CellOnGrid(r, c);
      }
    }

    // --------------------------------------------- the cell nothing repaints

    /** Does a cell look the same before (with the cursor on it) and after? */
    ghost predicate SameLook(before: Cell, on: bool, after: Cell) {
      forall gy: nat, gx: nat {:trigger Ink(font, pix, true, 0, before, on, gy, gx)} :: gy < FONT_H && gx < FONT_W ==>
        Ink(font, pix, true, 0, before, on, gy, gx) == Ink(font, pix, true, 0, after, false, gy, gx)
    }

    /** A newline at the bottom of a fullscreen console leaves a right screen exactly when
        the cursor was hidden or drawn in its own background colour: otherwise an inverted
        cell stays behind. */
    lemma NewlineTrace(cell: Cell)
      ensures SameLook(cell, cursorOn, cell) <==> !cursorOn || pix(cell.fg) == pix(cell.bg)
    {
      var corner := Ink(font, pix, true, 0, cell, cursorOn, 0, 0);
    }

    ghost function PixR(y: nat, gy: nat): int { g.WinY() + y * FONT_H + gy }
    ghost function PixC(x: nat, gx: nat): int { g.WinX() + x * FONT_W + gx }

    /** What pixel (gy, gx) of a cell should show, fullscreen. */
    lemma Look(x: nat, y: nat, gy: nat, gx: nat, at: (int, int))
      requires Valid() && !g.windowed && x < cols && y < rows && gy < FONT_H && gx < FONT_W
      ensures OnGrid(PixR(y, gy), PixC(x, gx)) && RowOf(PixR(y, gy)) == y && ColOf(PixC(x, gx)) == x
      ensures ExpectedAt(PixR(y, gy), PixC(x, gx), at) ==
              Ink(font, pix, true, 0, cells[y, x], cursorOn && (x, y) == at, gy, gx)
    {
      Inside(x, y, gy, gx);
    }

    /** A cell may be taken off the stale ones exactly when it is shown. */
    lemma OneStale(x: nat, y: nat, rest: set<(int, int)>)
      requires Valid() && !g.windowed && x < cols && y < rows && (x, y) !in rest && Fresh(rest + {(x, y)})
      ensures Fresh(rest) <==> forall gy: nat, gx: nat {:trigger PixR(y, gy), PixC(x, gx)} ::
                                 gy < FONT_H && gx < FONT_W ==>
                                   OnGrid(PixR(y, gy), PixC(x, gx)) && ShownAt(PixR(y, gy), PixC(x, gx), (cx, cy))
    {
      hide ExpectedAt, Ink;
      forall gy: nat, gx: nat | gy < FONT_H && gx < FONT_W
        ensures OnGrid(PixR(y, gy), PixC(x, gx)) && RowOf(PixR(y, gy)) == y && ColOf(PixC(x, gx)) == x
      {
        Look(x, y, gy, gx, (cx, cy));
      }
      if forall gy: nat, gx: nat {:trigger PixR(y, gy), PixC(x, gx)} ::
           gy < FONT_H && gx < FONT_W ==>
             OnGrid(PixR(y, gy), PixC(x, gx)) && ShownAt(PixR(y, gy), PixC(x, gx), (cx, cy))
      {
        forall r, c | OnGrid(r, c) && (ColOf(c), RowOf(r)) !in rest ensures ShownAt(r, c, (cx, cy)) {
          CellOnGrid(r, c);
          if (ColOf(c), RowOf(r)) == (x, y) {
            var gy, gx := (r - g.WinY()) % FONT_H, (c - g.WinX()) % FONT_W;
            assert r == PixR(y, gy) && c == PixC(x, gx);
          }
        }
      }
    }

    /** Pixel (gy, gx) of cell (x, y) is `before` with the cursor on it. */
    ghost predicate Drawn(x: nat, y: nat, gy: nat, gx: nat, before: Cell)
      requires Valid() && !g.windowed && x < cols && y < rows && gy < FONT_H && gx < FONT_W
      reads this, shadow, fb
    {
      Inside(x, y, gy, gx);
      g.GridFits();
      fb[PixR(y, gy), PixC(x, gx)] == shadow[PixR(y, gy), PixC(x, gx)]
      == Ink(font, pix, true, 0, before, cursorOn, gy, gx)
    }

    /** The same, on pixels put aside. */
    ghost predicate DrawnOn(p: seq<seq<nat>>, x: nat, y: nat, gy: nat, gx: nat, before: Cell, on: bool) {
      0 <= PixR(y, gy) < |p| && 0 <= PixC(x, gx) < |p[PixR(y, gy)]|
      && p[PixR(y, gy)][PixC(x, gx)] == Ink(font, pix, true, 0, before, on, gy, gx)
    }

    ghost predicate AllDrawn(x: nat, y: nat, before: Cell)
      requires Valid() && !g.windowed && x < cols && y < rows
      reads this, shadow, fb
    {
      forall gy: nat, gx: nat :: gy < FONT_H && gx < FONT_W ==> Drawn(x, y, gy, gx, before)
    }

    ghost predicate AllDrawnOn(p: seq<seq<nat>>, x: nat, y: nat, before: Cell, on: bool) {
      forall gy: nat, gx: nat :: gy < FONT_H && gx < FONT_W ==> DrawnOn(p, x, y, gy, gx, before, on)
    }

    lemma CursorDrawn(stale: set<(int, int)>)
      requires Valid() && !g.windowed && Fresh(stale) && (cx, cy) !in stale
      ensures AllDrawnOn(Pixels(), cx, cy, cells[cy, cx], cursorOn)
    {
      hide ExpectedAt, Ink;
      forall gy: nat, gx: nat | gy < FONT_H && gx < FONT_W
        ensures DrawnOn(Pixels(), cx, cy, gy, gx, cells[cy, cx], cursorOn)
      {
        Look(cx, cy, gy, gx, (cx, cy));
        assert ShownAt(PixR(cy, gy), PixC(cx, gx), (cx, cy));
      }
    }

    /** The same scroll, as far as the cell under the cursor goes: it moves up as it was drawn. */
    method PutcCarry(c: int, ghost stale: set<(int, int)>)
      requires Valid() && Fresh(stale) && BlankSpace() && !g.windowed
      requires Scrolls(Text(), cols, rows, c) && (cx, cy) !in stale
      modifies this`cx, this`cy, cells, shadow, fb
      ensures Valid() && Text() == Terminal.Putc(old(Text()), cols, rows, c, curFg, curBg)
      ensures Fresh(StaleAfterPutc(stale, false, old(Text()), cols, rows, c))
      ensures rows > 1 ==> AllDrawn(old(cx), rows - 2, old(cells[cy, cx]))
    {
      hide ExpectedAt, Ink, FreshAt;
      TextAt(cy, cx);
      ghost var x, y, was, before := cx, cy, Pixels(), cells[cy, cx];
      assert y == rows - 1;
      CursorDrawn(stale);
      Putc(c, stale);
      if rows > 1 {
        ghost var up := y - 1;
        forall gy: nat, gx: nat | gy < FONT_H && gx < FONT_W ensures Drawn(x, up, gy, gx, before) {
          Inside(x, up, gy, gx);
          assert DrawnOn(was, x, y, gy, gx, before, cursorOn);
          assert PixR(y, gy) == PixR(up, gy) + FONT_H;
        }
      }
    }

    /** con_putc on a scrolling fullscreen console. Beside the stale cells that move up, the
        one cell in question is the one that moves up from under the cursor: if it was shown
        right, it is right after exactly when it looks as it did (and on a console of one row
        it is gone). */
    method PutcBottom(c: int, ghost stale: set<(int, int)>) returns (ghost before: Cell, ghost after: Cell)
      requires Valid() && Fresh(stale) && BlankSpace() && !g.windowed
      requires Scrolls(Text(), cols, rows, c) && (cx, cy) !in stale && Within(stale, cols, rows) == stale
      modifies this`cx, this`cy, cells, shadow, fb
      ensures Valid() && Text() == Terminal.Putc(old(Text()), cols, rows, c, curFg, curBg)
      ensures before == old(cells[cy, cx]) && after == if c == NEWLINE then before else Cell(c, curFg, curBg)
      ensures Fresh(Within(Lifted(stale), cols, rows) + {(old(cx), rows - 2)} - {(cx, cy)})
      ensures rows > 1 ==>
                (Fresh(Within(Lifted(stale), cols, rows) - {(cx, cy)}) <==> SameLook(before, cursorOn, after))
      ensures rows == 1 ==> Fresh({})
    {
      hide ExpectedAt, Ink, FreshAt, SameLook, AllDrawn, Within, Lifted, Terminal.Putc;
      ghost var ox, rest := cx, Within(Lifted(stale), cols, rows);
      before := cells[cy, cx];
      TextAt(cy, cx);
      PutcCarry(c, stale);
      after := if c == NEWLINE then before else Cell(c, curFg, curBg);
      StaleBottom(stale, old(Text()), c);
      if rows == 1 {
        OffGrid(StaleAfterPutc(stale, false, old(Text()), cols, rows, c), {});
        OffGrid({}, rest + {(ox, rows - 2)} - {(cx, cy)});
        return;
      }
      OffGrid(StaleAfterPutc(stale, false, old(Text()), cols, rows, c), rest + {(ox, rows - 2)} - {(cx, cy)});
      TextAt(rows - 2, ox);
      Carried(old(Text()), cols, rows, c, curFg, curBg);
      Apart(stale, ox);
      assert rest + {(ox, rows - 2)} - {(cx, cy)} == rest - {(cx, cy)} + {(ox, rows - 2)};
      Judge(ox, rows - 2, rest - {(cx, cy)}, before, after);
    }

    lemma Judge(ox: nat, y: nat, rest: set<(int, int)>, before: Cell, after: Cell)
      requires Valid() && !g.windowed && ox < cols && y < rows && cy != y
      requires (ox, y) !in rest && Fresh(rest + {(ox, y)}) && after == cells[y, ox]
      requires AllDrawn(ox, y, before)
      ensures Fresh(rest) <==> SameLook(before, cursorOn, after)
    {
      hide ExpectedAt, Ink;
      OneStale(ox, y, rest);
      forall gy: nat, gx: nat | gy < FONT_H && gx < FONT_W
        ensures OnGrid(PixR(y, gy), PixC(ox, gx))
        ensures ShownAt(PixR(y, gy), PixC(ox, gx), (cx, cy)) <==>
                  Ink(font, pix, true, 0, before, cursorOn, gy, gx) == Ink(font, pix, true, 0, after, false, gy, gx)
      {
        Look(ox, y, gy, gx, (cx, cy));
        assert Drawn(ox, y, gy, gx, before);
      }
      if SameLook(before, cursorOn, after) {
        forall gy: nat, gx: nat {:trigger PixR(y, gy), PixC(ox, gx)} | gy < FONT_H && gx < FONT_W
          ensures ShownAt(PixR(y, gy), PixC(ox, gx), (cx, cy))
        {
          assert Ink(font, pix, true, 0, before, cursorOn, gy, gx) == Ink(font, pix, true, 0, after, false, gy, gx);
        }
      }
      if Fresh(rest) {
        forall gy: nat, gx: nat {:trigger Ink(font, pix, true, 0, before, cursorOn, gy, gx)} |
          gy < FONT_H && gx < FONT_W
          ensures Ink(font, pix, true, 0, before, cursorOn, gy, gx) == Ink(font, pix, true, 0, after, false, gy, gx)
        {
          assert ShownAt(PixR(y, gy), PixC(ox, gx), (cx, cy));
        }
      }
    }

    lemma Apart(stale: set<(int, int)>, x: int)
      requires (x, rows - 1) !in stale
      ensures (x, rows - 2) !in Within(Lifted(stale), cols, rows)
    {
      LiftedOne(stale, x);
    }

    lemma StaleBottom(stale: set<(int, int)>, t: Term, c: int)
      requires TermOk(t, cols, rows) && Scrolls(t, cols, rows, c)
      ensures var s := StaleAfterPutc(stale, false, t, cols, rows, c);
              var t' := Terminal.Putc(t, cols, rows, c, curFg, curBg);
              && s <= Within(Lifted(stale), cols, rows) + {(t.cx, rows - 2)} - {(t'.cx, t'.cy)}
              && (rows == 1 && Within(stale, cols, rows) == stale ==> s == {})
    {
      LiftedOne(stale, t.cx);
    }

    lemma LiftedOne(stale: set<(int, int)>, x: int)
      ensures Within(Lifted(stale + {(x, rows - 1)}), cols, rows) <= Within(Lifted(stale), cols, rows) + {(x, rows - 2)}
      ensures (x, rows - 1) !in stale ==> (x, rows - 2) !in Lifted(stale)
    {
    }

    // ----------------------------------------------------------- con_clear

    /** con_clear. Fullscreen, every cell but the cursor's is shown right. In panel mode
        the same holds of a cell exactly when the background is black or happens to be the
        panel's own colour there: the cells say a solid background, the pixels do not. */
    method Clear()
      requires Valid() && BlankSpace()
      modifies this`cx, this`cy, cells, shadow, fb
      ensures Valid() && Text() == Terminal.Clear(cols, rows, curFg, curBg)
      ensures !g.windowed || curBg == C_BLACK ==> Fresh({(cx, cy)})
      ensures g.windowed && curBg != C_BLACK ==> forall r, c :: OnGrid(r, c) && (ColOf(c), RowOf(r)) != (0, 0) ==>
                (ShownAt(r, c, (cx, cy)) <==> PanelAt(r, c) == pix(curBg))
    {
      ClearCells();
      cx, cy := 0, 0;
      TextIs(Terminal.Clear(cols, rows, curFg, curBg));
      g.GridFits();
      if g.windowed {
        FillPanel();
        Blit(g.pnX, g.pnY, g.pnW, g.pnH);
      } else {
        FillShadow();
        Blit(0, 0, g.fbw, g.fbh);
      }
      forall r, c | OnGrid(r, c) && (ColOf(c), RowOf(r)) != (0, 0)
        ensures ShownAt(r, c, (cx, cy)) <==> (!g.windowed || curBg == C_BLACK || PanelAt(r, c) == pix(curBg))
      {
        CellOnGrid(r, c);
        assert cells[RowOf(r), ColOf(c)] == Cell(SPACE, curFg, curBg);
      }
    }

    ghost function PanelAt(r: int, c: int): nat
      requires Valid() && OnGrid(r, c) && g.windowed
      reads this, panelbg
    {
      g.GridFits();
      panelbg[r - g.pnY, c - g.pnX]
    }

    /** The panel part of con_clear. */
    method FillPanel()
      requires Valid() && g.windowed
      modifies shadow
      ensures forall r, c :: OnGrid(r, c) ==> shadow[r, c] == PanelAt(r, c)
    {
      g.GridFits();
      for y := 0 to g.pnH
        invariant forall r, c ::
                    0 <= r < g.fbh && 0 <= c < g.fbw && g.pnY <= r < g.pnY + y && g.pnX <= c < g.pnX + g.pnW ==>
                    shadow[r, c] == panelbg[r - g.pnY, c - g.pnX]
      {
        for x := 0 to g.pnW
          invariant forall r, c :: 0 <= r < g.fbh && 0 <= c < g.fbw && g.pnX <= c < g.pnX + g.pnW
                                   && (g.pnY <= r < g.pnY + y || (r == g.pnY + y && c < g.pnX + x)) ==>
                      shadow[r, c] == panelbg[r - g.pnY, c - g.pnX]
        {
          shadow[g.pnY + y, g.pnX + x] := panelbg[y, x];
        }
      }
    }

    method ClearCells()
      requires Valid()
      modifies cells
      ensures forall v, u :: 0 <= v < rows && 0 <= u < cols ==> cells[v, u] == Cell(SPACE, curFg, curBg)
    {
      for y := 0 to rows
        invariant forall v, u :: 0 <= v < y && 0 <= u < cols ==> cells[v, u] == Cell(SPACE, curFg, curBg)
      {
        for x := 0 to cols
          invariant forall v, u :: 0 <= v <= y && 0 <= u < cols && (v < y || u < x) ==>
                    cells[v, u] == Cell(SPACE, curFg, curBg)
        {
          cells[y, x] := Cell(SPACE, curFg, curBg);
        }
      }
    }

    method FillShadow()
      requires Valid()
      modifies shadow
      ensures forall r, c :: 0 <= r < g.fbh && 0 <= c < g.fbw ==> shadow[r, c] == pix(curBg)
    {
      for y := 0 to g.fbh
        invariant forall r, c :: 0 <= r < y && 0 <= c < g.fbw ==> shadow[r, c] == pix(curBg)
      {
        for x := 0 to g.fbw
          invariant forall r, c :: 0 <= r <= y && 0 <= c < g.fbw && (r < y || c < x) ==> shadow[r, c] == pix(curBg)
        {
          shadow[y, x] := pix(curBg);
        }
      }
    }

    // ---------------------------------------------------- any calls, any mode

    /** The console as the terminal model and the stale set have it. */
    ghost function Now(stale: set<(int, int)>): Picture
      requires Valid()
      reads this, cells
    {
      Picture(Text(), curFg, curBg, cursorOn, stale)
    }

    /** One call, from any screen. */
    method OneCall(call: Call, ghost stale: set<(int, int)>)
      requires Valid() && BlankSpace() && Fresh(stale)
      modifies this`cx, this`cy, this`curFg, this`curBg, this`cursorOn, cells, shadow, fb
      ensures Valid() && TermOk(old(Text()), cols, rows)
      ensures var m := After(old(Now(stale)), g.windowed, cols, rows, call);
              Now(m.stale) == m && Fresh(m.stale)
    {
      hide Fresh, BlankSpace;
      TextAt(0, 0);
      match call {
        case Write(c) => Putc(c, stale);
        case MoveTo(x, y) => SetXY(x, y, stale);
        case ShowCursor(on) => SetCursor(on, stale);
        case Colour(fg, bg) => SetColor(fg, bg, stale);
        case Wipe =>
          Clear();
          if g.windowed && curBg != C_BLACK { EveryCell(); }
      }
    }

    /** con_clear where the panel has another colour at a pixel off the cursor. */
    method ClearWrong(r: int, c: int)
      requires Valid() && BlankSpace() && g.windowed && curBg != C_BLACK
      requires OnGrid(r, c) && (ColOf(c), RowOf(r)) != (0, 0) && PanelAt(r, c) != pix(curBg)
      modifies this`cx, this`cy, cells, shadow, fb
      ensures Valid() && !Fresh({(cx, cy)})
    {
      hide FreshAt;
      Clear();
      TextAt(0, 0);
      Wrong(r, c, {(cx, cy)});
    }

    lemma Wrong(r: int, c: int, stale: set<(int, int)>)
      requires Valid() && OnGrid(r, c) && !ShownAt(r, c, (cx, cy)) && (ColOf(c), RowOf(r)) !in stale
      ensures !Fresh(stale)
    {
    }

    lemma EveryCell()
      requires Valid()
      ensures Fresh(AllCells(cols, rows))
    {
      forall r, c | OnGrid(r, c) ensures (ColOf(c), RowOf(r)) in AllCells(cols, rows) {
        CellOnGrid(r, c);
      }
    }

    /** Over any sequence of calls, in either mode and from any screen at all: the cells and
        the cursor are the fold of the terminal model, and every cell outside the fold of the
        stale set shows exactly its rendering, on the shadow and on the screen. */
    method Session(calls: seq<Call>, ghost stale: set<(int, int)>)
      requires Valid() && BlankSpace() && Fresh(stale)
      modifies this`cx, this`cy, this`curFg, this`curBg, this`cursorOn, cells, shadow, fb
      ensures Valid() && TermOk(old(Text()), cols, rows)
      ensures var m := AfterAll(old(Now(stale)), g.windowed, cols, rows, calls);
              Now(m.stale) == m && Fresh(m.stale)
    {
      hide Fresh, BlankSpace;
      TextAt(0, 0);
      ghost var m0 := Now(stale);
      ghost var now := stale;
      for i := 0 to |calls|
        invariant Valid() && BlankSpace() && Fresh(now)
        invariant Now(now) == AfterAll(m0, g.windowed, cols, rows, calls[..i])
      {
        assert calls[..i + 1][..i] == calls[..i];
        ghost var m := Now(now);
        OneCall(calls[i], now);
        now := After(m, g.windowed, cols, rows, calls[i]).stale;
      }
      assert calls[..|calls|] == calls;
    }

    /** con_init's end and any calls after it. In panel mode, as long as the screen is only
        cleared on black, at most the cursor's cell is ever wrong, and none right after a call
        that paints. Fullscreen, at most one cell a row is wrong. */
    method FromBoot(calls: seq<Call>) returns (ghost m: Picture)
      requires Valid() && BlankSpace() && curBg == C_BLACK
      modifies this`cx, this`cy, this`curFg, this`curBg, this`cursorOn, cells, shadow, fb
      ensures Valid() && TermOk(m.t, cols, rows)
      ensures m == AfterAll(Picture(Terminal.Clear(cols, rows, old(curFg), C_BLACK), old(curFg), C_BLACK,
                                    old(cursorOn), {(0, 0)}),
                            g.windowed, cols, rows, calls)
      ensures Now(m.stale) == m && Fresh(m.stale)
      ensures g.windowed && BlackWipes(C_BLACK, calls) ==> Fresh({(cx, cy)})
      ensures g.windowed && BlackWipes(C_BLACK, calls) && calls != [] && calls[|calls| - 1].Paints() ==> Fresh({})
      ensures !g.windowed ==> OnePerRow(m, cols, rows)
    {
      Clear();
      TextAt(0, 0);
      ghost var m0 := Now({(0, 0)});
      Session(calls, {(0, 0)});
      m := AfterAll(m0, g.windowed, cols, rows, calls);
      if g.windowed {
        if BlackWipes(C_BLACK, calls) {
          PanelStale(m0, cols, rows, calls);
          Wider(m.stale, {(cx, cy)}, (cx, cy));
        }
      } else {
        TracesOnePerRow(m0, cols, rows, calls);
      }
    }
  }

  /** For one: a fullscreen console of 80 by 30, cleared, with the cursor on the last row. A
      newline leaves the cursor's block on the row above, if grey is not black. */
  method TraceExample(font: (nat, nat, nat) -> bool, pix: nat -> nat) returns (s: Screen)
    requires forall gy, gx {:trigger font(Glyph(SPACE), gy, gx)} :: !font(Glyph(SPACE), gy, gx)
    requires pix(7) != pix(C_BLACK)
    ensures s.Valid() && !s.g.windowed && !s.Fresh({}) && s.Fresh({(0, 28)})
  {
    hide Screen.FreshAt, Within, Lifted;
    s := new Screen(Geometry.Init(false, true, 640, 480, 640, 0, 0, 0, 0), font, pix, (y, x) => 0);
    s.Clear();
    s.SetXY(0, 29, {(0, 0)});
    ghost var none: set<(int, int)> := {};
    assert {(0, 0)} - {(0, 0)} - {(0, 29)} == none;
    s.TextAt(29, 0);
    NoneLifted(80, 30);
    ghost var before, after := s.PutcBottom(NEWLINE, none);
    s.NewlineTrace(before);
    assert none - {(0, 29)} == none && none + {(0, 28)} - {(0, 29)} == {(0, 28)};
  }

  lemma NoneLifted(cols: nat, rows: nat)
    ensures Within({}, cols, rows) == {} && Lifted({}) == {}
  {
  }

  /** For another: in panel mode, clearing on a background the panel does not have leaves
      cells off the cursor wrong. */
  method PanelExample(font: (nat, nat, nat) -> bool, pix: nat -> nat, panel: (nat, nat) -> nat) returns (s: Screen)
    requires forall gy, gx {:trigger font(Glyph(SPACE), gy, gx)} :: !font(Glyph(SPACE), gy, gx)
    requires panel(8, 16) != pix(4)
    ensures s.Valid() && s.g.windowed && !s.Fresh({(s.cx, s.cy)})
  {
    hide Screen.FreshAt, Screen.OnGrid, Screen.ColOf, Screen.RowOf;
    s := OnPanel(font, pix, panel);
    s.EveryCell();
    s.SetColor(7, 4, AllCells(s.cols, s.rows));
    s.ClearWrong(8, 16);
  }

  method OnPanel(font: (nat, nat, nat) -> bool, pix: nat -> nat, panel: (nat, nat) -> nat) returns (s: Screen)
    ensures s.Valid() && s.g.windowed && fresh(s) && fresh(s.cells) && fresh(s.shadow) && fresh(s.fb)
    ensures s.font == font && s.pix == pix && s.OnGrid(8, 16) && (s.ColOf(16), s.RowOf(8)) != (0, 0)
    ensures s.PanelAt(8, 16) == panel(8, 16)
  {
    SmallPanel();
    var g := Geometry.Init(true, true, 640, 480, 640, 0, 0, 400, 300);
    hide Geometry.Init;
    s := new Screen(g, font, pix, panel);
    assert s.panelbg[8, 16] == panel(8, 16);
  }

  lemma SmallPanel()
    ensures var g := Geometry.Init(true, true, 640, 480, 640, 0, 0, 400, 300);
            && g.windowed && g.Usable() && g.fbw <= g.pitch && g.Cols() == 48 && g.Rows() == 17
            && g.pnX == g.pnY == 0 && g.pnW == 400 && g.pnH == 300 && g.WinX() == g.WinY() == 8
  {
  }

  datatype Call = Write(c: int) | MoveTo(x: nat, y: nat) | ShowCursor(on: bool) | Colour(fg: nat, bg: nat) | Wipe {
    predicate Paints() { !Colour? && !Wipe? }
  }

  /** What is known of a screen: its text, its state, and the cells that may be shown wrong. */
  datatype Picture = Picture(t: Term, fg: nat, bg: nat, on: bool, stale: set<(int, int)>)

  function After(m: Picture, windowed: bool, cols: nat, rows: nat, call: Call): (m': Picture)
    requires TermOk(m.t, cols, rows) && 0 < cols && 0 < rows
    ensures TermOk(m'.t, cols, rows)
  {
    var at := (m.t.cx, m.t.cy);
    match call
    case Write(c) =>
      m.(t := Terminal.Putc(m.t, cols, rows, c, m.fg, m.bg),
        stale := StaleAfterPutc(m.stale, windowed, m.t, cols, rows, c))
    case MoveTo(x, y) =>
      var t := Terminal.SetXY(m.t, cols, rows, x, y);
      m.(t := t, stale := m.stale - {at} - {(t.cx, t.cy)})
    case ShowCursor(on) => m.(on := on, stale := m.stale - {at})
    case Colour(fg, bg) => m.(fg := fg, bg := bg)
    case Wipe =>
      m.(t := Terminal.Clear(cols, rows, m.fg, m.bg),
         stale := if windowed && m.bg != C_BLACK then AllCells(cols, rows) else {(0, 0)})
  }

  function AfterAll(m: Picture, windowed: bool, cols: nat, rows: nat, calls: seq<Call>): (m': Picture)
    requires TermOk(m.t, cols, rows) && 0 < cols && 0 < rows
    ensures TermOk(m'.t, cols, rows)
  {
    if calls == [] then m
    else After(AfterAll(m, windowed, cols, rows, calls[..|calls| - 1]), windowed, cols, rows, calls[|calls| - 1])
  }

  /** The screen is only cleared while the background is black. */
  predicate BlackWipes(bg: nat, calls: seq<Call>) {
    calls == []
    || (BlackWipes(bg, calls[..|calls| - 1])
        && (calls[|calls| - 1].Wipe? ==> LastBg(bg, calls[..|calls| - 1]) == C_BLACK))
  }

  function LastBg(bg: nat, calls: seq<Call>): nat {
    if calls == [] then bg
    else if calls[|calls| - 1].Colour? then calls[|calls| - 1].bg
    else LastBg(bg, calls[..|calls| - 1])
  }

  lemma {:induction false} PanelStale(m: Picture, cols: nat, rows: nat, calls: seq<Call>)
    requires TermOk(m.t, cols, rows) && 0 < cols && 0 < rows && m.stale <= {(m.t.cx, m.t.cy)} && BlackWipes(m.bg, calls)
    ensures var m' := AfterAll(m, true, cols, rows, calls);
            && m'.bg == LastBg(m.bg, calls) && m'.stale <= {(m'.t.cx, m'.t.cy)}
            && (calls != [] && calls[|calls| - 1].Paints() ==> m'.stale == {})
  {
    if calls != [] {
      PanelStale(m, cols, rows, calls[..|calls| - 1]);
    }
  }

  /** At most one cell a row... */
  predicate OneEach(s: set<(int, int)>) { forall p, q :: p in s && q in s && p.1 == q.1 ==> p == q }

  /** ... and on the last row none but `at`. */
  predicate LastOnly(s: set<(int, int)>, cols: nat, rows: nat, at: (int, int)) {
    forall p :: p in s ==> 0 <= p.0 < cols && 0 <= p.1 < rows && (p.1 == rows - 1 ==> p == at)
  }

  /** At most one cell a row is stale, and on the last row none but the cursor's. */
  predicate OnePerRow(m: Picture, cols: nat, rows: nat) {
    OneEach(m.stale) && LastOnly(m.stale, cols, rows, (m.t.cx, m.t.cy))
  }

  lemma {:induction false} TracesOnePerRow(m: Picture, cols: nat, rows: nat, calls: seq<Call>)
    requires TermOk(m.t, cols, rows) && 0 < cols && 0 < rows && OnePerRow(m, cols, rows)
    ensures OnePerRow(AfterAll(m, false, cols, rows, calls), cols, rows)
  {
    if calls != [] {
      TracesOnePerRow(m, cols, rows, calls[..|calls| - 1]);
      TraceStep(AfterAll(m, false, cols, rows, calls[..|calls| - 1]), cols, rows, calls[|calls| - 1]);
    }
  }

  lemma TraceStep(m: Picture, cols: nat, rows: nat, call: Call)
    requires TermOk(m.t, cols, rows) && 0 < cols && 0 < rows && OnePerRow(m, cols, rows)
    ensures OnePerRow(After(m, false, cols, rows, call), cols, rows)
  {
    hide OneEach, LastOnly, Within, Lifted;
    var at := (m.t.cx, m.t.cy);
    var m' := After(m, false, cols, rows, call);
    var at' := (m'.t.cx, m'.t.cy);
    if call.Wipe? {
      OnlyOne(cols, rows);
    } else if call.Write? && Scrolls(m.t, cols, rows, call.c) {
      TraceScroll(m.stale, cols, rows, at);
      FewerLeft(Within(Lifted(m.stale + {at}), cols, rows), m'.stale, cols, rows, (-1, -1), at');
    } else if !call.Colour? {
      assert m'.stale <= m.stale && at !in m'.stale;
      FewerLeft(m.stale, m'.stale, cols, rows, at, at');
    }
  }

  lemma OnlyOne(cols: nat, rows: nat)
    requires 0 < cols && 0 < rows
    ensures OneEach({(0, 0)}) && LastOnly({(0, 0)}, cols, rows, (0, 0))
  {
  }

  lemma FewerLeft(s: set<(int, int)>, s': set<(int, int)>, cols: nat, rows: nat, at: (int, int), at': (int, int))
    requires OneEach(s) && LastOnly(s, cols, rows, at) && s' <= s && at !in s'
    ensures OneEach(s') && LastOnly(s', cols, rows, at')
  {
  }

  lemma TraceScroll(s: set<(int, int)>, cols: nat, rows: nat, at: (int, int))
    requires OneEach(s) && LastOnly(s, cols, rows, at) && at.1 == rows - 1 && 0 <= at.0 < cols && 0 < rows
    ensures var up := Within(Lifted(s + {at}), cols, rows);
            OneEach(up) && LastOnly(up, cols, rows, (-1, -1)) && (-1, -1) !in up
  {
    hide OneEach, LastOnly, Within, Lifted;
    var up := Within(Lifted(s + {at}), cols, rows);
    Joined(s, cols, rows, at);
    forall p | p in up ensures 0 <= p.0 < cols && 0 <= p.1 < rows - 1 { Came(s + {at}, cols, rows, p, at); }
    forall p, q | p in up && q in up && p.1 == q.1 ensures p == q {
      Came(s + {at}, cols, rows, p, at);
      Came(s + {at}, cols, rows, q, at);
      SameRow(s + {at}, (p.0, p.1 + 1), (q.0, q.1 + 1));
    }
    Spread(up, cols, rows);
  }

  lemma Joined(s: set<(int, int)>, cols: nat, rows: nat, at: (int, int))
    requires OneEach(s) && LastOnly(s, cols, rows, at) && at.1 == rows - 1 && 0 <= at.0 < cols && 0 < rows
    ensures OneEach(s + {at}) && LastOnly(s + {at}, cols, rows, at)
  {
  }

  lemma Came(s: set<(int, int)>, cols: nat, rows: nat, p: (int, int), at: (int, int))
    requires LastOnly(s, cols, rows, at) && p in Within(Lifted(s), cols, rows)
    ensures (p.0, p.1 + 1) in s && 0 <= p.0 < cols && 0 <= p.1 < rows - 1
  {
  }

  lemma SameRow(s: set<(int, int)>, p: (int, int), q: (int, int))
    requires OneEach(s) && p in s && q in s && p.1 == q.1
    ensures p == q
  {
  }

  lemma Spread(up: set<(int, int)>, cols: nat, rows: nat)
    requires forall p, q :: p in up && q in up && p.1 == q.1 ==> p == q
    requires forall p :: p in up ==> 0 <= p.0 < cols && 0 <= p.1 < rows - 1
    ensures OneEach(up) && LastOnly(up, cols, rows, (-1, -1)) && (-1, -1) !in up
  {
  }
}
