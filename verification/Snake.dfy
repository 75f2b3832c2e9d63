/** The game in src/user/snake.c: a snake kept twice, as a ring of packed cells and as an
    occupancy grid, and drawn on the console one cell at a time. */
module Snake {
  import opened Arithmetic
  import opened Terminal
  import opened KeyCodes

  const MAXW: nat := 128
  const MAXH: nat := 64
  const SLOTS: nat := 8192

  datatype Spot = Spot(x: int, y: int)

  /** A game: the snake from tail to head, where it is heading, and the food. */
  datatype Game = Game(body: seq<Spot>, dir: Spot, food: Spot, score: nat, grow: nat) {
    function Head(): Spot
      requires body != []
    {
      body[|body| - 1]
    }
  }

  predicate Inside(p: Spot, w: nat, h: nat) { 1 <= p.x <= w - 2 && 2 <= p.y <= h - 2 }

  function Ahead(p: Spot, d: Spot): Spot { Spot(p.x + d.x, p.y + d.y) }

  predicate IsUnit(d: Spot) {
    d == Spot(1, 0) || d == Spot(-1, 0) || d == Spot(0, 1) || d == Spot(0, -1)
  }

  function Back(d: Spot): Spot { Spot(-d.x, -d.y) }

  predicate Distinct<T(==)>(s: seq<T>) { forall i, j :: 0 <= i < j < |s| ==> s[i] != s[j] }

  predicate OneStep(p: Spot, q: Spot) { IsUnit(Spot(q.x - p.x, q.y - p.y)) }

  /** The snake is connected and inside the walls, never crosses itself, and has the length
      its score calls for; the food is not on it. */
  predicate Sound(g: Game, w: nat, h: nat) {
    && g.body != [] && IsUnit(g.dir)
    && Distinct(g.body) && Connected(g.body) && AllInside(g.body, w, h)
    && |g.body| + g.grow == g.score + 3 && g.grow <= 2
    && Inside(g.food, w, h) && g.food !in g.body
  }

  /** Between passes the snake also looks the way it moves. */
  predicate Good(g: Game, w: nat, h: nat) {
    Sound(g, w, h) && (|g.body| > 1 ==> g.Head() == Ahead(g.body[|g.body| - 2], g.dir))
  }

  function Capacity(w: nat, h: nat): int { (w - 2) * (h - 3) }

  // ------------------------------------------------------------- the rules

  datatype Turning = Turning(quit: bool, dir: Spot)

  function Arrow(k: int, d: Spot): Spot {
    if k == KEY_UP then Spot(0, -1) else if k == KEY_DOWN then Spot(0, 1)
    else if k == KEY_LEFT then Spot(-1, 0) else if k == KEY_RIGHT then Spot(1, 0) else d
  }

  predicate Quits(k: int) { k == 'q' as int || k == 27 }

  /** The direction wanted after all pending keys: the last arrow, if any. */
  function Wanted(keys: seq<int>, d: Spot): Spot {
    if keys == [] then d else Arrow(keys[|keys| - 1], Wanted(keys[..|keys| - 1], d))
  }

  function Turned(d: Spot, wanted: Spot): Spot { if wanted == Back(d) then d else wanted }

  predicate Dies(g: Game, w: nat, h: nat)
    requires g.body != []
  {
    var p := Ahead(g.Head(), g.dir);
    !Inside(p, w, h) || p in g.body
  }

  predicate Eats(g: Game)
    requires g.body != []
  {
    Ahead(g.Head(), g.dir) == g.food
  }

  /** One pass that does not end the game; `food` is where the next food goes, should
      this one be eaten. */
  function Moved(g: Game, food: Spot): Game
    requires g.body != []
  {
    var p := Ahead(g.Head(), g.dir);
    var grow := if Eats(g) then g.grow + 1 else g.grow;
    Game(if grow > 0 then g.body + [p] else g.body[1..] + [p],
         g.dir,
         if Eats(g) then food else g.food,
         if Eats(g) then g.score + 1 else g.score,
         if grow > 0 then grow - 1 else 0)
  }

  predicate Connected(body: seq<Spot>) { forall i :: 0 < i < |body| ==> OneStep(body[i - 1], body[i]) }

  predicate AllInside(body: seq<Spot>, w: nat, h: nat) {
    forall i :: 0 <= i < |body| ==> Inside(body[i], w, h)
  }

  lemma Longer(body: seq<Spot>, p: Spot, w: nat, h: nat)
    requires body != [] && Distinct(body) && Connected(body) && AllInside(body, w, h)
    requires p !in body && Inside(p, w, h) && OneStep(body[|body| - 1], p)
    ensures Distinct(body + [p]) && Connected(body + [p]) && AllInside(body + [p], w, h)
  {
    var long := body + [p];
    forall i | 0 < i < |long| ensures OneStep(long[i - 1], long[i]) {
      if i < |body| { assert long[i - 1] == body[i - 1] && long[i] == body[i]; }
    }
  }

  lemma Shorter(body: seq<Spot>, w: nat, h: nat)
    requires body != [] && Distinct(body) && Connected(body) && AllInside(body, w, h)
    ensures Distinct(body[1..]) && Connected(body[1..]) && AllInside(body[1..], w, h)
  {
    var short := body[1..];
    forall i | 0 < i < |short| ensures OneStep(short[i - 1], short[i]) {
      assert short[i - 1] == body[i] && short[i] == body[i + 1];
    }
  }

  /** Every pass keeps the snake distinct, connected, inside the walls and the right length. */
  lemma MoveKeepsGood(g: Game, w: nat, h: nat, food: Spot)
    requires Sound(g, w, h) && !Dies(g, w, h)
    requires Eats(g) ==> Inside(food, w, h) && food !in g.body && food != Ahead(g.Head(), g.dir)
    ensures Good(Moved(g, food), w, h)
  {
    hide Distinct, Connected, AllInside, Inside, IsUnit;
    assert Spot(Ahead(g.Head(), g.dir).x - g.Head().x, Ahead(g.Head(), g.dir).y - g.Head().y) == g.dir;
    var p := Ahead(g.Head(), g.dir);
    Longer(g.body, p, w, h);
    var long := g.body + [p];
    Shorter(long, w, h);
    assert g.body[1..] + [p] == long[1..];
    assert long[|long| - 2] == g.Head();
    var g' := Moved(g, food);
    assert forall q :: q in g'.body ==> q in g.body || q == p;
    if g.grow > 0 || p == g.food {
      assert g'.body == long;
    } else {
      assert g'.body == long[1..];
    }
    assert g'.Head() == p;
  }

  /** One pass: the keys waiting when it starts, and where food would go. */
  datatype Pass = Pass(keys: seq<int>, food: Spot)

  function Steered(g: Game, keys: seq<int>): Game { g.(dir := Turned(g.dir, Wanted(keys, g.dir))) }

  /** A pass the game survives, whose food (if any is placed) misses the snake. */
  predicate Survives(g: Game, p: Pass, w: nat, h: nat)
    requires g.body != []
  {
    var s := Steered(g, p.keys);
    && (forall i :: 0 <= i < |p.keys| ==> !Quits(p.keys[i]))
    && !Dies(s, w, h)
    && (Eats(s) ==> Inside(p.food, w, h) && p.food !in s.body && p.food != Ahead(s.Head(), s.dir))
  }

  /** `g` is what `start` becomes by living through these passes. */
  ghost predicate Played(start: Game, log: seq<Pass>, g: Game, w: nat, h: nat)
    decreases |log|
  {
    if log == [] then g == start
    else exists before: Game ::
           && Played(start, log[..|log| - 1], before, w, h) && before.body != []
           && Survives(before, log[|log| - 1], w, h)
           && g == Moved(Steered(before, log[|log| - 1].keys), log[|log| - 1].food)
  }

  lemma PlayedNone(start: Game, w: nat, h: nat)
    ensures Played(start, [], start, w, h)
    ensures Good(start, w, h) ==> Inside(start.food, w, h) && start.food !in start.body
  {
  }

  lemma PlayedMore(start: Game, log: seq<Pass>, g: Game, p: Pass, w: nat, h: nat)
    requires Played(start, log, g, w, h) && Good(g, w, h) && Survives(g, p, w, h)
    ensures Played(start, log + [p], Moved(Steered(g, p.keys), p.food), w, h)
  {
    assert (log + [p])[..|log|] == log;
  }

  /** Throughout any game the snake is distinct, connected, inside the walls and as long as
      the score says, the food is free, and the ring has room to spare. */
  lemma {:induction false} EveryGameGood(start: Game, log: seq<Pass>, g: Game, w: nat, h: nat)
    requires 20 <= w <= MAXW && 10 <= h <= MAXH && Good(start, w, h) && Played(start, log, g, w, h)
    ensures Good(g, w, h) && |g.body| <= Capacity(w, h) < SLOTS
    decreases |log|
  {
    if log != [] {
      var p := log[|log| - 1];
      var before: Game :| && Played(start, log[..|log| - 1], before, w, h) && before.body != []
                          && Survives(before, p, w, h) && g == Moved(Steered(before, p.keys), p.food);
      EveryGameGood(start, log[..|log| - 1], before, w, h);
      WantedUnit(p.keys, before.dir);
      MoveKeepsGood(Steered(before, p.keys), w, h, p.food);
    }
    BoardRoom(g.body, w, h);
  }

  /** Turning never sends the head straight back into the neck, whatever keys were
      waiting: on a snake of two or more the new direction misses the cell behind. */
  lemma NeverIntoTheNeck(g: Game, w: nat, h: nat, wanted: Spot)
    requires Good(g, w, h) && |g.body| > 1 && IsUnit(wanted)
    ensures IsUnit(Turned(g.dir, wanted))
    ensures Ahead(g.Head(), Turned(g.dir, wanted)) != g.body[|g.body| - 2]
  {
  }

  /** The arrows (0x100 to 0x103) turn the head up, down, left and right on the screen. */
  lemma ArrowsSteer(g: Game)
    requires g.body != [] && IsUnit(g.dir)
    ensures var p := g.Head();
            && (g.dir != Spot(0, 1) ==> Ahead(p, Steered(g, [0x100]).dir) == Spot(p.x, p.y - 1))
            && (g.dir != Spot(0, -1) ==> Ahead(p, Steered(g, [0x101]).dir) == Spot(p.x, p.y + 1))
            && (g.dir != Spot(1, 0) ==> Ahead(p, Steered(g, [0x102]).dir) == Spot(p.x - 1, p.y))
            && (g.dir != Spot(-1, 0) ==> Ahead(p, Steered(g, [0x103]).dir) == Spot(p.x + 1, p.y))
    ensures forall k: int :: !(0x100 <= k <= 0x103) ==> Steered(g, [k]) == g
    ensures Steered(g, []) == g
  {
    forall k: int ensures Wanted([k], g.dir) == Arrow(k, g.dir) {
      assert [k][..0] == [];
    }
  }

  /** Only q and Esc quit. */
  lemma QuitKeys(k: int)
    ensures Quits(k) <==> k == 0x71 || k == 0x1B
  {
  }

  /** A game ends on what the player sees ahead: a wall or the snake; food is what it eats. */
  lemma DiesAsSeen(g: Game, w: nat, h: nat)
    requires Sound(g, w, h) && 20 <= w && 10 <= h
    ensures var p := Ahead(g.Head(), g.dir);
            && 0 <= p.x < w && 1 <= p.y < h
            && var c := Glyph(g.body, g.food, p.x, p.y, w, h);
               && (Dies(g, w, h) <==> c == 0x7C || c == 0x2D || c == 0x4F || c == 0x6F)
               && (!Dies(g, w, h) ==> (c == 0x2A <==> Eats(g)) && (c == 0x20 <==> !Eats(g)))
  {
    var p := Ahead(g.Head(), g.dir);
    assert Inside(g.Head(), w, h);
    assert p in g.body <==> Spot(p.x, p.y) in g.body;
  }

  /** A surviving pass moves the head one on; the snake is longer by it while it grows and
      keeps its length otherwise, and each food is worth one point and one cell. */
  lemma MovesOn(g: Game, food: Spot)
    requires g.body != []
    ensures var g' := Moved(g, food);
            && g'.Head() == Ahead(g.Head(), g.dir) && g'.dir == g.dir
            && g'.score == g.score + (if Eats(g) then 1 else 0)
            && |g'.body| + g'.grow == |g.body| + g.grow + (if Eats(g) then 1 else 0)
            && |g'.body| == |g.body| + (if g.grow > 0 || Eats(g) then 1 else 0)
            && (forall p :: p in g'.body ==> p == g'.Head() || p in g.body)
            && g'.food == if Eats(g) then food else g.food
  {
  }

  lemma WantedUnit(keys: seq<int>, d: Spot)
    requires IsUnit(d)
    ensures IsUnit(Wanted(keys, d))
  {
  }

  lemma Without(s: seq<int>, k: int) returns (rest: seq<int>)
    requires Distinct(s) && k in s
    ensures |rest| == |s| - 1 && Distinct(rest) && forall m :: m in rest <==> m in s && m != k
  {
    var i :| 0 <= i < |s| && s[i] == k;
    rest := s[..i] + s[i + 1..];
    forall m | m in s && m != k ensures m in rest {
      var j :| 0 <= j < |s| && s[j] == m;
      assert rest[if j < i then j else j - 1] == m;
    }
  }

  /** Counting: distinct numbers below n are at most n, and n of them are all of them. */
  lemma {:induction false} Crowded(s: seq<int>, n: nat)
    requires Distinct(s) && forall i :: 0 <= i < |s| ==> 0 <= s[i] < n
    ensures |s| <= n
    ensures |s| == n <==> forall k :: 0 <= k < n ==> k in s
    decreases n
  {
    assert s != [] ==> s[0] < n;
    if n > 0 {
      var k := n - 1;
      if k in s {
        var rest := Without(s, k);
        assert forall j :: 0 <= j < |rest| ==> rest[j] in rest;
        Crowded(rest, n - 1);
        assert forall m :: 0 <= m < n && m != k ==> (m in s <==> m in rest);
      } else {
        Crowded(s, n - 1);
      }
    }
  }

  function Number(p: Spot, w: nat): int { (p.y - 2) * (w - 2) + (p.x - 1) }

  lemma NumberBound(p: Spot, w: nat, h: nat)
    requires 3 <= w && 4 <= h && Inside(p, w, h)
    ensures 0 <= Number(p, w) < Capacity(w, h)
  {
    var n := w - 2;
    Scaled(0, p.y - 2, n);
    Scaled(p.y - 1, h - 3, n);
    assert (p.y - 1) * n == (p.y - 2) * n + n;
    assert Capacity(w, h) == (h - 3) * n;
  }

  lemma NumberTellsApart(p: Spot, q: Spot, w: nat, h: nat)
    requires 3 <= w && Inside(p, w, h) && Inside(q, w, h) && Number(p, w) == Number(q, w)
    ensures p == q
  {
    var n, a, b := w - 2, p.y - 2, q.y - 2;
    assert (a + 1) * n == a * n + n && (b + 1) * n == b * n + n;
    if a < b {
      Scaled(a + 1, b, n);
    } else if b < a {
      Scaled(b + 1, a, n);
    }
  }

  lemma SpotNumbered(k: nat, w: nat, h: nat) returns (p: Spot)
    requires 3 <= w && 4 <= h && k < Capacity(w, h)
    ensures Inside(p, w, h) && Number(p, w) == k
  {
    var n := w - 2;
    var q := k / n;
    var r := k % n;
    assert k == q * n + r;
    assert Capacity(w, h) == (h - 3) * n;
    if q >= h - 3 {
      Scaled(h - 3, q, n);
    }
    p := Spot(r + 1, q + 2);
  }

  /** A snake never outgrows the board, so the 8192-slot ring never overflows; and there is
      somewhere to put food exactly as long as the snake does not fill the board. */
  lemma BoardRoom(body: seq<Spot>, w: nat, h: nat)
    requires 3 <= w <= MAXW && 4 <= h <= MAXH
    requires Distinct(body) && AllInside(body, w, h)
    ensures |body| <= Capacity(w, h) < SLOTS
    ensures |body| < Capacity(w, h) <==> exists p :: Inside(p, w, h) && p !in body
  {
    var s := seq(|body|, i requires 0 <= i < |body| => Number(body[i], w));
    forall i | 0 <= i < |s| ensures 0 <= s[i] < Capacity(w, h) { NumberBound(body[i], w, h); }
    forall i, j | 0 <= i < j < |s| ensures s[i] != s[j] {
      if s[i] == s[j] { NumberTellsApart(body[i], body[j], w, h); }
    }
    Crowded(s, Capacity(w, h));
    Scaled(w - 2, 126, h - 3);
    if |body| < Capacity(w, h) {
      var k: nat :| k < Capacity(w, h) && k !in s;
      var p := SpotNumbered(k, w, h);
      assert forall i :: 0 <= i < |body| ==> s[i] in s && s[i] == Number(body[i], w);
      assert Inside(p, w, h) && p !in body;
    }
    if p :| Inside(p, w, h) && p !in body {
      NumberBound(p, w, h);
      if Number(p, w) in s {
        var i :| 0 <= i < |s| && s[i] == Number(p, w);
        NumberTellsApart(p, body[i], w, h);
      }
    }
  }

  // ----------------------------------------------------------- the picture

  /** What the game means to show at a cell below the status line. */
  function Glyph(body: seq<Spot>, food: Spot, x: nat, y: nat, w: nat, h: nat): int {
    if x == 0 || x + 1 == w then '|' as int
    else if y == 1 || y + 1 == h then '-' as int
    else if body != [] && Spot(x, y) == body[|body| - 1] then 'O' as int
    else if Spot(x, y) in body then 'o' as int
    else if Spot(x, y) == food then '*' as int
    else SPACE
  }

  /** The cells the picture is about: everything below the status line, except the two
      cells at the start of row 1 that a long status line runs into. */
  predicate Shown(x: nat, y: nat, w: nat, h: nat) { x < w && 1 <= y < h && (y == 1 ==> 2 <= x) }

  ghost predicate Pictured(t: Term, cols: nat, rows: nat, body: seq<Spot>, food: Spot, w: nat, h: nat)
    requires TermOk(t, cols, rows) && w <= cols && h <= rows
  {
    forall x: nat, y: nat {:trigger t.cells[y][x]} :: Shown(x, y, w, h) ==>
      t.cells[y][x].ch == Glyph(body, food, x, y, w, h)
  }

  ghost predicate Blank(t: Term, cols: nat, rows: nat) {
    TermOk(t, cols, rows) && forall x: nat, y: nat :: x < cols && y < rows ==> t.cells[y][x].ch == SPACE
  }

  /** cell(): one character put at (x, y). */
  function Draw(t: Term, cols: nat, rows: nat, x: nat, y: nat, c: int, fg: nat): (t': Term)
    requires TermOk(t, cols, rows)
    ensures TermOk(t', cols, rows)
  {
    Putc(SetXY(t, cols, rows, x, y), cols, rows, c, fg, C_BLACK)
  }

  ghost predicate Changes(t: Term, t': Term, cols: nat, rows: nat, x: nat, y: nat, c: int)
    requires TermOk(t, cols, rows) && TermOk(t', cols, rows)
  {
    forall x': nat, y': nat {:trigger t'.cells[y'][x']} :: x' < cols && y' < rows ==>
      t'.cells[y'][x'].ch == if x' == x && y' == y then c else t.cells[y'][x'].ch
  }

  predicate Corner(cols: nat, rows: nat, x: nat, y: nat) { x + 1 == cols && y + 1 == rows }

  /** A drawn character changes its own cell and no other, unless it is the one in the
      bottom right corner: that one scrolls the whole console. */
  lemma DrawChanges(t: Term, cols: nat, rows: nat, x: nat, y: nat, c: int, fg: nat)
    requires TermOk(t, cols, rows) && x < cols && y < rows && 0x20 <= c < 0x7F
    ensures !Corner(cols, rows, x, y) ==> Changes(t, Draw(t, cols, rows, x, y, c, fg), cols, rows, x, y, c)
    ensures Corner(cols, rows, x, y) ==> Draw(t, cols, rows, x, y, c, fg).cells[y][x].ch == SPACE
  {
  }

  /** The first cell appears. */
  lemma PictureHatch(t: Term, t': Term, cols: nat, rows: nat, w: nat, h: nat, p: Spot)
    requires TermOk(t, cols, rows) && TermOk(t', cols, rows) && w <= cols && h <= rows && Inside(p, w, h)
    requires Pictured(t, cols, rows, [], Spot(0, 0), w, h) && Changes(t, t', cols, rows, p.x, p.y, 'O' as int)
    ensures Pictured(t', cols, rows, [p], Spot(0, 0), w, h)
  {
  }

  /** The head moves on: the old head becomes body, the new one is drawn. */
  lemma PictureHead(t: Term, t1: Term, t2: Term, cols: nat, rows: nat, body: seq<Spot>, food: Spot, w: nat, h: nat,
                    p: Spot)
    requires TermOk(t, cols, rows) && TermOk(t1, cols, rows) && TermOk(t2, cols, rows) && w <= cols && h <= rows
    requires body != [] && Inside(p, w, h) && Inside(body[|body| - 1], w, h) && p !in body
    requires Pictured(t, cols, rows, body, food, w, h)
    requires Changes(t, t1, cols, rows, body[|body| - 1].x, body[|body| - 1].y, 'o' as int)
    requires Changes(t1, t2, cols, rows, p.x, p.y, 'O' as int)
    ensures Pictured(t2, cols, rows, body + [p], food, w, h)
  {
    var last := body[|body| - 1];
    assert last in body;
    forall x: nat, y: nat | Shown(x, y, w, h)
      ensures t2.cells[y][x].ch == Glyph(body + [p], food, x, y, w, h)
    {
      assert Spot(x, y) in body + [p] <==> Spot(x, y) in body || Spot(x, y) == p;
      assert t1.cells[y][x].ch == if x == last.x && y == last.y then 'o' as int else t.cells[y][x].ch;
    }
  }

  /** New food, once the old one is under the head or was nowhere. */
  lemma PictureFood(t: Term, t': Term, cols: nat, rows: nat, body: seq<Spot>, food: Spot, w: nat, h: nat, p: Spot)
    requires TermOk(t, cols, rows) && TermOk(t', cols, rows) && w <= cols && h <= rows
    requires body != [] && Inside(p, w, h) && p !in body && (food in body || !Inside(food, w, h))
    requires Pictured(t, cols, rows, body, food, w, h) && Changes(t, t', cols, rows, p.x, p.y, '*' as int)
    ensures Pictured(t', cols, rows, body, p, w, h)
  {
  }

  /** The tail cell is blanked. */
  lemma PictureTail(t: Term, t': Term, cols: nat, rows: nat, body: seq<Spot>, food: Spot, w: nat, h: nat)
    requires TermOk(t, cols, rows) && TermOk(t', cols, rows) && w <= cols && h <= rows
    requires |body| > 1 && Distinct(body) && Inside(body[0], w, h) && food !in body
    requires Pictured(t, cols, rows, body, food, w, h) && Changes(t, t', cols, rows, body[0].x, body[0].y, SPACE)
    ensures Pictured(t', cols, rows, body[1..], food, w, h)
  {
    assert body[1..][|body| - 2] == body[|body| - 1];
    forall q ensures q in body[1..] <==> q in body && q != body[0] {
      if q in body && q != body[0] {
        var i :| 0 <= i < |body| && body[i] == q;
        assert body[1..][i - 1] == q;
      }
    }
  }

  // --------------------------------------------------------- the status line

  function Number10(n: nat): (s: seq<int>)
    ensures 1 <= |s| && forall i :: 0 <= i < |s| ==> 0x30 <= s[i] <= 0x39
  {
    if n < 10 then [0x30 + n] else Number10(n / 10) + [0x30 + n % 10]
  }

  /** The digits say the number. */
  function Value10(s: seq<int>): int {
    if s == [] then 0 else 10 * Value10(s[..|s| - 1]) + (s[|s| - 1] - '0' as int)
  }

  lemma {:induction false} NumberSays(n: nat)
    ensures Value10(Number10(n)) == n && (|Number10(n)| > 1 ==> Number10(n)[0] != '0' as int)
  {
    var s := Number10(n);
    if n < 10 {
      assert s[..0] == [] && Value10(s[..0]) == 0;
    } else {
      NumberSays(n / 10);
      assert s[..|s| - 1] == Number10(n / 10);
    }
  }

  lemma Number10Short(n: nat)
    requires n < 10000
    ensures |Number10(n)| <= 4
  {
    if n >= 10 {
      assert |Number10(n)| == |Number10(n / 10)| + 1;
      if n >= 100 {
        assert |Number10(n / 10)| == |Number10(n / 100)| + 1 by { assert n / 10 / 10 == n / 100; }
        if n >= 1000 {
          assert |Number10(n / 100)| == |Number10(n / 1000)| + 1 by { assert n / 100 / 10 == n / 1000; }
        }
      }
    }
  }

  function Codes(s: string): (r: seq<int>)
    ensures |r| == |s| && forall i :: 0 <= i < |s| ==> r[i] == s[i] as int
  {
    seq(|s|, i requires 0 <= i < |s| => s[i] as int)
  }

  /** Writing n printable characters from column 2 of row 0 changes nothing below but the
      first cells of row 1, and those only if the line is too long. */
  ghost predicate OnlyStatus(t: Term, t': Term, cols: nat, rows: nat, n: nat)
    requires TermOk(t, cols, rows) && TermOk(t', cols, rows)
  {
    forall x: nat, y: nat {:trigger t'.cells[y][x]} :: x < cols && 1 <= y < rows && (y == 1 ==> x + cols >= 2 + n) ==>
      t'.cells[y][x] == t.cells[y][x]
  }

  lemma StatusPicture(t: Term, t': Term, cols: nat, rows: nat, n: nat, body: seq<Spot>, food: Spot, w: nat, h: nat)
    requires TermOk(t, cols, rows) && TermOk(t', cols, rows) && w <= cols && h <= rows
    requires n <= cols && OnlyStatus(t, t', cols, rows, n) && Pictured(t, cols, rows, body, food, w, h)
    ensures Pictured(t', cols, rows, body, food, w, h)
  {
    forall x: nat, y: nat | Shown(x, y, w, h)
      ensures t'.cells[y][x].ch == Glyph(body, food, x, y, w, h)
    {
      assert t'.cells[y][x] == t.cells[y][x];
    }
  }

  predicate StatusAt(t: Term, cols: nat, n: nat) {
    if 2 + n < cols then t.cx == 2 + n && t.cy == 0 else t.cx == 2 + n - cols && t.cy == 1
  }

  predicate Clean(s: seq<int>) { forall i :: 0 <= i < |s| ==> 0x20 <= s[i] < 0x7F }

  lemma CleanTexts(n: nat)
    ensures Clean(Codes("snake  ")) && Clean(Codes("score ")) && Clean(Number10(n)) && Clean(Codes("   "))
  {
  }

  lemma StatusPieces(n: nat)
    ensures [] + Codes("snake  ") + Codes("score ") + Number10(n) + Codes("   ") == StatusLine(n)
  {
    assert Codes("snake  ") + Codes("score ") == Codes("snake  score ");
  }

  /** What status() writes. */
  function StatusLine(score: nat): seq<int> {
    Codes("snake  score ") + Number10(score) + Codes("   ")
  }

  /** Row 0 says this from column 2 on, as far as it reaches. */
  ghost predicate Says(t: Term, cols: nat, said: seq<int>)
    requires t.cells != [] && |t.cells[0]| == cols
  {
    forall k: nat {:trigger said[k]} :: k < |said| && 2 + k < cols ==> t.cells[0][2 + k].ch == said[k]
  }

  lemma SaysStep(t: Term, cols: nat, rows: nat, said: seq<int>, c: int, fg: nat)
    requires TermOk(t, cols, rows) && StatusAt(t, cols, |said|) && |said| < cols && 3 <= cols && 3 <= rows
    requires 0x20 <= c < 0x7F && Says(t, cols, said)
    ensures Says(Putc(t, cols, rows, c, fg, C_BLACK), cols, said + [c])
  {
    var t' := Putc(t, cols, rows, c, fg, C_BLACK);
    forall k: nat | k < |said + [c]| && 2 + k < cols ensures t'.cells[0][2 + k].ch == (said + [c])[k] {
      if k < |said| { assert said[k] == t.cells[0][2 + k].ch; }
    }
  }

  lemma StatusStep(t0: Term, t: Term, cols: nat, rows: nat, n: nat, c: int, fg: nat)
    requires TermOk(t0, cols, rows) && TermOk(t, cols, rows) && OnlyStatus(t0, t, cols, rows, n)
    requires StatusAt(t, cols, n) && n + 1 <= cols && 3 <= cols && 3 <= rows && 0x20 <= c < 0x7F
    ensures OnlyStatus(t0, Putc(t, cols, rows, c, fg, C_BLACK), cols, rows, n + 1)
    ensures StatusAt(Putc(t, cols, rows, c, fg, C_BLACK), cols, n + 1)
  {
    var t' := Putc(t, cols, rows, c, fg, C_BLACK);
    forall x: nat, y: nat | x < cols && 1 <= y < rows && (y == 1 ==> x + cols >= 2 + (n + 1))
      ensures t'.cells[y][x] == t0.cells[y][x]
    {
      assert t.cells[y][x] == t0.cells[y][x];
    }
  }

  // --------------------------------------------------------------- the game

  function Pack(p: Spot): int { p.x * 256 + p.y }

  function Slot(tail: nat, k: nat): (i: nat)
    ensures i < SLOTS
  {
    (tail + k) % SLOTS
  }

  /** Ring slots less than a lap apart are different slots. */
  lemma SlotsApart(tail: nat, i: nat, j: nat)
    requires i < j < SLOTS
    ensures Slot(tail, i) != Slot(tail, j)
  {
  }

  lemma SlotNext(tail: nat, k: nat)
    ensures Slot(Slot(tail, 1), k) == Slot(tail, k + 1)
    ensures Slot(Slot(tail, k), 1) == Slot(tail, k + 1)
    ensures tail < SLOTS ==> Slot(tail, 0) == tail
  {
    ModMod(tail + 1, k);
    ModMod(tail + k, 1);
  }

  lemma ModMod(a: nat, b: nat)
    ensures (a % SLOTS + b) % SLOTS == (a + b) % SLOTS
  {
    var q, r := a / SLOTS, a % SLOTS;
    var q', r' := (r + b) / SLOTS, (r + b) % SLOTS;
    Unique(a + b, SLOTS, q + q', r');
  }

  /** The ring's slots from tail to head hold the snake. */
  ghost predicate RingHolds(ring: seq<int>, snake: seq<Spot>, tail: nat, head: nat) {
    && |ring| == SLOTS && 0 < |snake| <= SLOTS && tail < SLOTS && head == Slot(tail, |snake| - 1)
    && forall k {:trigger snake[k]} :: 0 <= k < |snake| ==> ring[Slot(tail, k)] == Pack(snake[k])
  }

  lemma RingPush(ring: seq<int>, snake: seq<Spot>, tail: nat, head: nat, p: Spot)
    requires RingHolds(ring, snake, tail, head) && |snake| < SLOTS
    ensures RingHolds(ring[Slot(head, 1) := Pack(p)], snake + [p], tail, Slot(head, 1))
  {
    hide Slot;
    SlotNext(tail, |snake| - 1);
    forall k {:trigger (snake + [p])[k]} | 0 <= k <= |snake|
      ensures ring[Slot(head, 1) := Pack(p)][Slot(tail, k)] == Pack((snake + [p])[k])
    {
      if k < |snake| {
        SlotsApart(tail, k, |snake|);
        assert ring[Slot(tail, k)] == Pack(snake[k]);
      }
    }
  }

  lemma RingPop(ring: seq<int>, snake: seq<Spot>, tail: nat, head: nat)
    requires RingHolds(ring, snake, tail, head) && |snake| > 1
    ensures RingHolds(ring, snake[1..], Slot(tail, 1), head) && ring[tail] == Pack(snake[0])
  {
    hide Slot;
    SlotNext(tail, 0);
    SlotNext(tail, |snake| - 2);
    forall k {:trigger snake[1..][k]} | 0 <= k < |snake| - 1
      ensures ring[Slot(Slot(tail, 1), k)] == Pack(snake[1..][k])
    {
      SlotNext(tail, k);
      assert ring[Slot(tail, k + 1)] == Pack(snake[k + 1]);
    }
  }

  /** The food spot of the n-th try. */
  function Try(draws: seq<nat>, n: nat, w: nat, h: nat): (p: Spot)
    requires 2 * n + 1 < |draws| && 20 <= w && 10 <= h
    ensures Inside(p, w, h)
  {
    Spot(1 + draws[2 * n] % (w - 2), 2 + draws[2 * n + 1] % (h - 3))
  }

  /** The first n tries all hit the snake. */
  predicate Missed(draws: seq<nat>, n: nat, w: nat, h: nat, body: seq<Spot>)
    requires 2 * n <= |draws| && 20 <= w && 10 <= h
  {
    forall i :: 0 <= i < n ==> Try(draws, i, w, h) in body
  }

  /** The food is eaten, and every try there is for new food hits the longer snake. */
  predicate Starves(g: Game, draws: seq<nat>, w: nat, h: nat)
    requires g.body != [] && 20 <= w && 10 <= h
  {
    !Dies(g, w, h) && Eats(g) && NoneLeft(draws, w, h, g.body + [Ahead(g.Head(), g.dir)])
  }

  /** Every try there is hits the snake. */
  predicate NoneLeft(draws: seq<nat>, w: nat, h: nat, body: seq<Spot>)
    requires 20 <= w && 10 <= h
  {
    Missed(draws, |draws| / 2, w, h, body)
  }

  datatype Outcome = Playing | Dead | Quit | NoFood

  class Board {
    const cols: nat
    const rows: nat
    const w: nat
    const h: nat
    const body: array<int>
    const occ: array2<bool>
    var t: Term
    var hx: int
    var hy: int
    var dx: int
    var dy: int
    var fx: int
    var fy: int
    var tail: nat
    var head: nat
    var score: nat
    var grow: nat
    /** The snake from tail to head. */
    ghost var snake: seq<Spot>

    predicate Sized() {
      && 20 <= w <= cols && 10 <= h <= rows && w <= MAXW && h <= MAXH
      && body.Length == SLOTS && occ.Length0 == MAXW && occ.Length1 == MAXH
    }

    /** The console is larger than the board in at least one direction. */
    predicate Roomy() { w < cols || h < rows }

    ghost predicate Marks(snake: seq<Spot>)
      reads occ
    {
      && occ.Length0 == MAXW && occ.Length1 == MAXH
      && forall x: nat, y: nat :: x < MAXW && y < MAXH ==> (occ[x, y] <==> Spot(x, y) in snake)
    }

    ghost predicate Shows(snake: seq<Spot>, food: Spot)
      reads this`t
    {
      Sized() && TermOk(t, cols, rows) && (Roomy() ==> Pictured(t, cols, rows, snake, food, w, h))
    }

    /** The score on the screen is the score. */
    ghost predicate Tells()
      reads this`t, this`score
    {
      Sized() && TermOk(t, cols, rows) && Says(t, cols, StatusLine(score))
    }

    ghost function Abs(): Game
      reads this
    {
      Game(snake, Spot(dx, dy), Spot(fx, fy), score, grow)
    }

    /** Between passes: the ring, the grid, the head and the screen all tell the same
        well-formed game. */
    ghost predicate Valid()
      reads this, body, occ
    {
      && Sized() && Good(Abs(), w, h) && Spot(hx, hy) == Abs().Head()
      && RingHolds(body[..], snake, tail, head) && Marks(snake) && Shows(snake, Spot(fx, fy))
      && Tells()
    }

    constructor (cols: nat, rows: nat, fg: nat)
      requires 20 <= cols && 10 <= rows
      ensures Sized() && w == (if cols > MAXW then MAXW else cols) && h == (if rows > MAXH then MAXH else rows)
      ensures this.cols == cols && this.rows == rows && Blank(t, cols, rows)
      ensures fresh(body) && fresh(occ) && Marks([])
    {
      this.cols, this.rows := cols, rows;
      this.w, this.h := if cols > MAXW then MAXW else cols, if rows > MAXH then MAXH else rows;
      t := Clear(cols, rows, fg, C_BLACK);
      body := new int[SLOTS](_ => 0);
      occ := new bool[MAXW, MAXH]((_, _) => false);
      hx, hy, dx, dy, fx, fy := 0, 0, 1, 0, 0, 0;
      tail, head, score, grow := 0, 0, 0, 2;
      snake := [];
    }

    /** cell() */
    method Put(x: nat, y: nat, c: int, fg: nat)
      requires Sized() && TermOk(t, cols, rows) && x < w && y < h && 0x20 <= c < 0x7F
      modifies this`t
      ensures TermOk(t, cols, rows)
      ensures !Corner(cols, rows, x, y) ==> Changes(old(t), t, cols, rows, x, y, c)
      ensures Corner(cols, rows, x, y) ==> t.cells[y][x].ch == SPACE
    {
      DrawChanges(t, cols, rows, x, y, c, fg);
      t := Draw(t, cols, rows, x, y, c, fg);
    }

    /** The border, drawn cell by cell. It comes out right exactly when the board leaves the
        console's bottom right corner alone: writing there scrolls the screen. */
    method Border()
      requires Sized() && Blank(t, cols, rows)
      modifies this`t
      ensures TermOk(t, cols, rows)
      ensures Roomy() <==> Pictured(t, cols, rows, [], Spot(0, 0), w, h)
    {
      for x := 0 to w
        invariant TermOk(t, cols, rows)
        invariant Roomy() ==> forall u: nat, v: nat {:trigger t.cells[v][u]} :: u < w && v < h ==>
                    t.cells[v][u].ch == if u < x && (v == 1 || v == h - 1) then '-' as int else SPACE
      {
        Put(x, 1, '-' as int, 8);
        Put(x, h - 1, '-' as int, 8);
      }
      for y := 1 to h
        invariant TermOk(t, cols, rows)
        invariant Roomy() ==> forall u: nat, v: nat {:trigger t.cells[v][u]} :: u < w && v < h ==>
                    t.cells[v][u].ch == if (u == 0 || u == w - 1) && 1 <= v < y then '|' as int
                                        else if v == 1 || v == h - 1 then '-' as int else SPACE
        invariant !Roomy() && y == h ==> t.cells[h - 1][w - 1].ch == SPACE
      {
        Put(0, y, '|' as int, 8);
        Put(w - 1, y, '|' as int, 8);
      }
      assert Shown(w - 1, h - 1, w, h);
      assert Glyph([], Spot(0, 0), w - 1, h - 1, w, h) == '|' as int;
    }

    method Print(s: seq<int>, fg: nat, ghost t0: Term, ghost said: seq<int>)
      requires Sized() && TermOk(t0, cols, rows) && TermOk(t, cols, rows)
      requires OnlyStatus(t0, t, cols, rows, |said|) && StatusAt(t, cols, |said|) && |said| + |s| <= cols
      requires Says(t, cols, said)
      requires Clean(s)
      modifies this`t
      ensures TermOk(t, cols, rows) && Says(t, cols, said + s)
      ensures OnlyStatus(t0, t, cols, rows, |said + s|) && StatusAt(t, cols, |said + s|)
    {
      hide OnlyStatus, Says, StatusAt;
      assert s[..0] == [] && said + s[..0] == said;
      for i := 0 to |s|
        invariant TermOk(t, cols, rows) && Says(t, cols, said + s[..i])
        invariant OnlyStatus(t0, t, cols, rows, |said| + i) && StatusAt(t, cols, |said| + i)
      {
        StatusStep(t0, t, cols, rows, |said| + i, s[i], fg);
        SaysStep(t, cols, rows, said + s[..i], s[i], fg);
        assert said + s[..i] + [s[i]] == said + s[..i + 1];
        t := Putc(t, cols, rows, s[i], fg, C_BLACK);
      }
      assert s[..|s|] == s;
    }

    /** status(): the score on row 0, which never spoils the board below. */
    method Status(ghost food: Spot)
      requires Shows(snake, food) && score < 10000
      modifies this`t
      ensures Shows(snake, food) && Tells()
    {
      hide OnlyStatus, Pictured, Says, Clean, StatusLine;
      CleanTexts(score);
      StatusPieces(score);
      ghost var t0, number := t, Number10(score);
      Number10Short(score);
      t := SetXY(t, cols, rows, 2, 0);
      StatusStarts(t0, cols, rows);
      Print(Codes("snake  "), 14, t0, []);
      Print(Codes("score "), 7, t0, [] + Codes("snake  "));
      Print(Number10(score), 11, t0, [] + Codes("snake  ") + Codes("score "));
      Print(Codes("   "), 7, t0, [] + Codes("snake  ") + Codes("score ") + number);
      if Roomy() {
        StatusPicture(t0, t, cols, rows, 16 + |number|, snake, food, w, h);
      }
    }

    lemma StatusStarts(t0: Term, cols: nat, rows: nat)
      requires TermOk(t0, cols, rows) && 20 <= cols && 10 <= rows
      ensures var t' := SetXY(t0, cols, rows, 2, 0);
              TermOk(t', cols, rows) && OnlyStatus(t0, t', cols, rows, 0) && StatusAt(t', cols, 0) && Says(t', cols, [])
    {
    }

    /** Draw until a spot off the snake comes up: the first one that does is taken. It can
        fail only when the draws run out. */
    method PlaceFood(draws: seq<nat>) returns (ok: bool, used: nat)
      requires Sized() && Marks(snake)
      modifies this`fx, this`fy
      ensures used <= |draws| && used % 2 == 0
      ensures ok ==> used > 0 && Spot(fx, fy) == Try(draws, used / 2 - 1, w, h) && Spot(fx, fy) !in snake
                     && Missed(draws, used / 2 - 1, w, h, snake)
      ensures !ok ==> |draws| - used < 2
      ensures !ok <==> NoneLeft(draws, w, h, snake)
    {
      used := 0;
      while used + 2 <= |draws|
        invariant used <= |draws| && used % 2 == 0
        invariant Missed(draws, used / 2, w, h, snake)
      {
        ghost var n := used / 2;
        fx := 1 + draws[used] % (w - 2);
        fy := 2 + draws[used + 1] % (h - 3);
        assert Spot(fx, fy) == Try(draws, n, w, h);
        used := used + 2;
        if !occ[fx, fy] {
          return true, used;
        }
      }
      ok := false;
    }

    /** The keys waiting: the last arrow wins, but never straight back; q and Esc quit. */
    method Steer(keys: seq<int>) returns (quit: bool)
      modifies this`dx, this`dy
      ensures quit <==> exists i :: 0 <= i < |keys| && Quits(keys[i])
      ensures Spot(dx, dy) == if quit then Spot(old(dx), old(dy))
                              else Turned(Spot(old(dx), old(dy)), Wanted(keys, Spot(old(dx), old(dy))))
    {
      var d := Spot(dx, dy);
      var ndx, ndy := dx, dy;
      for i := 0 to |keys|
        invariant Spot(ndx, ndy) == Wanted(keys[..i], d) && dx == old(dx) && dy == old(dy)
        invariant forall j :: 0 <= j < i ==> !Quits(keys[j])
      {
        assert keys[..i + 1][..i] == keys[..i];
        if Quits(keys[i]) { return true; }
        if keys[i] == KEY_UP { ndx, ndy := 0, -1; }
        if keys[i] == KEY_DOWN { ndx, ndy := 0, 1; }
        if keys[i] == KEY_LEFT { ndx, ndy := -1, 0; }
        if keys[i] == KEY_RIGHT { ndx, ndy := 1, 0; }
      }
      assert keys[..|keys|] == keys;
      if !(ndx == -dx && ndy == -dy) { dx, dy := ndx, ndy; }
      quit := false;
    }

    /** The one-cell snake in the middle of the board. */
    method Hatch()
      requires Sized() && Marks([]) && Shows([], Spot(0, 0))
      modifies this, body, occ
      ensures snake == [Spot(w / 2, h / 2)] && Spot(hx, hy) == snake[0]
      ensures (dx, dy, score, grow) == (1, 0, 0, 2)
      ensures RingHolds(body[..], snake, tail, head) && Marks(snake) && Shows(snake, Spot(0, 0))
    {
      hide Pictured, Changes;
      hx, hy, dx, dy := w / 2, h / 2, 1, 0;
      tail, head, score, grow := 0, 0, 0, 2;
      body[0] := Pack(Spot(hx, hy));
      occ[hx, hy] := true;
      snake := [Spot(hx, hy)];
      ghost var t0 := t;
      Put(hx, hy, 'O' as int, 10);
      if Roomy() { PictureHatch(t0, t, cols, rows, w, h, snake[0]); }
    }

    /** Opening position: one cell in the middle, and the first food. */
    method Open(draws: seq<nat>) returns (ok: bool, used: nat)
      requires Sized() && Marks([]) && Blank(t, cols, rows)
      modifies this, body, occ
      ensures used <= |draws| && (!ok <==> NoneLeft(draws, w, h, [Spot(w / 2, h / 2)]))
      ensures ok ==> Valid() && Abs() == Game([Spot(w / 2, h / 2)], Spot(1, 0), Spot(fx, fy), 0, 2)
    {
      hide Pictured, Tells;
      Border();
      Hatch();
      ok, used := PlaceFood(draws);
      if !ok { return; }
      DrawFood(Spot(0, 0));
      Status(Spot(fx, fy));
    }

    // ------------------------------------------------------------ one pass

    /** The new head, in the ring and the grid. */
    method PushHead(p: Spot)
      requires RingHolds(body[..], snake, tail, head) && Marks(snake) && |snake| < SLOTS
      requires 0 <= p.x < MAXW && 0 <= p.y < MAXH
      modifies this`head, this`snake, body, occ
      ensures snake == old(snake) + [p] && RingHolds(body[..], snake, tail, head) && Marks(snake)
    {
      RingPush(body[..], snake, tail, head, p);
      head := (head + 1) % SLOTS;
      body[head] := Pack(p);
      assert body[..] == old(body[..])[Slot(old(head), 1) := Pack(p)];
      occ[p.x, p.y] := true;
      snake := snake + [p];
    }

    /** The tail cell leaves: read back from the ring, unmarked, blanked. */
    method PopTail(ghost food: Spot)
      requires RingHolds(body[..], snake, tail, head) && Marks(snake) && Shows(snake, food) && |snake| > 1
      requires Distinct(snake) && Inside(snake[0], w, h) && food !in snake
      modifies this`tail, this`snake, this`t, occ
      ensures snake == old(snake)[1..] && RingHolds(body[..], snake, tail, head) && Marks(snake) && Shows(snake, food)
      ensures old(Tells()) ==> Tells()
    {
      ghost var t0, p := t, snake[0];
      RingPop(body[..], snake, tail, head);
      var tx, ty := body[tail] / 256, body[tail] % 256;
      Unmark(tx, ty);
      Put(tx, ty, SPACE, 7);
      if Roomy() { PictureTail(t0, t, cols, rows, snake, food, w, h); }
      tail := (tail + 1) % SLOTS;
      snake := snake[1..];
    }

    method Unmark(x: nat, y: nat)
      requires Marks(snake) && snake != [] && Distinct(snake) && Spot(x, y) == snake[0] && x < MAXW && y < MAXH
      modifies occ
      ensures Marks(snake[1..])
    {
      occ[x, y] := false;
      forall q ensures q in snake[1..] <==> q in snake && q != snake[0] {
        if q in snake && q != snake[0] {
          var i :| 0 <= i < |snake| && snake[i] == q;
          assert snake[1..][i - 1] == q;
        }
      }
    }

    /** One pass of the main loop, up to the sleep. It ends the game exactly when a key asks
        for it or the next cell is wall or snake, or when the food is eaten and every draw
        there is hits the snake; otherwise it is the move of the rules, with food (when eaten)
        at the first draw that misses the snake. */
    method Step(keys: seq<int>, draws: seq<nat>) returns (out: Outcome, used: nat)
      requires Valid()
      modifies this, body, occ
      ensures used <= |draws|
      ensures out == Quit <==> exists i :: 0 <= i < |keys| && Quits(keys[i])
      ensures out == Quit ==> Valid() && Abs() == old(Abs())
      ensures out == Dead <==> out != Quit && Dies(Steered(old(Abs()), keys), w, h)
      ensures out == NoFood <==> out != Quit && Starves(Steered(old(Abs()), keys), draws, w, h)
      ensures out == Playing ==> Valid() && Abs() == Moved(Steered(old(Abs()), keys), Spot(fx, fy))
                                 && Survives(old(Abs()), Pass(keys, Spot(fx, fy)), w, h)
      ensures out == Playing && Eats(Steered(old(Abs()), keys)) ==>
                used > 0 && used % 2 == 0 && Spot(fx, fy) == Try(draws, used / 2 - 1, w, h)
                && Missed(draws, used / 2 - 1, w, h, old(snake) + [Spot(hx, hy)])
    {
      hide Good, Sound, Survives, Shows, Marks, RingHolds, Dies, Eats, Pictured, NoneLeft, Missed, Tells;
      ghost var g0 := Abs();
      ghost var g := Steered(g0, keys);
      StartPass(g0, keys);
      used := 0;
      var quit := Steer(keys);
      if quit { return Quit, used; }
      var dead := Advance(g);
      if dead { return Dead, used; }
      var ok: bool;
      ok, used := Feed(g, draws);
      if !ok { return NoFood, used; }
      Trim(g);
      EndPass(g0, g, keys, Spot(fx, fy));
      out := Playing;
    }

    lemma EndPass(g0: Game, g: Game, keys: seq<int>, food: Spot)
      requires Sized() && Sound(g0, w, h) && g == Steered(g0, keys) && Sound(g, w, h) && !Dies(g, w, h)
      requires forall i :: 0 <= i < |keys| ==> !Quits(keys[i])
      requires Eats(g) ==> Inside(food, w, h) && food !in g.body + [Ahead(g.Head(), g.dir)]
      ensures Good(Moved(g, food), w, h) && Survives(g0, Pass(keys, food), w, h)
    {
      forall q | q in g.body ensures q in g.body + [Ahead(g.Head(), g.dir)] { }
      assert Ahead(g.Head(), g.dir) in g.body + [Ahead(g.Head(), g.dir)];
      MoveKeepsGood(g, w, h, food);
    }

    lemma StartPass(g: Game, keys: seq<int>)
      requires Sized() && Good(g, w, h)
      ensures Sound(g, w, h) && Sound(Steered(g, keys), w, h)
    {
      WantedUnit(keys, g.dir);
    }

    /** Midway through a pass: the head has moved on and the tail has not. */
    ghost predicate Stretched(g: Game)
      reads this, body, occ
    {
      && Sized() && Sound(g, w, h) && !Dies(g, w, h)
      && Spot(hx, hy) == Ahead(g.Head(), g.dir) && Spot(dx, dy) == g.dir && snake == g.body + [Spot(hx, hy)]
      && RingHolds(body[..], snake, tail, head) && Marks(snake) && Shows(snake, Spot(fx, fy))
    }

    method Advance(ghost g: Game) returns (dead: bool)
      requires Sized() && Sound(g, w, h) && g == Abs() && Spot(hx, hy) == g.Head()
      requires RingHolds(body[..], snake, tail, head) && Marks(snake) && Shows(snake, Spot(fx, fy))
      modifies this`hx, this`hy, this`t, this`head, this`snake, body, occ
      ensures dead <==> Dies(g, w, h)
      ensures !dead ==> Stretched(g) && (old(Tells()) ==> Tells())
    {
      hide Pictured, RingHolds, Distinct, Connected, Tells;
      BoardRoom(snake, w, h);
      assert Inside(g.Head(), w, h);
      var px, py := hx, hy;
      hx, hy := hx + dx, hy + dy;
      var p := Spot(hx, hy);
      if hx <= 0 || hx >= w - 1 || hy <= 1 || hy >= h - 1 || occ[hx, hy] {
        return true;
      }
      DrawMove(px, py);
      PushHead(p);
      dead := false;
    }

    /** The food, if the head is on it: a longer snake to come, and new food. */
    method Feed(ghost g: Game, draws: seq<nat>) returns (ok: bool, used: nat)
      requires Stretched(g) && Spot(fx, fy) == g.food && score == g.score && grow == g.grow
      modifies this`score, this`grow, this`fx, this`fy, this`t
      ensures used <= |draws|
      ensures Eats(g) ==> score == g.score + 1 && grow == g.grow + 1
      ensures !Eats(g) ==> ok && used == 0 && score == g.score && grow == g.grow && Spot(fx, fy) == g.food
      ensures !ok <==> Eats(g) && NoneLeft(draws, w, h, g.body + [Ahead(g.Head(), g.dir)])
      ensures ok ==> Stretched(g) && Inside(Spot(fx, fy), w, h) && Spot(fx, fy) !in snake
                     && (old(Tells()) || Eats(g) ==> Tells())
      ensures ok && Eats(g) ==> used > 0 && used % 2 == 0 && Spot(fx, fy) == Try(draws, used / 2 - 1, w, h)
                                && Missed(draws, used / 2 - 1, w, h, snake)
    {
      hide Pictured, RingHolds, Distinct, Connected, AllInside, Marks, Tells;
      used, ok := 0, true;
      if hx == fx && hy == fy {
        BoardRoom(g.body, w, h);
        ghost var food := Spot(fx, fy);
        score, grow := score + 1, grow + 1;
        Status(food);
        ok, used := PlaceFood(draws);
        if !ok { return; }
        DrawFood(food);
      }
    }

    /** Growing uses up a promise; otherwise the tail leaves. */
    method Trim(ghost g: Game)
      requires Stretched(g) && Spot(fx, fy) !in snake
      modifies this`grow, this`tail, this`snake, this`t, occ
      ensures snake == if old(grow) > 0 then g.body + [Spot(hx, hy)] else g.body[1..] + [Spot(hx, hy)]
      ensures grow == if old(grow) > 0 then old(grow) - 1 else 0
      ensures RingHolds(body[..], snake, tail, head) && Marks(snake) && Shows(snake, Spot(fx, fy))
      ensures old(Tells()) ==> Tells()
    {
      hide Pictured, RingHolds, Tells;
      if grow > 0 {
        grow := grow - 1;
      } else {
        Longer(g.body, Spot(hx, hy), w, h);
        assert (g.body + [Spot(hx, hy)])[1..] == g.body[1..] + [Spot(hx, hy)];
        PopTail(Spot(fx, fy));
      }
    }

    /** The old head becomes body and the new head appears. */
    method DrawMove(px: nat, py: nat)
      requires snake != [] && snake[|snake| - 1] == Spot(px, py) && Inside(Spot(px, py), w, h)
      requires Inside(Spot(hx, hy), w, h) && Spot(hx, hy) !in snake && Shows(snake, Spot(fx, fy))
      modifies this`t
      ensures Shows(snake + [Spot(hx, hy)], Spot(fx, fy)) && (old(Tells()) ==> Tells())
    {
      ghost var t0 := t;
      Put(px, py, 'o' as int, 2);
      ghost var t1 := t;
      Put(hx, hy, 'O' as int, 10);
      if Roomy() {
        PictureHead(t0, t1, t, cols, rows, snake, Spot(fx, fy), w, h, Spot(hx, hy));
      }
    }

    method DrawFood(ghost was: Spot)
      requires Shows(snake, was) && snake != [] && Spot(fx, fy) !in snake && Inside(Spot(fx, fy), w, h)
      requires was in snake || !Inside(was, w, h)
      modifies this`t
      ensures Shows(snake, Spot(fx, fy)) && (old(Tells()) ==> Tells())
    {
      ghost var t0 := t;
      Put(fx, fy, '*' as int, 12);
      if Roomy() {
        PictureFood(t0, t, cols, rows, snake, was, w, h, Spot(fx, fy));
      }
    }
  }

  /** The keys and the random numbers one pass finds. */
  datatype Inputs = Inputs(keys: seq<int>, draws: seq<nat>)

  /** For one: on a console of 80 by 30 the board fills it, and the border comes out wrong. */
  method BorderExample() returns (b: Board)
    ensures b.Sized() && b.w == b.cols == 80 && b.h == b.rows == 30 && TermOk(b.t, 80, 30)
    ensures !Pictured(b.t, 80, 30, [], Spot(0, 0), 80, 30)
  {
    b := new Board(80, 30, 7);
    b.Border();
  }

  /** How a pass that finds these keys and draws ends, from game g. */
  predicate Ends(out: Outcome, g: Game, keys: seq<int>, draws: seq<nat>, w: nat, h: nat)
    requires g.body != [] && 20 <= w && 10 <= h
  {
    var quit := exists i :: 0 <= i < |keys| && Quits(keys[i]);
    match out
    case Quit => quit
    case Dead => !quit && Dies(Steered(g, keys), w, h)
    case NoFood => !quit && Starves(Steered(g, keys), draws, w, h)
    case Playing => !quit && !Dies(Steered(g, keys), w, h) && !Starves(Steered(g, keys), draws, w, h)
  }

  /** The program: refuse a console that is too small, set up, and run the passes. The game up
      to the last pass is the game of the rules under these very keys, everything in the board
      agrees with it while it is on, and it ends as the keys of the next pass say. */
  method Play(cols: nat, rows: nat, fg: nat, first: seq<nat>, passes: seq<Inputs>)
    returns (code: nat, out: Outcome, b: Board?, ghost begun: bool, ghost start: Game, ghost log: seq<Pass>,
      ghost g: Game)
    ensures code == 1 <==> cols < 20 || rows < 10
    ensures code == 0 ==> b != null && 20 <= b.w && 10 <= b.h
    ensures code == 0 ==> (begun <==> !NoneLeft(first, b.w, b.h, [Spot(b.w / 2, b.h / 2)]))
    ensures code == 0 && !begun ==> out == NoFood
    ensures code == 0 && begun ==>
              && start == Game([Spot(b.w / 2, b.h / 2)], Spot(1, 0), start.food, 0, 2) && Good(start, b.w, b.h)
              && Played(start, log, g, b.w, b.h) && Good(g, b.w, b.h)
              && |log| <= |passes| && (forall i :: 0 <= i < |log| ==> log[i].keys == passes[i].keys)
              && (out == Playing <==> |log| == |passes|)
              && (out == Playing ==> b.Valid() && b.Abs() == g)
              && (out != Playing ==> Ends(out, g, passes[|log|].keys, passes[|log|].draws, b.w, b.h))
  {
    hide Played, Survives, Good, RingHolds, Pictured, Moved, Dies, Eats, Starves, NoneLeft;
    log, b, out, begun := [], null, Dead, false;
    start := Game([], Spot(0, 0), Spot(0, 0), 0, 0);
    g := start;
    if cols < 20 || rows < 10 { code := 1; return; }
    code := 0;
    b := new Board(cols, rows, fg);
    var ok, used := b.Open(first);
    if !ok { out := NoFood; return; }
    start, begun, g := b.Abs(), true, b.Abs();
    out, log, g := Passes(b, passes);
  }

  /** The main loop. */
  method Passes(b: Board, passes: seq<Inputs>) returns (out: Outcome, ghost log: seq<Pass>, ghost g: Game)
    requires b.Valid()
    modifies b, b.body, b.occ
    ensures Good(old(b.Abs()), b.w, b.h) && Good(g, b.w, b.h) && 20 <= b.w && 10 <= b.h
    ensures Played(old(b.Abs()), log, g, b.w, b.h)
    ensures |log| <= |passes| && forall i :: 0 <= i < |log| ==> log[i].keys == passes[i].keys
    ensures out == Playing <==> |log| == |passes|
    ensures out == Playing ==> b.Valid() && b.Abs() == g
    ensures g.body != [] && (out != Playing ==> Ends(out, g, passes[|log|].keys, passes[|log|].draws, b.w, b.h))
  {
    hide Played, Survives, Good, RingHolds, Pictured, Moved, Dies, Eats, Starves;
    ghost var start := b.Abs();
    log, g, out := [], start, Playing;
    PlayedNone(start, b.w, b.h);
    for i := 0 to |passes|
      invariant out == Playing && b.Valid() && b.Abs() == g && |log| == i
      invariant Played(start, log, g, b.w, b.h) && Good(g, b.w, b.h) && Good(start, b.w, b.h)
      invariant forall k :: 0 <= k < i ==> log[k].keys == passes[k].keys
    {
      GoodBody(g, b.w, b.h);
      var used: nat;
      out, used := b.Step(passes[i].keys, passes[i].draws);
      if out != Playing { return; }
      ghost var p := Pass(passes[i].keys, b.Abs().food);
      PlayedMore(start, log, g, p, b.w, b.h);
      log, g := log + [p], b.Abs();
    }
    GoodBody(g, b.w, b.h);
  }

  lemma GoodBody(g: Game, w: nat, h: nat)
    requires Good(g, w, h)
    ensures g.body != []
  {
  }
}
