/** The four-level page tables as values: entries, the walk the processor makes,
    the shape the kernel keeps them in, and what each kind of entry write does to
    the walk. `Paging` performs these writes in place and uses the lemmas here. */
module PageTable {
  import opened Wrappers

  // ---------------------------------------------------------------- entries

  /** One table entry: the bits the kernel uses, and the address field. */
  datatype Entry = Entry(p: bool, w: bool, u: bool, ps: bool, nx: bool, addr: nat)

  const EMPTY: Entry := Entry(false, false, false, false, false, 0)

  type Index = i: nat | i < 512

  type Table = t: seq<Entry> | |t| == 512 witness seq(512, _ => EMPTY)

  /** What kalloc_page hands out, read as a table. */
  function ZeroTable(): (t: Table) { seq(512, _ => EMPTY) }

  /** A page of the 48-bit address space, as the indices the walk uses. */
  datatype Vpage = Vpage(i4: Index, i3: Index, i2: Index, i1: Index)

  function At(q: Vpage, level: nat): Index
    requires 1 <= level <= 4
  {
    match level case 4 => q.i4 case 3 => q.i3 case 2 => q.i2 case _ => q.i1
  }

  // ------------------------------------------------------- the hardware walk

  /** The outcome of a successful translation: the page's physical address and what
      ring 3 (u), writes (w) and instruction fetches (x) may do with it. */
  datatype Xlate = Xlate(pa: nat, w: bool, u: bool, x: bool)

  /** Distance of page q from the start of a leaf met at the given level. */
  function LeafOffset(q: Vpage, level: nat): nat {
    if level <= 1 then 0 else if level == 2 then q.i1 * 4096 else (q.i2 * 512 + q.i1) * 4096
  }

  /** The processor's walk from table t (Intel SDM volume 3A, sections 4.5 and 4.6):
      a page is writable or user-accessible when every level says so, and executable
      when no level forbids it. PS is reserved at level 4 and means nothing at level 1. */
  function Walk(ts: map<nat, Table>, t: nat, level: nat, q: Vpage): Option<Xlate>
    requires 1 <= level <= 4
    decreases level
  {
    if t !in ts then None else
    var e := ts[t][At(q, level)];
    if !e.p || (e.ps && level == 4) then None
    else if level == 1 || e.ps then
      Some(Xlate(e.addr + LeafOffset(q, level), e.w, e.u, !e.nx))
    else
      match Walk(ts, e.addr, level - 1, q)
      case None => None
      case Some(x) => Some(Xlate(x.pa, x.w && e.w, x.u && e.u, x.x && !e.nx))
  }

  // ------------------------------------------------------------- tree shape

  /** Where a table sits: the indices that lead to it from the root. */
  datatype Pos = Pml4 | Pdpt(i4: Index) | Pd(i4: Index, i3: Index) | Pt(i4: Index, i3: Index, i2: Index)

  function Level(pos: Pos): (level: nat)
    ensures 1 <= level <= 4
  {
    match pos case Pml4 => 4 case Pdpt(_) => 3 case Pd(_, _) => 2 case Pt(_, _, _) => 1
  }

  function Child(pos: Pos, i: Index): Pos
    requires !pos.Pt?
  {
    match pos case Pml4 => Pdpt(i) case Pdpt(a) => Pd(a, i) case Pd(a, b) => Pt(a, b, i)
  }

  /** The slot of the parent table through which a table is reached. */
  function Slot(pos: Pos): Index
    requires !pos.Pml4?
  {
    match pos case Pdpt(i) => i case Pd(_, i) => i case Pt(_, _, i) => i
  }

  /** Does the walk for q go through a table at this position? */
  predicate On(pos: Pos, q: Vpage) {
    match pos
    case Pml4 => true
    case Pdpt(a) => q.i4 == a
    case Pd(a, b) => q.i4 == a && q.i3 == b
    case Pt(a, b, c) => q.i4 == a && q.i3 == b && q.i2 == c
  }

  /** An address space: the table pages in memory and the root, with the position and
      the parent of every table page. */
  datatype Space = Space(ts: map<nat, Table>, root: nat, pos: map<nat, Pos>, up: map<nat, nat>)

  /** The whole translation, as the processor sees it. */
  ghost function View(s: Space, q: Vpage): Option<Xlate> { Walk(s.ts, s.root, 4, q) }

  predicate IsLink(pos: Pos, e: Entry) { e.p && !pos.Pt? && !e.ps }

  ghost predicate Domains(s: Space) {
    s.ts.Keys == s.pos.Keys && s.ts.Keys == s.up.Keys && s.root in s.ts && s.pos[s.root] == Pml4
  }

  /** The entry that leads to table t. */
  ghost function ParentEntry(s: Space, t: nat): Entry
    requires t in s.up && t in s.pos && s.up[t] in s.ts && !s.pos[t].Pml4?
  {
    s.ts[s.up[t]][Slot(s.pos[t])]
  }

  /** Every table but the root hangs off exactly the entry its position names. */
  ghost predicate GoodTable(s: Space, t: nat)
    requires Domains(s) && t in s.ts
  {
    t == s.root
    || (&& !s.pos[t].Pml4? && t != 0
        && var p := s.up[t];
           p in s.ts && !s.pos[p].Pt? && s.pos[t] == Child(s.pos[p], Slot(s.pos[t]))
           && IsLink(s.pos[p], ParentEntry(s, t)) && ParentEntry(s, t).addr == t)
  }

  /** Has ring 3 been let through every entry above table t? */
  ghost predicate UAbove(s: Space, t: nat)
    requires Domains(s) && t in s.ts && GoodTable(s, t)
  {
    t == s.root || ParentEntry(s, t).u
  }

  /** What the kernel keeps true of every entry: 2 MiB leaves only in page directories
      and never for ring 3; links are writable and executable, lead to the table one
      level down, and carry U as soon as anything below does; an unused root entry is
      all zero (the unmap loop and vm_user_ok test its address, not its P bit). */
  ghost predicate GoodEntry(s: Space, t: nat, i: Index)
    requires Domains(s) && t in s.ts && GoodTable(s, t)
  {
    var e := s.ts[t][i];
    && (e.p && e.ps ==> s.pos[t].Pd? && !e.u)
    && (IsLink(s.pos[t], e) ==>
          && e.w && !e.nx && e.addr in s.ts && e.addr != s.root
          && s.pos[e.addr] == Child(s.pos[t], i) && s.up[e.addr] == t)
    && (e.p && e.u ==> UAbove(s, t))
    && (!e.p && s.pos[t].Pml4? ==> e.addr == 0)
  }

  ghost predicate Tree(s: Space) {
    && Domains(s)
    && (forall t {:trigger GoodTable(s, t)} :: t in s.ts ==> GoodTable(s, t))
    && (forall t, i: Index {:trigger GoodEntry(s, t, i)} :: t in s.ts ==> GoodEntry(s, t, i))
  }

  // --------------------------------------------------- facts about the walk

  /** Seen from any table on the way, the walk gives the same answer: the upper levels
      never take away a permission that a leaf grants, so the leaf alone decides. */
  lemma {:induction false} AscendWalk(s: Space, t: nat, q: Vpage)
    requires Tree(s) && t in s.ts && On(s.pos[t], q)
    ensures View(s, q) == Walk(s.ts, t, Level(s.pos[t]), q)
    decreases 4 - Level(s.pos[t])
  {
    assert GoodTable(s, t);
    if t == s.root {
    } else {
      var p, i := s.up[t], Slot(s.pos[t]);
      assert GoodEntry(s, p, i) && GoodEntry(s, t, At(q, Level(s.pos[t])));
      AscendWalk(s, p, q);
      assert At(q, Level(s.pos[p])) == i;
    }
  }

  /** Is the entry that the walk for q meets in table x the same in `ts`? */
  ghost predicate SameEntry(s: Space, ts: map<nat, Table>, x: nat, q: Vpage)
    requires x in s.ts && x in s.pos
  {
    x in ts && (On(s.pos[x], q) ==> var i := At(q, Level(s.pos[x])); ts[x][i] == s.ts[x][i])
  }

  /** A walk only depends on the entries it meets at its own level and below. */
  lemma {:induction false} WalkFrame(s: Space, ts: map<nat, Table>, t: nat, q: Vpage)
    requires Tree(s) && t in s.ts && On(s.pos[t], q)
    requires forall x {:trigger SameEntry(s, ts, x, q)} ::
               x in s.ts && Level(s.pos[x]) <= Level(s.pos[t]) ==> SameEntry(s, ts, x, q)
    ensures Walk(ts, t, Level(s.pos[t]), q) == Walk(s.ts, t, Level(s.pos[t]), q)
    decreases Level(s.pos[t])
  {
    assert GoodTable(s, t) && GoodEntry(s, t, At(q, Level(s.pos[t]))) && SameEntry(s, ts, t, q);
    var e := s.ts[t][At(q, Level(s.pos[t]))];
    if IsLink(s.pos[t], e) {
      WalkFrame(s, ts, e.addr, q);
    }
  }

  // ------------------------------------------------------- the entry writes

  function SetEntry(s: Space, t: nat, i: Index, e: Entry): Space
    requires t in s.ts
  {
    s.(ts := s.ts[t := s.ts[t][i := e]])
  }

  /** Hang the new table n, holding `tab`, below entry i of t. */
  function Attach(s: Space, t: nat, i: Index, n: nat, tab: Table, user: bool): Space
    requires t in s.ts && t in s.pos && !s.pos[t].Pt?
  {
    Space(s.ts[n := tab][t := s.ts[t][i := Entry(true, true, user, false, false, n)]],
          s.root, s.pos[n := Child(s.pos[t], i)], s.up[n := t])
  }

  predicate Through(s: Space, t: nat, i: Index, q: Vpage)
    requires t in s.pos
  {
    On(s.pos[t], q) && At(q, Level(s.pos[t])) == i
  }

  /** One shape for every write: entry (t, i) changes, at most one table n is added,
      and the tree facts hold for what is new. Then they hold everywhere. */
  ghost predicate Rewrites(s: Space, s': Space, t: nat, i: Index)
    requires Tree(s) && t in s.ts
  {
    && Domains(s') && s'.root == s.root
    && (forall x {:trigger x in s'.ts} :: x in s.ts ==> x in s'.ts && (x != t ==> s'.ts[x] == s.ts[x]))
    && (forall j: Index :: j != i ==> s'.ts[t][j] == s.ts[t][j])
    && (forall x {:trigger s'.pos[x]} :: x in s.ts ==> x in s'.pos && s'.pos[x] == s.pos[x])
    && (forall x {:trigger s'.up[x]} :: x in s.ts ==> x in s'.up && s'.up[x] == s.up[x])
  }

  /** The rewritten entry keeps the link it held, if it held one, and never loses U. */
  ghost predicate KeepsLink(s: Space, s': Space, t: nat, i: Index)
    requires Tree(s) && t in s.ts && Rewrites(s, s', t, i)
  {
    var e, e' := s.ts[t][i], s'.ts[t][i];
    IsLink(s.pos[t], e) ==> IsLink(s.pos[t], e') && e'.addr == e.addr && (e.u ==> e'.u)
  }

  /** Writing entry (t, i) leaves alone every page whose walk does not meet it. */
  lemma FrameAway(s: Space, s': Space, t: nat, i: Index, q: Vpage)
    requires Tree(s) && t in s.ts && Rewrites(s, s', t, i)
    requires !Through(s, t, i, q)
    ensures View(s', q) == View(s, q)
  {
    forall x | x in s.ts ensures SameEntry(s, s'.ts, x, q) {
    }
    WalkFrame(s, s'.ts, s.root, q);
  }

  /** Old tables keep their place, and ring 3 keeps its way down to them. */
  lemma OldTable(s: Space, s': Space, t: nat, i: Index, x: nat)
    requires Tree(s) && t in s.ts && Rewrites(s, s', t, i) && KeepsLink(s, s', t, i) && x in s.ts
    ensures GoodTable(s', x)
    ensures GoodTable(s, x) && (UAbove(s, x) ==> UAbove(s', x))
  {
    assert GoodTable(s, x);
    if x != s.root {
      assert GoodEntry(s, s.up[x], Slot(s.pos[x]));
    }
  }

  /** Every other entry of an old table is as good as before. */
  lemma OldEntry(s: Space, s': Space, t: nat, i: Index, x: nat, j: Index)
    requires Tree(s) && t in s.ts && Rewrites(s, s', t, i) && KeepsLink(s, s', t, i)
    requires x in s.ts && (x != t || j != i)
    ensures GoodTable(s', x) && GoodEntry(s', x, j)
  {
    OldTable(s, s', t, i, x);
    assert GoodEntry(s, x, j);
    assert s'.ts[x][j] == s.ts[x][j];
  }

  /** Every entry of every table is good in s', given the one that was written and
      those of a new table. */
  lemma TreeAgain(s: Space, s': Space, t: nat, i: Index)
    requires Tree(s) && t in s.ts && Rewrites(s, s', t, i) && KeepsLink(s, s', t, i)
    requires GoodTable(s', t) ==> GoodEntry(s', t, i)
    requires forall x {:trigger GoodTable(s', x)} :: x in s'.ts && x !in s.ts ==> GoodTable(s', x)
    requires forall x, j: Index {:trigger GoodEntry(s', x, j)} ::
               x in s'.ts && x !in s.ts && GoodTable(s', x) ==> GoodEntry(s', x, j)
    ensures Tree(s')
  {
    forall x | x in s'.ts ensures GoodTable(s', x) {
      if x in s.ts { OldTable(s, s', t, i, x); }
    }
    forall x, j: Index | x in s'.ts ensures GoodEntry(s', x, j) {
      if x in s.ts && (x != t || j != i) { OldEntry(s, s', t, i, x, j); }
    }
  }

  // ------------------------------------------------------ attaching a table

  lemma AttachRewrites(s: Space, t: nat, i: Index, n: nat, tab: Table, user: bool)
    requires Tree(s) && t in s.ts && !s.pos[t].Pt? && !IsLink(s.pos[t], s.ts[t][i]) && n !in s.ts
    ensures var s' := Attach(s, t, i, n, tab, user); Rewrites(s, s', t, i) && KeepsLink(s, s', t, i)
  {
  }

  predicate Leaves(tab: Table) { forall j: Index :: !tab[j].ps && !tab[j].u }

  /** Attaching a table of small leaves, or of empty entries, keeps the tree. */
  lemma AttachTree(s: Space, t: nat, i: Index, n: nat, tab: Table, user: bool)
    requires Tree(s) && t in s.ts && !s.pos[t].Pt? && !IsLink(s.pos[t], s.ts[t][i])
    requires n !in s.ts && n != 0
    requires user ==> GoodTable(s, t) && UAbove(s, t)
    requires tab == ZeroTable() || (s.pos[t].Pd? && Leaves(tab))
    ensures var s' := Attach(s, t, i, n, tab, user);
            Tree(s') && (user ==> UAbove(s', n))
  {
    var s' := Attach(s, t, i, n, tab, user);
    AttachRewrites(s, t, i, n, tab, user);
    OldTable(s, s', t, i, t);
    assert GoodTable(s', n);
    forall j: Index ensures GoodEntry(s', n, j) {
    }
    assert GoodEntry(s', t, i);
    TreeAgain(s, s', t, i);
  }

  /** next_level, absent entry: hanging a zeroed table there translates nothing new. */
  lemma AttachZeroView(s: Space, t: nat, i: Index, n: nat, user: bool, q: Vpage)
    requires Tree(s) && t in s.ts && !s.pos[t].Pt? && !s.ts[t][i].p
    requires n !in s.ts && n != 0
    requires user ==> GoodTable(s, t) && UAbove(s, t)
    ensures View(Attach(s, t, i, n, ZeroTable(), user), q) == View(s, q)
  {
    var s' := Attach(s, t, i, n, ZeroTable(), user);
    AttachTree(s, t, i, n, ZeroTable(), user);
    if Through(s, t, i, q) {
      AscendWalk(s, t, q);
      AscendWalk(s', n, q);
    } else {
      AttachRewrites(s, t, i, n, ZeroTable(), user);
      FrameAway(s, s', t, i, q);
    }
  }

  /** The 512 small entries pt_for writes in place of a 2 MiB leaf. */
  function Split(e: Entry): (t: Table) {
    var es := seq(512, j requires 0 <= j < 512 => Entry(e.p, e.w, e.u, false, e.nx, e.addr + j * 4096));
    es
  }

  /** pt_for, 2 MiB leaf in the way: the split table translates exactly as the leaf did. */
  lemma SplitView(s: Space, t: nat, i: Index, n: nat, user: bool, q: Vpage)
    requires Tree(s) && t in s.ts && s.pos[t].Pd? && s.ts[t][i].p && s.ts[t][i].ps
    requires n !in s.ts && n != 0
    requires user ==> GoodTable(s, t) && UAbove(s, t)
    ensures var s' := Attach(s, t, i, n, Split(s.ts[t][i]), user);
            Tree(s') && (user ==> UAbove(s', n)) && View(s', q) == View(s, q)
  {
    var e := s.ts[t][i];
    var s' := Attach(s, t, i, n, Split(e), user);
    assert GoodEntry(s, t, i);
    assert Leaves(Split(e));
    AttachTree(s, t, i, n, Split(e), user);
    if Through(s, t, i, q) {
      SplitThrough(s, t, i, n, user, q);
    } else {
      AttachRewrites(s, t, i, n, Split(e), user);
      FrameAway(s, s', t, i, q);
    }
  }

  /** The pages of the leaf that is split. */
  lemma SplitThrough(s: Space, t: nat, i: Index, n: nat, user: bool, q: Vpage)
    requires Tree(s) && t in s.ts && s.pos[t].Pd? && s.ts[t][i].p && s.ts[t][i].ps
    requires n !in s.ts && n != 0 && Through(s, t, i, q)
    requires Tree(Attach(s, t, i, n, Split(s.ts[t][i]), user))
    ensures View(Attach(s, t, i, n, Split(s.ts[t][i]), user), q) == View(s, q)
  {
    var s' := Attach(s, t, i, n, Split(s.ts[t][i]), user);
    hide Tree;
    AscendWalk(s, t, q);
    AscendWalk(s', n, q);
  }

  // ---------------------------------------------------------- letting ring 3 by

  lemma GrantTree(s: Space, t: nat, i: Index)
    requires Tree(s) && t in s.ts && IsLink(s.pos[t], s.ts[t][i])
    requires GoodTable(s, t) && UAbove(s, t)
    ensures var s' := SetEntry(s, t, i, s.ts[t][i].(u := true));
            Tree(s') && Rewrites(s, s', t, i)
            && s.ts[t][i].addr in s.ts && UAbove(s', s.ts[t][i].addr)
  {
    var s' := SetEntry(s, t, i, s.ts[t][i].(u := true));
    assert GoodEntry(s, t, i);
    OldTable(s, s', t, i, t);
    TreeAgain(s, s', t, i);
    OldTable(s, s', t, i, s.ts[t][i].addr);
  }

  /** next_level with `user` on an existing link: adding U changes no translation,
      because nothing below carries U unless the link already did. */
  lemma GrantView(s: Space, t: nat, i: Index, q: Vpage)
    requires Tree(s) && t in s.ts && IsLink(s.pos[t], s.ts[t][i])
    requires GoodTable(s, t) && UAbove(s, t)
    ensures View(SetEntry(s, t, i, s.ts[t][i].(u := true)), q) == View(s, q)
  {
    var e := s.ts[t][i];
    var s' := SetEntry(s, t, i, e.(u := true));
    GrantTree(s, t, i);
    if Through(s, t, i, q) {
      assert GoodEntry(s, t, i);
      AscendWalk(s, e.addr, q);
      AscendWalk(s', e.addr, q);
      forall x | x in s.ts && Level(s.pos[x]) <= Level(s.pos[e.addr]) ensures SameEntry(s, s'.ts, x, q) {
      }
      WalkFrame(s, s'.ts, e.addr, q);
    } else {
      FrameAway(s, s', t, i, q);
    }
  }

  // ------------------------------------------------------------ writing leaves

  /** Writing a leaf (or clearing one) where there was no link keeps the tree. */
  lemma LeafTree(s: Space, t: nat, i: Index, e: Entry)
    requires Tree(s) && t in s.ts && (s.pos[t].Pd? || s.pos[t].Pt?)
    requires !IsLink(s.pos[t], s.ts[t][i]) && !IsLink(s.pos[t], e)
    requires e.p && e.ps ==> s.pos[t].Pd? && !e.u
    requires e.p && e.u ==> GoodTable(s, t) && UAbove(s, t)
    ensures Tree(SetEntry(s, t, i, e)) && Rewrites(s, SetEntry(s, t, i, e), t, i)
  {
    var s' := SetEntry(s, t, i, e);
    OldTable(s, s', t, i, t);
    TreeAgain(s, s', t, i);
  }

  /** map_4k's last store, and the unmap loop's: one page of the view changes, to
      exactly what was asked. */
  lemma SmallLeafView(s: Space, t: nat, i: Index, e: Entry, q: Vpage)
    requires Tree(s) && t in s.ts && s.pos[t].Pt? && !(e.p && e.ps)
    requires e.p && e.u ==> GoodTable(s, t) && UAbove(s, t)
    ensures View(SetEntry(s, t, i, e), q) ==
            if !Through(s, t, i, q) then View(s, q)
            else if e.p then Some(Xlate(e.addr, e.w, e.u, !e.nx)) else None
  {
    var s' := SetEntry(s, t, i, e);
    LeafTree(s, t, i, e);
    if Through(s, t, i, q) {
      AscendWalk(s', t, q);
    } else {
      FrameAway(s, s', t, i, q);
    }
  }

  /** A 2 MiB store: the 512 pages of one region change together. */
  lemma LargeLeafView(s: Space, t: nat, i: Index, e: Entry, q: Vpage)
    requires Tree(s) && t in s.ts && s.pos[t].Pd? && !IsLink(s.pos[t], s.ts[t][i])
    requires e.p && e.ps && !e.u
    ensures View(SetEntry(s, t, i, e), q) ==
            if !Through(s, t, i, q) then View(s, q)
            else Some(Xlate(e.addr + q.i1 * 4096, e.w, false, !e.nx))
  {
    var s' := SetEntry(s, t, i, e);
    LeafTree(s, t, i, e);
    if Through(s, t, i, q) {
      AscendWalk(s', t, q);
    } else {
      FrameAway(s, s', t, i, q);
    }
  }
}
