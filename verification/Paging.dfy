/** The kernel's page tables in place (src/kernel/paging.c). */
module Paging {
  import opened Arithmetic
  import opened Wrappers
  import opened PageTable
  import opened Memory

  const PAGES: nat := 0x10_0000_0000          // pages of the 48-bit space
  const VA_END: nat := 0x1_0000_0000_0000
  const LARGE: nat := 0x20_0000               // 2 MiB
  const USER_BASE: nat := 0x7000_0000_0000
  const USER_TOP: nat := 0x7001_0000_0000

  /** (va>>39)&511 and its siblings. */
  function I4(va: nat): Index { va / 0x80_0000_0000 % 512 }
  function I3(va: nat): Index { va / 0x4000_0000 % 512 }
  function I2(va: nat): Index { va / LARGE % 512 }
  function I1(va: nat): Index { va / 4096 % 512 }

  /** The indices of page number v. */
  function Idx(v: nat): Vpage { Vpage(I4(v * 4096), I3(v * 4096), I2(v * 4096), I1(v * 4096)) }

  /** An offset into the page never carries into a division by whole pages. */
  lemma PageOf(v: nat, r: nat, n: nat)
    requires r < 4096 && 0 < n
    ensures (v * 4096 + r) / (n * 4096) == v * 4096 / (n * 4096) == v / n
  {
    var q, m := v / n, v % n;
    assert v == q * n + m;
    assert v * 4096 == q * (n * 4096) + m * 4096 by { assert q * n * 4096 == q * (n * 4096); }
    assert (m + 1) * 4096 <= n * 4096;
    Unique(v * 4096 + r, n * 4096, q, m * 4096 + r);
    Unique(v * 4096, n * 4096, q, m * 4096);
  }

  lemma IndicesOf(va: nat)
    requires va < VA_END
    ensures Idx(va / 4096) == Vpage(I4(va), I3(va), I2(va), I1(va)) && va / 4096 < PAGES
  {
    var v, r := va / 4096, va % 4096;
    assert va == v * 4096 + r;
    PageOf(v, r, 0x800_0000);
    PageOf(v, r, 0x4_0000);
    PageOf(v, r, 512);
  }

  /** A page number is its four indices, read as base-512 digits. */
  lemma Digits(v: nat)
    requires v < PAGES
    ensures var q := Idx(v); v == ((q.i4 * 512 + q.i3) * 512 + q.i2) * 512 + q.i1
    ensures Idx(v).i1 == v % 512 && v / 512 == (Idx(v).i4 * 512 + Idx(v).i3) * 512 + Idx(v).i2
  {
    var a := v / 512;
    var b := a / 512;
    var c := b / 512;
    assert v * 4096 / LARGE == a;
    assert v * 4096 / 0x4000_0000 == b;
    assert v * 4096 / 0x80_0000_0000 == c < 512;
  }

  function Number(q: Vpage): nat { ((q.i4 * 512 + q.i3) * 512 + q.i2) * 512 + q.i1 }

  lemma NumberInjective(q: Vpage, q': Vpage)
    ensures Number(q) == Number(q') <==> q == q'
    ensures Number(q) / 512 == Number(q') / 512 <==> q.i4 == q'.i4 && q.i3 == q'.i3 && q.i2 == q'.i2
  {
    assert Number(q) / 512 == (q.i4 * 512 + q.i3) * 512 + q.i2;
    assert Number(q') / 512 == (q'.i4 * 512 + q'.i3) * 512 + q'.i2;
  }

  /** Below 2^48 the indices determine the page, and all but the last its 2 MiB region. */
  lemma IdxInjective(v: nat, v': nat)
    requires v < PAGES && v' < PAGES
    ensures Idx(v) == Idx(v') <==> v == v'
    ensures (Idx(v).i4 == Idx(v').i4 && Idx(v).i3 == Idx(v').i3 && Idx(v).i2 == Idx(v').i2) <==> v / 512 == v' / 512
    ensures Idx(v).i1 == v % 512
  {
    Digits(v);
    Digits(v');
    var q, q' := Idx(v), Idx(v');
    NumberInjective(q, q');
  }

  /** What page v translates to. */
  ghost function Translate(s: Space, v: nat): Option<Xlate> { View(s, Idx(v)) }

  ghost predicate SameView(s: Space, s': Space) {
    forall q {:trigger View(s', q)} :: View(s', q) == View(s, q)
  }

  lemma SameViewTrans(s: Space, s': Space, s'': Space)
    requires SameView(s, s') && SameView(s', s'')
    ensures SameView(s, s'')
  {
  }

  /** Tables stay where they are: nothing is ever detached or moved. */
  ghost predicate Stays(s: Space, s': Space, t: nat) {
    t in s.pos ==> t in s'.pos && s'.pos[t] == s.pos[t]
  }

  ghost predicate Grown(s: Space, s': Space) {
    forall t {:trigger Stays(s, s', t)} :: Stays(s, s', t)
  }

  /** Page v's 2 MiB region is served by a table of 4 KiB entries. */
  ghost predicate HasPt(s: Space, v: nat) {
    exists t {:trigger t in s.pos} :: t in s.pos && s.pos[t].Pt? && On(s.pos[t], Idx(v))
  }

  /** No 4 KiB table exists yet. */
  ghost predicate NoPt(s: Space) { forall t {:trigger s.pos[t]} :: t in s.pos ==> !s.pos[t].Pt? }

  lemma TreeFacts(s: Space, t: nat, i: Index)
    requires Tree(s) && t in s.pos
    ensures Domains(s) && GoodTable(s, t) && GoodEntry(s, t, i)
  {
  }

  /** next_level's first store, on the whole space. */
  lemma HangEmpty(s: Space, t: nat, i: Index, n: nat, user: bool)
    requires Tree(s) && t in s.ts && !s.pos[t].Pt? && !s.ts[t][i].p
    requires n !in s.ts && n != 0
    requires user ==> GoodTable(s, t) && UAbove(s, t)
    ensures var s' := Attach(s, t, i, n, ZeroTable(), user);
            && Tree(s') && SameView(s, s') && Grown(s, s')
            && (user ==> GoodTable(s', n) && UAbove(s', n))
  {
    var s' := Attach(s, t, i, n, ZeroTable(), user);
    AttachTree(s, t, i, n, ZeroTable(), user);
    forall q ensures View(s', q) == View(s, q) {
      AttachZeroView(s, t, i, n, user, q);
    }
  }

  /** next_level's second store, on the whole space. */
  lemma Grant(s: Space, t: nat, i: Index)
    requires Tree(s) && t in s.ts && IsLink(s.pos[t], s.ts[t][i])
    requires GoodTable(s, t) && UAbove(s, t)
    ensures var s', c := SetEntry(s, t, i, s.ts[t][i].(u := true)), s.ts[t][i].addr;
            && Tree(s') && SameView(s, s') && Grown(s, s')
            && c in s'.ts && GoodTable(s', c) && UAbove(s', c)
  {
    var s' := SetEntry(s, t, i, s.ts[t][i].(u := true));
    GrantTree(s, t, i);
    forall q ensures View(s', q) == View(s, q) {
      GrantView(s, t, i, q);
    }
  }

  /** pt_for's split, on the whole space. */
  lemma SplitLarge(s: Space, t: nat, i: Index, n: nat, user: bool)
    requires Tree(s) && t in s.ts && s.pos[t].Pd? && s.ts[t][i].p && s.ts[t][i].ps
    requires n !in s.ts && n != 0
    requires user ==> GoodTable(s, t) && UAbove(s, t)
    ensures var s' := Attach(s, t, i, n, Split(s.ts[t][i]), user);
            && Tree(s') && SameView(s, s')
            && IsLink(s'.pos[t], s'.ts[t][i]) && GoodTable(s', t) && (UAbove(s', t) <==> UAbove(s, t))
  {
    var s' := Attach(s, t, i, n, Split(s.ts[t][i]), user);
    forall q ensures Tree(s') && View(s', q) == View(s, q) {
      SplitView(s, t, i, n, user, q);
    }
    SplitView(s, t, i, n, user, Idx(0));
    AttachRewrites(s, t, i, n, Split(s.ts[t][i]), user);
    OldTable(s, s', t, i, t);
  }

  /** The bits map_4k is given. */
  datatype Flags = Flags(p: bool, w: bool, u: bool, nx: bool)

  function Leaf(pa: nat, f: Flags): Option<Xlate> {
    if f.p then Some(Xlate(pa, f.w, f.u, !f.nx)) else None
  }

  /** The translation changes at page v and nowhere else. */
  ghost predicate MapsPage(s: Space, s': Space, v: nat, x: Option<Xlate>) {
    forall v' {:trigger Translate(s', v')} :: 0 <= v' < PAGES ==>
      Translate(s', v') == if v' == v then x else Translate(s, v')
  }

  /** The translation changes on the 512 pages of 2 MiB region r and nowhere else. */
  ghost predicate MapsRegion(s: Space, s': Space, r: nat, pa: nat, w: bool, nx: bool) {
    forall v {:trigger Translate(s', v)} :: 0 <= v < PAGES ==>
      Translate(s', v) == if v / 512 == r then Some(Xlate(pa + v % 512 * 4096, w, false, !nx)) else Translate(s, v)
  }

  /** A kernel identity mapping: read, write, no execute when the processor can say so. */
  function Identity(v: nat, nx: bool): Option<Xlate> { Some(Xlate(v * 4096, true, false, !nx)) }

  /** Only identity mappings of pages lo..hi that had none are added. */
  ghost predicate AddsIdentity(s: Space, s': Space, lo: nat, hi: nat, nx: bool) {
    forall v {:trigger Translate(s', v)} :: 0 <= v < PAGES ==>
      || Translate(s', v) == Translate(s, v)
      || (Translate(s, v) == None && lo <= v < hi && Translate(s', v) == Identity(v, nx))
  }

  /** Pages lo..hi are reachable: mapped, or under a 4 KiB table left as it was. */
  ghost predicate Served(s: Space, lo: nat, hi: nat) {
    forall v {:trigger Translate(s, v)} :: lo <= v < hi && v < PAGES ==> Translate(s, v).Some? || HasPt(s, v)
  }

  /** An identity store where the page directory had nothing. */
  lemma FillRegion(s0: Space, s: Space, t: nat, a: nat, nx: bool)
    requires Tree(s) && SameView(s0, s) && a < VA_END && a % LARGE == 0
    requires t in s.pos && s.pos[t] == Pd(I4(a), I3(a)) && !s.ts[t][I2(a)].p
    ensures var s' := SetEntry(s, t, I2(a), Entry(true, true, false, true, nx, a));
            && Tree(s') && s'.pos == s.pos
            && AddsIdentity(s0, s', a / LARGE * 512, a / LARGE * 512 + 512, nx)
            && Served(s', a / LARGE * 512, a / LARGE * 512 + 512)
  {
    var e := Entry(true, true, false, true, nx, a);
    var s' := SetEntry(s, t, I2(a), e);
    LargeLeaf(s0, s, t, a, e);
    forall v | 0 <= v < PAGES && v / 512 == a / LARGE
      ensures Translate(s0, v) == None && Translate(s', v) == Identity(v, nx)
    {
      IndicesOf(a);
      IdxInjective(v, a / 4096);
      assert a / 4096 / 512 == a / LARGE;
      AscendWalk(s, t, Idx(v));
      assert View(s, Idx(v)) == View(s0, Idx(v));
      assert a + v % 512 * 4096 == v * 4096;
    }
    forall v {:trigger Translate(s', v)} | 0 <= v < PAGES && v / 512 != a / LARGE
      ensures Translate(s', v) == Translate(s0, v)
    {
      assert View(s, Idx(v)) == View(s0, Idx(v));
    }
    Filled(s0, s', a, nx);
  }

  /** Adding the next region's identity mappings after those up to `hi`. */
  lemma AddsMore(s0: Space, s: Space, s': Space, lo: nat, hi: nat, nx: bool)
    requires lo <= hi && AddsIdentity(s0, s, lo, hi, nx) && AddsIdentity(s, s', hi, hi + 512, nx)
    ensures AddsIdentity(s0, s', lo, hi + 512, nx)
  {
    forall v | 0 <= v < PAGES
      ensures || Translate(s', v) == Translate(s0, v)
              || (Translate(s0, v) == None && lo <= v < hi + 512 && Translate(s', v) == Identity(v, nx))
    {
      assert Translate(s, v) == Translate(s0, v)
             || (Translate(s0, v) == None && lo <= v < hi && Translate(s, v) == Identity(v, nx));
    }
  }

  lemma AddsNothing(s: Space, lo: nat, hi: nat, nx: bool)
    ensures AddsIdentity(s, s, lo, hi, nx)
  {
  }

  lemma ServedNothing(s: Space, lo: nat)
    ensures Served(s, lo, lo)
  {
  }

  lemma Widen(s: Space, s': Space, lo: nat, hi: nat, hi': nat, nx: bool)
    requires AddsIdentity(s, s', lo, hi, nx) && hi <= hi'
    ensures AddsIdentity(s, s', lo, hi', nx)
  {
  }

  lemma ServedWithin(s: Space, lo: nat, hi: nat, lo': nat, hi': nat)
    requires Served(s, lo, hi) && lo <= lo' && hi' <= hi
    ensures Served(s, lo', hi')
  {
  }

  /** Regions served stay served while the next one is done. */
  lemma KeepServed(s: Space, s': Space, lo: nat, hi: nat, nx: bool)
    requires Served(s, lo, hi) && Served(s', hi, hi + 512)
    requires AddsIdentity(s, s', hi, hi + 512, nx) && Grown(s, s')
    ensures Served(s', lo, hi + 512)
  {
    forall v | lo <= v < hi + 512 && v < PAGES ensures Translate(s', v).Some? || HasPt(s', v) {
      if v < hi && Translate(s', v).None? {
        assert Translate(s, v).None?;
        var t :| t in s.pos && s.pos[t].Pt? && On(s.pos[t], Idx(v));
        assert Stays(s, s', t);
      }
    }
  }

  /** A present page-directory entry serves its whole region. */
  lemma RegionServed(s: Space, t: nat, a: nat, v: nat)
    requires Tree(s) && a < VA_END && v < PAGES && v / 512 == a / LARGE
    requires t in s.pos && s.pos[t] == Pd(I4(a), I3(a)) && s.ts[t][I2(a)].p
    ensures Translate(s, v).Some? || HasPt(s, v)
  {
    IndicesOf(a);
    IdxInjective(v, a / 4096);
    assert a / 4096 / 512 == a / LARGE;
    AscendWalk(s, t, Idx(v));
    assert GoodEntry(s, t, I2(a));
  }

  lemma RegionServes(s: Space, t: nat, a: nat)
    requires Tree(s) && a < VA_END && t in s.pos && s.pos[t] == Pd(I4(a), I3(a)) && s.ts[t][I2(a)].p
    ensures Served(s, a / LARGE * 512, a / LARGE * 512 + 512)
  {
    hide Tree;
    forall v | 0 <= v < PAGES && v / 512 == a / LARGE ensures Translate(s, v).Some? || HasPt(s, v) {
      RegionServed(s, t, a, v);
    }
  }

  lemma SameAdds(s0: Space, s: Space, a: nat, nx: bool)
    requires SameView(s0, s)
    ensures AddsIdentity(s0, s, a / LARGE * 512, a / LARGE * 512 + 512, nx)
  {
    forall v | 0 <= v < PAGES ensures Translate(s, v) == Translate(s0, v) {
      assert View(s, Idx(v)) == View(s0, Idx(v));
    }
  }

  lemma Filled(s0: Space, s: Space, a: nat, nx: bool)
    requires forall v {:trigger Translate(s, v)} :: 0 <= v < PAGES ==>
               if v / 512 == a / LARGE then Translate(s0, v) == None && Translate(s, v) == Identity(v, nx)
               else Translate(s, v) == Translate(s0, v)
    ensures AddsIdentity(s0, s, a / LARGE * 512, a / LARGE * 512 + 512, nx)
    ensures Served(s, a / LARGE * 512, a / LARGE * 512 + 512)
  {
  }

  /** Can ring 3 read page v? */
  ghost predicate UserPage(s: Space, v: nat) {
    Translate(s, v).Some? && Translate(s, v).value.u
  }

  /** Pages lo..hi are closed to ring 3; a mapping there is gone or is the kernel's and
      unchanged; pages elsewhere are unchanged. */
  ghost predicate Unmaps(s: Space, s': Space, lo: nat, hi: nat) {
    forall v {:trigger Translate(s', v)} :: 0 <= v < PAGES ==>
      if lo <= v < hi then Translate(s', v) == None || (Translate(s', v) == Translate(s, v) && !UserPage(s', v))
      else Translate(s', v) == Translate(s, v)
  }

  lemma UnmapsNothing(s: Space, lo: nat)
    ensures Unmaps(s, s, lo, lo)
  {
  }

  lemma UnmapsMore(s0: Space, s: Space, s': Space, lo: nat, hi: nat)
    requires lo <= hi && Unmaps(s0, s, lo, hi) && Unmaps(s, s', hi, hi + 1)
    ensures Unmaps(s0, s', lo, hi + 1)
  {
    forall v | 0 <= v < PAGES
      ensures if lo <= v < hi + 1
              then Translate(s', v) == None || (Translate(s', v) == Translate(s0, v) && !UserPage(s', v))
              else Translate(s', v) == Translate(s0, v)
    {
      if v != hi {
        assert Translate(s', v) == Translate(s, v);
      }
      assert Translate(s, v) == Translate(s, v);
    }
  }

  // ------------------------------------------------------------ paging_init

  /** A physical range paging_init maps above 4 GiB. */
  datatype Range = Range(base: nat, len: nat)

  const LOW: nat := 0x10_0000                 // pages below 4 GiB

  function RegionEnd(r: Range): nat { (r.base + r.len + LARGE - 1) / LARGE * 512 }

  /** Is page v mapped because of range r? */
  predicate Listed(r: Range, v: nat) {
    r.base != 0 && r.len != 0 && LOW <= v && r.base / LARGE * 512 <= v < RegionEnd(r)
  }

  ghost predicate AnyListed(extras: seq<Range>, n: nat, v: nat)
    requires n <= |extras|
  {
    exists k :: 0 <= k < n && Listed(extras[k], v)
  }

  /** The translation after the low 4 GiB, the first n ranges and pages lo..hi. */
  ghost predicate MapsInit(s: Space, extras: seq<Range>, n: nat, lo: nat, hi: nat, nx: bool)
    requires n <= |extras|
  {
    forall v {:trigger Translate(s, v)} :: 0 <= v < PAGES ==>
      Translate(s, v) ==
      if v < LOW || AnyListed(extras, n, v) || (LOW <= v && lo <= v < hi) then Identity(v, nx) else None
  }

  ghost predicate MapsLow(s: Space, hi: nat, nx: bool) {
    forall v {:trigger Translate(s, v)} :: 0 <= v < PAGES ==>
      Translate(s, v) == if v < hi then Identity(v, nx) else None
  }

  /** Pages lo..hi become identity mappings with the given permissions. */
  ghost predicate Protects(s: Space, s': Space, lo: nat, hi: nat, w: bool, nx: bool) {
    forall v {:trigger Translate(s', v)} :: 0 <= v < PAGES ==>
      Translate(s', v) == if lo <= v < hi then Some(Xlate(v * 4096, w, false, !nx)) else Translate(s, v)
  }

  /** A freshly allocated root translates nothing. */
  lemma EmptyRoot(n: nat, nx: bool)
    requires n != 0
    ensures var s := Space(map[n := ZeroTable()], n, map[n := Pml4], map[n := 0]);
            Tree(s) && NoPt(s) && MapsLow(s, 0, nx)
  {
  }

  lemma MoreLow(s: Space, s': Space, r: nat, nx: bool)
    requires MapsLow(s, r * 512, nx) && MapsRegion(s, s', r, r * LARGE, true, nx)
    ensures MapsLow(s', (r + 1) * 512, nx)
  {
  }

  lemma LowDone(s: Space, extras: seq<Range>, lo: nat, nx: bool)
    requires MapsLow(s, LOW, nx)
    ensures MapsInit(s, extras, 0, lo, lo, nx)
  {
  }

  lemma ExtraStart(s: Space, extras: seq<Range>, n: nat, lo: nat, nx: bool)
    requires n <= |extras| && MapsInit(s, extras, n, 0, 0, nx)
    ensures MapsInit(s, extras, n, lo, lo, nx)
  {
  }

  lemma MoreExtra(s: Space, s': Space, extras: seq<Range>, n: nat, lo: nat, r: nat, nx: bool)
    requires n <= |extras| && lo <= r * 512 && LOW <= r * 512
    requires MapsInit(s, extras, n, lo, r * 512, nx) && MapsRegion(s, s', r, r * LARGE, true, nx)
    ensures MapsInit(s', extras, n, lo, (r + 1) * 512, nx)
  {
  }

  lemma SkipExtra(s: Space, extras: seq<Range>, n: nat, lo: nat, r: nat, nx: bool)
    requires n <= |extras| && (r + 1) * 512 <= LOW && MapsInit(s, extras, n, lo, r * 512, nx)
    ensures MapsInit(s, extras, n, lo, (r + 1) * 512, nx)
  {
  }

  lemma ExtraDone(s: Space, extras: seq<Range>, n: nat, lo: nat, hi: nat, lo': nat, nx: bool)
    requires n < |extras| && MapsInit(s, extras, n, lo, hi, nx)
    requires forall v: nat :: Listed(extras[n], v) <==> LOW <= v && lo <= v < hi
    ensures MapsInit(s, extras, n + 1, lo', lo', nx)
  {
    forall v: nat ensures AnyListed(extras, n + 1, v) <==> AnyListed(extras, n, v) || Listed(extras[n], v) {
      if AnyListed(extras, n, v) {
        var k :| 0 <= k < n && Listed(extras[k], v);
      }
    }
  }

  /** Page-aligned-down start to page-aligned-up end. */
  predicate InPages(start: nat, end: nat, v: nat) { start / 4096 <= v < (end + 4095) / 4096 }

  /** Run-time addresses of the kernel's sections. */
  datatype Image = Image(textStart: nat, textEnd: nat, rodataStart: nat, rodataEnd: nat, dataStart: nat, kernelEnd: nat)
  {
    predicate Ordered() {
      textStart <= textEnd <= VA_END && rodataStart <= rodataEnd <= VA_END && dataStart <= kernelEnd <= VA_END
    }
  }

  /** What paging_init leaves page v translating to. */
  ghost function InitView(extras: seq<Range>, img: Image, nx: bool, v: nat): Option<Xlate> {
    if InPages(img.dataStart, img.kernelEnd, v) then Some(Xlate(v * 4096, true, false, !nx))
    else if InPages(img.rodataStart, img.rodataEnd, v) then Some(Xlate(v * 4096, false, false, !nx))
    else if InPages(img.textStart, img.textEnd, v) then Some(Xlate(v * 4096, false, false, true))
    else if v < LOW || AnyListed(extras, |extras|, v) then Identity(v, nx)
    else None
  }

  ghost predicate InitMaps(s: Space, extras: seq<Range>, img: Image, nx: bool) {
    forall v {:trigger Translate(s, v)} :: 0 <= v < PAGES ==> Translate(s, v) == InitView(extras, img, nx, v)
  }

  lemma InitDone(s0: Space, s1: Space, s2: Space, s3: Space, extras: seq<Range>, img: Image, nx: bool, v: nat)
    requires MapsInit(s0, extras, |extras|, 0, 0, nx) && v < PAGES
    requires Protects(s0, s1, img.textStart / 4096, (img.textEnd + 4095) / 4096, false, false)
    requires Protects(s1, s2, img.rodataStart / 4096, (img.rodataEnd + 4095) / 4096, false, nx)
    requires Protects(s2, s3, img.dataStart / 4096, (img.kernelEnd + 4095) / 4096, true, nx)
    ensures Translate(s3, v) == InitView(extras, img, nx, v)
  {
    assert Translate(s3, v) == Translate(s3, v);
    assert Translate(s2, v) == Translate(s2, v);
    assert Translate(s1, v) == Translate(s1, v);
    assert Translate(s0, v) == Translate(s0, v);
  }

  lemma ProtectsNothing(s: Space, lo: nat, w: bool, nx: bool)
    ensures Protects(s, s, lo, lo, w, nx)
  {
  }

  lemma ProtectsMore(s0: Space, s: Space, s': Space, lo: nat, hi: nat, w: bool, nx: bool)
    requires lo <= hi && Protects(s0, s, lo, hi, w, nx)
    requires MapsPage(s, s', hi, Some(Xlate(hi * 4096, w, false, !nx)))
    ensures Protects(s0, s', lo, hi + 1, w, nx)
  {
  }

  /** map_4k's store, read as a change of the page-number map. */
  lemma SmallLeaf(s0: Space, s: Space, t: nat, va: nat, e: Entry)
    requires Tree(s) && SameView(s0, s) && va < VA_END
    requires t in s.pos && s.pos[t] == Pt(I4(va), I3(va), I2(va)) && !e.ps
    requires e.u ==> GoodTable(s, t) && UAbove(s, t)
    ensures Tree(SetEntry(s, t, I1(va), e))
    ensures MapsPage(s0, SetEntry(s, t, I1(va), e), va / 4096,
                     if e.p then Some(Xlate(e.addr, e.w, e.u, !e.nx)) else None)
  {
    LeafTree(s, t, I1(va), e);
    IndicesOf(va);
    forall v | 0 <= v < PAGES
      ensures Translate(SetEntry(s, t, I1(va), e), v) ==
              if v == va / 4096 then (if e.p then Some(Xlate(e.addr, e.w, e.u, !e.nx)) else None)
              else Translate(s0, v)
    {
      IdxInjective(v, va / 4096);
      SmallLeafView(s, t, I1(va), e, Idx(v));
      assert View(s, Idx(v)) == View(s0, Idx(v));
    }
  }

  /** A 2 MiB store, read as a change of the page-number map. */
  lemma LargeLeaf(s0: Space, s: Space, t: nat, va: nat, e: Entry)
    requires Tree(s) && SameView(s0, s) && va < VA_END
    requires t in s.pos && s.pos[t] == Pd(I4(va), I3(va)) && !IsLink(s.pos[t], s.ts[t][I2(va)])
    requires e.p && e.ps && !e.u
    ensures Tree(SetEntry(s, t, I2(va), e))
    ensures MapsRegion(s0, SetEntry(s, t, I2(va), e), va / LARGE, e.addr, e.w, e.nx)
  {
    LeafTree(s, t, I2(va), e);
    IndicesOf(va);
    forall v | 0 <= v < PAGES
      ensures Translate(SetEntry(s, t, I2(va), e), v) ==
              if v / 512 == va / LARGE then Some(Xlate(e.addr + v % 512 * 4096, e.w, false, !e.nx))
              else Translate(s0, v)
    {
      IdxInjective(v, va / 4096);
      LargeLeafView(s, t, I2(va), e, Idx(v));
      assert View(s, Idx(v)) == View(s0, Idx(v));
      assert va / 4096 / 512 == va / LARGE;
    }
  }

  lemma RegionsLeft(end: nat, r: nat)
    ensures r * LARGE < end <==> r < (end + LARGE - 1) / LARGE
  {
  }

  class PageTables {
    const mem: Heap
    var pml4: nat          // 0 until paging_init has a root
    var nxOk: bool
    ghost var pos: map<nat, Pos>
    ghost var up: map<nat, nat>

    ghost function Sp(): Space
      reads this, mem
    {
      Space(mem.tables, pml4, pos, up)
    }

    ghost predicate Valid()
      reads this, mem
    {
      && mem.Valid()
      && (pml4 == 0 ==> mem.tables == map[] && pos == map[] && up == map[])
      && (pml4 != 0 ==> Tree(Sp()))
    }

    ghost predicate Live()
      reads this, mem
    {
      Valid() && pml4 != 0
    }

    constructor (mem: Heap)
      requires mem.Valid() && mem.tables == map[]
      ensures Valid() && this.mem == mem && pml4 == 0
    {
      this.mem, pml4, nxOk := mem, 0, false;
      pos, up := map[], map[];
    }

    /** next_level: one level down, allocating if absent. Never changes a translation. */
    method NextLevel(tab: nat, idx: Index, user: bool) returns (r: Option<nat>)
      requires Live() && tab in pos && !pos[tab].Pt?
      requires user ==> GoodTable(Sp(), tab) && UAbove(Sp(), tab)
      modifies this`pos, this`up, mem`heapAt, mem`tables, mem`frames
      ensures Live() && SameView(old(Sp()), Sp()) && mem.frames == old(mem.frames)
      ensures Grown(old(Sp()), Sp()) && (old(NoPt(Sp()) && !pos[tab].Pd?) ==> NoPt(Sp()))
      ensures old(mem.tables[tab][idx].p) ==> mem.Room() == old(mem.Room())
      ensures mem.Room() <= old(mem.Room()) <= mem.Room() + 1 && old(mem.heapAt) <= mem.heapAt
      ensures r.Some? ==> r.value in pos && pos[r.value] == old(Child(pos[tab], idx))
      ensures r.Some? && user ==> GoodTable(Sp(), r.value) && UAbove(Sp(), r.value)
      ensures r.Some? ==> old(IsLink(pos[tab], mem.tables[tab][idx])) || old(!mem.tables[tab][idx].p)
      ensures r.None? ==> old(mem.tables[tab][idx].p && mem.tables[tab][idx].ps)
                          || (old(mem.Room()) == 0 && old(!mem.tables[tab][idx].p))
    {
      hide Heap.Room, Tree;
      ghost var s := Sp();
      TreeFacts(s, tab, idx);
      var e := mem.tables[tab][idx];
      if !e.p {
        var n := mem.KallocPage(AsTable);
        if n.None? { return None; }
        mem.Store(tab, idx, Entry(true, true, user, false, false, n.value));
        pos, up := pos[n.value := Child(pos[tab], idx)], up[n.value := tab];
        assert Sp() == Attach(s, tab, idx, n.value, ZeroTable(), user);
        HangEmpty(s, tab, idx, n.value, user);
      } else if e.ps {
        return None;
      } else if user {
        mem.Store(tab, idx, e.(u := true));
        assert Sp() == SetEntry(s, tab, idx, e.(u := true));
        Grant(s, tab, idx);
      }
      r := Some(mem.tables[tab][idx].addr);
    }

    /** The fresh table that will stand in for large leaf e, filled entry by entry. */
    method SplitTable(e: Entry) returns (r: Option<nat>)
      requires mem.Valid()
      modifies mem`heapAt, mem`tables, mem`frames
      ensures mem.Valid() && mem.frames == old(mem.frames) && old(mem.heapAt) <= mem.heapAt
      ensures r.Some? <==> old(mem.Room()) > 0
      ensures mem.Room() == if r.Some? then old(mem.Room()) - 1 else 0
      ensures r.None? ==> mem.tables == old(mem.tables)
      ensures r.Some? ==> r.value != 0 && r.value !in old(mem.tables)
      ensures r.Some? ==> mem.tables == old(mem.tables)[r.value := Split(e)]
    {
      r := mem.KallocPage(AsTable);
      if r.None? { return; }
      var pt := r.value;
      ghost var t0 := mem.tables;
      for i := 0 to 512
        invariant mem.Valid() && pt in mem.tables && mem.tables == t0[pt := mem.tables[pt]]
        invariant mem.Room() == old(mem.Room()) - 1 && mem.frames == old(mem.frames) && old(mem.heapAt) <= mem.heapAt
        invariant forall j :: 0 <= j < i ==> mem.tables[pt][j] == Split(e)[j]
      {
        mem.Store(pt, i, Entry(e.p, e.w, e.u, false, e.nx, e.addr + i * 4096));
      }
      assert mem.tables[pt] == Split(e);
    }

    /** pt_for's inner block: replace a 2 MiB leaf by a table of 512 small ones with
        the same permissions. The leaf is only replaced once the table is full. */
    method SplitLargePage(pd: nat, di: Index, user: bool) returns (ok: bool)
      requires Live() && pd in pos && pos[pd].Pd?
      requires mem.tables[pd][di].p && mem.tables[pd][di].ps
      requires user ==> GoodTable(Sp(), pd) && UAbove(Sp(), pd)
      modifies this`pos, this`up, mem`heapAt, mem`tables, mem`frames
      ensures Live() && SameView(old(Sp()), Sp()) && mem.frames == old(mem.frames)
      ensures mem.Room() <= old(mem.Room()) <= mem.Room() + 1 && old(mem.heapAt) <= mem.heapAt
      ensures ok <==> old(mem.Room()) > 0
      ensures ok ==> pd in pos && pos[pd] == old(pos[pd]) && IsLink(pos[pd], mem.tables[pd][di])
      ensures ok && user ==> GoodTable(Sp(), pd) && UAbove(Sp(), pd)
    {
      hide Heap.Room, Tree;
      ghost var s := Sp();
      TreeFacts(s, pd, di);
      var e := mem.tables[pd][di];
      var n := SplitTable(e);
      if n.None? { return false; }
      var pt := n.value;
      mem.Store(pd, di, Entry(true, true, user, false, false, pt));
      pos, up := pos[pt := Child(pos[pd], di)], up[pt := pd];
      assert Sp() == Attach(s, pd, di, pt, Split(e), user);
      SplitLarge(s, pd, di, pt, user);
      ok := true;
    }

    /** The two next_level calls every operation starts with. */
    method PdFor(va: nat, user: bool) returns (r: Option<nat>)
      requires Live() && va < VA_END
      modifies this`pos, this`up, mem`heapAt, mem`tables, mem`frames
      ensures Live() && SameView(old(Sp()), Sp()) && mem.frames == old(mem.frames)
      ensures Grown(old(Sp()), Sp()) && (old(NoPt(Sp())) ==> NoPt(Sp()))
      ensures mem.Room() <= old(mem.Room()) <= mem.Room() + 2 && old(mem.heapAt) <= mem.heapAt
      ensures r.Some? ==> r.value in pos && pos[r.value] == Pd(I4(va), I3(va))
      ensures r.Some? && user ==> GoodTable(Sp(), r.value) && UAbove(Sp(), r.value)
      ensures r.None? ==> mem.Room() == 0
    {
      ghost var s0 := Sp();
      assert GoodTable(s0, pml4) && GoodEntry(s0, pml4, I4(va));
      var pdpt := NextLevel(pml4, I4(va), user);
      if pdpt.None? { return None; }
      ghost var s1 := Sp();
      assert GoodEntry(s1, pdpt.value, I3(va));
      r := NextLevel(pdpt.value, I3(va), user);
      SameViewTrans(s0, s1, Sp());
      forall t ensures Stays(s0, Sp(), t) {
        assert Stays(s0, s1, t) && Stays(s1, Sp(), t);
      }
    }

    /** pt_for: the page table for va, made or split as needed. */
    method PtFor(va: nat, user: bool) returns (r: Option<nat>)
      requires Live() && va < VA_END
      modifies this`pos, this`up, mem`heapAt, mem`tables, mem`frames
      ensures Live() && SameView(old(Sp()), Sp()) && mem.frames == old(mem.frames)
      ensures mem.Room() <= old(mem.Room()) <= mem.Room() + 3 && old(mem.heapAt) <= mem.heapAt
      ensures r.Some? ==> r.value in pos && pos[r.value] == Pt(I4(va), I3(va), I2(va))
      ensures r.Some? && user ==> GoodTable(Sp(), r.value) && UAbove(Sp(), r.value)
      ensures r.None? ==> mem.Room() == 0
    {
      ghost var s0 := Sp();
      var pd := PdFor(va, user);
      if pd.None? { return None; }
      ghost var s1 := Sp();
      var di := I2(va);
      if mem.tables[pd.value][di].p && mem.tables[pd.value][di].ps {
        var ok := SplitLargePage(pd.value, di, user);
        if !ok { return None; }
      }
      ghost var s2 := Sp();
      SameViewTrans(s0, s1, s2);
      r := NextLevel(pd.value, di, user);
      SameViewTrans(s0, s2, Sp());
    }

    /** map_4k: a one-point update of the translation when it succeeds, no change at
        all when it fails, and it fails only when the heap has run out. */
    method Map4k(va: nat, pa: nat, flags: Flags, user: bool) returns (ok: bool)
      requires Live() && va < VA_END
      requires flags.u ==> user
      modifies this`pos, this`up, mem`heapAt, mem`tables, mem`frames
      ensures Live() && mem.frames == old(mem.frames)
      ensures mem.Room() <= old(mem.Room()) <= mem.Room() + 3 && old(mem.heapAt) <= mem.heapAt
      ensures ok || mem.Room() == 0
      ensures ok ==> MapsPage(old(Sp()), Sp(), va / 4096, Leaf(pa, flags))
      ensures !ok ==> SameView(old(Sp()), Sp())
    {
      ghost var s0 := Sp();
      var pt := PtFor(va, user);
      if pt.None? { return false; }
      ghost var s1 := Sp();
      var e := Entry(flags.p, flags.w, flags.u, false, flags.nx, pa);
      mem.Store(pt.value, I1(va), e);
      assert Sp() == SetEntry(s1, pt.value, I1(va), e);
      SmallLeaf(s0, s1, pt.value, va, e);
      ok := true;
    }

    /** map_2m, on a region that holds no 4 KiB table. */
    method Map2m(va: nat, pa: nat, w: bool, nx: bool) returns (ok: bool)
      requires Live() && NoPt(Sp()) && va < VA_END
      modifies this`pos, this`up, mem`heapAt, mem`tables, mem`frames
      ensures Live() && NoPt(Sp()) && mem.frames == old(mem.frames)
      ensures ok || mem.Room() == 0
      ensures ok ==> MapsRegion(old(Sp()), Sp(), va / LARGE, pa, w, nx)
      ensures !ok ==> SameView(old(Sp()), Sp())
    {
      ghost var s0 := Sp();
      var pd := PdFor(va, false);
      if pd.None? { return false; }
      ghost var s1 := Sp();
      var e := Entry(true, w, false, true, nx, pa);
      assert GoodEntry(s1, pd.value, I2(va));
      mem.Store(pd.value, I2(va), e);
      assert Sp() == SetEntry(s1, pd.value, I2(va), e);
      LargeLeaf(s0, s1, pd.value, va, e);
      ok := true;
    }

    /** One round of vm_ensure_identity's loop. A region whose directory entry is
        present is left alone: it may be split or protected. */
    method EnsureRegion(a: nat) returns (ok: bool)
      requires Live() && a < VA_END && a % LARGE == 0
      modifies this`pos, this`up, mem`heapAt, mem`tables, mem`frames
      ensures Live() && mem.frames == old(mem.frames) && old(mem.heapAt) <= mem.heapAt
      ensures AddsIdentity(old(Sp()), Sp(), a / LARGE * 512, a / LARGE * 512 + 512, nxOk)
      ensures Grown(old(Sp()), Sp()) && (ok || mem.Room() == 0)
      ensures ok ==> Served(Sp(), a / LARGE * 512, a / LARGE * 512 + 512)
    {
      hide AddsIdentity, Served;
      ghost var s0 := Sp();
      var pd := PdFor(a, false);
      SameAdds(s0, Sp(), a, nxOk);
      if pd.None? { return false; }
      ghost var s1 := Sp();
      if mem.tables[pd.value][I2(a)].p {
        RegionServes(s1, pd.value, a);
      } else {
        mem.Store(pd.value, I2(a), Entry(true, true, false, true, nxOk, a));
        FillRegion(s0, s1, pd.value, a, nxOk);
        assert Sp() == SetEntry(s1, pd.value, I2(a), Entry(true, true, false, true, nxOk, a));
        forall t ensures Stays(s0, Sp(), t) { assert Stays(s0, s1, t); }
      }
      ok := true;
    }

    /** vm_ensure_identity: adds identity mappings where there were none, touches no
        existing translation, and unless the heap ran out serves the whole range. */
    method EnsureIdentity(base: nat, len: nat)
      requires Valid() && base + len <= VA_END
      modifies this`pos, this`up, mem`heapAt, mem`tables, mem`frames
      ensures Valid() && mem.frames == old(mem.frames) && old(mem.heapAt) <= mem.heapAt
      ensures AddsIdentity(old(Sp()), Sp(), base / LARGE * 512, (base + len + LARGE - 1) / LARGE * 512, nxOk)
      ensures pml4 == 0 || len == 0 || mem.Room() == 0 || Served(Sp(), base / 4096, (base + len + 4095) / 4096)
    {
      hide AddsIdentity, Served, Tree;
      ghost var lo, hi := base / LARGE, (base + len + LARGE - 1) / LARGE;
      if pml4 == 0 || len == 0 { AddsNothing(Sp(), lo * 512, hi * 512, nxOk); return; }
      var a, end := base / LARGE * LARGE, base + len;
      ghost var s0, r := Sp(), lo;
      AddsNothing(s0, lo * 512, lo * 512, nxOk);
      ServedNothing(s0, lo * 512);
      while a < end
        invariant Live() && mem.frames == old(mem.frames) && old(mem.heapAt) <= mem.heapAt
        invariant a == r * LARGE && lo <= r <= hi
        invariant AddsIdentity(s0, Sp(), lo * 512, r * 512, nxOk)
        invariant Served(Sp(), lo * 512, r * 512)
        decreases hi - r
      {
        RegionsLeft(end, r);
        ghost var s := Sp();
        var ok := EnsureRegion(a);
        AddsMore(s0, s, Sp(), lo * 512, r * 512, nxOk);
        if !ok {
          Widen(s0, Sp(), lo * 512, r * 512 + 512, hi * 512, nxOk);
          return;
        }
        KeepServed(s, Sp(), lo * 512, r * 512, nxOk);
        a, r := a + LARGE, r + 1;
      }
      RegionsLeft(end, r);
      ServedWithin(Sp(), lo * 512, r * 512, base / 4096, (base + len + 4095) / 4096);
    }

    /** vm_user_map: a page of the user window, or nothing. */
    method UserMap(va: nat, pa: nat, writable: bool, executable: bool) returns (ok: bool)
      requires Live()
      modifies this`pos, this`up, mem`heapAt, mem`tables, mem`frames
      ensures Live() && mem.frames == old(mem.frames)
      ensures mem.Room() <= old(mem.Room()) <= mem.Room() + 3 && old(mem.heapAt) <= mem.heapAt
      ensures ok || mem.Room() == 0 || !(USER_BASE <= va < USER_TOP)
      ensures ok ==> USER_BASE <= va < USER_TOP
      ensures ok ==> MapsPage(old(Sp()), Sp(), va / 4096, Some(Xlate(pa, writable, true, executable || !nxOk)))
      ensures !ok ==> SameView(old(Sp()), Sp())
    {
      if va < USER_BASE || va >= USER_TOP { return false; }
      ok := Map4k(va, pa, Flags(true, writable, true, !executable && nxOk), true);
    }

    /** The loads vm_user_unmap_range and vm_user_ok make: pml4 entry tested by its
        address, the others by P, a 2 MiB leaf counted as nothing. */
    method FindPt(va: nat) returns (r: Option<nat>)
      requires Live() && va < VA_END
      ensures r.Some? ==> r.value in pos && pos[r.value] == Pt(I4(va), I3(va), I2(va))
      ensures r.Some? ==> Translate(Sp(), va / 4096) ==
                          var e := mem.tables[r.value][I1(va)];
                          if e.p then Some(Xlate(e.addr, e.w, e.u, !e.nx)) else None
      ensures r.None? ==> !UserPage(Sp(), va / 4096)
    {
      ghost var s, q := Sp(), Idx(va / 4096);
      IndicesOf(va);
      assert GoodTable(s, pml4) && GoodEntry(s, pml4, I4(va));
      var pdpt := mem.tables[pml4][I4(va)].addr;
      if pdpt == 0 { return None; }
      assert GoodEntry(s, pdpt, I3(va));
      var e := mem.tables[pdpt][I3(va)];
      if !e.p { AscendWalk(s, pdpt, q); return None; }
      var pd := e.addr;
      assert GoodEntry(s, pd, I2(va));
      AscendWalk(s, pd, q);
      e := mem.tables[pd][I2(va)];
      if !e.p || e.ps { return None; }
      AscendWalk(s, e.addr, q);
      assert GoodEntry(s, e.addr, I1(va));
      r := Some(e.addr);
    }

    /** One round of the unmap loop. */
    method UnmapPage(a: nat)
      requires Live() && a < VA_END
      modifies mem`tables
      ensures Live() && Unmaps(old(Sp()), Sp(), a / 4096, a / 4096 + 1)
    {
      ghost var s := Sp();
      var pt := FindPt(a);
      if pt.Some? {
        mem.Store(pt.value, I1(a), EMPTY);
        SmallLeaf(s, s, pt.value, a, EMPTY);
        assert Sp() == SetEntry(s, pt.value, I1(a), EMPTY);
      }
    }

    /** vm_user_unmap_range: nothing of the range is left to ring 3, nothing outside
        it changes, and a kernel mapping in it is either kept as it was or gone. */
    method UserUnmapRange(va: nat, len: nat)
      requires Live() && va + len <= VA_END
      modifies mem`tables
      ensures Live() && Unmaps(old(Sp()), Sp(), va / 4096, (va + len + 4095) / 4096)
    {
      hide Unmaps;
      var a, end := va / 4096 * 4096, va + len;
      ghost var s0, v := Sp(), va / 4096;
      UnmapsNothing(s0, v);
      while a < end
        invariant Live() && a == v * 4096 < end + 4096 && va / 4096 <= v
        invariant Unmaps(s0, Sp(), va / 4096, v)
      {
        ghost var s := Sp();
        UnmapPage(a);
        UnmapsMore(s0, s, Sp(), va / 4096, v);
        a, v := a + 4096, v + 1;
      }
    }

    /** vm_user_ok is exact: the range is empty, or lies in the user window and every
        page of it is open to ring 3 under the processor's own four-level walk. */
    method UserOk(va: nat, len: nat) returns (ok: bool)
      requires Live()
      ensures ok <==> len == 0 || (&& USER_BASE <= va < USER_TOP && va + len <= USER_TOP
                                   && forall v :: va / 4096 <= v <= (va + len - 1) / 4096 ==> UserPage(Sp(), v))
    {
      if len == 0 { return true; }
      if va < USER_BASE || va >= USER_TOP || len > USER_TOP - va { return false; }
      var a := va / 4096 * 4096;
      ghost var v := va / 4096;
      while a < va + len
        invariant a == v * 4096 && va / 4096 <= v && a < va + len + 4096
        invariant forall v' :: va / 4096 <= v' < v ==> UserPage(Sp(), v')
      {
        var pt := FindPt(a);
        assert v <= (va + len - 1) / 4096;
        if pt.None? { return false; }
        var e := mem.tables[pt.value][I1(a)];
        if !e.p || !e.u {
          assert !UserPage(Sp(), v);
          return false;
        }
        a, v := a + 4096, v + 1;
      }
      return true;
    }

    /** protect: re-permission an identity-mapped range, 4 KiB at a time. */
    method Protect(start: nat, end: nat, w: bool, nx: bool) returns (ok: bool)
      requires Live() && start <= end <= VA_END
      modifies this`pos, this`up, mem`heapAt, mem`tables, mem`frames
      ensures Live() && mem.frames == old(mem.frames)
      ensures ok || mem.Room() == 0
      ensures ok ==> Protects(old(Sp()), Sp(), start / 4096, (end + 4095) / 4096, w, nx)
    {
      hide Protects, MapsPage;
      var a, stop := start / 4096 * 4096, (end + 4095) / 4096 * 4096;
      ghost var s0, v := Sp(), start / 4096;
      ProtectsNothing(s0, v, w, nx);
      while a < stop
        invariant Live() && mem.frames == old(mem.frames)
        invariant a == v * 4096 <= stop && start / 4096 <= v
        invariant Protects(s0, Sp(), start / 4096, v, w, nx)
      {
        ghost var s := Sp();
        ok := Map4k(a, a, Flags(true, w, false, nx), false);
        if !ok { return; }
        ProtectsMore(s0, s, Sp(), start / 4096, v, w, nx);
        a, v := a + 4096, v + 1;
      }
      return true;
    }

    /** paging_init's first loop: 4 GiB of 2 MiB identity pages. */
    method InitLow() returns (ok: bool)
      requires Live() && NoPt(Sp()) && MapsLow(Sp(), 0, nxOk)
      modifies this`pos, this`up, mem`heapAt, mem`tables, mem`frames
      ensures Live() && NoPt(Sp()) && mem.frames == old(mem.frames)
      ensures ok || mem.Room() == 0
      ensures ok ==> MapsLow(Sp(), LOW, nxOk)
    {
      hide MapsLow, MapsRegion, NoPt;
      var p := 0;
      ghost var r := 0;
      while p < 0x1_0000_0000
        invariant Live() && NoPt(Sp()) && mem.frames == old(mem.frames)
        invariant p == r * LARGE <= 0x1_0000_0000 && MapsLow(Sp(), r * 512, nxOk)
      {
        ghost var s := Sp();
        ok := Map2m(p, p, true, nxOk);
        if !ok { return; }
        MoreLow(s, Sp(), r, nxOk);
        p, r := p + LARGE, r + 1;
      }
      assert r * 512 == LOW;
      return true;
    }

    /** One listed range of paging_init's second loop. */
    method InitExtra(ghost extras: seq<Range>, ghost n: nat, x: Range) returns (ok: bool)
      requires Live() && NoPt(Sp()) && n < |extras| && extras[n] == x && x.base + x.len <= VA_END
      requires MapsInit(Sp(), extras, n, 0, 0, nxOk)
      modifies this`pos, this`up, mem`heapAt, mem`tables, mem`frames
      ensures Live() && NoPt(Sp()) && mem.frames == old(mem.frames)
      ensures ok || mem.Room() == 0
      ensures ok ==> MapsInit(Sp(), extras, n + 1, 0, 0, nxOk)
    {
      hide MapsInit, MapsRegion, NoPt, Tree;
      if x.base == 0 || x.len == 0 {
        ExtraDone(Sp(), extras, n, 0, 0, 0, nxOk);
        return true;
      }
      var p, e := x.base / LARGE * LARGE, x.base + x.len;
      ghost var lo, r, hi := x.base / LARGE, x.base / LARGE, (x.base + x.len + LARGE - 1) / LARGE;
      ExtraStart(Sp(), extras, n, lo * 512, nxOk);
      while p < e
        invariant Live() && NoPt(Sp()) && mem.frames == old(mem.frames)
        invariant p == r * LARGE && lo <= r <= hi && MapsInit(Sp(), extras, n, lo * 512, r * 512, nxOk)
        decreases hi - r
      {
        RegionsLeft(e, r);
        if p >= 0x1_0000_0000 {
          ghost var s := Sp();
          ok := Map2m(p, p, true, nxOk);
          if !ok { return; }
          MoreExtra(s, Sp(), extras, n, lo * 512, r, nxOk);
        } else {
          SkipExtra(Sp(), extras, n, lo * 512, r, nxOk);
        }
        p, r := p + LARGE, r + 1;
      }
      RegionsLeft(e, r);
      assert RegionEnd(x) == r * 512;
      ExtraDone(Sp(), extras, n, lo * 512, r * 512, 0, nxOk);
      return true;
    }

    /** paging_init's first allocation: an empty root. */
    method InitRoot() returns (ok: bool)
      requires Valid() && pml4 == 0
      modifies this`pml4, this`pos, this`up, mem`heapAt, mem`tables, mem`frames
      ensures Valid() && mem.frames == old(mem.frames)
      ensures ok || mem.Room() == 0
      ensures ok ==> pml4 != 0 && NoPt(Sp()) && MapsLow(Sp(), 0, nxOk)
    {
      var root := mem.KallocPage(AsTable);
      if root.None? { return false; }
      pml4 := root.value;
      pos, up := map[pml4 := Pml4], map[pml4 := 0];
      assert Sp() == Space(map[pml4 := ZeroTable()], pml4, map[pml4 := Pml4], map[pml4 := 0]);
      EmptyRoot(pml4, nxOk);
      ok := true;
    }

    /** The kernel's own W^X: text, rodata, data in turn. */
    method InitSections(extras: seq<Range>, img: Image) returns (ok: bool)
      requires Live() && img.Ordered() && MapsInit(Sp(), extras, |extras|, 0, 0, nxOk)
      modifies this`pos, this`up, mem`heapAt, mem`tables, mem`frames
      ensures Live() && mem.frames == old(mem.frames)
      ensures ok || mem.Room() == 0
      ensures ok ==> InitMaps(Sp(), extras, img, nxOk)
    {
      hide Protects, MapsInit;
      ghost var s0 := Sp();
      ok := Protect(img.textStart, img.textEnd, false, false);
      if !ok { return; }
      ghost var s1 := Sp();
      ok := Protect(img.rodataStart, img.rodataEnd, false, nxOk);
      if !ok { return; }
      ghost var s2 := Sp();
      ok := Protect(img.dataStart, img.kernelEnd, true, nxOk);
      if !ok { return; }
      forall v | 0 <= v < PAGES ensures Translate(Sp(), v) == InitView(extras, img, nxOk, v) {
        InitDone(s0, s1, s2, Sp(), extras, img, nxOk, v);
      }
    }

    /** paging_init's table building: on success every page translates to what the
        section list and the range list say; it fails only for want of memory. */
    method Init(nx: bool, extras: seq<Range>, img: Image) returns (ok: bool)
      requires Valid() && pml4 == 0 && img.Ordered()
      requires forall k :: 0 <= k < |extras| ==> extras[k].base + extras[k].len <= VA_END
      modifies this, mem`heapAt, mem`tables, mem`frames
      ensures Valid() && mem.frames == old(mem.frames) && nxOk == nx
      ensures ok || mem.Room() == 0
      ensures ok ==> pml4 != 0 && InitMaps(Sp(), extras, img, nx)
    {
      hide MapsInit, MapsLow, NoPt, InitMaps;
      nxOk := nx;
      ok := InitRoot();
      if !ok { return; }
      ok := InitLow();
      if !ok { return; }
      LowDone(Sp(), extras, 0, nx);
      var i := 0;
      while i < |extras|
        invariant Live() && NoPt(Sp()) && mem.frames == old(mem.frames) && i <= |extras| && nxOk == nx
        invariant MapsInit(Sp(), extras, i, 0, 0, nx)
      {
        ok := InitExtra(extras, i, extras[i]);
        if !ok { return; }
        i := i + 1;
      }
      ok := InitSections(extras, img);
    }
  }
}
