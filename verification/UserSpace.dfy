/** Ring 3's part of the address space, read off the hardware walk: which pages it
    reaches, what they hold, and what the kernel keeps true of them. */
module UserSpace {
  import opened Wrappers
  import opened Bytes
  import opened PageTable
  import opened Memory
  import opened Paging

  const WINDOW_LO: nat := USER_BASE / 4096
  const WINDOW_HI: nat := USER_TOP / 4096
  const USER_STACK_TOP: nat := 0x7000_FFFF_F000
  const USTACK_PAGES: nat := 64
  const USTACK_LO: nat := USER_STACK_TOP - USTACK_PAGES * 4096
  const STACK_LO: nat := USTACK_LO / 4096         // page numbers
  const STACK_HI: nat := USER_STACK_TOP / 4096
  const GUARD: nat := STACK_LO - 1

  /** The window is the 4 GiB from 0x7000_0000_0000 on; the stack the 256 KiB below
      0x7000_FFFF_F000, with the guard page right under it. */
  lemma WindowIs(v: nat)
    ensures WINDOW_LO <= v < WINDOW_HI <==> 0x7000_0000_0000 <= v * 4096 && (v + 1) * 4096 <= 0x7001_0000_0000
    ensures STACK_LO <= v < STACK_HI <==> 0x7000_FFFB_F000 <= v * 4096 && (v + 1) * 4096 <= 0x7000_FFFF_F000
    ensures v == GUARD <==> v * 4096 == 0x7000_FFFB_E000
    ensures USTACK_LO == 0x7000_FFFB_F000 && USER_STACK_TOP == 0x7000_FFFF_F000
  {
  }

  predicate InWindow(v: nat) { WINDOW_LO <= v < WINDOW_HI }

  /** What may be said of one page: ring 3 only reaches whole frames inside the window
      and outside the guard page, never one both writable and executable on a processor
      with NX; and the window holds nothing else. */
  ghost predicate PageOk(s: Space, frames: map<nat, seq<byte>>, nx: bool, v: nat) {
    && (UserPage(s, v) ==>
          var x := Translate(s, v).value;
          InWindow(v) && v != GUARD && x.pa in frames && (nx ==> !(x.w && x.x)))
    && (InWindow(v) && Translate(s, v).Some? ==> UserPage(s, v))
  }

  /** No frame appears at two places. */
  ghost predicate Apart(s: Space, v: nat, v': nat) {
    v != v' && UserPage(s, v) && UserPage(s, v') ==> Translate(s, v).value.pa != Translate(s, v').value.pa
  }

  ghost predicate Protected(s: Space, frames: map<nat, seq<byte>>, nx: bool) {
    && (forall v {:trigger PageOk(s, frames, nx, v)} :: 0 <= v < PAGES ==> PageOk(s, frames, nx, v))
    && (forall v, v' {:trigger Apart(s, v, v')} :: 0 <= v < PAGES && 0 <= v' < PAGES ==> Apart(s, v, v'))
  }

  /** A page as a ring-3 program sees it. */
  datatype UserPg = UserPg(bytes: seq<byte>, w: bool, x: bool)

  ghost function UView(s: Space, frames: map<nat, seq<byte>>, v: nat): Option<UserPg> {
    if UserPage(s, v) && Translate(s, v).value.pa in frames then
      var x := Translate(s, v).value; Some(UserPg(frames[x.pa], x.w, x.x))
    else None
  }

  /** The kernel's own translations. */
  ghost function KView(s: Space, v: nat): Option<Xlate> {
    if Translate(s, v).Some? && !UserPage(s, v) then Translate(s, v) else None
  }

  ghost predicate KernelSame(s: Space, s': Space) {
    forall v {:trigger KView(s', v)} :: 0 <= v < PAGES ==> KView(s', v) == KView(s, v)
  }

  /** The window changes at page v and nowhere else. */
  ghost predicate Places(s: Space, f: map<nat, seq<byte>>, s': Space, f': map<nat, seq<byte>>, v: nat,
                         p: Option<UserPg>) {
    forall v' {:trigger UView(s', f', v')} :: 0 <= v' < PAGES ==>
      UView(s', f', v') == if v' == v then p else UView(s, f, v')
  }

  /** Mapping a fresh frame at a window page keeps ring 3 confined and places exactly
      that frame there. */
  lemma MapFresh(s: Space, f: map<nat, seq<byte>>, s': Space, f': map<nat, seq<byte>>, nx: bool,
                 v: nat, n: nat, w: bool, x: bool)
    requires Protected(s, f, nx) && InWindow(v) && v != GUARD && (nx ==> !(w && x))
    requires n !in f && n in f' && f'.Keys == f.Keys + {n} && forall p :: p in f ==> f'[p] == f[p]
    requires MapsPage(s, s', v, Some(Xlate(n, w, true, x)))
    ensures Protected(s', f', nx) && KernelSame(s, s')
    ensures Places(s, f, s', f', v, Some(UserPg(f'[n], w, x)))
  {
    assert PageOk(s, f, nx, v);
    forall u | 0 <= u < PAGES
      ensures PageOk(s', f', nx, u) && KView(s', u) == KView(s, u)
      ensures UView(s', f', u) == if u == v then Some(UserPg(f'[n], w, x)) else UView(s, f, u)
    {
      assert PageOk(s, f, nx, u);
      assert Translate(s', u) == if u == v then Some(Xlate(n, w, true, x)) else Translate(s, u);
    }
    forall u, u' | 0 <= u < PAGES && 0 <= u' < PAGES ensures Apart(s', u, u') {
      assert PageOk(s, f, nx, u) && PageOk(s, f, nx, u') && Apart(s, u, u');
      assert Translate(s', u) == if u == v then Some(Xlate(n, w, true, x)) else Translate(s, u);
      assert Translate(s', u') == if u' == v then Some(Xlate(n, w, true, x)) else Translate(s, u');
    }
  }

  lemma Unchanged(s: Space)
    ensures KernelSame(s, s) && SameView(s, s)
  {
  }

  /** Ring 3 sees the same. */
  ghost predicate SameSeen(s: Space, f: map<nat, seq<byte>>, s': Space, f': map<nat, seq<byte>>) {
    forall v {:trigger UView(s', f', v)} :: 0 <= v < PAGES ==> UView(s', f', v) == UView(s, f, v)
  }

  /** More memory and an unchanged translation keep everything. */
  lemma MoreFrames(s: Space, f: map<nat, seq<byte>>, s': Space, f': map<nat, seq<byte>>, nx: bool)
    requires Protected(s, f, nx) && SameView(s, s')
    requires forall p :: p in f ==> p in f' && f'[p] == f[p]
    ensures Protected(s', f', nx) && KernelSame(s, s')
    ensures SameSeen(s, f, s', f')
  {
    forall u | 0 <= u < PAGES
      ensures PageOk(s', f', nx, u) && KView(s', u) == KView(s, u) && UView(s', f', u) == UView(s, f, u)
    {
      assert PageOk(s, f, nx, u);
      assert Translate(s', u) == Translate(s, u);
    }
    forall u, u' | 0 <= u < PAGES && 0 <= u' < PAGES ensures Apart(s', u, u') {
      assert Apart(s, u, u');
      assert Translate(s', u) == Translate(s, u) && Translate(s', u') == Translate(s, u');
    }
  }

  /** Unmapping part of the window takes it from ring 3 and touches nothing else. */
  lemma UnmapKeeps(s: Space, f: map<nat, seq<byte>>, s': Space, nx: bool, lo: nat, hi: nat)
    requires Protected(s, f, nx) && Unmaps(s, s', lo, hi) && WINDOW_LO <= lo && hi <= WINDOW_HI
    ensures Protected(s', f, nx) && KernelSame(s, s')
    ensures forall v {:trigger Translate(s', v)} :: 0 <= v < PAGES ==>
              Translate(s', v) == if lo <= v < hi then None else Translate(s, v)
  {
    forall u | 0 <= u < PAGES
      ensures PageOk(s', f, nx, u) && KView(s', u) == KView(s, u)
      ensures Translate(s', u) == if lo <= u < hi then None else Translate(s, u)
    {
      assert PageOk(s, f, nx, u);
      assert Translate(s', u) == Translate(s', u);
    }
    forall u, u' | 0 <= u < PAGES && 0 <= u' < PAGES ensures Apart(s', u, u') {
      assert Apart(s, u, u');
      assert Translate(s', u) == if lo <= u < hi then None else Translate(s, u);
      assert Translate(s', u') == if lo <= u' < hi then None else Translate(s, u');
    }
  }

  /** Identity mappings outside the window leave ring 3 where it was. */
  lemma IdentityKeeps(s: Space, f: map<nat, seq<byte>>, s': Space, nx: bool, lo: nat, hi: nat)
    requires Protected(s, f, nx) && AddsIdentity(s, s', lo, hi, nx)
    requires hi <= WINDOW_LO || WINDOW_HI <= lo
    ensures Protected(s', f, nx)
    ensures forall v {:trigger KView(s', v)} :: 0 <= v < PAGES && KView(s, v).Some? ==> KView(s', v) == KView(s, v)
    ensures forall v {:trigger UView(s', f, v)} :: 0 <= v < PAGES ==> UView(s', f, v) == UView(s, f, v)
  {
    forall u | 0 <= u < PAGES
      ensures PageOk(s', f, nx, u) && UView(s', f, u) == UView(s, f, u)
      ensures KView(s, u).Some? ==> KView(s', u) == KView(s, u)
    {
      assert PageOk(s, f, nx, u);
      assert Translate(s', u) == Translate(s', u);
    }
    forall u, u' | 0 <= u < PAGES && 0 <= u' < PAGES ensures Apart(s', u, u') {
      assert Apart(s, u, u');
      assert Translate(s', u) == Translate(s', u) && Translate(s', u') == Translate(s', u');
    }
  }

  lemma KernelSameTrans(s: Space, s': Space, s'': Space)
    requires KernelSame(s, s') && KernelSame(s', s'')
    ensures KernelSame(s, s'')
  {
    forall v | 0 <= v < PAGES ensures KView(s'', v) == KView(s, v) {
      assert KView(s', v) == KView(s, v);
    }
  }

  /** Is frame p mapped for ring 3 to write? */
  ghost predicate Writable(s: Space, p: nat) {
    exists v {:trigger Translate(s, v)} ::
      0 <= v < PAGES && UserPage(s, v) && Translate(s, v).value.w && Translate(s, v).value.pa == p
  }

  /** Protection does not depend on what the frames hold. */
  lemma SameFrames(s: Space, f: map<nat, seq<byte>>, f': map<nat, seq<byte>>, nx: bool)
    requires Protected(s, f, nx) && f'.Keys == f.Keys
    ensures Protected(s, f', nx)
  {
    forall v | 0 <= v < PAGES ensures PageOk(s, f', nx, v) {
      assert PageOk(s, f, nx, v);
    }
  }
}
