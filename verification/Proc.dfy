/** Ring-3 programs (src/kernel/proc.c): loading one, letting it run, and taking its
    pages away again. */
module Proc {
  import opened Wrappers
  import opened Bytes
  import opened PageTable
  import opened Memory
  import opened Paging
  import opened UserSpace
  import opened Elf

  /** Pages lo..hi hold segment p's image; ring 3's other pages are unchanged. */
  ghost predicate PlacesSeg(s: Space, f: map<nat, seq<byte>>, s': Space, f': map<nat, seq<byte>>,
                            file: seq<byte>, p: Phdr, nx: bool, lo: nat, hi: nat) {
    forall v {:trigger UView(s', f', v)} :: 0 <= v < PAGES ==>
      UView(s', f', v) == if lo <= v < hi then Some(SegView(file, p, nx, v)) else UView(s, f, v)
  }

  lemma PlacesSegMore(s0: Space, f0: map<nat, seq<byte>>, s: Space, f: map<nat, seq<byte>>,
                      s': Space, f': map<nat, seq<byte>>, file: seq<byte>, p: Phdr, nx: bool, lo: nat, hi: nat)
    requires lo <= hi && PlacesSeg(s0, f0, s, f, file, p, nx, lo, hi)
    requires Places(s, f, s', f', hi, Some(SegView(file, p, nx, hi)))
    ensures PlacesSeg(s0, f0, s', f', file, p, nx, lo, hi + 1)
  {
  }

  lemma PlacesNothing(s: Space, f: map<nat, seq<byte>>, file: seq<byte>, p: Phdr, nx: bool, lo: nat)
    ensures PlacesSeg(s, f, s, f, file, p, nx, lo, lo)
  {
  }

  lemma PlacesSegSame(s0: Space, f0: map<nat, seq<byte>>, s: Space, f: map<nat, seq<byte>>,
                      s': Space, f': map<nat, seq<byte>>, file: seq<byte>, p: Phdr, nx: bool, lo: nat, hi: nat)
    requires PlacesSeg(s0, f0, s, f, file, p, nx, lo, hi) && SameSeen(s, f, s', f')
    ensures PlacesSeg(s0, f0, s', f', file, p, nx, lo, hi)
  {
  }

  /** Ring 3 sees the first n segments over what was there before. */
  ghost predicate Holds(s: Space, f: map<nat, seq<byte>>, s': Space, f': map<nat, seq<byte>>,
                        file: seq<byte>, n: nat, nx: bool)
    requires HeaderOk(file) && n <= PhNum(file)
  {
    forall v {:trigger UView(s', f', v)} :: 0 <= v < PAGES ==>
      UView(s', f', v) == ImageAt(file, n, nx, v, UView(s, f, v))
  }

  lemma HoldsNothing(s: Space, f: map<nat, seq<byte>>, file: seq<byte>, nx: bool)
    requires HeaderOk(file)
    ensures Holds(s, f, s, f, file, 0, nx)
  {
  }

  lemma HoldsSkip(s0: Space, f0: map<nat, seq<byte>>, s: Space, f: map<nat, seq<byte>>, file: seq<byte>, n: nat,
                  nx: bool)
    requires HeaderOk(file) && n < PhNum(file) && !Ph(file, n).Loads() && Holds(s0, f0, s, f, file, n, nx)
    ensures Holds(s0, f0, s, f, file, n + 1, nx)
  {
  }

  lemma HoldsMore(s0: Space, f0: map<nat, seq<byte>>, s: Space, f: map<nat, seq<byte>>,
                  s': Space, f': map<nat, seq<byte>>, file: seq<byte>, n: nat, nx: bool)
    requires HeaderOk(file) && n < PhNum(file) && Ph(file, n).Loads() && Holds(s0, f0, s, f, file, n, nx)
    requires var p := Ph(file, n);
             PlacesSeg(s, f, s', f', file, p, nx, p.First(), p.End())
    ensures Holds(s0, f0, s', f', file, n + 1, nx)
  {
    var p := Ph(file, n);
    forall v | 0 <= v < PAGES ensures UView(s', f', v) == ImageAt(file, n + 1, nx, v, UView(s0, f0, v)) {
      assert UView(s, f, v) == ImageAt(file, n, nx, v, UView(s0, f0, v));
    }
  }

  /** Ring 3 sees the first n segments, and then the pages of the next one up to hi. */
  ghost predicate HoldsPart(s: Space, f: map<nat, seq<byte>>, s': Space, f': map<nat, seq<byte>>,
                            file: seq<byte>, n: nat, nx: bool, hi: nat)
    requires HeaderOk(file) && n < PhNum(file)
  {
    forall v {:trigger UView(s', f', v)} :: 0 <= v < PAGES ==>
      UView(s', f', v) == if Ph(file, n).First() <= v < hi then Some(SegView(file, Ph(file, n), nx, v))
                          else ImageAt(file, n, nx, v, UView(s, f, v))
  }

  lemma HoldsPartly(s0: Space, f0: map<nat, seq<byte>>, s: Space, f: map<nat, seq<byte>>,
                    s': Space, f': map<nat, seq<byte>>, file: seq<byte>, n: nat, nx: bool, hi: nat)
    requires HeaderOk(file) && n < PhNum(file) && Holds(s0, f0, s, f, file, n, nx)
    requires PlacesSeg(s, f, s', f', file, Ph(file, n), nx, Ph(file, n).First(), hi)
    ensures HoldsPart(s0, f0, s', f', file, n, nx, hi)
  {
    forall v | 0 <= v < PAGES
      ensures UView(s', f', v) == if Ph(file, n).First() <= v < hi then Some(SegView(file, Ph(file, n), nx, v))
                                  else ImageAt(file, n, nx, v, UView(s0, f0, v))
    {
      assert UView(s, f, v) == ImageAt(file, n, nx, v, UView(s0, f0, v));
    }
  }

  /** A stack page: zeros, writable, never executable on a processor with NX. */
  function StackPg(nx: bool): UserPg { UserPg(Zeros(PAGE), true, !nx) }

  /** The first pages of the stack are in place over the segments. */
  ghost predicate Stacked(s: Space, f: map<nat, seq<byte>>, s': Space, f': map<nat, seq<byte>>,
                          file: seq<byte>, nx: bool, hi: nat)
    requires HeaderOk(file)
  {
    forall v {:trigger UView(s', f', v)} :: 0 <= v < PAGES ==>
      UView(s', f', v) == if STACK_LO <= v < hi then Some(StackPg(nx))
                          else ImageAt(file, PhNum(file), nx, v, UView(s, f, v))
  }

  lemma StackedMore(s0: Space, f0: map<nat, seq<byte>>, s: Space, f: map<nat, seq<byte>>,
                    s': Space, f': map<nat, seq<byte>>, file: seq<byte>, nx: bool, hi: nat)
    requires HeaderOk(file) && STACK_LO <= hi && Stacked(s0, f0, s, f, file, nx, hi)
    requires Places(s, f, s', f', hi, Some(StackPg(nx)))
    ensures Stacked(s0, f0, s', f', file, nx, hi + 1)
  {
  }

  lemma StackedSame(s0: Space, f0: map<nat, seq<byte>>, s: Space, f: map<nat, seq<byte>>,
                    s': Space, f': map<nat, seq<byte>>, file: seq<byte>, nx: bool, hi: nat)
    requires HeaderOk(file) && Stacked(s0, f0, s, f, file, nx, hi) && SameSeen(s, f, s', f')
    ensures Stacked(s0, f0, s', f', file, nx, hi)
  {
  }

  /** [lo, hi) spans the pages of the first n segments and stays clear of the stack. */
  ghost predicate Spans(file: seq<byte>, n: nat, lo: nat, hi: nat)
    requires HeaderOk(file) && n <= PhNum(file)
  {
    && (forall v: nat {:trigger LastAt(file, n, v)} :: LastAt(file, n, v).Some? ==>
       lo <= v * 4096 && v * 4096 + 4096 <= hi)
    && USER_BASE <= lo && hi <= USTACK_LO - 4096
    && (hi == 0 <==> forall i :: 0 <= i < n ==> !Ph(file, i).Loads())
    && (hi == 0 || lo < hi)
  }

  lemma SpansMore(file: seq<byte>, n: nat, lo: nat, hi: nat, lo': nat, hi': nat)
    requires HeaderOk(file) && n < PhNum(file) && Spans(file, n, lo, hi)
    requires Ph(file, n).Loads() && SegOk(|file|, Ph(file, n))
    requires lo' == if Ph(file, n).First() * 4096 < lo then Ph(file, n).First() * 4096 else lo
    requires hi' == if Ph(file, n).End() * 4096 > hi then Ph(file, n).End() * 4096 else hi
    ensures Spans(file, n + 1, lo', hi')
  {
    hide HeaderOk, Ph, PhNum, SegOk, Phdr.First, Phdr.End, Phdr.Loads;
    var p := Ph(file, n);
    SegSpan(|file|, p);
    forall v: nat | LastAt(file, n + 1, v).Some? ensures lo' <= v * 4096 && v * 4096 + 4096 <= hi' {
      assert p.Covers(v) || LastAt(file, n, v).Some?;
    }
  }

  lemma SpansSkip(file: seq<byte>, n: nat, lo: nat, hi: nat)
    requires HeaderOk(file) && n < PhNum(file) && Spans(file, n, lo, hi) && !Ph(file, n).Loads()
    ensures Spans(file, n + 1, lo, hi)
  {
    hide HeaderOk, Ph, PhNum, Phdr.Loads;
    forall v: nat | LastAt(file, n + 1, v).Some? ensures lo <= v * 4096 && v * 4096 + 4096 <= hi {
      assert LastAt(file, n, v).Some?;
    }
  }

  lemma SpansNothing(file: seq<byte>)
    requires HeaderOk(file)
    ensures Spans(file, 0, 0xFFFF_FFFF_FFFF_FFFF, 0)
  {
  }

  /** img_hi == 0 tells whether any header loaded something. */
  lemma SpansAny(file: seq<byte>, lo: nat, hi: nat)
    requires HeaderOk(file) && Spans(file, PhNum(file), lo, hi)
    ensures hi == 0 <==> forall i :: 0 <= i < PhNum(file) ==> !Ph(file, i).Loads()
  {
  }

  lemma StackedNothing(s0: Space, f0: map<nat, seq<byte>>, s: Space, f: map<nat, seq<byte>>, file: seq<byte>, nx: bool)
    requires HeaderOk(file) && Holds(s0, f0, s, f, file, PhNum(file), nx)
    ensures Stacked(s0, f0, s, f, file, nx, STACK_LO)
  {
  }

  lemma SpanBounds(file: seq<byte>, lo: nat, hi: nat)
    requires HeaderOk(file) ==> Spans(file, PhNum(file), lo, hi)
    requires Acceptable(file)
    ensures USER_BASE <= lo < hi <= USTACK_LO - 4096 && HeaderOk(file)
  {
    SpansAny(file, lo, hi);
  }

  /** While the program runs, ring 3 has what it had before, the span and the stack. */
  lemma RunUsers(s0: Space, f0: map<nat, seq<byte>>, s: Space, f: map<nat, seq<byte>>,
                 file: seq<byte>, nx: bool, lo: nat, hi: nat, v: nat)
    requires Protected(s0, f0, nx) && Protected(s, f, nx) && v < PAGES
    requires HeaderOk(file) && Stacked(s0, f0, s, f, file, nx, STACK_HI) && Spans(file, PhNum(file), lo, hi)
    ensures !(lo / 4096 <= v < (hi + 4095) / 4096) && !(STACK_LO <= v < STACK_HI) ==>
              (UserPage(s, v) <==> UserPage(s0, v))
  {
    hide PhNum;
    assert PageOk(s0, f0, nx, v) && PageOk(s, f, nx, v);
    var last := LastAt(file, PhNum(file), v);
    assert UView(s, f, v) == UView(s, f, v);
  }

  /** Is page v in the program's span or its stack? */
  predicate Spanned(lo: nat, hi: nat, v: nat) { lo / 4096 <= v < (hi + 4095) / 4096 || STACK_LO <= v < STACK_HI }

  /** The span and the stack are gone, and every other page is open iff it was. */
  ghost predicate Closes(s0: Space, s: Space, lo: nat, hi: nat) {
    forall v {:trigger UserPage(s, v)} :: 0 <= v < PAGES ==>
      (UserPage(s, v) <==> UserPage(s0, v) && !Spanned(lo, hi, v))
  }

  ghost predicate Blanks(s: Space, s': Space, lo: nat, hi: nat) {
    forall v {:trigger Translate(s', v)} :: 0 <= v < PAGES ==>
      Translate(s', v) == if Spanned(lo, hi, v) then None else Translate(s, v)
  }

  /** Pages lo..hi are gone, and no others. */
  ghost predicate Gone(s: Space, s': Space, lo: nat, hi: nat) {
    forall v {:trigger Translate(s', v)} :: 0 <= v < PAGES ==>
      Translate(s', v) == if lo <= v < hi then None else Translate(s, v)
  }

  lemma BlanksBoth(s1: Space, s2: Space, s: Space, lo: nat, hi: nat)
    requires Gone(s1, s2, lo / 4096, (hi + 4095) / 4096) && Gone(s2, s, STACK_LO, STACK_HI)
    ensures Blanks(s1, s, lo, hi)
  {
    forall v | 0 <= v < PAGES ensures Translate(s, v) == if Spanned(lo, hi, v) then None else Translate(s1, v) {
      assert Translate(s2, v) == if lo / 4096 <= v < (hi + 4095) / 4096 then None else Translate(s1, v);
    }
  }

  lemma RunCloses(s0: Space, f0: map<nat, seq<byte>>, s1: Space, f1: map<nat, seq<byte>>, s: Space,
                  file: seq<byte>, nx: bool, lo: nat, hi: nat)
    requires Protected(s0, f0, nx) && Protected(s1, f1, nx) && Blanks(s1, s, lo, hi)
    requires HeaderOk(file) && Stacked(s0, f0, s1, f1, file, nx, STACK_HI) && Spans(file, PhNum(file), lo, hi)
    ensures Closes(s0, s, lo, hi)
  {
    hide Protected, HeaderOk, Stacked, Spans;
    forall v | 0 <= v < PAGES ensures UserPage(s, v) <==> UserPage(s0, v) && !Spanned(lo, hi, v) {
      RunUsers(s0, f0, s1, f1, file, nx, lo, hi, v);
      assert Translate(s, v) == if Spanned(lo, hi, v) then None else Translate(s1, v);
    }
  }

  /** A run that returns 0 leaves the window empty exactly when everything that was open
      before, by a program refused earlier, was where its own span or its stack went. */
  lemma EmptiesIff(s0: Space, s: Space, lo: nat, hi: nat)
    requires Closes(s0, s, lo, hi)
    ensures (forall v :: 0 <= v < PAGES ==> !UserPage(s, v)) <==>
              (forall v :: 0 <= v < PAGES && UserPage(s0, v) ==> Spanned(lo, hi, v))
  {
    hide UserPage, Spanned;
    if forall v :: 0 <= v < PAGES ==> !UserPage(s, v) {
      forall v | 0 <= v < PAGES && UserPage(s0, v) ensures Spanned(lo, hi, v) {
        assert !UserPage(s, v);
      }
    }
  }

  lemma NoneOpened(s: Space, file: seq<byte>)
    ensures Opened(s, s, file, 0)
  {
  }

  lemma EntryIs(file: seq<byte>)
    requires HeaderOk(file)
    ensures 64 <= |file| && Elf.Entry(file) == LE(file, 24, 8)
  {
  }

  /** Number of headers elf_run will look at. */
  function PhCount(file: seq<byte>): nat { if HeaderOk(file) then PhNum(file) else 0 }

  /** Do the first n segments put anything at page v? */
  ghost predicate Loaded(file: seq<byte>, n: nat, v: nat)
    requires n <= PhCount(file)
  {
    exists i :: 0 <= i < n && Ph(file, i).Covers(v)
  }

  /** elf_run's early returns take nothing back: what the segments before the bad one
      opened to ring 3 stays open. */
  lemma LeftBehind(s0: Space, f0: map<nat, seq<byte>>, s: Space, f: map<nat, seq<byte>>,
                   file: seq<byte>, n: nat, nx: bool)
    requires Protected(s0, f0, nx) && Protected(s, f, nx)
    requires HeaderOk(file) && n <= PhNum(file) && Holds(s0, f0, s, f, file, n, nx)
    ensures forall v :: 0 <= v < PAGES ==> (UserPage(s, v) <==> UserPage(s0, v) || Loaded(file, n, v))
  {
    forall v | 0 <= v < PAGES ensures UserPage(s, v) <==> UserPage(s0, v) || Loaded(file, n, v) {
      assert PageOk(s0, f0, nx, v) && PageOk(s, f, nx, v);
      assert UView(s, f, v) == ImageAt(file, n, nx, v, UView(s0, f0, v));
      assert LastAt(file, n, v).None? <==> !Loaded(file, n, v);
    }
  }

  /** The pages begun when memory ran out: of segment n up to `reached`, or of the stack if
      all segments were in. */
  ghost predicate Begun(file: seq<byte>, n: nat, reached: nat, v: nat)
    requires n <= PhCount(file)
  {
    (if n < PhCount(file) then Ph(file, n).First() else STACK_LO) <= v < reached
  }

  /** Running out of memory takes nothing back either. */
  lemma LeftByOom(s0: Space, f0: map<nat, seq<byte>>, s: Space, f: map<nat, seq<byte>>,
                  file: seq<byte>, n: nat, reached: nat, nx: bool)
    requires Protected(s0, f0, nx) && Protected(s, f, nx) && HeaderOk(file) && n <= PhNum(file)
    requires if n < PhNum(file) then HoldsPart(s0, f0, s, f, file, n, nx, reached)
             else Stacked(s0, f0, s, f, file, nx, reached)
    ensures forall v :: 0 <= v < PAGES ==>
            (UserPage(s, v) <==> UserPage(s0, v) || Loaded(file, n, v) || Begun(file, n, reached, v))
  {
    hide Protected, HeaderOk, HoldsPart, Stacked;
    forall v | 0 <= v < PAGES
      ensures UserPage(s, v) <==> UserPage(s0, v) || Loaded(file, n, v) || Begun(file, n, reached, v)
    {
      SeenAfter(s0, f0, s, f, file, n, reached, nx, v);
      OpenIffSeen(s0, f0, nx, v);
      OpenIffSeen(s, f, nx, v);
      LoadedIffLast(file, n, v);
    }
  }

  lemma OpenIffSeen(s: Space, f: map<nat, seq<byte>>, nx: bool, v: nat)
    requires Protected(s, f, nx) && v < PAGES
    ensures UserPage(s, v) <==> UView(s, f, v).Some?
  {
    assert PageOk(s, f, nx, v);
  }

  lemma LoadedIffLast(file: seq<byte>, n: nat, v: nat)
    requires HeaderOk(file) && n <= PhNum(file)
    ensures LastAt(file, n, v).Some? <==> Loaded(file, n, v)
  {
    hide HeaderOk, Ph, Phdr.Covers;
  }

  lemma SeenAfter(s0: Space, f0: map<nat, seq<byte>>, s: Space, f: map<nat, seq<byte>>,
                  file: seq<byte>, n: nat, reached: nat, nx: bool, v: nat)
    requires HeaderOk(file) && n <= PhNum(file) && v < PAGES
    requires if n < PhNum(file) then HoldsPart(s0, f0, s, f, file, n, nx, reached)
             else Stacked(s0, f0, s, f, file, nx, reached)
    ensures UView(s, f, v).Some? <==> UView(s0, f0, v).Some? || LastAt(file, n, v).Some? || Begun(file, n, reached, v)
  {
    hide HeaderOk, UView;
  }

  /** What user_enter found: memory, and where the program starts. */
  datatype Entered = Entered(space: Space, frames: map<nat, seq<byte>>, entry: nat, stack: nat)

  /** e is this file's program, over what ring 3 had before: its image and a fresh stack, the
      entry point of the file's header, and the stack pointer near the top. */
  ghost predicate Started(s0: Space, f0: map<nat, seq<byte>>, e: Entered, file: seq<byte>, nx: bool) {
    && Acceptable(file) && Protected(e.space, e.frames, nx)
    && Stacked(s0, f0, e.space, e.frames, file, nx, STACK_HI)
    && e.entry == LE(file, 24, 8) && e.stack == 0x7000_FFFF_EFF0
  }

  /** The pages open to ring 3 after n of the file's segments, over those open before. */
  ghost predicate Opened(s0: Space, s: Space, file: seq<byte>, n: nat) {
    n <= PhCount(file)
    && forall v {:trigger UserPage(s, v)} :: 0 <= v < PAGES ==>
         (UserPage(s, v) <==> UserPage(s0, v) || Loaded(file, n, v))
  }

  /** The same, with the pages begun. */
  ghost predicate OpenedPart(s0: Space, s: Space, file: seq<byte>, n: nat, reached: nat) {
    n <= PhCount(file)
    && forall v {:trigger UserPage(s, v)} :: 0 <= v < PAGES ==>
         (UserPage(s, v) <==> UserPage(s0, v) || Loaded(file, n, v) || Begun(file, n, reached, v))
  }

  class Kernel {
    const pt: PageTables
    var imgLo: nat
    var imgHi: nat
    /** Every entry to ring 3 so far. */
    ghost var runs: seq<Entered>

    ghost predicate Valid()
      reads pt, pt.mem
    {
      pt.Valid() && (pt.pml4 != 0 ==> Protected(pt.Sp(), pt.mem.frames, pt.nxOk))
    }

    ghost predicate Live()
      reads pt, pt.mem
    {
      Valid() && pt.pml4 != 0
    }

    constructor (pt: PageTables)
      requires pt.Valid() && pt.pml4 == 0
      ensures Valid() && this.pt == pt && runs == []
    {
      this.pt, imgLo, imgHi, runs := pt, 0, 0, [];
    }

    /** Page v as ring 3 sees it now. */
    ghost function User(v: nat): Option<UserPg>
      reads pt, pt.mem
    {
      UView(pt.Sp(), pt.mem.frames, v)
    }

    /** load_segment's allocation and copy: a fresh frame holding its slice of the file. */
    method FillFrame(v: nat, file: seq<byte>, p: Phdr) returns (r: Option<nat>)
      requires pt.mem.Valid() && SegOk(|file|, p) && p.Covers(v)
      modifies pt.mem`heapAt, pt.mem`tables, pt.mem`frames
      ensures pt.mem.Valid() && pt.mem.tables == old(pt.mem.tables)
      ensures r.None? ==> pt.mem.frames == old(pt.mem.frames) && pt.mem.Room() == 0
      ensures r.Some? ==> r.value !in old(pt.mem.frames)
      ensures r.Some? ==> pt.mem.frames == old(pt.mem.frames)[r.value := SegPage(file, p, v)]
    {
      var page := v * 4096;
      r := pt.mem.KallocPage(AsFrame);
      if r.None? { return; }
      var pa := r.value;
      var flo := if page > p.vaddr then page - p.vaddr else 0;
      var pgo := if page > p.vaddr then 0 else p.vaddr - page;
      ghost var n := if flo < p.filesz then (if p.filesz - flo > 4096 - pgo then 4096 - pgo else p.filesz - flo) else 0;
      CopiedPage(file, p, v, flo, pgo, n);
      if flo < p.filesz {
        var len := p.filesz - flo;
        if len > 4096 - pgo { len := 4096 - pgo; }
        pt.mem.CopyIn(pa, pgo, file[p.off + flo..p.off + flo + len]);
      }
    }

    /** load_segment's loop body: a filled frame and its mapping. */
    method LoadPage(v: nat, file: seq<byte>, p: Phdr) returns (ok: bool)
      requires Live() && SegOk(|file|, p) && p.Covers(v)
      modifies pt`pos, pt`up, pt.mem`heapAt, pt.mem`tables, pt.mem`frames
      ensures Live() && KernelSame(old(pt.Sp()), pt.Sp())
      ensures ok || pt.mem.Room() == 0
      ensures ok ==> Places(old(pt.Sp()), old(pt.mem.frames), pt.Sp(), pt.mem.frames, v,
                            Some(SegView(file, p, pt.nxOk, v)))
      ensures !ok ==> SameSeen(old(pt.Sp()), old(pt.mem.frames), pt.Sp(), pt.mem.frames)
    {
      hide Protected, KernelSame, Places, SameView, MapsPage, Heap.Room, SegOk, Phdr.Covers;
      SegInWindow(|file|, p, v);
      ghost var s, f := pt.Sp(), pt.mem.frames;
      var pa := FillFrame(v, file, p);
      if pa.None? {
        Unchanged(s);
        return false;
      }
      ok := pt.UserMap(v * 4096, pa.value, p.W(), p.X());
      if ok {
        MapFresh(s, f, pt.Sp(), pt.mem.frames, pt.nxOk, v, pa.value, p.W(), p.X() || !pt.nxOk);
      } else {
        MoreFrames(s, f, pt.Sp(), pt.mem.frames, pt.nxOk);
      }
    }

    /** load_segment: all of the segment's pages, then the span it widens; or, memory running
        out, the pages before `reached`. */
    method LoadSegment(file: seq<byte>, p: Phdr) returns (ok: bool, ghost reached: nat)
      requires Live() && SegOk(|file|, p) && p.Loads()
      modifies this`imgLo, this`imgHi, pt`pos, pt`up, pt.mem`heapAt, pt.mem`tables, pt.mem`frames
      ensures Live() && KernelSame(old(pt.Sp()), pt.Sp())
      ensures ok || pt.mem.Room() == 0
      ensures PlacesSeg(old(pt.Sp()), old(pt.mem.frames), pt.Sp(), pt.mem.frames, file, p, pt.nxOk, p.First(), reached)
      ensures if ok then reached == p.End() else p.First() <= reached < p.End()
      ensures var start, end := p.First() * 4096, p.End() * 4096;
              ok ==> imgLo == (if start < old(imgLo) then start else old(imgLo))
                     && imgHi == if end > old(imgHi) then end else old(imgHi)
      ensures !ok ==> imgLo == old(imgLo) && imgHi == old(imgHi)
    {
      hide Live, Valid, KernelSame, Places, PlacesSeg, SameSeen, Heap.Room, SegOk;
      var start, end := p.First() * 4096, p.End() * 4096;
      var page := start;
      ghost var s0, f0, v := pt.Sp(), pt.mem.frames, p.First();
      PlacesNothing(s0, f0, file, p, pt.nxOk, v);
      Unchanged(s0);
      while page < end
        invariant Live() && KernelSame(s0, pt.Sp()) && imgLo == old(imgLo) && imgHi == old(imgHi)
        invariant page == v * 4096 <= end && p.First() <= v
        invariant PlacesSeg(s0, f0, pt.Sp(), pt.mem.frames, file, p, pt.nxOk, p.First(), v)
      {
        ghost var s, f := pt.Sp(), pt.mem.frames;
        ok := LoadPage(page / 4096, file, p);
        KernelSameTrans(s0, s, pt.Sp());
        if !ok {
          PlacesSegSame(s0, f0, s, f, pt.Sp(), pt.mem.frames, file, p, pt.nxOk, p.First(), v);
          return ok, v;
        }
        PlacesSegMore(s0, f0, s, f, pt.Sp(), pt.mem.frames, file, p, pt.nxOk, p.First(), v);
        page, v := page + 4096, v + 1;
      }
      if start < imgLo { imgLo := start; }
      if end > imgHi { imgHi := end; }
      ok, reached := true, v;
    }

    /** elf_run's loop over the program headers. */
    method LoadSegments(file: seq<byte>) returns (code: int, ghost done: nat, ghost reached: nat)
      requires Live() && HeaderOk(file)
      modifies this`imgLo, this`imgHi, pt`pos, pt`up, pt.mem`heapAt, pt.mem`tables, pt.mem`frames
      ensures Live() && KernelSame(old(pt.Sp()), pt.Sp())
      ensures code == 0 || (code == -1 && !Acceptable(file)) || (code == -2 && pt.mem.Room() == 0)
      ensures code == 0 ==> Acceptable(file) && Spans(file, PhNum(file), imgLo, imgHi) && done == PhNum(file)
      ensures code != -2 ==> done <= PhNum(file)
                             && Holds(old(pt.Sp()), old(pt.mem.frames), pt.Sp(), pt.mem.frames, file, done, pt.nxOk)
      ensures code == -1 ==> done == PhNum(file) || (Ph(file, done).Loads() && !SegOk(|file|, Ph(file, done)))
      ensures code == -2 ==> done < PhNum(file) && Ph(file, done).First() <= reached < Ph(file, done).End()
                             && HoldsPart(old(pt.Sp()), old(pt.mem.frames), pt.Sp(), pt.mem.frames, file, done,
                                           pt.nxOk, reached)
    {
      hide Live, Valid, KernelSame, PlacesSeg, Holds, HoldsPart, Heap.Room, Spans, HeaderOk, SegOk, Phdr.Covers,
        Phdr.Loads, Ph;
      imgLo, imgHi, reached := 0xFFFF_FFFF_FFFF_FFFF, 0, 0;
      ghost var s0, f0 := pt.Sp(), pt.mem.frames;
      Unchanged(s0);
      HoldsNothing(s0, f0, file, pt.nxOk);
      SpansNothing(file);
      var i := 0;
      while i < PhNum(file)
        invariant i <= PhNum(file) && Live() && KernelSame(s0, pt.Sp())
        invariant Spans(file, i, imgLo, imgHi) && Holds(s0, f0, pt.Sp(), pt.mem.frames, file, i, pt.nxOk)
        invariant forall k :: 0 <= k < i && Ph(file, k).Loads() ==> SegOk(|file|, Ph(file, k))
      {
        var p := Ph(file, i);
        if p.Loads() {
          if !SegOk(|file|, p) { return -1, i, 0; }
          ghost var s, f := pt.Sp(), pt.mem.frames;
          ghost var lo, hi := imgLo, imgHi;
          var ok: bool;
          ok, reached := LoadSegment(file, p);
          KernelSameTrans(s0, s, pt.Sp());
          if !ok {
            HoldsPartly(s0, f0, s, f, pt.Sp(), pt.mem.frames, file, i, pt.nxOk, reached);
            return -2, i, reached;
          }
          SpansMore(file, i, lo, hi, imgLo, imgHi);
          HoldsMore(s0, f0, s, f, pt.Sp(), pt.mem.frames, file, i, pt.nxOk);
        } else {
          SpansSkip(file, i, imgLo, imgHi);
          HoldsSkip(s0, f0, pt.Sp(), pt.mem.frames, file, i, pt.nxOk);
        }
        i := i + 1;
      }
      SpansAny(file, imgLo, imgHi);
      if imgHi == 0 { return -1, i, 0; }
      return 0, i, 0;
    }

    /** elf_run's stack: zeroed pages under USER_STACK_TOP. */
    method LoadStack(ghost file: seq<byte>, ghost s0: Space, ghost f0: map<nat, seq<byte>>)
      returns (ok: bool, ghost reached: nat)
      requires Live() && HeaderOk(file) && Stacked(s0, f0, pt.Sp(), pt.mem.frames, file, pt.nxOk, STACK_LO)
      modifies pt`pos, pt`up, pt.mem`heapAt, pt.mem`tables, pt.mem`frames
      ensures Live() && KernelSame(old(pt.Sp()), pt.Sp())
      ensures ok || pt.mem.Room() == 0
      ensures Stacked(s0, f0, pt.Sp(), pt.mem.frames, file, pt.nxOk, reached)
      ensures if ok then reached == STACK_HI else STACK_LO <= reached < STACK_HI
    {
      hide Live, Valid, KernelSame, Places, SameSeen, Heap.Room, Stacked, HeaderOk;
      var page := USTACK_LO;
      ghost var s, v := pt.Sp(), STACK_LO;
      Unchanged(s);
      while page < USER_STACK_TOP
        invariant Live() && KernelSame(s, pt.Sp())
        invariant page == v * 4096 && STACK_LO <= v <= STACK_HI
        invariant Stacked(s0, f0, pt.Sp(), pt.mem.frames, file, pt.nxOk, v)
      {
        ghost var s1, f1 := pt.Sp(), pt.mem.frames;
        ok := StackPage(page / 4096);
        KernelSameTrans(s, s1, pt.Sp());
        if !ok {
          StackedSame(s0, f0, s1, f1, pt.Sp(), pt.mem.frames, file, pt.nxOk, v);
          return ok, v;
        }
        StackedMore(s0, f0, s1, f1, pt.Sp(), pt.mem.frames, file, pt.nxOk, v);
        page, v := page + 4096, v + 1;
      }
      ok, reached := true, v;
    }

    method StackPage(v: nat) returns (ok: bool)
      requires Live() && STACK_LO <= v < STACK_HI
      modifies pt`pos, pt`up, pt.mem`heapAt, pt.mem`tables, pt.mem`frames
      ensures Live() && KernelSame(old(pt.Sp()), pt.Sp())
      ensures ok || pt.mem.Room() == 0
      ensures ok ==> Places(old(pt.Sp()), old(pt.mem.frames), pt.Sp(), pt.mem.frames, v, Some(StackPg(pt.nxOk)))
      ensures !ok ==> SameSeen(old(pt.Sp()), old(pt.mem.frames), pt.Sp(), pt.mem.frames)
    {
      hide Protected, KernelSame, Places, SameView, MapsPage, Heap.Room;
      ghost var s, f := pt.Sp(), pt.mem.frames;
      var pa := pt.mem.KallocPage(AsFrame);
      if pa.None? {
        Unchanged(s);
        return false;
      }
      ok := pt.UserMap(v * 4096, pa.value, true, false);
      if ok {
        MapFresh(s, f, pt.Sp(), pt.mem.frames, pt.nxOk, v, pa.value, true, !pt.nxOk);
      } else {
        MoreFrames(s, f, pt.Sp(), pt.mem.frames, pt.nxOk);
      }
    }

    /** elf_run up to user_enter. */
    method Load(file: seq<byte>) returns (code: int, ghost done: nat, ghost reached: nat)
      requires Live()
      modifies this`imgLo, this`imgHi, pt`pos, pt`up, pt.mem`heapAt, pt.mem`tables, pt.mem`frames
      ensures Live() && KernelSame(old(pt.Sp()), pt.Sp())
      ensures code == 0 || (code == -1 && !Acceptable(file)) || (code == -2 && pt.mem.Room() == 0)
      ensures code == 0 ==> Acceptable(file) && Spans(file, PhNum(file), imgLo, imgHi)
                            && Stacked(old(pt.Sp()), old(pt.mem.frames), pt.Sp(), pt.mem.frames, file, pt.nxOk,
                                       STACK_HI)
      ensures code == -1 && HeaderOk(file) ==>
                && done <= PhNum(file)
                && Holds(old(pt.Sp()), old(pt.mem.frames), pt.Sp(), pt.mem.frames, file, done, pt.nxOk)
                && (done == PhNum(file) || (Ph(file, done).Loads() && !SegOk(|file|, Ph(file, done))))
      ensures code == -2 ==> HeaderOk(file) && done <= PhNum(file)
      ensures code == -2 && done < PhNum(file) ==>
                HoldsPart(old(pt.Sp()), old(pt.mem.frames), pt.Sp(), pt.mem.frames, file, done, pt.nxOk, reached)
                && Ph(file, done).First() <= reached < Ph(file, done).End()
      ensures code == -2 && done == PhNum(file) ==>
                Stacked(old(pt.Sp()), old(pt.mem.frames), pt.Sp(), pt.mem.frames, file, pt.nxOk, reached)
                && STACK_LO <= reached < STACK_HI
      ensures code == -1 && !HeaderOk(file) ==>
              done == 0 && pt.Sp() == old(pt.Sp()) && pt.mem.frames == old(pt.mem.frames)
    {
      hide Live, Valid, KernelSame, Holds, HoldsPart, Heap.Room, Spans, HeaderOk, Stacked, Phdr.First, Phdr.End;
      ghost var s0, f0 := pt.Sp(), pt.mem.frames;
      if !HeaderOk(file) {
        Unchanged(s0);
        return -1, 0, 0;
      }
      code, done, reached := LoadSegments(file);
      if code != 0 { return; }
      ghost var s := pt.Sp();
      StackedNothing(s0, f0, s, pt.mem.frames, file, pt.nxOk);
      var ok: bool;
      ok, reached := LoadStack(file, s0, f0);
      KernelSameTrans(s0, s, pt.Sp());
      if !ok { return -2, done, reached; }
    }

    /** One store by the running program, let through exactly when the processor's walk
        grants ring 3 a write. It can only land in a frame, never in a table. */
    method UserStore(v: nat, off: nat, b: byte)
      requires Live() && v < PAGES && off < PAGE
      modifies pt.mem`frames
      ensures Live() && pt.mem.frames.Keys == old(pt.mem.frames.Keys)
      ensures old(User(v).Some? && User(v).value.w) ==>
                && UserPage(pt.Sp(), v) && Translate(pt.Sp(), v).value.pa in old(pt.mem.frames)
                && var p := Translate(pt.Sp(), v).value.pa;
                   var was := old(pt.mem.frames)[p];
                   && |was| == PAGE
                   && pt.mem.frames == old(pt.mem.frames)[p := was[..off] + [b] + was[off + 1..]]
      ensures !old(User(v).Some? && User(v).value.w) ==> pt.mem.frames == old(pt.mem.frames)
    {
      match Walk(pt.mem.tables, pt.pml4, 4, Idx(v)) {
        case None =>
        case Some(x) =>
          if x.u && x.w {
            ghost var s, f := pt.Sp(), pt.mem.frames;
            assert Translate(s, v) == Some(x) && PageOk(s, f, pt.nxOk, v);
            pt.mem.Poke(x.pa, off, b);
            SameFrames(s, f, pt.mem.frames, pt.nxOk);
          }
      }
    }

    /** user_enter: any number of stores by the program, and any allocations by the
        system calls it makes. Only frames ring 3 may write can change. */
    method UserEnter(entry: nat, stack: nat) returns (code: int)
      requires Live()
      modifies this`runs, pt.mem`frames, pt.mem`heapAt
      ensures runs == old(runs) + [Entered(pt.Sp(), old(pt.mem.frames), entry, stack)]
      ensures Live() && pt.mem.frames.Keys == old(pt.mem.frames.Keys)
      ensures forall p :: p in pt.mem.frames && pt.mem.frames[p] != old(pt.mem.frames)[p] ==> Writable(pt.Sp(), p)
    {
      var steps: nat := *;
      ghost var f := pt.mem.frames;
      runs := runs + [Entered(pt.Sp(), f, entry, stack)];
      while steps > 0
        invariant Live() && pt.mem.frames.Keys == f.Keys
        invariant runs == old(runs) + [Entered(pt.Sp(), f, entry, stack)]
        invariant forall p :: p in f && pt.mem.frames[p] != f[p] ==> Writable(pt.Sp(), p)
      {
        if * {
          var v: nat, off: nat, b: byte := *, *, *;
          if v < PAGES && off < PAGE {
            UserStore(v, off, b);
          }
        } else {
          var n: nat := *;
          var r := pt.mem.Kalloc(n);
        }
        steps := steps - 1;
      }
      code := *;
    }

    /** elf_run. Whatever it returns, ring 3 stays confined and the kernel's own
        translations are untouched. When it returns 0, the program's span and its stack
        are gone again and nothing else has changed hands. */
    method ElfRun(file: seq<byte>) returns (r: int, ghost done: nat, ghost reached: nat)
      requires Live()
      modifies this`runs, this`imgLo, this`imgHi, pt`pos, pt`up, pt.mem`heapAt, pt.mem`tables, pt.mem`frames
      ensures Live() && KernelSame(old(pt.Sp()), pt.Sp())
      ensures r == 0 || (r == -1 && !Acceptable(file)) || (r == -2 && pt.mem.Room() == 0)
      ensures r == 0 ==> Acceptable(file)
      ensures r == 0 ==> exists e :: runs == old(runs) + [e]
                                     && Started(old(pt.Sp()), old(pt.mem.frames), e, file, pt.nxOk)
      ensures r != 0 ==> runs == old(runs)
      ensures r == -1 ==> Opened(old(pt.Sp()), pt.Sp(), file, done)
      ensures r == -2 ==> OpenedPart(old(pt.Sp()), pt.Sp(), file, done, reached)
      ensures r == -1 ==> done == PhCount(file) || (Ph(file, done).Loads() && !SegOk(|file|, Ph(file, done)))
      ensures r == 0 ==> Closes(old(pt.Sp()), pt.Sp(), imgLo, imgHi)
    {
      hide Live, Valid, KernelSame, Protected, Heap.Room, Spans, HeaderOk, Acceptable, Stacked, HoldsPart, Begun;
      hide Loaded;
      ghost var s0, f0 := pt.Sp(), pt.mem.frames;
      Confined();
      r, done, reached := Load(file);
      Confined();
      if r == -1 {
        if HeaderOk(file) {
          LeftBehind(s0, f0, pt.Sp(), pt.mem.frames, file, done, pt.nxOk);
        } else {
          NoneOpened(s0, file);
        }
        return;
      }
      if r == -2 {
        LeftByOom(s0, f0, pt.Sp(), pt.mem.frames, file, done, reached, pt.nxOk);
        return;
      }
      SpanBounds(file, imgLo, imgHi);
      ghost var s1, f1 := pt.Sp(), pt.mem.frames;
      EntryIs(file);
      assert Started(s0, f0, Entered(s1, f1, Elf.Entry(file), USER_STACK_TOP - 16), file, pt.nxOk);
      var exitCode := UserEnter(Elf.Entry(file), USER_STACK_TOP - 16);
      TakeBack();
      KernelSameTrans(s0, s1, pt.Sp());
      RunCloses(s0, f0, s1, f1, pt.Sp(), file, pt.nxOk, imgLo, imgHi);
    }

    /** The two unmaps after the program's exit. */
    method TakeBack()
      requires Live() && USER_BASE <= imgLo <= imgHi <= USER_TOP
      modifies pt.mem`tables
      ensures Live() && KernelSame(old(pt.Sp()), pt.Sp())
      ensures Blanks(old(pt.Sp()), pt.Sp(), imgLo, imgHi)
    {
      hide Live, Valid, KernelSame, Protected, Heap.Room, Gone, Blanks;
      ghost var s1 := pt.Sp();
      Unmap(imgLo, imgHi - imgLo);
      ghost var s2 := pt.Sp();
      Unmap(USTACK_LO, USTACK_PAGES * 4096);
      KernelSameTrans(s1, s2, pt.Sp());
      BlanksBoth(s1, s2, pt.Sp(), imgLo, imgHi);
    }

    /** What Live says about ring 3. */
    lemma Confined()
      requires Live()
      ensures Protected(pt.Sp(), pt.mem.frames, pt.nxOk)
    {
    }

    /** vm_user_unmap_range on part of the window. */
    method Unmap(va: nat, len: nat)
      requires Live() && USER_BASE <= va && va + len <= USER_TOP
      modifies pt.mem`tables
      ensures Live() && KernelSame(old(pt.Sp()), pt.Sp())
      ensures Gone(old(pt.Sp()), pt.Sp(), va / 4096, (va + len + 4095) / 4096)
    {
      hide KernelSame, Protected, Unmaps, Heap.Room;
      ghost var s := pt.Sp();
      pt.UserUnmapRange(va, len);
      UnmapKeeps(s, pt.mem.frames, pt.Sp(), pt.nxOk, va / 4096, (va + len + 4095) / 4096);
    }
  }
}
