/** What a program finds in memory when it starts. */
module ExecImage {
  import opened Wrappers
  import opened Bytes
  import opened PageTable
  import opened Paging
  import opened UserSpace
  import opened Elf
  import opened Proc

  /** No two segments share a page. */
  ghost predicate PageDisjoint(file: seq<byte>)
    requires HeaderOk(file)
  {
    forall i, j, v :: 0 <= i < j < PhNum(file) && Ph(file, i).Covers(v) ==> !Ph(file, j).Covers(v)
  }

  /** Wherever two segments share a page, they say the same about the whole page:
      a property of the file alone. */
  ghost predicate Agree(file: seq<byte>, nx: bool)
    requires HeaderOk(file)
  {
    forall i, j, v {:trigger Ph(file, i).Covers(v), Ph(file, j).Covers(v)} ::
      0 <= i < j < PhNum(file) && Ph(file, i).Covers(v) && Ph(file, j).Covers(v) ==>
        SegView(file, Ph(file, i), nx, v) == SegView(file, Ph(file, j), nx, v)
  }

  /** Every segment is in memory as the file describes it. */
  ghost predicate Faithful(s: Space, f: map<nat, seq<byte>>, file: seq<byte>, nx: bool)
    requires HeaderOk(file)
  {
    forall i, v {:trigger Ph(file, i).Covers(v)} :: 0 <= i < PhNum(file) && Ph(file, i).Covers(v) ==>
      UView(s, f, v) == Some(SegView(file, Ph(file, i), nx, v))
  }

  /** Below the end of the window, what is not a stack page. */
  lemma SegmentsClearOfStack(file: seq<byte>, i: nat, v: nat)
    requires Acceptable(file) && i < PhNum(file) && Ph(file, i).Covers(v)
    ensures v < GUARD && v < PAGES
  {
    SegInWindow(|file|, Ph(file, i), v);
  }

  /** The exact condition under which loading is faithful: shared pages must agree,
      because a later segment's page replaces an earlier one's whole. */
  lemma FaithfulIffAgree(s0: Space, f0: map<nat, seq<byte>>, s: Space, f: map<nat, seq<byte>>, file: seq<byte>,
                         nx: bool)
    requires Acceptable(file) && Stacked(s0, f0, s, f, file, nx, STACK_HI)
    ensures Faithful(s, f, file, nx) <==> Agree(file, nx)
  {
    hide Ph, PhNum, Phdr.Covers;
    var n := PhNum(file);
    forall i: nat, v: nat | i < n && Ph(file, i).Covers(v)
      ensures v < PAGES && UView(s, f, v) == ImageAt(file, n, nx, v, UView(s0, f0, v))
    {
      SegmentsClearOfStack(file, i, v);
    }
    if Agree(file, nx) {
      forall i, v | 0 <= i < n && Ph(file, i).Covers(v)
        ensures UView(s, f, v) == Some(SegView(file, Ph(file, i), nx, v))
      {
        LastIsLatest(file, n, i, v);
      }
    }
    if Faithful(s, f, file, nx) {
      forall i, j, v | 0 <= i < j < n && Ph(file, i).Covers(v) && Ph(file, j).Covers(v)
        ensures SegView(file, Ph(file, i), nx, v) == SegView(file, Ph(file, j), nx, v)
      {
        assert UView(s, f, v) == Some(SegView(file, Ph(file, i), nx, v));
        assert UView(s, f, v) == Some(SegView(file, Ph(file, j), nx, v));
      }
    }
  }

  /** The segment found at v is one that covers v, at or after any given one. */
  lemma {:induction false} LastIsLatest(file: seq<byte>, n: nat, i: nat, v: nat)
    requires HeaderOk(file) && n <= PhNum(file) && i < n && Ph(file, i).Covers(v)
    ensures LastAt(file, n, v).Some?
    ensures exists j {:trigger Ph(file, j)} ::
              i <= j < n && LastAt(file, n, v).value == Ph(file, j) && Ph(file, j).Covers(v)
  {
    hide Ph, PhNum, Phdr.Covers;
    if !Ph(file, n - 1).Covers(v) {
      LastIsLatest(file, n - 1, i, v);
    }
  }

  /** From an empty window, a program whose segments do not share pages starts with
      exactly its file's image, a zeroed stack, and nothing else within its reach. */
  lemma StartsExact(s0: Space, f0: map<nat, seq<byte>>, s: Space, f: map<nat, seq<byte>>, file: seq<byte>, nx: bool)
    requires Acceptable(file) && PageDisjoint(file)
    requires Protected(s, f, nx) && (forall v :: 0 <= v < PAGES ==> !UserPage(s0, v))
    requires Stacked(s0, f0, s, f, file, nx, STACK_HI)
    ensures Faithful(s, f, file, nx)
    ensures forall v :: STACK_LO <= v < STACK_HI ==> UView(s, f, v) == Some(StackPg(nx))
    ensures forall v :: 0 <= v < PAGES && !(STACK_LO <= v < STACK_HI) && !Loaded(file, PhCount(file), v) ==>
              !UserPage(s, v)
  {
    FaithfulIffAgree(s0, f0, s, f, file, nx);
    forall v | 0 <= v < PAGES && !(STACK_LO <= v < STACK_HI) && !Loaded(file, PhCount(file), v)
      ensures !UserPage(s, v)
    {
      assert UView(s, f, v) == UView(s0, f0, v);
      assert PageOk(s, f, nx, v);
    }
    forall v | STACK_LO <= v < STACK_HI ensures UView(s, f, v) == Some(StackPg(nx)) {
    }
  }

  /** The byte ring 3 reads at address a, if it can. */
  ghost function UByte(s: Space, f: map<nat, seq<byte>>, a: nat): Option<byte> {
    match UView(s, f, a / 4096)
    case None => None
    case Some(u) => if a % 4096 < |u.bytes| then Some(u.bytes[a % 4096]) else None
  }

  // ------------------------------------------------- straight from the bytes

  /** The n-byte little-endian number at `at`. */
  function Num(file: seq<byte>, at: nat, n: nat): nat { if at + n <= |file| then LE(file, at, n) else 0 }

  function ByteAt(file: seq<byte>, at: nat): byte { if at < |file| then file[at] else 0 }

  /** Where program header i lies in the file, and how many there are. */
  function HeaderAt(file: seq<byte>, i: nat): nat { Num(file, 32, 8) + 56 * i }
  function HeaderCount(file: seq<byte>): nat { Num(file, 56, 2) }

  /** Headers i and j load nothing into a common page. */
  ghost predicate PagesApart(file: seq<byte>, i: nat, j: nat) {
    var a, b := HeaderAt(file, i), HeaderAt(file, j);
    Num(file, b, 4) == 1 && Num(file, b + 40, 8) > 0 ==>
      || (Num(file, a + 16, 8) + Num(file, a + 40, 8) + 4095) / 4096 <= Num(file, b + 16, 8) / 4096
      || (Num(file, b + 16, 8) + Num(file, b + 40, 8) + 4095) / 4096 <= Num(file, a + 16, 8) / 4096
  }

  lemma LowBits(s: seq<byte>, at: nat)
    requires at + 4 <= |s|
    ensures LE(s, at, 4) % 2 == s[at] % 2 && LE(s, at, 4) / 2 % 2 == s[at] / 2 % 2
  {
    var rest := LE(s, at + 1, 3);
    assert LE(s, at, 4) == s[at] + 2 * (128 * rest);
    assert (s[at] as int + 2 * (128 * rest)) / 2 == s[at] / 2 + 2 * (64 * rest);
  }

  /** The model's reading of header i is the format's. */
  lemma Fields(file: seq<byte>, i: nat)
    requires HeaderOk(file) && i < HeaderCount(file)
    ensures var at := HeaderAt(file, i);
            && PhNum(file) == HeaderCount(file) && at + 56 <= |file|
            && Ph(file, i) == Phdr(Num(file, at, 4), Num(file, at + 4, 4), Num(file, at + 8, 8), Num(file, at + 16, 8),
                                   Num(file, at + 32, 8), Num(file, at + 40, 8))
            && (Ph(file, i).W() <==> ByteAt(file, at + 4) / 2 % 2 == 1)
            && (Ph(file, i).X() <==> ByteAt(file, at + 4) % 2 == 1)
  {
    hide LE;
    assert PhNum(file) * 56 >= i * 56 + 56;
    LowBits(file, HeaderAt(file, i) + 4);
  }

  /** A page that may be written iff bit 1 of these flags is set, and run iff bit 0 is or there
      is no NX. */
  predicate Permits(u: Option<UserPg>, flags: byte, nx: bool) {
    u.Some? && (u.value.w <==> flags / 2 % 2 == 1) && (u.value.x <==> flags % 2 == 1 || !nx)
  }

  /** A program is entered with its file in memory as the ELF-64 format lays it out: byte k of
      a loaded segment is the file's at p_offset + k below p_filesz, and zero up to p_memsz, at
      p_vaddr + k; writable iff bit 1 of p_flags is set, executable iff bit 0 is (or the
      processor has no NX). */
  lemma StartsAsFiled(s0: Space, f0: map<nat, seq<byte>>, e: Entered, file: seq<byte>, nx: bool, i: nat, k: nat)
    requires Started(s0, f0, e, file, nx) && i < HeaderCount(file)
    requires forall j :: 0 <= j < HeaderCount(file) && j != i ==> PagesApart(file, i, j)
    requires Num(file, HeaderAt(file, i), 4) == 1 && k < Num(file, HeaderAt(file, i) + 40, 8)
    ensures var at := HeaderAt(file, i);
            var off, va, filesz := Num(file, at + 8, 8), Num(file, at + 16, 8), Num(file, at + 32, 8);
            && at + 56 <= |file| && (k < filesz ==> off + k < |file|)
            && UByte(e.space, e.frames, va + k) == Some(if k < filesz then ByteAt(file, off + k) else 0)
            && Permits(UView(e.space, e.frames, (va + k) / 4096), ByteAt(file, at + 4), nx)
  {
    hide HeaderOk, Ph, PhNum, Num, HeaderAt, HeaderCount, PagesApart, Phdr.W, Phdr.X, Phdr.Covers, Stacked, SegOk;
    hide UView, UByte, Protected, SegmentByte;
    Fields(file, i);
    var p := Ph(file, i);
    assert SegOk(|file|, p) by { assert p.Loads(); }
    CoversByte(p, k);
    OnlyThere(file, i, (p.vaddr + k) / 4096);
    ByteThere(s0, f0, e.space, e.frames, file, nx, p, k);
    ByteIs(file, p, k);
  }

  lemma CoversByte(p: Phdr, k: nat)
    requires p.Loads() && k < p.memsz
    ensures p.Covers((p.vaddr + k) / 4096)
  {
  }

  lemma ByteIs(file: seq<byte>, p: Phdr, k: nat)
    requires SegOk(|file|, p)
    ensures k < p.filesz ==> p.off + k < |file|
    ensures SegmentByte(file, p, k) == if k < p.filesz then ByteAt(file, p.off + k) else 0
  {
  }

  /** The segment alone at its page: its bytes and its permissions. */
  lemma ByteThere(s0: Space, f0: map<nat, seq<byte>>, s: Space, f: map<nat, seq<byte>>, file: seq<byte>, nx: bool,
                  p: Phdr, k: nat)
    requires HeaderOk(file) && Stacked(s0, f0, s, f, file, nx, STACK_HI) && SegOk(|file|, p) && p.Loads() && k < p.memsz
    requires LastAt(file, PhNum(file), (p.vaddr + k) / 4096) == Some(p)
    ensures UByte(s, f, p.vaddr + k) == Some(SegmentByte(file, p, k))
    ensures var u := UView(s, f, (p.vaddr + k) / 4096);
            u.Some? && u.value.w == p.W() && (u.value.x <==> p.X() || !nx)
  {
    hide HeaderOk, PhNum, LastAt, UView, SegView, Phdr.Covers, SegOk;
    var v := (p.vaddr + k) / 4096;
    CoversByte(p, k);
    SegInWindow(|file|, p, v);
    assert UView(s, f, v) == ImageAt(file, PhNum(file), nx, v, UView(s0, f0, v));
    ViewByte(s, f, file, nx, p, k);
  }

  /** A page that shows the segment shows its bytes and its permissions. */
  lemma ViewByte(s: Space, f: map<nat, seq<byte>>, file: seq<byte>, nx: bool, p: Phdr, k: nat)
    requires UView(s, f, (p.vaddr + k) / 4096) == Some(SegView(file, p, nx, (p.vaddr + k) / 4096)) && k < p.memsz
    ensures UByte(s, f, p.vaddr + k) == Some(SegmentByte(file, p, k))
    ensures var u := UView(s, f, (p.vaddr + k) / 4096);
            u.Some? && u.value.w == p.W() && (u.value.x <==> p.X() || !nx)
  {
    hide UView;
    var a := p.vaddr + k;
    assert SegPage(file, p, a / 4096)[a % 4096] == SegByte(file, p, a);
  }

  lemma OnlyThere(file: seq<byte>, i: nat, v: nat)
    requires HeaderOk(file) && i < PhNum(file) == HeaderCount(file) && Ph(file, i).Covers(v)
    requires forall j :: 0 <= j < HeaderCount(file) && j != i ==> PagesApart(file, i, j)
    ensures LastAt(file, PhNum(file), v) == Some(Ph(file, i))
  {
    hide HeaderOk, Ph, PhNum, Num, HeaderAt, HeaderCount;
    Fields(file, i);
    forall j | 0 <= j < PhNum(file) && j != i ensures !Ph(file, j).Covers(v) {
      assert PagesApart(file, i, j);
      Fields(file, j);
    }
  }

  /** What elf_run asks of the file header: an ELF-64 executable for x86-64, 1 to 16 program
      headers of 56 bytes, all in the file, and an entry point in the user window. */
  predicate HeaderFine(file: seq<byte>) {
    && |file| >= 64 && file[..7] == [0x7F, 'E' as byte, 'L' as byte, 'F' as byte, 2, 1, 1]
    && file[16..20] == [2, 0, 62, 0] && file[54..56] == [56, 0]
    && 1 <= HeaderCount(file) <= 16 && Num(file, 32, 8) + 56 * HeaderCount(file) <= |file|
    && 0x7000_0000_0000 <= Num(file, 24, 8) < 0x7001_0000_0000
  }

  predicate ToLoad(file: seq<byte>, i: nat) {
    Num(file, HeaderAt(file, i), 4) == 1 && Num(file, HeaderAt(file, i) + 40, 8) > 0
  }

  /** And of a segment to load: at most 32 MiB, inside the window and a page short of the stack,
      its bytes in the file, and not both writable and executable. */
  predicate SegmentFine(file: seq<byte>, i: nat) {
    var at := HeaderAt(file, i);
    var va, memsz, filesz := Num(file, at + 16, 8), Num(file, at + 40, 8), Num(file, at + 32, 8);
    && filesz <= memsz <= 32 * 1024 * 1024 && 0x7000_0000_0000 <= va && va + memsz <= 0x7000_FFFB_E000
    && Num(file, at + 8, 8) + filesz <= |file| && ByteAt(file, at + 4) % 4 != 3
  }

  /** Exactly the files elf_run does not refuse, in their own bytes. */
  lemma AcceptedIff(file: seq<byte>)
    ensures Acceptable(file) <==>
              && HeaderFine(file)
              && (forall i :: 0 <= i < HeaderCount(file) && ToLoad(file, i) ==> SegmentFine(file, i))
              && exists i :: 0 <= i < HeaderCount(file) && ToLoad(file, i)
  {
    hide HeaderOk, HeaderFine, Ph, PhNum, HeaderCount, SegOk, SegmentFine, ToLoad;
    HeaderFineIff(file);
    if HeaderOk(file) {
      Fields0(file);
      forall i: nat | i < HeaderCount(file)
        ensures Ph(file, i).Loads() == ToLoad(file, i)
        ensures ToLoad(file, i) ==> SegOk(|file|, Ph(file, i)) == SegmentFine(file, i)
      {
        SegmentFineIff(file, i);
      }
    }
  }

  lemma Fields0(file: seq<byte>)
    requires HeaderOk(file)
    ensures PhNum(file) == HeaderCount(file)
  {
  }

  lemma HeaderFineIff(file: seq<byte>)
    ensures HeaderOk(file) <==> HeaderFine(file)
  {
    if |file| >= 64 {
      Two(file, 16);
      Two(file, 18);
      Two(file, 54);
      assert file[16..20] == [file[16], file[17], file[18], file[19]] && file[54..56] == [file[54], file[55]];
    }
  }

  lemma SegmentFineIff(file: seq<byte>, i: nat)
    requires HeaderOk(file) && i < HeaderCount(file)
    ensures i < PhNum(file) && Ph(file, i).Loads() == ToLoad(file, i)
    ensures ToLoad(file, i) ==> SegOk(|file|, Ph(file, i)) == SegmentFine(file, i)
  {
    hide HeaderOk, Ph, PhNum, Num, HeaderAt, HeaderCount, Phdr.W, Phdr.X;
    Fields(file, i);
    var b := ByteAt(file, HeaderAt(file, i) + 4);
    assert b % 4 == 3 <==> b / 2 % 2 == 1 && b % 2 == 1;
  }

  /** A segment with both bits is refused, whatever else the file holds. */
  lemma BothRefused(file: seq<byte>, i: nat)
    requires HeaderOk(file) && i < HeaderCount(file)
    requires Num(file, HeaderAt(file, i), 4) == 1 && Num(file, HeaderAt(file, i) + 40, 8) > 0
    requires ByteAt(file, HeaderAt(file, i) + 4) % 4 == 3
    ensures !Acceptable(file)
  {
    hide HeaderOk, Ph, PhNum, Num, HeaderAt, HeaderCount, Phdr.W, Phdr.X;
    Fields(file, i);
    var b := ByteAt(file, HeaderAt(file, i) + 4);
    assert b / 2 % 2 == 1 && b % 2 == 1;
    assert Ph(file, i).Loads() && !SegOk(|file|, Ph(file, i));
  }

  predicate IsSegment(file: seq<byte>, p: Phdr) {
    HeaderOk(file) && exists i :: 0 <= i < PhNum(file) && Ph(file, i) == p
  }

  /** Byte by byte: a segment reads as its file bytes and then as zeros, with the
      segment's own permissions. */
  lemma SegmentBytes(s: Space, f: map<nat, seq<byte>>, file: seq<byte>, nx: bool, p: Phdr, k: nat)
    requires Acceptable(file) && Faithful(s, f, file, nx) && IsSegment(file, p) && p.Loads() && k < p.memsz
    ensures UByte(s, f, p.vaddr + k) == Some(SegmentByte(file, p, k))
    ensures var u := UView(s, f, (p.vaddr + k) / 4096);
            u.Some? && u.value.w == p.W() && (u.value.x <==> p.X() || !nx)
  {
    hide Ph, PhNum, SegView, UView, Phdr.Covers;
    var i :| 0 <= i < PhNum(file) && Ph(file, i) == p;
    var a := p.vaddr + k;
    CoversByte(p, k);
    assert UView(s, f, a / 4096) == Some(SegView(file, p, nx, a / 4096));
    ViewByte(s, f, file, nx, p, k);
  }

  /** Byte k of a segment: the file's while it lasts, then zero. */
  function SegmentByte(file: seq<byte>, p: Phdr, k: nat): byte {
    if k < p.filesz && p.off + k < |file| then file[p.off + k] else 0
  }
}
