/** The ELF64 executables proc.c accepts, and the memory image they stand for. */
module Elf {
  import opened Wrappers
  import opened Bytes
  import opened UserSpace
  import opened Paging

  datatype Phdr = Phdr(typ: nat, flags: nat, off: nat, vaddr: nat, filesz: nat, memsz: nat)
  {
    /** A PT_LOAD with something to load. */
    predicate Loads() { typ == 1 && memsz != 0 }
    predicate W() { flags / 2 % 2 == 1 }
    predicate X() { flags % 2 == 1 }
    /** Its pages: from the one holding vaddr to the one past its last byte. */
    function First(): nat { vaddr / 4096 }
    function End(): nat { (vaddr + memsz + 4095) / 4096 }
    predicate Covers(v: nat) { Loads() && First() <= v < End() }
  }

  const EHDR: nat := 64
  const PHDR: nat := 56
  const IDENT: seq<byte> := [0x7F, 0x45, 0x4C, 0x46, 2, 1, 1]

  function Entry(file: seq<byte>): nat { if |file| >= EHDR then LE(file, 24, 8) else 0 }
  function PhOff(file: seq<byte>): nat { if |file| >= EHDR then LE(file, 32, 8) else 0 }
  function PhNum(file: seq<byte>): nat { if |file| >= EHDR then LE(file, 56, 2) else 0 }

  /** The checks elf_run makes before it looks at a program header. */
  predicate HeaderOk(file: seq<byte>) {
    && |file| >= EHDR && file[..7] == IDENT
    && LE(file, 16, 2) == 2 && LE(file, 18, 2) == 0x3E
    && 0 < PhNum(file) <= 16 && LE(file, 54, 2) == PHDR
    && PhOff(file) <= |file| && PhNum(file) * PHDR <= |file| - PhOff(file)
    && USER_BASE <= Entry(file) < USER_TOP
  }

  function PhdrAt(file: seq<byte>, at: nat): Phdr
    requires at + PHDR <= |file|
  {
    Phdr(LE(file, at, 4), LE(file, at + 4, 4), LE(file, at + 8, 8), LE(file, at + 16, 8),
         LE(file, at + 32, 8), LE(file, at + 40, 8))
  }

  function Ph(file: seq<byte>, i: nat): Phdr
    requires HeaderOk(file) && i < PhNum(file)
  {
    PhdrAt(file, PhOff(file) + i * PHDR)
  }

  /** The checks elf_run makes on a loadable segment: inside the file, inside the
      window and clear of the stack and its guard page, not both writable and
      executable. */
  predicate SegOk(size: nat, p: Phdr) {
    && p.filesz <= p.memsz <= 32 * 0x10_0000
    && USER_BASE <= p.vaddr < USTACK_LO - 4096 && p.memsz <= USTACK_LO - 4096 - p.vaddr
    && p.off <= size && p.filesz <= size - p.off
    && !(p.W() && p.X())
  }

  /** Files that elf_run does not answer with -1. */
  ghost predicate Acceptable(file: seq<byte>) {
    && HeaderOk(file)
    && (forall i :: 0 <= i < PhNum(file) && Ph(file, i).Loads() ==> SegOk(|file|, Ph(file, i)))
    && exists i :: 0 <= i < PhNum(file) && Ph(file, i).Loads()
  }

  // ------------------------------------------------------------- the image

  /** The byte a segment puts at address a: from the file, then zeros. */
  function SegByte(file: seq<byte>, p: Phdr, a: nat): byte {
    if p.vaddr <= a < p.vaddr + p.filesz && p.off + (a - p.vaddr) < |file| then file[p.off + (a - p.vaddr)] else 0
  }

  /** The whole page v as segment p alone would have it. */
  function SegPage(file: seq<byte>, p: Phdr, v: nat): (bytes: seq<byte>)
    ensures |bytes| == 4096
  {
    seq<byte>(4096, k requires 0 <= k < 4096 => SegByte(file, p, v * 4096 + k))
  }

  /** The last of the first n headers that loads something at page v. */
  function LastAt(file: seq<byte>, n: nat, v: nat): (r: Option<Phdr>)
    requires HeaderOk(file) && n <= PhNum(file)
    ensures r.None? <==> forall i :: 0 <= i < n ==> !Ph(file, i).Covers(v)
    ensures r.Some? ==> exists i :: 0 <= i < n && Ph(file, i) == r.value && r.value.Covers(v)
  {
    if n == 0 then None
    else if Ph(file, n - 1).Covers(v) then Some(Ph(file, n - 1))
    else LastAt(file, n - 1, v)
  }

  function SegView(file: seq<byte>, p: Phdr, nx: bool, v: nat): UserPg {
    UserPg(SegPage(file, p, v), p.W(), p.X() || !nx)
  }

  /** Page v after the first n headers, if it was `was` before. */
  function ImageAt(file: seq<byte>, n: nat, nx: bool, v: nat, was: Option<UserPg>): Option<UserPg>
    requires HeaderOk(file) && n <= PhNum(file)
  {
    match LastAt(file, n, v)
    case Some(p) => Some(SegView(file, p, nx, v))
    case None => was
  }

  /** An accepted segment stays inside the window, below the guard page. */
  lemma SegInWindow(size: nat, p: Phdr, v: nat)
    requires SegOk(size, p) && p.Covers(v)
    ensures WINDOW_LO <= v < GUARD && USER_BASE <= v * 4096 < USER_TOP && !(p.W() && p.X())
  {
  }

  lemma SegSpan(size: nat, p: Phdr)
    requires SegOk(size, p) && p.Loads()
    ensures WINDOW_LO <= p.First() < p.End() <= GUARD
  {
  }

  /** load_segment's copy into a zeroed page is that page of the segment. */
  lemma CopiedPage(file: seq<byte>, p: Phdr, v: nat, flo: nat, pgo: nat, n: nat)
    requires p.filesz <= p.memsz && p.off + p.filesz <= |file|
    requires p.First() <= v
    requires flo == (if v * 4096 > p.vaddr then v * 4096 - p.vaddr else 0)
    requires pgo == (if v * 4096 > p.vaddr then 0 else p.vaddr - v * 4096)
    requires n == if flo < p.filesz then (if p.filesz - flo > 4096 - pgo then 4096 - pgo else p.filesz - flo) else 0
    ensures pgo + n <= 4096 && (flo < p.filesz ==> p.off + flo + n <= |file|)
    ensures flo < p.filesz ==>
              Zeros(4096)[..pgo] + file[p.off + flo..p.off + flo + n] + Zeros(4096)[pgo + n..] == SegPage(file, p, v)
    ensures flo >= p.filesz ==> Zeros(4096) == SegPage(file, p, v)
  {
    assert pgo < 4096;
    if flo < p.filesz {
      var got := Zeros(4096)[..pgo] + file[p.off + flo..p.off + flo + n] + Zeros(4096)[pgo + n..];
      forall k | 0 <= k < 4096 ensures got[k] == SegByte(file, p, v * 4096 + k) {
        if pgo <= k < pgo + n {
          assert got[k] == file[p.off + flo + (k - pgo)];
        }
      }
      assert got == SegPage(file, p, v);
    } else {
      forall k | 0 <= k < 4096 ensures SegPage(file, p, v)[k] == 0 {
        assert SegPage(file, p, v)[k] == SegByte(file, p, v * 4096 + k);
      }
      assert Zeros(4096) == SegPage(file, p, v);
    }
  }
}
