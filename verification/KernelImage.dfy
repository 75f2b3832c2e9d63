/** What the boot loader makes of KERNEL.ELF, as values: the zero-filled span of pages, the
    segments copied into it, and the relocations applied one after the other. */
module KernelImage {
  import opened Arithmetic
  import opened Bytes
  import Elf

  const SPAN_MAX: nat := 0x400_0000
  const PT_LOAD: nat := 1
  const PT_DYNAMIC: nat := 2
  const DT_RELA: nat := 7
  const DT_RELASZ: nat := 8
  const RELATIVE: nat := 8

  lemma {:induction false} LEBound(s: seq<byte>, at: nat, n: nat)
    requires at + n <= |s|
    ensures LE(s, at, n) < Pow256(n)
    decreases n
  {
    if n > 0 { LEBound(s, at + 1, n - 1); }
  }

  function Word(img: seq<byte>, at: nat): (v: nat)
    requires at + 8 <= |img|
    ensures v < U64
  {
    LEBound(img, at, 8);
    assert Pow256(8) == U64;
    LE(img, at, 8)
  }

  lemma {:induction false} LESame(a: seq<byte>, b: seq<byte>, at: nat, n: nat)
    requires at + n <= |a| == |b| && forall k :: at <= k < at + n ==> a[k] == b[k]
    ensures LE(a, at, n) == LE(b, at, n)
    decreases n
  {
    if n > 0 { LESame(a, b, at + 1, n - 1); }
  }

  /** The bytes at `at` replaced. */
  function Patch(img: seq<byte>, at: nat, x: seq<byte>): (r: seq<byte>)
    requires at + |x| <= |img|
    ensures |r| == |img|
    ensures forall k :: 0 <= k < |img| ==> r[k] == if at <= k < at + |x| then x[k - at] else img[k]
  {
    img[..at] + x + img[at + |x|..]
  }

  // ------------------------------------------------------------ the segments

  predicate HeaderOk(file: seq<byte>) {
    && |file| >= Elf.EHDR && file[..6] == [0x7F, 0x45, 0x4C, 0x46, 2, 1]
    && LE(file, 16, 2) == 3 && LE(file, 18, 2) == 62
    && LE(file, 54, 2) == Elf.PHDR && 0 < Elf.PhNum(file) <= 64
    && Elf.PhOff(file) <= |file| && Elf.PhNum(file) * Elf.PHDR <= |file| - Elf.PhOff(file)
  }

  /** The program headers. */
  function Headers(file: seq<byte>): (hs: seq<Elf.Phdr>)
    requires HeaderOk(file)
    ensures |hs| == Elf.PhNum(file)
  {
    seq(Elf.PhNum(file), i requires 0 <= i < Elf.PhNum(file) => Elf.PhdrAt(file, Elf.PhOff(file) + i * Elf.PHDR))
  }

  predicate SegmentOk(p: Elf.Phdr) { p.filesz <= p.memsz && p.vaddr + p.memsz < U64 }

  predicate SegmentsOk(hs: seq<Elf.Phdr>) {
    forall i :: 0 <= i < |hs| && hs[i].Loads() ==> SegmentOk(hs[i])
  }

  /** The addresses the loadable headers reach from and to. */
  function Low(hs: seq<Elf.Phdr>): (lo: nat)
    ensures forall i :: 0 <= i < |hs| && hs[i].Loads() ==> lo <= hs[i].vaddr
  {
    if hs == [] then U64 - 1
    else
      var p, l := hs[|hs| - 1], Low(hs[..|hs| - 1]);
      if p.Loads() && p.vaddr < l then p.vaddr else l
  }

  function High(hs: seq<Elf.Phdr>): (hi: nat)
    ensures forall i :: 0 <= i < |hs| && hs[i].Loads() ==> hs[i].vaddr + hs[i].memsz <= hi
    ensures SegmentsOk(hs) ==> hi < U64
  {
    if hs == [] then 0
    else
      var p, h := hs[|hs| - 1], High(hs[..|hs| - 1]);
      if p.Loads() && p.vaddr + p.memsz > h then p.vaddr + p.memsz else h
  }

  /** Where the loader puts things: image byte k stands for address lo + k. */
  datatype Layout = Layout(lo: nat, hi: nat) {
    predicate Ok() { lo % 4096 == 0 && lo < hi < U64 }

    function Pages(): nat
      requires lo <= hi
    {
      (hi - lo + 0xFFF) / 4096
    }

    function Span(): (n: nat)
      requires lo <= hi
      ensures hi - lo <= n
    {
      Pages() * 4096
    }
  }

  function LayoutOf(hs: seq<Elf.Phdr>): (l: Layout) { Layout(Low(hs) / 4096 * 4096, High(hs)) }

  /** The checks on the headers before any memory is allocated. */
  predicate Loadable(hs: seq<Elf.Phdr>) {
    SegmentsOk(hs) && Low(hs) < High(hs) && High(hs) - Low(hs) <= SPAN_MAX
  }

  lemma LoadableOk(hs: seq<Elf.Phdr>)
    requires Loadable(hs)
    ensures LayoutOf(hs).Ok()
  {
  }

  /** The file header, byte by byte: ELF-64, little-endian, position-independent, x86-64, 1 to
      64 program headers of 56 bytes that lie in the file. */
  lemma HeaderIs(file: seq<byte>)
    requires |file| >= 64
    ensures var n := file[56] as int + 256 * file[57] as int;
            && Elf.PhNum(file) == n && Elf.PhOff(file) == LE(file, 32, 8)
            && (HeaderOk(file) <==>
                  && file[..6] == [0x7F, 'E' as byte, 'L' as byte, 'F' as byte, 2, 1]
                  && file[16..20] == [3, 0, 62, 0] && file[54..56] == [56, 0]
                  && 1 <= n <= 64 && LE(file, 32, 8) + 56 * n <= |file|)
  {
    Two(file, 16);
    Two(file, 18);
    Two(file, 54);
    Two(file, 56);
    assert file[16..20] == [file[16], file[17], file[18], file[19]] && file[54..56] == [file[54], file[55]];
  }

  /** Header i has something to load: type 1 and a size in memory. */
  predicate ToLoad(hs: seq<Elf.Phdr>, i: int) { 0 <= i < |hs| && hs[i].typ == 1 && hs[i].memsz > 0 }

  /** The lower bound is the address of a segment; without one it is ~0. */
  lemma {:induction false} LowMet(hs: seq<Elf.Phdr>)
    requires SegmentsOk(hs)
    ensures if Low(hs) == U64 - 1 then forall i :: !ToLoad(hs, i)
            else exists i :: ToLoad(hs, i) && hs[i].vaddr == Low(hs)
  {
    if hs != [] {
      var n := |hs| - 1;
      LowMet(hs[..n]);
      forall i ensures ToLoad(hs, i) <==> ToLoad(hs[..n], i) || (i == n && hs[n].Loads()) { }
      if Low(hs) != U64 - 1 && Low(hs) == Low(hs[..n]) {
        var i :| ToLoad(hs[..n], i) && hs[..n][i].vaddr == Low(hs);
        assert ToLoad(hs, i);
      } else if Low(hs) != U64 - 1 {
        assert ToLoad(hs, n);
      }
    }
  }

  /** The upper bound is the end of a segment; without one it is 0. */
  lemma {:induction false} HighMet(hs: seq<Elf.Phdr>)
    ensures if High(hs) == 0 then forall i :: !ToLoad(hs, i)
            else exists i :: ToLoad(hs, i) && hs[i].vaddr + hs[i].memsz == High(hs)
  {
    if hs != [] {
      var n := |hs| - 1;
      HighMet(hs[..n]);
      forall i ensures ToLoad(hs, i) <==> ToLoad(hs[..n], i) || (i == n && hs[n].Loads()) { }
      if High(hs) != 0 && High(hs) == High(hs[..n]) {
        var i :| ToLoad(hs[..n], i) && hs[..n][i].vaddr + hs[..n][i].memsz == High(hs);
        assert ToLoad(hs, i);
      } else if High(hs) != 0 {
        assert ToLoad(hs, n);
      }
    }
  }

  /** Sizes a segment may have: no more bytes in the file than in memory, and no wrap. */
  predicate SizesFine(p: Elf.Phdr) { p.filesz <= p.memsz && p.vaddr + p.memsz < 0x1_0000_0000_0000_0000 }

  /** What passes the first loop: there is something to load, all of it has such sizes, and from
      the first byte to the last it is at most 64 MiB. */
  lemma LoadableIff(hs: seq<Elf.Phdr>)
    ensures Loadable(hs) <==>
              && (exists i :: ToLoad(hs, i)) && (forall i :: ToLoad(hs, i) ==> SizesFine(hs[i]))
              && (forall i, j :: ToLoad(hs, i) && ToLoad(hs, j) ==>
                    hs[i].vaddr + hs[i].memsz <= hs[j].vaddr + 64 * 1024 * 1024)
  {
    Bounds(hs);
    hide Low, High;
    if SegmentsOk(hs) { LowMet(hs); }
    HighMet(hs);
    assert SegmentsOk(hs) <==> forall i :: ToLoad(hs, i) ==> SizesFine(hs[i]) by {
      forall i | ToLoad(hs, i) ensures hs[i].Loads() && (SegmentOk(hs[i]) <==> SizesFine(hs[i])) { }
      forall i | 0 <= i < |hs| && hs[i].Loads() ensures ToLoad(hs, i) { }
    }
  }

  lemma Bounds(hs: seq<Elf.Phdr>)
    ensures forall i :: ToLoad(hs, i) ==> Low(hs) <= hs[i].vaddr && hs[i].vaddr + hs[i].memsz <= High(hs)
  {
    forall i | ToLoad(hs, i) ensures Low(hs) <= hs[i].vaddr && hs[i].vaddr + hs[i].memsz <= High(hs) {
      assert hs[i].Loads();
    }
  }

  /** Where it goes: whole pages, the first one holding the lowest address of a segment, up to
      the end of the highest, with less than a page to spare. */
  lemma LayoutIs(hs: seq<Elf.Phdr>)
    requires Loadable(hs)
    ensures var l := LayoutOf(hs);
            && l.Ok() && l.lo % 4096 == 0 && l.Span() == 4096 * l.Pages() && l.hi <= l.lo + l.Span() < l.hi + 4096
            && (forall i :: ToLoad(hs, i) ==> l.lo <= hs[i].vaddr && hs[i].vaddr + hs[i].memsz <= l.hi)
            && (exists i :: ToLoad(hs, i) && hs[i].vaddr < l.lo + 4096)
            && (exists i :: ToLoad(hs, i) && hs[i].vaddr + hs[i].memsz == l.hi)
  {
    Bounds(hs);
    hide Low, High;
    LowMet(hs);
    HighMet(hs);
    var i :| ToLoad(hs, i) && hs[i].vaddr == Low(hs);
    assert ToLoad(hs, i) && hs[i].vaddr < LayoutOf(hs).lo + 4096;
  }

  predicate InFile(file: seq<byte>, p: Elf.Phdr) { p.off <= |file| && p.filesz <= |file| - p.off }

  /** Header p's bytes are in the file and in the layout. */
  predicate Fits(file: seq<byte>, l: Layout, p: Elf.Phdr) {
    p.Loads() ==> InFile(file, p) && p.filesz <= p.memsz && l.lo <= p.vaddr && p.vaddr + p.memsz <= l.hi
  }

  lemma LoadableFits(file: seq<byte>, hs: seq<Elf.Phdr>, i: nat)
    requires Loadable(hs) && i < |hs| && (hs[i].Loads() ==> InFile(file, hs[i]))
    ensures Fits(file, LayoutOf(hs), hs[i])
  {
  }

  /** The span after the segments of these headers. */
  function Segments(file: seq<byte>, l: Layout, hs: seq<Elf.Phdr>): (img: seq<byte>)
    requires l.Ok() && forall i :: 0 <= i < |hs| ==> Fits(file, l, hs[i])
    ensures |img| == l.Span()
  {
    if hs == [] then Zeros(l.Span())
    else
      var p := hs[|hs| - 1];
      var img := Segments(file, l, hs[..|hs| - 1]);
      assert Fits(file, l, p);
      if p.Loads() then Patch(img, p.vaddr - l.lo, file[p.off..p.off + p.filesz]) else img
  }

  /** A header puts a file byte at address a. */
  predicate Fills(p: Elf.Phdr, a: nat) { p.Loads() && p.vaddr <= a < p.vaddr + p.filesz }

  /** Byte for byte: the last header with a file byte for an address decides it, and zero
      stands where no header has one. */
  lemma {:induction false} SegmentsByte(file: seq<byte>, l: Layout, hs: seq<Elf.Phdr>, a: nat)
    requires l.Ok() && l.lo <= a < l.lo + l.Span()
    requires forall i :: 0 <= i < |hs| ==> Fits(file, l, hs[i])
    ensures (forall i :: 0 <= i < |hs| ==> !Fills(hs[i], a)) ==> Segments(file, l, hs)[a - l.lo] == 0
    ensures forall i :: 0 <= i < |hs| && Fills(hs[i], a) && (forall j :: i < j < |hs| ==> !Fills(hs[j], a))
                        ==> Segments(file, l, hs)[a - l.lo] == file[hs[i].off + (a - hs[i].vaddr)]
  {
    if hs != [] {
      var front, p := hs[..|hs| - 1], hs[|hs| - 1];
      hide Fits;
      SegmentsByte(file, l, front, a);
      assert Segments(file, l, hs)[a - l.lo]
          == if Fills(p, a) then file[p.off + (a - p.vaddr)] else Segments(file, l, front)[a - l.lo];
      hide Segments, Fills;
      assert forall i :: 0 <= i < |front| ==> front[i] == hs[i];
      forall i | 0 <= i < |hs| && Fills(hs[i], a) && (forall j :: i < j < |hs| ==> !Fills(hs[j], a))
        ensures Segments(file, l, hs)[a - l.lo] == file[hs[i].off + (a - hs[i].vaddr)]
      {
        if i < |front| { assert !Fills(p, a) && Fills(front[i], a); }
      }
    }
  }

  // ---------------------------------------------------------- the relocations

  /** How far loading gets: an image, an error return, or the first access outside the
      pages, beyond which nothing is claimed. */
  datatype Load = Loaded(img: seq<byte>) | Refused | Strays

  datatype Scan = Found(rela: nat, size: nat) | OffEnd

  /** Unsigned 64-bit subtraction. */
  function Sub(a: nat, b: nat): (d: nat)
    ensures d < U64
  {
    (a - b) % U64
  }

  /** The dynamic table's rela address and size, from entry j of n on. */
  function ScanFrom(img: seq<byte>, at: nat, n: nat, j: nat, rela: nat, size: nat): Scan
    requires j <= n
    decreases n - j
  {
    var e := at + 16 * j;
    if j == n then Found(rela, size)
    else if e + 8 > |img| then OffEnd
    else if Word(img, e) == 0 then Found(rela, size)
    else if Word(img, e) == DT_RELA then
      if e + 16 > |img| then OffEnd else ScanFrom(img, at, n, j + 1, Word(img, e + 8), size)
    else if Word(img, e) == DT_RELASZ then
      if e + 16 > |img| then OffEnd else ScanFrom(img, at, n, j + 1, rela, Word(img, e + 8))
    else ScanFrom(img, at, n, j + 1, rela, size)
  }

  /** One relocation record, `a` bytes into the image. */
  function OneReloc(img: seq<byte>, l: Layout, slide: nat, a: nat): (r: Load)
    ensures r.Loaded? ==> |r.img| == |img|
  {
    if a + 16 > |img| then Strays
    else if Word(img, a + 8) % 0x1_0000_0000 != RELATIVE then Refused
    else if Word(img, a) < l.lo || (Word(img, a) + 8) % U64 > l.hi then Refused
    else if Word(img, a) - l.lo + 8 > |img| || a + 24 > |img| then Strays
    else Loaded(Patch(img, Word(img, a) - l.lo, Enc((slide + Word(img, a + 16)) % U64, 8)))
  }

  /** The first n records of a table. */
  function Relocs(img: seq<byte>, l: Layout, slide: nat, a: nat, n: nat): (r: Load)
    ensures r.Loaded? ==> |r.img| == |img|
  {
    if n == 0 then Loaded(img)
    else
      var r := Relocs(img, l, slide, a, n - 1);
      if r.Loaded? then OneReloc(r.img, l, slide, a + 24 * (n - 1)) else r
  }

  /** One PT_DYNAMIC header. */
  function OneDynamic(img: seq<byte>, l: Layout, slide: nat, p: Elf.Phdr): (r: Load)
    ensures r.Loaded? ==> |r.img| == |img|
  {
    if p.vaddr < l.lo || p.memsz > Sub(l.hi, p.vaddr) then Refused
    else
      match ScanFrom(img, p.vaddr - l.lo, p.memsz / 16, 0, 0, 0)
      case OffEnd => Strays
      case Found(rela, size) =>
        if size == 0 then Loaded(img)
        else if rela < l.lo || size > Sub(l.hi, rela) then Refused
        else Relocs(img, l, slide, rela - l.lo, size / 24)
  }

  /** The PT_DYNAMIC headers, in order. */
  function Dynamics(img: seq<byte>, l: Layout, slide: nat, hs: seq<Elf.Phdr>): (r: Load)
    ensures r.Loaded? ==> |r.img| == |img|
  {
    if hs == [] then Loaded(img)
    else
      var r := Dynamics(img, l, slide, hs[..|hs| - 1]);
      if r.Loaded? && hs[|hs| - 1].typ == PT_DYNAMIC then OneDynamic(r.img, l, slide, hs[|hs| - 1]) else r
  }

  /** What kernel_load leaves in its pages. */
  function Kernel(file: seq<byte>, base: nat): (r: Load)
    requires HeaderOk(file) && Loadable(Headers(file))
    ensures r.Loaded? ==> |r.img| == LayoutOf(Headers(file)).Span()
  {
    var hs := Headers(file);
    var l := LayoutOf(hs);
    LoadableOk(hs);
    if exists i :: 0 <= i < |hs| && !Fits(file, l, hs[i]) then Refused
    else Dynamics(Segments(file, l, hs), l, Sub(base, l.lo), hs)
  }

  // ------------------------------------------------------ the wrapping tests

  /** The range test on a table at v of n bytes lets through exactly the tables that lie
      inside, and those that start past the end: there the difference wraps. */
  lemma RangeTestExact(v: nat, n: nat, l: Layout)
    requires l.lo < l.hi < U64 && v < U64 && n < U64
    ensures !(v < l.lo || n > Sub(l.hi, v)) <==>
              (l.lo <= v && v + n <= l.hi) || (l.hi < v && n <= U64 - (v - l.hi))
  {
    if l.hi < v { assert Sub(l.hi, v) == U64 - (v - l.hi); }
  }

  /** The test on a target: right but for the last addresses, where adding 8 wraps. */
  lemma TargetTestExact(t: nat, l: Layout)
    requires l.lo % 4096 == 0 && l.lo < l.hi < U64 && t < U64
    ensures !(t < l.lo || (t + 8) % U64 > l.hi) <==>
              (l.lo <= t && t + 8 <= l.hi) || U64 - 8 <= t <= U64 - 8 + l.hi
  {
    if U64 - 8 <= t {
      assert (t + 8) % U64 == t + 8 - U64;
      assert l.lo / 4096 <= (U64 - 1) / 4096;
    }
  }

  /** With its record inside the pages, a relocation leaves them exactly when adding 8 to
      its target wraps and the pages do not reach that far. */
  lemma RelocStrays(img: seq<byte>, l: Layout, slide: nat, a: nat)
    requires l.Ok() && |img| == l.Span() && a + 24 <= |img|
    ensures OneReloc(img, l, slide, a).Strays? <==>
              && Word(img, a + 8) % 0x1_0000_0000 == RELATIVE
              && U64 - 8 <= Word(img, a) <= U64 - 8 + l.hi && Word(img, a) - l.lo + 8 > |img|
  {
    TargetTestExact(Word(img, a), l);
  }

  lemma {:induction false} ScanInside(img: seq<byte>, at: nat, n: nat, j: nat, rela: nat, size: nat)
    requires at + 16 * n <= |img| && j <= n
    ensures ScanFrom(img, at, n, j, rela, size).Found?
    decreases n - j
  {
    hide Word;
    if j < n {
      var e := at + 16 * j;
      ScanInside(img, at, n, j + 1, Word(img, e + 8), size);
      ScanInside(img, at, n, j + 1, rela, Word(img, e + 8));
      ScanInside(img, at, n, j + 1, rela, size);
    }
  }

  lemma RangeTest(v: nat, n: nat, l: Layout)
    requires l.Ok() && v <= l.hi
    ensures n <= Sub(l.hi, v) <==> v + n <= l.hi
  {
  }

  // --------------------------------------------------- well-formed static PIEs

  datatype Rel = Rel(target: nat, addend: nat)

  function Records(img: seq<byte>, a: nat, n: nat): (rs: seq<Rel>)
    requires a + 24 * n <= |img|
    ensures |rs| == n
  {
    seq(n, k requires 0 <= k < n => Rel(Word(img, a + 24 * k), Word(img, a + 24 * k + 16)))
  }

  /** A target the test lets through, in the pages. */
  predicate Inside(l: Layout, r: Rel)
    requires l.Ok()
  {
    l.lo <= r.target && r.target + 8 <= l.lo + l.Span() && (r.target + 8) % U64 <= l.hi
  }

  predicate TargetApart(r: Rel, s: Rel) {
    r.target == s.target || r.target + 8 <= s.target || s.target + 8 <= r.target
  }

  predicate TargetsApart(rs: seq<Rel>) {
    forall i, j :: 0 <= i < j < |rs| ==> TargetApart(rs[i], rs[j])
  }

  /** Address a is in no target. */
  predicate Untargeted(rs: seq<Rel>, a: nat) {
    forall i :: 0 <= i < |rs| ==> !(rs[i].target <= a < rs[i].target + 8)
  }

  /** No target touches the n bytes at v. */
  predicate Clear(rs: seq<Rel>, v: nat, n: nat) {
    forall i :: 0 <= i < |rs| ==> rs[i].target + 8 <= v || v + n <= rs[i].target
  }

  /** The unsigned range test. */
  predicate Accepted(l: Layout, v: nat, n: nat) { l.lo <= v && n <= Sub(l.hi, v) }

  function TableScan(img: seq<byte>, l: Layout, p: Elf.Phdr): Scan
    requires l.lo <= p.vaddr
  {
    ScanFrom(img, p.vaddr - l.lo, p.memsz / 16, 0, 0, 0)
  }

  predicate RecordOk(img: seq<byte>, l: Layout, a: nat)
    requires l.Ok()
  {
    a + 24 <= |img| && Word(img, a + 8) % 0x1_0000_0000 == RELATIVE && Inside(l, Rel(Word(img, a), 0))
  }

  /** A record that is read or would write outside the pages. */
  predicate RecordStrays(img: seq<byte>, l: Layout, a: nat) {
    || a + 16 > |img|
    || (Word(img, a + 8) % 0x1_0000_0000 == RELATIVE
        && l.lo <= Word(img, a) && (Word(img, a) + 8) % U64 <= l.hi
        && (Word(img, a) - l.lo + 8 > |img| || a + 24 > |img|))
  }

  /** Record j of the table at a is in order. */
  predicate NthOk(img: seq<byte>, l: Layout, a: nat, j: nat)
    requires l.Ok()
  {
    RecordOk(img, l, a + 24 * j)
  }

  /** The first record, from k of n on, that is not in order. */
  function FirstBad(img: seq<byte>, l: Layout, a: nat, k: nat, n: nat): (i: nat)
    requires l.Ok() && k <= n
    ensures k <= i <= n && (i < n ==> !NthOk(img, l, a, i))
    ensures forall j :: k <= j < i ==> NthOk(img, l, a, j)
    decreases n - k
  {
    if k == n || !NthOk(img, l, a, k) then k else FirstBad(img, l, a, k + 1, n)
  }

  lemma GoodFit(img: seq<byte>, l: Layout, a: nat, i: nat)
    requires l.Ok() && forall j :: 0 <= j < i ==> NthOk(img, l, a, j)
    ensures i > 0 ==> a + 24 * i <= |img|
  {
    if i > 0 { assert NthOk(img, l, a, i - 1); }
  }

  /** A dynamic table the loader gets through: accepted, read to its end in the pages, naming
      an accepted table of records that are all in order. */
  predicate TableOk(img: seq<byte>, l: Layout, p: Elf.Phdr)
    requires l.Ok()
  {
    && Accepted(l, p.vaddr, p.memsz)
    && var s := TableScan(img, l, p);
       && s.Found?
       && (s.size != 0 ==>
             Accepted(l, s.rela, s.size) && FirstBad(img, l, s.rela - l.lo, 0, s.size / 24) == s.size / 24)
  }

  /** A dynamic table that takes the loader out of its pages. */
  predicate TableStrays(img: seq<byte>, l: Layout, p: Elf.Phdr)
    requires l.Ok()
  {
    && Accepted(l, p.vaddr, p.memsz)
    && var s := TableScan(img, l, p);
       s.Found? ==>
         && s.size != 0 && Accepted(l, s.rela, s.size)
         && var k := FirstBad(img, l, s.rela - l.lo, 0, s.size / 24);
            k < s.size / 24 && RecordStrays(img, l, s.rela - l.lo + 24 * k)
  }

  /** The records of a table that are applied: those before the first bad one. */
  function TableRecords(img: seq<byte>, l: Layout, p: Elf.Phdr): seq<Rel>
    requires l.Ok()
  {
    if !Accepted(l, p.vaddr, p.memsz) then []
    else
      var s := TableScan(img, l, p);
      if s.OffEnd? || s.size == 0 || !Accepted(l, s.rela, s.size) then []
      else
        var k := FirstBad(img, l, s.rela - l.lo, 0, s.size / 24);
        GoodFit(img, l, s.rela - l.lo, k);
        if k == 0 then [] else Records(img, s.rela - l.lo, k)
  }

  predicate TablesOk(img: seq<byte>, l: Layout, hs: seq<Elf.Phdr>)
    requires l.Ok()
  {
    forall i :: 0 <= i < |hs| && hs[i].typ == PT_DYNAMIC ==> TableOk(img, l, hs[i])
  }

  /** Every relocation of the image, in the order it is applied. */
  function AllRecords(img: seq<byte>, l: Layout, hs: seq<Elf.Phdr>): seq<Rel>
    requires l.Ok()
  {
    if hs == [] then []
    else
      var front := AllRecords(img, l, hs[..|hs| - 1]);
      if hs[|hs| - 1].typ == PT_DYNAMIC then front + TableRecords(img, l, hs[|hs| - 1]) else front
  }

  /** No target touches a dynamic table, or a relocation table that one names. */
  predicate TableClear(img: seq<byte>, l: Layout, p: Elf.Phdr, rs: seq<Rel>) {
    l.lo <= p.vaddr ==>
      && Clear(rs, p.vaddr, p.memsz)
      && var s := TableScan(img, l, p);
         s.Found? ==> Clear(rs, s.rela, s.size)
  }

  predicate TablesClear(img: seq<byte>, l: Layout, hs: seq<Elf.Phdr>, rs: seq<Rel>) {
    forall i :: 0 <= i < |hs| && hs[i].typ == PT_DYNAMIC ==> TableClear(img, l, hs[i], rs)
  }

  predicate WellFormed(img: seq<byte>, l: Layout, hs: seq<Elf.Phdr>)
    requires l.Ok()
  {
    && TablesOk(img, l, hs)
    && var rs := AllRecords(img, l, hs);
       && TablesClear(img, l, hs, rs)
       && TargetsApart(rs)
  }

  predicate AllInside(l: Layout, rs: seq<Rel>)
    requires l.Ok()
  {
    forall i :: 0 <= i < |rs| ==> Inside(l, rs[i])
  }

  /** The words at the targets replaced, one after the other. */
  function Applied(img: seq<byte>, l: Layout, slide: nat, rs: seq<Rel>): (r: seq<byte>)
    requires l.Ok() && |img| == l.Span() && AllInside(l, rs)
    ensures |r| == |img|
  {
    if rs == [] then img
    else
      var r := rs[|rs| - 1];
      Patch(Applied(img, l, slide, rs[..|rs| - 1]), r.target - l.lo, Enc((slide + r.addend) % U64, 8))
  }

  /** Bytes no target covers stay. */
  lemma {:induction false} AppliedElsewhere(img: seq<byte>, l: Layout, slide: nat, rs: seq<Rel>, k: nat)
    requires l.Ok() && |img| == l.Span() && AllInside(l, rs) && k < |img|
    requires Untargeted(rs, l.lo + k)
    ensures Applied(img, l, slide, rs)[k] == img[k]
  {
    if rs != [] { AppliedElsewhere(img, l, slide, rs[..|rs| - 1], k); }
  }

  /** The images agree on n bytes, as far as they go. */
  predicate Same(a: seq<byte>, b: seq<byte>, from: nat, n: nat) {
    |a| == |b| && forall k :: from <= k < from + n && k < |a| ==> a[k] == b[k]
  }

  lemma AppliedClear(img: seq<byte>, l: Layout, slide: nat, rs: seq<Rel>, v: nat, n: nat)
    requires l.Ok() && |img| == l.Span() && AllInside(l, rs) && Clear(rs, v, n) && l.lo <= v
    ensures Same(img, Applied(img, l, slide, rs), v - l.lo, n)
  {
    forall k | v - l.lo <= k < v - l.lo + n && k < |img| ensures Applied(img, l, slide, rs)[k] == img[k] {
      AppliedElsewhere(img, l, slide, rs, k);
    }
  }

  lemma WordSame(a: seq<byte>, b: seq<byte>, at: nat, from: nat, n: nat)
    requires Same(a, b, from, n) && from <= at && at + 8 <= from + n && at + 8 <= |a|
    ensures Word(a, at) == Word(b, at)
  {
    LESame(a, b, at, 8);
  }

  /** The scan sees only its table. */
  lemma {:induction false} ScanSame(a: seq<byte>, b: seq<byte>, at: nat, n: nat, j: nat, rela: nat, size: nat)
    requires Same(a, b, at, 16 * n) && j <= n
    ensures ScanFrom(a, at, n, j, rela, size) == ScanFrom(b, at, n, j, rela, size)
    decreases n - j
  {
    hide Word;
    var e := at + 16 * j;
    if j < n && e + 8 <= |a| {
      WordSame(a, b, e, at, 16 * n);
      if e + 16 <= |a| {
        WordSame(a, b, e + 8, at, 16 * n);
        ScanSame(a, b, at, n, j + 1, Word(a, e + 8), size);
        ScanSame(a, b, at, n, j + 1, rela, Word(a, e + 8));
      }
      ScanSame(a, b, at, n, j + 1, rela, size);
    }
  }

  lemma {:induction false} AppliedMore(img: seq<byte>, l: Layout, slide: nat, rs: seq<Rel>, r: Rel)
    requires l.Ok() && |img| == l.Span() && AllInside(l, rs) && Inside(l, r)
    ensures AllInside(l, rs + [r])
    ensures Applied(img, l, slide, rs + [r])
            == Patch(Applied(img, l, slide, rs), r.target - l.lo, Enc((slide + r.addend) % U64, 8))
  {
    assert (rs + [r])[..|rs|] == rs;
  }

  /** A record read after other relocations, none of which touched it, does what it says. */
  lemma OneRelocCases(img: seq<byte>, now: seq<byte>, l: Layout, slide: nat, a: nat)
    requires l.Ok() && |img| == l.Span() && Same(img, now, a, 24)
    ensures RecordOk(img, l, a) ==>
              OneReloc(now, l, slide, a)
              == Loaded(Patch(now, Word(img, a) - l.lo, Enc((slide + Word(img, a + 16)) % U64, 8)))
    ensures !RecordOk(img, l, a) ==>
              OneReloc(now, l, slide, a) == if RecordStrays(img, l, a) then Strays else Refused
  {
    hide Word, Enc, Patch;
    if a + 16 <= |img| {
      WordSame(img, now, a, a, 24);
      WordSame(img, now, a + 8, a, 24);
    }
    if a + 24 <= |img| { WordSame(img, now, a + 16, a, 24); }
  }

  lemma ClearPart(rs: seq<Rel>, v: nat, n: nat, k: nat, v': nat, n': nat)
    requires Clear(rs, v, n) && k <= |rs| && v <= v' && v' + n' <= v + n
    ensures Clear(rs[..k], v', n')
  {
  }

  lemma ClearBoth(rs: seq<Rel>, rs': seq<Rel>, v: nat, n: nat)
    ensures Clear(rs + rs', v, n) <==> Clear(rs, v, n) && Clear(rs', v, n)
  {
    assert forall i :: 0 <= i < |rs| ==> (rs + rs')[i] == rs[i];
    assert forall i :: 0 <= i < |rs'| ==> (rs + rs')[|rs| + i] == rs'[i];
  }

  lemma {:induction false} RelocsOk(img: seq<byte>, l: Layout, slide: nat, rs: seq<Rel>, a: nat, n: nat, m: nat)
    requires l.Ok() && |img| == l.Span() && AllInside(l, rs) && n <= m && a + 24 * m <= |img|
    requires forall k :: 0 <= k < m ==> NthOk(img, l, a, k)
    requires Clear(rs, l.lo + a, 24 * m) && Clear(Records(img, a, m), l.lo + a, 24 * m)
    ensures AllInside(l, rs + Records(img, a, n))
    ensures Relocs(Applied(img, l, slide, rs), l, slide, a, n) ==
            Loaded(Applied(img, l, slide, rs + Records(img, a, n)))
    decreases n
  {
    hide Word, Enc, Patch, Applied, OneReloc, Clear, Same;
    if n == 0 {
      assert rs + Records(img, a, 0) == rs;
    } else {
      var front := Records(img, a, n - 1);
      var last := Records(img, a, n)[n - 1];
      var at := a + 24 * (n - 1);
      assert NthOk(img, l, a, n - 1);
      RelocsOk(img, l, slide, rs, a, n - 1, m);
      assert front == Records(img, a, m)[..n - 1];
      ClearPart(Records(img, a, m), l.lo + a, 24 * m, n - 1, l.lo + at, 24);
      ClearPart(rs, l.lo + a, 24 * m, |rs|, l.lo + at, 24);
      assert rs[..|rs|] == rs;
      ClearBoth(rs, front, l.lo + at, 24);
      AppliedMore(img, l, slide, rs + front, last);
      assert rs + Records(img, a, n) == rs + front + [last];
      AppliedClear(img, l, slide, rs + front, l.lo + at, 24);
      OneRelocCases(img, Applied(img, l, slide, rs + front), l, slide, at);
    }
  }

  lemma {:induction false} RelocsStuck(img: seq<byte>, l: Layout, slide: nat, a: nat, k: nat, n: nat)
    requires k <= n && !Relocs(img, l, slide, a, k).Loaded?
    ensures Relocs(img, l, slide, a, n) == Relocs(img, l, slide, a, k)
    decreases n
  {
    hide OneReloc;
    if k < n { RelocsStuck(img, l, slide, a, k, n - 1); }
  }

  lemma RelocsNext(img: seq<byte>, l: Layout, slide: nat, a: nat, k: nat)
    requires Relocs(img, l, slide, a, k).Loaded?
    ensures Relocs(img, l, slide, a, k + 1) == OneReloc(Relocs(img, l, slide, a, k).img, l, slide, a + 24 * k)
  {
    hide OneReloc;
  }

  /** A whole run of records, the first bad one included: what becomes of it is decided by the
      image as it was, as long as no record before the bad one overwrites the table. */
  lemma RelocsCases(img: seq<byte>, l: Layout, slide: nat, rs: seq<Rel>, a: nat, n: nat)
    requires l.Ok() && |img| == l.Span() && AllInside(l, rs) && Clear(rs, l.lo + a, 24 * n)
    requires var k := FirstBad(img, l, a, 0, n);
             k > 0 ==> a + 24 * k <= |img| && Clear(Records(img, a, k), l.lo + a, 24 * n)
    ensures var k := FirstBad(img, l, a, 0, n);
            var mine := if k == 0 || a + 24 * k > |img| then [] else Records(img, a, k);
            && AllInside(l, rs + mine)
            && Relocs(Applied(img, l, slide, rs), l, slide, a, n)
               == if k == n then Loaded(Applied(img, l, slide, rs + mine))
                  else if RecordStrays(img, l, a + 24 * k) then Strays else Refused
  {
    hide Word, Enc, Patch, Applied, OneReloc, Clear, Same, RecordOk, RecordStrays;
    var k := FirstBad(img, l, a, 0, n);
    var mine := if k == 0 then [] else Records(img, a, k);
    ClearAny(l.lo + a, 24 * n);
    if k > 0 {
      ClearPart(rs, l.lo + a, 24 * n, |rs|, l.lo + a, 24 * k);
      ClearPart(mine, l.lo + a, 24 * n, |mine|, l.lo + a, 24 * k);
      assert rs[..|rs|] == rs && mine[..|mine|] == mine;
      RelocsOk(img, l, slide, rs, a, k, k);
    } else {
      assert rs + mine == rs;
    }
    if k < n {
      ClearBoth(rs, mine, l.lo + a, 24 * n);
      ClearPart(rs + mine, l.lo + a, 24 * n, |rs + mine|, l.lo + (a + 24 * k), 24);
      assert (rs + mine)[..|rs + mine|] == rs + mine;
      AppliedClear(img, l, slide, rs + mine, l.lo + (a + 24 * k), 24);
      OneRelocCases(img, Applied(img, l, slide, rs + mine), l, slide, a + 24 * k);
      RelocsNext(Applied(img, l, slide, rs), l, slide, a, k);
      RelocsStuck(Applied(img, l, slide, rs), l, slide, a, k + 1, n);
    }
  }

  lemma ClearAny(v: nat, n: nat)
    ensures Clear([], v, n)
  {
  }

  /** A whole dynamic table, after relocations that left it alone and with records that do. */
  lemma OneDynamicCases(img: seq<byte>, l: Layout, slide: nat, rs: seq<Rel>, p: Elf.Phdr)
    requires l.Ok() && |img| == l.Span() && AllInside(l, rs)
    requires TableClear(img, l, p, rs + TableRecords(img, l, p))
    ensures AllInside(l, rs + TableRecords(img, l, p))
    ensures OneDynamic(Applied(img, l, slide, rs), l, slide, p)
            == if TableOk(img, l, p) then Loaded(Applied(img, l, slide, rs + TableRecords(img, l, p)))
               else if TableStrays(img, l, p) then Strays else Refused
  {
    hide Word, Applied, Clear, Same, Relocs, Sub, ScanFrom, RecordOk, RecordStrays;
    var mine := TableRecords(img, l, p);
    if Accepted(l, p.vaddr, p.memsz) {
      var n := p.memsz / 16;
      var s := TableScan(img, l, p);
      ClearBoth(rs, mine, p.vaddr, p.memsz);
      ClearPart(rs, p.vaddr, p.memsz, |rs|, p.vaddr, 16 * n);
      assert rs[..|rs|] == rs && mine[..|mine|] == mine;
      AppliedClear(img, l, slide, rs, p.vaddr, 16 * n);
      ScanSame(img, Applied(img, l, slide, rs), p.vaddr - l.lo, n, 0, 0, 0);
      if s.Found? && s.size != 0 && Accepted(l, s.rela, s.size) {
        var m := s.size / 24;
        ClearBoth(rs, mine, s.rela, s.size);
        ClearPart(rs, s.rela, s.size, |rs|, s.rela, 24 * m);
        ClearPart(mine, s.rela, s.size, |mine|, s.rela, 24 * m);
        GoodFit(img, l, s.rela - l.lo, FirstBad(img, l, s.rela - l.lo, 0, m));
        RelocsCases(img, l, slide, rs, s.rela - l.lo, m);
      } else {
        assert rs + [] == rs;
      }
    } else {
      assert rs + [] == rs;
    }
  }

  lemma {:induction false} DynamicsOk(img: seq<byte>, l: Layout, slide: nat, hs: seq<Elf.Phdr>, all: seq<Rel>)
    requires l.Ok() && |img| == l.Span() && TablesOk(img, l, hs) && TablesClear(img, l, hs, all)
    requires AllRecords(img, l, hs) <= all
    ensures AllInside(l, AllRecords(img, l, hs))
    ensures Dynamics(img, l, slide, hs) == Loaded(Applied(img, l, slide, AllRecords(img, l, hs)))
  {
    hide TableRecords, OneDynamic, TableOk, TableStrays, TableClear;
    if hs != [] {
      var front, p := hs[..|hs| - 1], hs[|hs| - 1];
      var rs := AllRecords(img, l, front);
      assert rs <= AllRecords(img, l, hs);
      DynamicsOk(img, l, slide, front, all);
      if p.typ == PT_DYNAMIC {
        assert TableOk(img, l, hs[|hs| - 1]);
        assert TableClear(img, l, hs[|hs| - 1], all);
        ClearPrefix(img, l, p, all, rs + TableRecords(img, l, p));
        OneDynamicCases(img, l, slide, rs, p);
      }
    }
  }

  lemma ClearPrefix(img: seq<byte>, l: Layout, p: Elf.Phdr, all: seq<Rel>, rs: seq<Rel>)
    requires TableClear(img, l, p, all) && rs <= all
    ensures TableClear(img, l, p, rs)
  {
    hide Clear, ScanFrom;
    assert all[..|rs|] == rs;
    if l.lo <= p.vaddr {
      ClearPart(all, p.vaddr, p.memsz, |rs|, p.vaddr, p.memsz);
      var s := TableScan(img, l, p);
      if s.Found? { ClearPart(all, s.rela, s.size, |rs|, s.rela, s.size); }
    }
  }

  lemma {:induction false} DynamicsStuck(img: seq<byte>, l: Layout, slide: nat, hs: seq<Elf.Phdr>, k: nat)
    requires k <= |hs| && !Dynamics(img, l, slide, hs[..k]).Loaded?
    ensures Dynamics(img, l, slide, hs) == Dynamics(img, l, slide, hs[..k])
    decreases |hs|
  {
    if k == |hs| {
      assert hs[..k] == hs;
    } else {
      assert hs[..|hs| - 1][..k] == hs[..k];
      DynamicsStuck(img, l, slide, hs[..|hs| - 1], k);
    }
  }

  // -------------------------------------------------------- leaving the pages

  /** The first PT_DYNAMIC header, from i on, that the loader does not get through. */
  function FirstBadTable(img: seq<byte>, l: Layout, hs: seq<Elf.Phdr>, i: nat): (m: nat)
    requires l.Ok() && i <= |hs|
    ensures i <= m <= |hs| && (m < |hs| ==> hs[m].typ == PT_DYNAMIC && !TableOk(img, l, hs[m]))
    ensures forall j :: i <= j < m && hs[j].typ == PT_DYNAMIC ==> TableOk(img, l, hs[j])
    decreases |hs| - i
  {
    if i == |hs| || (hs[i].typ == PT_DYNAMIC && !TableOk(img, l, hs[i])) then i
    else FirstBadTable(img, l, hs, i + 1)
  }

  /** The headers up to the one that ends the loading. */
  function Processed(img: seq<byte>, l: Layout, hs: seq<Elf.Phdr>): seq<Elf.Phdr>
    requires l.Ok()
  {
    var m := FirstBadTable(img, l, hs, 0);
    if m < |hs| then hs[..m + 1] else hs
  }

  /** No relocation that is applied overwrites a table that is read. */
  predicate NothingOverwritten(img: seq<byte>, l: Layout, hs: seq<Elf.Phdr>)
    requires l.Ok()
  {
    var used := Processed(img, l, hs);
    TablesClear(img, l, used, AllRecords(img, l, used))
  }

  /** Then the outcome of loading is decided by the segments' image alone. */
  lemma DynamicsCases(img: seq<byte>, l: Layout, slide: nat, hs: seq<Elf.Phdr>)
    requires l.Ok() && |img| == l.Span() && NothingOverwritten(img, l, hs)
    ensures var m := FirstBadTable(img, l, hs, 0);
            && (m == |hs| ==> Dynamics(img, l, slide, hs).Loaded?)
            && (m < |hs| ==> Dynamics(img, l, slide, hs) == if TableStrays(img, l, hs[m]) then Strays else Refused)
  {
    hide TableRecords, OneDynamic, TableOk, TableStrays, TableClear, Applied;
    var m := FirstBadTable(img, l, hs, 0);
    var used := Processed(img, l, hs);
    var all := AllRecords(img, l, used);
    if m == |hs| {
      DynamicsOk(img, l, slide, hs, all);
    } else {
      var front := hs[..m];
      assert used[..m] == front && used[m] == hs[m] && |used| == m + 1;
      var rs := AllRecords(img, l, front);
      assert all == rs + TableRecords(img, l, hs[m]);
      forall i | 0 <= i < m && front[i].typ == PT_DYNAMIC
        ensures TableClear(img, l, front[i], all) && TableOk(img, l, front[i])
      {
        assert used[i] == front[i] && hs[i] == front[i];
      }
      DynamicsOk(img, l, slide, front, all);
      assert TableClear(img, l, used[m], all);
      OneDynamicCases(img, l, slide, rs, hs[m]);
      assert hs[..m + 1] == used;
      DynamicsStuck(img, l, slide, hs, m + 1);
    }
  }

  predicate Words(hs: seq<Elf.Phdr>) { forall i :: 0 <= i < |hs| ==> hs[i].vaddr < U64 && hs[i].memsz < U64 }

  lemma HeadersAreWords(file: seq<byte>)
    requires HeaderOk(file)
    ensures Words(Headers(file))
  {
    hide LE;
    assert Pow256(8) == U64;
    forall i | 0 <= i < Elf.PhNum(file) ensures Headers(file)[i].vaddr < U64 && Headers(file)[i].memsz < U64 {
      var at := Elf.PhOff(file) + i * Elf.PHDR;
      LEBound(file, at + 16, 8);
      LEBound(file, at + 40, 8);
    }
  }

  /** A record in the pages whose target wraps past them. */
  predicate RecordWraps(img: seq<byte>, l: Layout, a: nat)
    requires a + 24 <= |img|
  {
    && Word(img, a + 8) % 0x1_0000_0000 == RELATIVE
    && U64 - 8 <= Word(img, a) <= U64 - 8 + l.hi && Word(img, a) - l.lo + 8 > |img|
  }

  /** How a dynamic table can take the loader out of its pages: it starts past the end and is
      let through because the difference wraps, and its first entry is beyond the pages; or
      the relocation table it names is; or the first record not in order has a target that
      wraps when 8 is added. */
  predicate TableWraps(img: seq<byte>, l: Layout, p: Elf.Phdr)
    requires l.Ok() && |img| == l.Span()
  {
    && Accepted(l, p.vaddr, p.memsz)
    && if p.vaddr > l.hi then 16 <= p.memsz && p.vaddr - l.lo + 8 > |img|
       else
         var s := TableScan(img, l, p);
         && s.Found? && s.size != 0 && Accepted(l, s.rela, s.size)
         && if s.rela > l.hi then 24 <= s.size && s.rela - l.lo + 16 > |img|
            else
              var k := FirstBad(img, l, s.rela - l.lo, 0, s.size / 24);
              k < s.size / 24 && s.rela - l.lo + 24 * k + 24 <= |img| && RecordWraps(img, l, s.rela - l.lo + 24 * k)
  }

  /** Past the last segment byte the image is zero. */
  predicate SlackZero(img: seq<byte>, l: Layout)
    requires l.Ok()
  {
    forall k :: l.hi - l.lo <= k < |img| ==> img[k] == 0
  }

  lemma {:induction false} ZeroLE(img: seq<byte>, at: nat, n: nat)
    requires at + n <= |img| && forall k :: at <= k < at + n ==> img[k] == 0
    ensures LE(img, at, n) == 0
    decreases n
  {
    if n > 0 { ZeroLE(img, at + 1, n - 1); }
  }

  /** Past the end a dynamic table strays at once or reads as empty. */
  lemma ScanPast(img: seq<byte>, l: Layout, p: Elf.Phdr)
    requires l.Ok() && |img| == l.Span() && SlackZero(img, l) && p.vaddr > l.hi
    ensures TableScan(img, l, p) == if p.memsz >= 16 && p.vaddr - l.lo + 8 > |img| then OffEnd else Found(0, 0)
  {
    var at := p.vaddr - l.lo;
    if at + 8 <= |img| { ZeroLE(img, at, 8); }
  }

  /** A record past the end strays or is refused. */
  lemma RecordPast(img: seq<byte>, l: Layout, a: nat)
    requires l.Ok() && |img| == l.Span() && SlackZero(img, l) && a > l.hi - l.lo
    ensures !RecordOk(img, l, a) && (RecordStrays(img, l, a) <==> a + 16 > |img|)
  {
    if a + 16 <= |img| { ZeroLE(img, a + 8, 8); }
  }

  lemma RecordStraysIs(img: seq<byte>, l: Layout, a: nat)
    requires l.Ok() && |img| == l.Span() && a + 24 <= |img|
    ensures RecordStrays(img, l, a) <==> RecordWraps(img, l, a)
  {
    TargetTestExact(Word(img, a), l);
  }

  lemma TableStraysIs(img: seq<byte>, l: Layout, p: Elf.Phdr)
    requires l.Ok() && |img| == l.Span() && SlackZero(img, l) && p.vaddr < U64 && p.memsz < U64
    ensures TableStrays(img, l, p) <==> TableWraps(img, l, p)
  {
    hide Word, ScanFrom, Sub, RecordOk, RecordStrays, RecordWraps, SlackZero;
    if Accepted(l, p.vaddr, p.memsz) {
      if p.vaddr > l.hi {
        ScanPast(img, l, p);
      } else {
        RangeTest(p.vaddr, p.memsz, l);
        ScanInside(img, p.vaddr - l.lo, p.memsz / 16, 0, 0, 0);
        var s := TableScan(img, l, p);
        if s.size != 0 && Accepted(l, s.rela, s.size) {
          var k := FirstBad(img, l, s.rela - l.lo, 0, s.size / 24);
          if s.rela > l.hi {
            RecordPast(img, l, s.rela - l.lo);
            assert !NthOk(img, l, s.rela - l.lo, 0);
          } else {
            RangeTest(s.rela, s.size, l);
            if k < s.size / 24 { RecordStraysIs(img, l, s.rela - l.lo + 24 * k); }
          }
        }
      }
    }
  }

  // ------------------------------------------------------------- main results

  predicate AllFit(file: seq<byte>)
    requires HeaderOk(file)
  {
    forall i :: 0 <= i < |Headers(file)| ==> Fits(file, LayoutOf(Headers(file)), Headers(file)[i])
  }

  function SegmentImage(file: seq<byte>): (img: seq<byte>)
    requires HeaderOk(file) && Loadable(Headers(file)) && AllFit(file)
    ensures |img| == LayoutOf(Headers(file)).Span()
  {
    LoadableOk(Headers(file));
    Segments(file, LayoutOf(Headers(file)), Headers(file))
  }

  /** What the file must say for the loader to leave its pages: the first dynamic header it
      does not get through is one that wraps. */
  predicate FileWraps(file: seq<byte>)
    requires HeaderOk(file) && Loadable(Headers(file)) && AllFit(file)
  {
    LoadableOk(Headers(file));
    var hs := Headers(file);
    var l, img := LayoutOf(hs), SegmentImage(file);
    var m := FirstBadTable(img, l, hs, 0);
    m < |hs| && TableWraps(img, l, hs[m])
  }

  lemma SegmentSlack(file: seq<byte>)
    requires HeaderOk(file) && Loadable(Headers(file)) && AllFit(file) && LayoutOf(Headers(file)).Ok()
    ensures SlackZero(SegmentImage(file), LayoutOf(Headers(file)))
  {
    hide HeaderOk, Headers, Loadable, LayoutOf;
    var hs := Headers(file);
    var l := LayoutOf(hs);
    forall k | l.hi - l.lo <= k < l.Span() ensures Segments(file, l, hs)[k] == 0 {
      SegmentsByte(file, l, hs, l.lo + k);
    }
  }

  /** Exactly when kernel_load leaves its pages, at any base, for every loadable file whose
      relocations do not overwrite the tables being read. */
  lemma LeavesPagesIff(file: seq<byte>, base: nat)
    requires HeaderOk(file) && Loadable(Headers(file)) && AllFit(file)
    requires LayoutOf(Headers(file)).Ok()
             && NothingOverwritten(SegmentImage(file), LayoutOf(Headers(file)), Headers(file))
    ensures Kernel(file, base).Strays? <==> FileWraps(file)
  {
    hide HeaderOk, Headers, Loadable, LayoutOf, NothingOverwritten, TableStrays, TableWraps, SlackZero, Dynamics;
    var hs := Headers(file);
    var l, img := LayoutOf(hs), SegmentImage(file);
    SegmentSlack(file);
    HeadersAreWords(file);
    DynamicsCases(img, l, Sub(base, l.lo), hs);
    var m := FirstBadTable(img, l, hs, 0);
    if m < |hs| { TableStraysIs(img, l, hs[m]); }
  }

  /** The first k records go through, and the next one is read or would write outside. */
  ghost predicate StraysAt(img: seq<byte>, l: Layout, slide: nat, a: nat, k: nat) {
    Relocs(img, l, slide, a, k).Loaded? && RecordStrays(Relocs(img, l, slide, a, k).img, l, a + 24 * k)
  }

  lemma {:induction false} RelocsStray(img: seq<byte>, l: Layout, slide: nat, a: nat, n: nat)
    requires l.Ok()
    ensures Relocs(img, l, slide, a, n).Strays? <==> exists k :: 0 <= k < n && StraysAt(img, l, slide, a, k)
  {
    hide Word, OneReloc, RecordStrays;
    if n > 0 {
      RelocsStray(img, l, slide, a, n - 1);
      if Relocs(img, l, slide, a, n - 1).Loaded? {
        StraysNow(Relocs(img, l, slide, a, n - 1).img, l, slide, a + 24 * (n - 1));
        assert Relocs(img, l, slide, a, n).Strays? <==> StraysAt(img, l, slide, a, n - 1);
      } else {
        assert !StraysAt(img, l, slide, a, n - 1);
      }
    }
  }

  lemma StraysNow(img: seq<byte>, l: Layout, slide: nat, a: nat)
    requires l.Ok()
    ensures OneReloc(img, l, slide, a).Strays? <==> RecordStrays(img, l, a)
  {
    hide Enc, Patch;
  }

  /** The same, in a table that starts past the end or else by a target that wraps. */
  ghost predicate NthWraps(img: seq<byte>, l: Layout, slide: nat, rela: nat, k: nat)
    requires l.lo <= rela
  {
    var a := rela - l.lo;
    && StraysAt(img, l, slide, a, k)
    && (rela > l.hi || (a + 24 * k + 24 <= |img| && RecordWraps(Relocs(img, l, slide, a, k).img, l, a + 24 * k)))
  }

  lemma RelocsWrap(img: seq<byte>, l: Layout, slide: nat, rela: nat, size: nat)
    requires l.Ok() && |img| == l.Span() && Accepted(l, rela, size)
    ensures Relocs(img, l, slide, rela - l.lo, size / 24).Strays? <==>
              exists k :: 0 <= k < size / 24 && NthWraps(img, l, slide, rela, k)
  {
    hide Word, Relocs, RecordStrays, RecordWraps;
    var a := rela - l.lo;
    RelocsStray(img, l, slide, a, size / 24);
    forall k | 0 <= k < size / 24
      ensures StraysAt(img, l, slide, a, k) <==> NthWraps(img, l, slide, rela, k)
    {
      if rela <= l.hi {
        RangeTest(rela, size, l);
        if Relocs(img, l, slide, a, k).Loaded? { RecordStraysIs(Relocs(img, l, slide, a, k).img, l, a + 24 * k); }
      }
    }
  }

  /** How a dynamic header can take the loader out of its pages, whatever the image has become
      by then: it starts past the end and runs off it, or so does the relocation table it
      names, or that table is in order and one of its records has a target that wraps. */
  ghost predicate HeaderWraps(img: seq<byte>, l: Layout, slide: nat, p: Elf.Phdr)
    requires l.Ok() && |img| == l.Span()
  {
    && Accepted(l, p.vaddr, p.memsz)
    && var s := TableScan(img, l, p);
       match s
       case OffEnd => p.vaddr > l.hi
       case Found(rela, size) =>
         && size != 0 && Accepted(l, rela, size)
         && exists k :: 0 <= k < size / 24 && NthWraps(img, l, slide, rela, k)
  }

  lemma HeaderStrays(img: seq<byte>, l: Layout, slide: nat, p: Elf.Phdr)
    requires l.Ok() && |img| == l.Span() && p.vaddr < U64 && p.memsz < U64
    ensures OneDynamic(img, l, slide, p).Strays? <==> HeaderWraps(img, l, slide, p)
  {
    hide Word, ScanFrom, Sub, Relocs, NthWraps;
    if Accepted(l, p.vaddr, p.memsz) {
      if p.vaddr <= l.hi {
        RangeTest(p.vaddr, p.memsz, l);
        ScanInside(img, p.vaddr - l.lo, p.memsz / 16, 0, 0, 0);
      }
      var s := TableScan(img, l, p);
      if s.Found? && s.size != 0 && Accepted(l, s.rela, s.size) { RelocsWrap(img, l, slide, s.rela, s.size); }
    }
  }

  /** Header m is one the loader gets to, and it wraps on the image as it is then. */
  ghost predicate WrapsAt(file: seq<byte>, base: nat, m: nat)
    requires HeaderOk(file) && Loadable(Headers(file)) && AllFit(file) && LayoutOf(Headers(file)).Ok()
    requires m < |Headers(file)|
  {
    var hs, l := Headers(file), LayoutOf(Headers(file));
    var now := Dynamics(SegmentImage(file), l, Sub(base, l.lo), hs[..m]);
    hs[m].typ == PT_DYNAMIC && now.Loaded? && HeaderWraps(now.img, l, Sub(base, l.lo), hs[m])
  }

  /** The wrapping tests are the only way out, for every file, also one whose relocations
      overwrite its own tables: kernel_load leaves its pages exactly when it gets to a dynamic
      header that wraps on what the earlier ones have made of the image. */
  lemma OnlyWrapsStray(file: seq<byte>, base: nat)
    requires HeaderOk(file) && Loadable(Headers(file)) && LayoutOf(Headers(file)).Ok()
    ensures Kernel(file, base).Strays? <==>
              AllFit(file) && exists m :: 0 <= m < |Headers(file)| && WrapsAt(file, base, m)
  {
    hide HeaderOk, Headers, Loadable, LayoutOf, HeaderWraps, OneDynamic;
    if !AllFit(file) { return; }
    HeadersAreWords(file);
    var hs := Headers(file);
    var l := LayoutOf(hs);
    DynamicsStray(SegmentImage(file), l, Sub(base, l.lo), hs);
    assert forall m :: 0 <= m < |hs| ==>
             (WrapsAt(file, base, m) <==> StepWraps(SegmentImage(file), l, Sub(base, l.lo), hs, m));
  }

  ghost predicate StepWraps(img: seq<byte>, l: Layout, slide: nat, hs: seq<Elf.Phdr>, m: nat)
    requires l.Ok() && |img| == l.Span() && m < |hs|
  {
    var now := Dynamics(img, l, slide, hs[..m]);
    hs[m].typ == PT_DYNAMIC && now.Loaded? && HeaderWraps(now.img, l, slide, hs[m])
  }

  lemma {:induction false} DynamicsStray(img: seq<byte>, l: Layout, slide: nat, hs: seq<Elf.Phdr>)
    requires l.Ok() && |img| == l.Span() && Words(hs)
    ensures Dynamics(img, l, slide, hs).Strays? <==> exists m :: 0 <= m < |hs| && StepWraps(img, l, slide, hs, m)
  {
    hide HeaderWraps, OneDynamic;
    if hs != [] {
      var n := |hs| - 1;
      DynamicsStray(img, l, slide, hs[..n]);
      forall m | 0 <= m < n ensures StepWraps(img, l, slide, hs[..n], m) <==> StepWraps(img, l, slide, hs, m) {
        assert hs[..n][..m] == hs[..m];
      }
      var r := Dynamics(img, l, slide, hs[..n]);
      if r.Loaded? { HeaderStrays(r.img, l, slide, hs[n]); }
      assert Dynamics(img, l, slide, hs).Strays? <==> r.Strays? || StepWraps(img, l, slide, hs, n);
    }
  }

  /** A static PIE: it loads, and its relocation tables are sound and left alone. */
  ghost predicate StaticPie(file: seq<byte>) {
    && HeaderOk(file) && Loadable(Headers(file)) && AllFit(file)
    && LayoutOf(Headers(file)).Ok()
    && WellFormed(SegmentImage(file), LayoutOf(Headers(file)), Headers(file))
  }

  function Relocations(file: seq<byte>): seq<Rel>
    requires StaticPie(file)
  {
    AllRecords(SegmentImage(file), LayoutOf(Headers(file)), Headers(file))
  }

  /** A well-formed static PIE loads at any base, never leaving its pages: the segments'
      bytes, with slide + addend at every target and nothing else changed. */
  lemma StaticPieLoads(file: seq<byte>, base: nat)
    requires StaticPie(file)
    ensures var l, rs := LayoutOf(Headers(file)), Relocations(file);
            && AllInside(l, rs)
            && Kernel(file, base) == Loaded(Applied(SegmentImage(file), l, Sub(base, l.lo), rs))
  {
    hide WellFormed;
    var l := LayoutOf(Headers(file));
    WellFormedParts(SegmentImage(file), l, Headers(file));
    DynamicsOk(SegmentImage(file), l, Sub(base, l.lo), Headers(file), Relocations(file));
  }

  lemma WellFormedParts(img: seq<byte>, l: Layout, hs: seq<Elf.Phdr>)
    requires l.Ok() && |img| == l.Span() && WellFormed(img, l, hs)
    ensures TablesOk(img, l, hs) && TablesClear(img, l, hs, AllRecords(img, l, hs))
    ensures TargetsApart(AllRecords(img, l, hs))
  {
  }

  lemma PatchedWord(img: seq<byte>, at: nat, v: nat, q: nat)
    requires at + 8 <= |img| && q + 8 <= |img| && v < U64
    ensures q == at ==> Word(Patch(img, at, Enc(v, 8)), q) == v
    ensures q + 8 <= at || at + 8 <= q ==> Word(Patch(img, at, Enc(v, 8)), q) == Word(img, q)
  {
    var now := Patch(img, at, Enc(v, 8));
    if q == at {
      assert now[at..at + 8] == Enc(v, 8);
      assert Pow256(8) == U64;
      EncRead(now, at, v, 8);
    } else if q + 8 <= at || at + 8 <= q {
      LESame(now, img, q, 8);
    }
  }

  /** Every target ends up holding slide + addend of the last relocation naming it. */
  lemma {:induction false} AppliedWord(img: seq<byte>, l: Layout, slide: nat, rs: seq<Rel>, i: nat)
    requires l.Ok() && |img| == l.Span() && AllInside(l, rs) && i < |rs|
    requires forall j :: i < j < |rs| ==> TargetApart(rs[i], rs[j]) && rs[j].target != rs[i].target
    ensures Word(Applied(img, l, slide, rs), rs[i].target - l.lo) == (slide + rs[i].addend) % U64
  {
    hide Word, Patch, Enc;
    var front, r := rs[..|rs| - 1], rs[|rs| - 1];
    if i < |rs| - 1 { AppliedWord(img, l, slide, front, i); }
    PatchedWord(Applied(img, l, slide, front), r.target - l.lo, (slide + r.addend) % U64, rs[i].target - l.lo);
  }

  lemma {:induction false} AppliedTwice(img: seq<byte>, l: Layout, s1: nat, s2: nat, rs: seq<Rel>, i: nat)
    requires l.Ok() && |img| == l.Span() && AllInside(l, rs) && i < |rs|
    requires TargetsApart(rs)
    ensures var at := rs[i].target - l.lo;
            Word(Applied(img, l, s2, rs), at) == (Word(Applied(img, l, s1, rs), at) + s2 - s1) % U64
  {
    hide Word, Patch, Enc;
    var front, r := rs[..|rs| - 1], rs[|rs| - 1];
    assert TargetsApart(front);
    PatchedWord(Applied(img, l, s1, front), r.target - l.lo, (s1 + r.addend) % U64, rs[i].target - l.lo);
    PatchedWord(Applied(img, l, s2, front), r.target - l.lo, (s2 + r.addend) % U64, rs[i].target - l.lo);
    if rs[i].target == r.target {
      SlideDistance(s1, s2, r.addend);
    } else {
      assert TargetApart(rs[i], rs[|rs| - 1]);
      AppliedTwice(img, l, s1, s2, front, i);
    }
  }

  /** Two images agree off the targets... */
  predicate AgreeOff(i1: seq<byte>, i2: seq<byte>, l: Layout, rs: seq<Rel>) {
    |i1| == |i2| && forall k :: 0 <= k < |i1| && Untargeted(rs, l.lo + k) ==> i1[k] == i2[k]
  }

  /** ... and differ by d at each target. */
  predicate DifferBy(i1: seq<byte>, i2: seq<byte>, l: Layout, rs: seq<Rel>, d: int)
    requires l.Ok() && |i1| == |i2| == l.Span() && AllInside(l, rs)
  {
    forall i :: 0 <= i < |rs| ==> Word(i2, rs[i].target - l.lo) == (Word(i1, rs[i].target - l.lo) + d) % U64
  }

  lemma AppliedBases(img: seq<byte>, l: Layout, b1: nat, b2: nat, rs: seq<Rel>)
    requires l.Ok() && |img| == l.Span() && AllInside(l, rs) && TargetsApart(rs)
    ensures var i1, i2 := Applied(img, l, Sub(b1, l.lo), rs), Applied(img, l, Sub(b2, l.lo), rs);
            AgreeOff(i1, i2, l, rs) && DifferBy(i1, i2, l, rs, b2 - b1)
  {
    hide Word, Applied, Untargeted, TargetsApart, Sub;
    var s1, s2 := Sub(b1, l.lo), Sub(b2, l.lo);
    var i1, i2 := Applied(img, l, s1, rs), Applied(img, l, s2, rs);
    forall k | 0 <= k < |i1| && Untargeted(rs, l.lo + k) ensures i1[k] == i2[k] {
      AppliedBasesOff(img, l, s1, s2, rs, k);
    }
    forall i | 0 <= i < |rs|
      ensures Word(i2, rs[i].target - l.lo) == (Word(i1, rs[i].target - l.lo) + (b2 - b1)) % U64
    {
      AppliedBasesAt(img, l, b1, b2, rs, i);
    }
  }

  lemma AppliedBasesOff(img: seq<byte>, l: Layout, s1: nat, s2: nat, rs: seq<Rel>, k: nat)
    requires l.Ok() && |img| == l.Span() && AllInside(l, rs) && k < |img| && Untargeted(rs, l.lo + k)
    ensures Applied(img, l, s1, rs)[k] == Applied(img, l, s2, rs)[k]
  {
    AppliedElsewhere(img, l, s1, rs, k);
    AppliedElsewhere(img, l, s2, rs, k);
  }

  lemma AppliedBasesAt(img: seq<byte>, l: Layout, b1: nat, b2: nat, rs: seq<Rel>, i: nat)
    requires l.Ok() && |img| == l.Span() && AllInside(l, rs) && TargetsApart(rs) && i < |rs|
    ensures var at := rs[i].target - l.lo;
            Word(Applied(img, l, Sub(b2, l.lo), rs), at) ==
              (Word(Applied(img, l, Sub(b1, l.lo), rs), at) + (b2 - b1)) % U64
  {
    hide Word, Applied, TargetsApart, Sub;
    AppliedTwice(img, l, Sub(b1, l.lo), Sub(b2, l.lo), rs, i);
    SubDistance(Word(Applied(img, l, Sub(b1, l.lo), rs), rs[i].target - l.lo), b1, b2, l.lo);
  }

  /** Loaded at two bases, the images agree off the targets and differ at each target by
      exactly the distance between the bases. */
  lemma TwoBases(file: seq<byte>, b1: nat, b2: nat)
    requires StaticPie(file)
    ensures Kernel(file, b1).Loaded? && Kernel(file, b2).Loaded?
    ensures var i1, i2 := Kernel(file, b1).img, Kernel(file, b2).img;
            var l, rs := LayoutOf(Headers(file)), Relocations(file);
            AllInside(l, rs) && AgreeOff(i1, i2, l, rs) && DifferBy(i1, i2, l, rs, b2 - b1)
  {
    hide Word, WellFormed, Applied, TargetsApart, Sub, Kernel, AgreeOff, DifferBy, AllInside;
    var l := LayoutOf(Headers(file));
    StaticPieLoads(file, b1);
    StaticPieLoads(file, b2);
    WellFormedParts(SegmentImage(file), l, Headers(file));
    AppliedBases(SegmentImage(file), l, b1, b2, Relocations(file));
  }

  lemma SlideDistance(s1: nat, s2: nat, addend: nat)
    ensures (s2 + addend) % U64 == ((s1 + addend) % U64 + s2 - s1) % U64
  {
  }

  lemma SubDistance(w: nat, b1: nat, b2: nat, lo: nat)
    ensures (w + Sub(b2, lo) - Sub(b1, lo)) % U64 == (w + (b2 - b1)) % U64
  {
  }
}
