/** Boot, then any mix of the operations that touch the address space. */
module Session {
  import opened Wrappers
  import opened Bytes
  import opened PageTable
  import opened Memory
  import opened Paging
  import opened UserSpace
  import opened Elf
  import opened Proc

  /** The fields of the loader's hand-off that decide what gets mapped. */
  datatype BootInfo = BootInfo(heapBase: nat, heapSize: nat, fbBase: nat, fbWidth: nat, fbHeight: nat, fbPitch: nat,
                               splashBase: nat, initrcBase: nat, initrcSize: nat, pakBase: nat, pakSize: nat)

  /** paging_init's extra[]: the ranges that may sit above 4 GiB. */
  function Extras(bi: BootInfo, img: Image, lapic: nat): (r: seq<Range>)
    requires img.textStart <= img.kernelEnd
  {
    [Range(bi.heapBase, bi.heapSize),
     Range(bi.fbBase, bi.fbPitch * bi.fbHeight * 4),
     Range(bi.splashBase, bi.fbWidth * bi.fbHeight * 4),
     Range(bi.initrcBase, bi.initrcSize),
     Range(img.textStart, img.kernelEnd - img.textStart),
     Range(lapic, 0x1000)]
  }

  /** A physical range that stays off the user window. */
  predicate OffWindow(lo: nat, hi: nat) { hi <= USER_BASE || USER_TOP <= lo }

  /** The machine: every physical range handed over lies in the 48-bit space, and the three
      sections follow each other on page boundaries, as linker.ld lays them. */
  ghost predicate Laid(bi: BootInfo, img: Image, lapic: nat) {
    && 0 < bi.heapBase && 0 < img.textStart
    && img.textStart <= img.textEnd <= img.rodataStart <= img.rodataEnd <= img.dataStart <= img.kernelEnd
    && img.textStart % 4096 == 0 && img.rodataStart % 4096 == 0 && img.dataStart % 4096 == 0
    && forall k :: 0 <= k < 6 ==> var r := Extras(bi, img, lapic)[k]; r.base + r.len <= VA_END
  }

  /** No range paging_init maps meets the user window. */
  ghost predicate WindowClear(extras: seq<Range>) {
    forall k {:trigger extras[k]} :: 0 <= k < |extras| && extras[k].base != 0 && extras[k].len != 0 ==>
      OffWindow(extras[k].base, extras[k].base + extras[k].len)
  }

  ghost predicate Machine(bi: BootInfo, img: Image, lapic: nat) {
    Laid(bi, img, lapic) && WindowClear(Extras(bi, img, lapic))
  }

  // ------------------------------------------- what paging_init establishes

  /** A page that starts inside a range or holds its start is mapped for it. */
  lemma ListedCovers(r: Range, v: nat)
    requires r.base != 0 && LOW <= v && r.base / 4096 <= v && v * 4096 < r.base + r.len && r.len != 0
    ensures Listed(r, v)
  {
    var last := (r.base + r.len - 1) / LARGE;
    assert v / 512 <= last;
    assert (r.base + r.len + LARGE - 1) / LARGE == last + 1;
    assert r.base / LARGE == r.base / 4096 / 512;
  }

  /** No page is both writable and executable. */
  ghost predicate WXorX(s: Space) {
    forall v {:trigger Translate(s, v)} :: 0 <= v < PAGES && Translate(s, v).Some? ==>
      !(Translate(s, v).value.w && Translate(s, v).value.x)
  }

  /** After paging_init: every page is mapped to itself or not at all, none for ring 3;
      all of the low 4 GiB and of the listed ranges is mapped. */
  lemma InitIdentity(s: Space, bi: BootInfo, img: Image, lapic: nat, nx: bool, v: nat)
    requires Laid(bi, img, lapic) && InitMaps(s, Extras(bi, img, lapic), img, nx) && v < PAGES
    ensures Translate(s, v).Some? ==> Translate(s, v).value.pa == v * 4096 && !Translate(s, v).value.u
    ensures v < LOW ==> Translate(s, v).Some?
    ensures forall k :: 0 <= k < 6 ==> var r := Extras(bi, img, lapic)[k];
              r.base != 0 && r.base <= v * 4096 < r.base + r.len ==> Translate(s, v).Some?
  {
    var extras := Extras(bi, img, lapic);
    forall k | 0 <= k < 6 && extras[k].base != 0 && extras[k].base <= v * 4096 < extras[k].base + extras[k].len
      ensures v < LOW || AnyListed(extras, 6, v)
    {
      if LOW <= v {
        ListedCovers(extras[k], v);
      }
    }
    assert |extras| == 6 && Translate(s, v) == InitView(extras, img, nx, v);
  }

  /** The bytes the kernel is handed, from the boot information and its own image: heap,
      framebuffer and splash at four bytes a pixel, init.rc, the kernel, the LAPIC's page. An
      address of zero means that there is none. */
  ghost predicate HandedOver(bi: BootInfo, img: Image, lapic: nat, a: nat) {
    || (bi.heapBase != 0 && bi.heapBase <= a < bi.heapBase + bi.heapSize)
    || (bi.fbBase != 0 && bi.fbBase <= a < bi.fbBase + 4 * (bi.fbPitch * bi.fbHeight))
    || (bi.splashBase != 0 && bi.splashBase <= a < bi.splashBase + 4 * (bi.fbWidth * bi.fbHeight))
    || (bi.initrcBase != 0 && bi.initrcBase <= a < bi.initrcBase + bi.initrcSize)
    || (img.textStart != 0 && img.textStart <= a < img.kernelEnd)
    || (lapic != 0 && lapic <= a < lapic + 4096)
  }

  predicate Covers(r: Range, a: nat) { r.base != 0 && r.base <= a < r.base + r.len }

  lemma HandedIs(bi: BootInfo, img: Image, lapic: nat, a: nat)
    requires img.textStart <= img.kernelEnd
    ensures HandedOver(bi, img, lapic, a) <==> exists k :: 0 <= k < 6 && Covers(Extras(bi, img, lapic)[k], a)
  {
    var x := Extras(bi, img, lapic);
    var n, m := bi.fbPitch * bi.fbHeight, bi.fbWidth * bi.fbHeight;
    assert x[1] == Range(bi.fbBase, n * 4) && x[2] == Range(bi.splashBase, m * 4);
    assert (exists k :: 0 <= k < 6 && Covers(x[k], a)) <==>
             || Covers(x[0], a) || Covers(x[1], a) || Covers(x[2], a)
             || Covers(x[3], a) || Covers(x[4], a) || Covers(x[5], a);
  }

  /** The pages a range gets mapped: those of the 2 MiB regions it has a byte in. */
  lemma ListedIs(r: Range, v: nat)
    requires 0x10_0000 <= v
    ensures Listed(r, v) <==> exists a: nat :: Covers(r, a) && a / 0x20_0000 == v / 512
  {
    if Listed(r, v) {
      var a := if v / 512 == r.base / LARGE then r.base else v / 512 * LARGE;
      assert Covers(r, a) && a / 0x20_0000 == v / 512;
    }
    forall a: nat | Covers(r, a) && a / 0x20_0000 == v / 512 ensures Listed(r, v) {
      assert (r.base + r.len + LARGE - 1) / LARGE == (r.base + r.len - 1) / LARGE + 1;
    }
  }

  /** Exactly what paging_init maps: the first 4 GiB, and every 2 MiB region with a byte that
      was handed over in it; each page to itself. */
  lemma InitExact(s: Space, bi: BootInfo, img: Image, lapic: nat, nx: bool, v: nat)
    requires Laid(bi, img, lapic) && InitMaps(s, Extras(bi, img, lapic), img, nx) && v < PAGES
    ensures Translate(s, v).Some? <==>
              v < 0x10_0000 || exists a: nat :: HandedOver(bi, img, lapic, a) && a / 0x20_0000 == v / 512
    ensures Translate(s, v).Some? ==> Translate(s, v).value.pa == v * 4096
    ensures Translate(s, v).Some? && !(img.textStart / 4096 <= v < (img.kernelEnd + 4095) / 4096) ==>
              Translate(s, v) == Some(Xlate(v * 4096, true, false, !nx))
  {
    hide InitView, HandedOver, Covers, Listed, Extras;
    var x := Extras(bi, img, lapic);
    assert Translate(s, v) == InitView(x, img, nx, v);
    ViewIs(bi, img, lapic, nx, v);
    if v >= 0x10_0000 {
      if k :| 0 <= k < 6 && Listed(x[k], v) {
        ListedIs(x[k], v);
        var a: nat :| Covers(x[k], a) && a / 0x20_0000 == v / 512;
        HandedIs(bi, img, lapic, a);
      }
      if a: nat :| HandedOver(bi, img, lapic, a) && a / 0x20_0000 == v / 512 {
        HandedIs(bi, img, lapic, a);
        var k :| 0 <= k < 6 && Covers(x[k], a);
        ListedIs(x[k], v);
        assert Listed(x[k], v);
      }
    }
  }

  lemma ViewIs(bi: BootInfo, img: Image, lapic: nat, nx: bool, v: nat)
    requires Laid(bi, img, lapic)
    ensures var x := Extras(bi, img, lapic);
            && |x| == 6
            && (InitView(x, img, nx, v).Some? <==> v < LOW || exists k :: 0 <= k < 6 && Listed(x[k], v))
            && (InitView(x, img, nx, v).Some? ==> InitView(x, img, nx, v).value.pa == v * 4096)
            && (InitView(x, img, nx, v).Some? && !(img.textStart / 4096 <= v < (img.kernelEnd + 4095) / 4096) ==>
                  InitView(x, img, nx, v) == Some(Xlate(v * 4096, true, false, !nx)))
  {
    var x := Extras(bi, img, lapic);
    if InPages(img.textStart, img.kernelEnd, v) && LOW <= v {
      ListedCovers(x[4], v);
    }
  }

  /** Every byte handed over can be reached at its own address. */
  lemma HandedMapped(s: Space, bi: BootInfo, img: Image, lapic: nat, nx: bool, a: nat)
    requires Laid(bi, img, lapic) && InitMaps(s, Extras(bi, img, lapic), img, nx)
    requires HandedOver(bi, img, lapic, a) && a < VA_END
    ensures SelfMapped(s, a)
  {
    hide HandedOver, Extras, InitMaps;
    InitExact(s, bi, img, lapic, nx, a / 4096);
    assert a / 0x20_0000 == a / 4096 / 512;
  }

  ghost predicate SelfMapped(s: Space, a: nat) {
    Translate(s, a / 4096).Some? && Translate(s, a / 4096).value.pa == a / 4096 * 4096
  }

  /** For one: a framebuffer of 1920 by 1080 at 256 GiB, all else low. Its last pixel can be
      reached, and the page after its last 2 MiB region cannot. */
  lemma HighFramebuffer(s: Space, nx: bool)
    requires InitMaps(s, Extras(HighFb(), LowImage(), 0xFEE0_0000), LowImage(), nx)
    ensures Machine(HighFb(), LowImage(), 0xFEE0_0000)
    ensures SelfMapped(s, 0x40_0000_0000) && SelfMapped(s, 0x40_0020_0000) && SelfMapped(s, 0x40_007E_8FFC)
    ensures Translate(s, 0x400_0800) == None
  {
    hide InitMaps;
    FbBytes();
    HandedMapped(s, HighFb(), LowImage(), 0xFEE0_0000, nx, 0x40_0000_0000);
    HandedMapped(s, HighFb(), LowImage(), 0xFEE0_0000, nx, 0x40_0020_0000);
    HandedMapped(s, HighFb(), LowImage(), 0xFEE0_0000, nx, 0x40_007E_8FFC);
    InitExact(s, HighFb(), LowImage(), 0xFEE0_0000, nx, 0x400_0800);
  }

  lemma FbBytes()
    ensures Laid(HighFb(), LowImage(), 0xFEE0_0000) && Machine(HighFb(), LowImage(), 0xFEE0_0000)
    ensures forall a: nat :: 0x40_0000_0000 <= a < 0x40_007E_9000 ==> HandedOver(HighFb(), LowImage(), 0xFEE0_0000, a)
    ensures forall a: nat :: a >= 0x40_007E_9000 ==> !HandedOver(HighFb(), LowImage(), 0xFEE0_0000, a)
  {
  }

  function HighFb(): BootInfo {
    BootInfo(0x100_0000, 0x400_0000, 0x40_0000_0000, 1920, 1080, 1920, 0, 0, 0, 0, 0)
  }

  /** After paging_init: text can be run but not written, rodata only read, data not
      run, and nothing at all is both writable and executable. */
  lemma InitSectionsProtected(s: Space, bi: BootInfo, img: Image, lapic: nat, v: nat)
    requires Laid(bi, img, lapic) && InitMaps(s, Extras(bi, img, lapic), img, true) && v < PAGES
    ensures InPages(img.textStart, img.textEnd, v) ==> Translate(s, v) == Some(Xlate(v * 4096, false, false, true))
    ensures InPages(img.rodataStart, img.rodataEnd, v) ==> Translate(s, v) == Some(Xlate(v * 4096, false, false, false))
    ensures InPages(img.dataStart, img.kernelEnd, v) ==> Translate(s, v) == Some(Xlate(v * 4096, true, false, false))
    ensures Translate(s, v).Some? && Translate(s, v).value.x ==> InPages(img.textStart, img.textEnd, v)
  {
    assert Translate(s, v) == InitView(Extras(bi, img, lapic), img, true, v);
  }

  /** After paging_init: every page kalloc_page can hand out is mapped to itself and
      writable by the kernel, so following a physical pointer into it is sound. */
  ghost predicate HeapMapped(s: Space, lo: nat, hi: nat, nx: bool) {
    forall p: nat {:trigger InHeapRange(p, lo, hi)} :: InHeapRange(p, lo, hi) ==>
      Translate(s, p / 4096) == Identity(p / 4096, nx)
  }

  predicate InHeapRange(p: nat, lo: nat, hi: nat) { p % 4096 == 0 && lo <= p && p + 4096 <= hi }

  /** After paging_init the heap, and with it every table and frame, is reachable at its own
      address. */
  lemma InitHeap(s: Space, bi: BootInfo, img: Image, lapic: nat, nx: bool)
    requires Laid(bi, img, lapic) && InitMaps(s, Extras(bi, img, lapic), img, nx)
    requires bi.heapBase + bi.heapSize <= img.textStart || img.kernelEnd <= bi.heapBase
    ensures HeapMapped(s, bi.heapBase, bi.heapBase + bi.heapSize, nx)
  {
    var extras := Extras(bi, img, lapic);
    forall p: nat | InHeapRange(p, bi.heapBase, bi.heapBase + bi.heapSize)
      ensures Translate(s, p / 4096) == Identity(p / 4096, nx)
    {
      var v := p / 4096;
      assert extras[0].base + extras[0].len <= VA_END;
      assert v * 4096 == p && v < PAGES;
      if LOW <= v {
        ListedCovers(extras[0], v);
        assert AnyListed(extras, |extras|, v);
      }
      assert Translate(s, v) == InitView(extras, img, nx, v);
    }
  }

  /** The list forgets BIN.PAK: its pages above 4 GiB are reachable exactly when some
      other range happens to cover them. */
  lemma PakReachable(s: Space, bi: BootInfo, img: Image, lapic: nat, nx: bool, v: nat)
    requires Laid(bi, img, lapic) && InitMaps(s, Extras(bi, img, lapic), img, nx)
    requires bi.pakBase <= v * 4096 < bi.pakBase + bi.pakSize && v < PAGES
    ensures Translate(s, v).Some? <==>
              v < LOW || exists k :: 0 <= k < 6 && Listed(Extras(bi, img, lapic)[k], v)
  {
    var extras := Extras(bi, img, lapic);
    assert Translate(s, v) == InitView(extras, img, nx, v);
    if InPages(img.textStart, img.kernelEnd, v) && LOW <= v {
      ListedCovers(extras[4], v);
    }
  }

  /** For one: an archive loaded at 5 GiB, with everything else below 4 GiB, is not mapped. */
  lemma PakLost(s: Space, nx: bool)
    requires InitMaps(s, Extras(HighPak(), LowImage(), 0xFEE0_0000), LowImage(), nx)
    ensures Machine(HighPak(), LowImage(), 0xFEE0_0000)
    ensures Translate(s, HighPak().pakBase / 4096) == None
  {
    var extras := Extras(HighPak(), LowImage(), 0xFEE0_0000);
    var v := HighPak().pakBase / 4096;
    assert Machine(HighPak(), LowImage(), 0xFEE0_0000);
    PakReachable(s, HighPak(), LowImage(), 0xFEE0_0000, nx, v);
    forall k | 0 <= k < 6 ensures !Listed(extras[k], v) {
    }
  }

  function HighPak(): BootInfo {
    BootInfo(0x100_0000, 0x400_0000, 0x8000_0000, 1280, 800, 1280, 0, 0, 0, 0x1_4000_0000, 0x1000)
  }

  function LowImage(): Image { Image(0x20_0000, 0x21_0000, 0x21_0000, 0x22_0000, 0x22_0000, 0x23_0000) }

  // -------------------------------------------------------- whole sessions

  /** What the kernel does to the address space once it is up. */
  datatype Op =
    | EnsureIdentity(base: nat, len: nat)   // a device range, from the xHCI driver
    | Exec(file: seq<byte>)                 // any bytes at all, offered as a program
    | Alloc(n: nat)                         // a kalloc by some driver

  /** Device ranges are canonical addresses outside the user window. */
  predicate OpOk(op: Op) {
    op.EnsureIdentity? ==>
      && op.base + op.len <= VA_END
      && ((op.base + op.len + LARGE - 1) / LARGE * 512 <= WINDOW_LO || WINDOW_HI <= op.base / LARGE * 512)
  }

  ghost predicate KeepsKernel(s: Space, s': Space) {
    forall v {:trigger KView(s', v)} :: 0 <= v < PAGES && KView(s, v).Some? ==> KView(s', v) == KView(s, v)
  }

  ghost predicate KernelWX(s: Space) {
    forall v {:trigger KView(s, v)} :: 0 <= v < PAGES && KView(s, v).Some? ==>
      !(KView(s, v).value.w && KView(s, v).value.x)
  }

  lemma KeepsKernelTrans(s: Space, s': Space, s'': Space)
    requires KeepsKernel(s, s') && KeepsKernel(s', s'')
    ensures KeepsKernel(s, s'')
  {
    forall v | 0 <= v < PAGES && KView(s, v).Some? ensures KView(s'', v) == KView(s, v) {
      assert KView(s', v) == KView(s, v);
    }
  }

  lemma SameKeeps(s: Space, s': Space)
    requires KernelSame(s, s')
    ensures KeepsKernel(s, s') && (KernelWX(s) ==> KernelWX(s'))
  {
    forall v | 0 <= v < PAGES ensures KView(s', v) == KView(s, v) {
    }
  }

  lemma IdentityKeepsWX(s: Space, s': Space, lo: nat, hi: nat)
    requires AddsIdentity(s, s', lo, hi, true) && KernelWX(s)
    ensures KernelWX(s')
  {
    forall v | 0 <= v < PAGES && KView(s', v).Some? ensures !(KView(s', v).value.w && KView(s', v).value.x) {
      assert Translate(s', v) == Translate(s', v);
      assert KView(s, v) == KView(s, v);
    }
  }

  /** Kernel W^X and ring 3's W^X together are W^X of the whole space. */
  lemma WholeWX(s: Space, f: map<nat, seq<byte>>)
    requires Protected(s, f, true) && KernelWX(s)
    ensures WXorX(s)
  {
    forall v | 0 <= v < PAGES && Translate(s, v).Some?
      ensures !(Translate(s, v).value.w && Translate(s, v).value.x)
    {
      assert PageOk(s, f, true, v);
      assert KView(s, v) == KView(s, v);
    }
  }

  /** It stays so through anything that keeps the kernel's translations. */
  lemma HeapStays(s: Space, s': Space, lo: nat, hi: nat, nx: bool)
    requires HeapMapped(s, lo, hi, nx) && KeepsKernel(s, s') && hi <= VA_END
    ensures HeapMapped(s', lo, hi, nx)
  {
    forall p: nat | InHeapRange(p, lo, hi) ensures Translate(s', p / 4096) == Identity(p / 4096, nx) {
      assert KView(s, p / 4096) == Identity(p / 4096, nx);
      assert KView(s', p / 4096) == KView(s, p / 4096);
    }
  }

  lemma NotListed(r: Range, v: nat)
    requires (r.base != 0 && r.len != 0 ==> OffWindow(r.base, r.base + r.len)) && InWindow(v)
    ensures !Listed(r, v)
  {
  }

  lemma BootPage(s: Space, f: map<nat, seq<byte>>, bi: BootInfo, img: Image, lapic: nat, nx: bool, v: nat)
    requires Machine(bi, img, lapic) && Translate(s, v) == InitView(Extras(bi, img, lapic), img, nx, v) && v < PAGES
    ensures !UserPage(s, v) && PageOk(s, f, nx, v)
    ensures nx && KView(s, v).Some? ==> !(KView(s, v).value.w && KView(s, v).value.x)
  {
    var extras := Extras(bi, img, lapic);
    assert extras[4].len != 0 ==> OffWindow(extras[4].base, extras[4].base + extras[4].len);
    if InWindow(v) {
      forall k | 0 <= k < 6 ensures !Listed(extras[k], v) {
        NotListed(extras[k], v);
      }
    }
  }

  /** paging_init on a fresh machine: if it succeeds, nothing is open to ring 3 yet. */
  lemma BootConfines(s: Space, f: map<nat, seq<byte>>, bi: BootInfo, img: Image, lapic: nat, nx: bool)
    requires Machine(bi, img, lapic) && InitMaps(s, Extras(bi, img, lapic), img, nx)
    ensures Protected(s, f, nx) && (nx ==> KernelWX(s))
    ensures forall v :: 0 <= v < PAGES ==> !UserPage(s, v)
  {
    hide InitView, PageOk;
    forall v | 0 <= v < PAGES
      ensures !UserPage(s, v) && PageOk(s, f, nx, v)
      ensures nx && KView(s, v).Some? ==> !(KView(s, v).value.w && KView(s, v).value.x)
    {
      assert Translate(s, v) == InitView(Extras(bi, img, lapic), img, nx, v);
      BootPage(s, f, bi, img, lapic, nx, v);
    }
    forall v, v' | 0 <= v < PAGES && 0 <= v' < PAGES ensures Apart(s, v, v') {
    }
  }

  /** A range that meets the window has a page in it. */
  lemma ListedInWindow(r: Range) returns (v: nat)
    requires r.base != 0 && r.len != 0 && !OffWindow(r.base, r.base + r.len)
    ensures InWindow(v) && Listed(r, v)
  {
    hide Listed;
    if r.base < USER_BASE {
      v := WINDOW_LO;
      assert r.base / 4096 <= USER_BASE / 4096 && v * 4096 == USER_BASE;
    } else {
      v := r.base / 4096;
      assert USER_BASE / 4096 <= v && v * 4096 <= r.base;
    }
    ListedCovers(r, v);
  }

  /** The condition is exact: ring 3 is confined after paging_init iff no range it maps meets
      the user window. */
  lemma BootConfinesIff(s: Space, f: map<nat, seq<byte>>, bi: BootInfo, img: Image, lapic: nat, nx: bool)
    requires Laid(bi, img, lapic) && InitMaps(s, Extras(bi, img, lapic), img, nx)
    ensures Protected(s, f, nx) <==> WindowClear(Extras(bi, img, lapic))
  {
    hide InitView;
    var extras := Extras(bi, img, lapic);
    if WindowClear(extras) {
      BootConfines(s, f, bi, img, lapic, nx);
    } else {
      var k :| 0 <= k < |extras| && extras[k].base != 0 && extras[k].len != 0
               && !OffWindow(extras[k].base, extras[k].base + extras[k].len);
      var v := ListedInWindow(extras[k]);
      assert Translate(s, v) == InitView(extras, img, nx, v) && AnyListed(extras, |extras|, v);
      MappedForKernel(extras, img, nx, v);
      assert !PageOk(s, f, nx, v);
    }
  }

  lemma MappedForKernel(extras: seq<Range>, img: Image, nx: bool, v: nat)
    requires AnyListed(extras, |extras|, v)
    ensures InitView(extras, img, nx, v).Some? && !InitView(extras, img, nx, v).value.u
  {
  }

  /** Boot: the tables paging_init builds meet everything above, or it reports failure,
      and then only because the heap ran out. Ring 3 is confined exactly when no range that
      was handed over meets its window. */
  method Boot(k: Kernel, nx: bool, bi: BootInfo, img: Image, lapic: nat) returns (ok: bool)
    requires k.Valid() && k.pt.pml4 == 0 && Laid(bi, img, lapic)
    modifies k.pt, k.pt.mem`heapAt, k.pt.mem`tables, k.pt.mem`frames
    ensures ok || k.pt.mem.Room() == 0
    ensures ok ==> k.pt.Live() && k.pt.nxOk == nx && InitMaps(k.pt.Sp(), Extras(bi, img, lapic), img, nx)
    ensures ok ==> forall v: nat :: v < PAGES ==>
              (Translate(k.pt.Sp(), v).Some? <==>
               v < 0x10_0000 || exists a: nat :: HandedOver(bi, img, lapic, a) && a / 0x20_0000 == v / 512)
    ensures ok ==> forall a: nat :: HandedOver(bi, img, lapic, a) && a < VA_END ==> SelfMapped(k.pt.Sp(), a)
    ensures ok ==> (k.Live() <==> WindowClear(Extras(bi, img, lapic)))
    ensures ok && k.Live() ==> (nx ==> KernelWX(k.pt.Sp())) && forall v :: 0 <= v < PAGES ==> !UserPage(k.pt.Sp(), v)
  {
    hide InitMaps, Heap.Room, Protected, KernelWX, WindowClear, HandedOver, SelfMapped;
    ghost var extras := Extras(bi, img, lapic);
    assert extras[4].base + extras[4].len == img.kernelEnd;
    ok := k.pt.Init(nx, Extras(bi, img, lapic), img);
    if ok {
      BootConfinesIff(k.pt.Sp(), k.pt.mem.frames, bi, img, lapic, nx);
      forall v: nat | v < PAGES
        ensures Translate(k.pt.Sp(), v).Some? <==>
                v < 0x10_0000 || exists a: nat :: HandedOver(bi, img, lapic, a) && a / 0x20_0000 == v / 512
      {
        InitExact(k.pt.Sp(), bi, img, lapic, nx, v);
      }
      forall a: nat | HandedOver(bi, img, lapic, a) && a < VA_END ensures SelfMapped(k.pt.Sp(), a) {
        HandedMapped(k.pt.Sp(), bi, img, lapic, nx, a);
      }
      if WindowClear(extras) { BootConfines(k.pt.Sp(), k.pt.mem.frames, bi, img, lapic, nx); }
    }
  }

  /** Safety over whole runs: after any sequence of operations, whatever programs were
      offered and however their loading failed, the tables are still a tree of fresh
      pages apart from every frame, ring 3 reaches only its own frames inside the window
      and never the guard page, W^X holds throughout, and no translation the kernel had
      has changed; and each operation did what it is for, unless the heap ran out. */
  method Run(k: Kernel, ops: seq<Op>) returns (ghost log: seq<Moment>)
    requires k.Live() && forall i :: 0 <= i < |ops| ==> OpOk(ops[i])
    requires k.pt.nxOk ==> KernelWX(k.pt.Sp())
    modifies k`runs, k`imgLo, k`imgHi, k.pt`pos, k.pt`up, k.pt.mem`heapAt, k.pt.mem`tables, k.pt.mem`frames
    ensures k.Live() && KeepsKernel(old(k.pt.Sp()), k.pt.Sp())
    ensures Tree(k.pt.Sp()) && k.pt.mem.tables.Keys !! k.pt.mem.frames.Keys
    ensures Protected(k.pt.Sp(), k.pt.mem.frames, k.pt.nxOk)
    ensures k.pt.nxOk ==> WXorX(k.pt.Sp())
    ensures SafeRuns(old(k.runs), k.runs, k.pt.nxOk)
    ensures AllDone(ops, log, k.pt.nxOk) && log[0] == old(Now(k)) && log[|ops|] == Now(k)
  {
    ghost var s0 := k.pt.Sp();
    log := RunLoop(k, ops);
    if k.pt.nxOk { WholeWX(k.pt.Sp(), k.pt.mem.frames); }
  }

  /** Ring 3 was entered some times more, each time confined. */
  ghost predicate SafeRuns(was: seq<Entered>, runs: seq<Entered>, nx: bool) {
    was <= runs && forall i :: |was| <= i < |runs| ==> Protected(runs[i].space, runs[i].frames, nx)
  }

  lemma SafeTrans(a: seq<Entered>, b: seq<Entered>, c: seq<Entered>, nx: bool)
    requires SafeRuns(a, b, nx) && SafeRuns(b, c, nx)
    ensures SafeRuns(a, c, nx)
  {
    hide Protected;
  }

  method RunLoop(k: Kernel, ops: seq<Op>) returns (ghost log: seq<Moment>)
    requires k.Live() && forall i :: 0 <= i < |ops| ==> OpOk(ops[i])
    requires k.pt.nxOk ==> KernelWX(k.pt.Sp())
    modifies k`runs, k`imgLo, k`imgHi, k.pt`pos, k.pt`up, k.pt.mem`heapAt, k.pt.mem`tables, k.pt.mem`frames
    ensures k.Live() && KeepsKernel(old(k.pt.Sp()), k.pt.Sp())
    ensures k.pt.nxOk ==> KernelWX(k.pt.Sp())
    ensures SafeRuns(old(k.runs), k.runs, k.pt.nxOk)
    ensures AllDone(ops, log, k.pt.nxOk) && log[0] == old(Now(k)) && log[|ops|] == Now(k)
  {
    hide Kernel.Live, Kernel.Valid, KeepsKernel, KernelWX, KernelSame, Heap.Room, Protected, Did, Now;
    ghost var s0 := k.pt.Sp();
    KeepsItself(s0);
    log := [Now(k)];
    for i := 0 to |ops|
      invariant |log| == i + 1 && log[0] == old(Now(k)) && log[i] == Now(k)
      invariant forall j :: 0 <= j < i ==> Did(ops[j], log[j], log[j + 1], k.pt.nxOk)
      invariant SafeRuns(old(k.runs), k.runs, k.pt.nxOk)
      invariant k.Live() && KeepsKernel(s0, k.pt.Sp()) && (k.pt.nxOk ==> KernelWX(k.pt.Sp()))
    {
      ghost var s, was := k.pt.Sp(), k.runs;
      Step(k, ops[i]);
      SafeTrans(old(k.runs), was, k.runs, k.pt.nxOk);
      KeepsKernelTrans(s0, s, k.pt.Sp());
      log := log + [Now(k)];
    }
  }

  lemma KeepsItself(s: Space)
    ensures KeepsKernel(s, s)
  {
  }

  /** What an operation finds and leaves. */
  datatype Moment = Moment(space: Space, frames: map<nat, seq<byte>>, heapAt: nat, heapEnd: nat, room: nat,
                           runs: seq<Entered>)

  ghost function Now(k: Kernel): Moment
    reads k, k.pt, k.pt.mem
  {
    Moment(k.pt.Sp(), k.pt.mem.frames, k.pt.mem.heapAt, k.pt.mem.heapEnd, k.pt.mem.Room(), k.runs)
  }

  /** A device range is mapped to itself and no program runs; an acceptable file's program is
      entered once, any other not at all; an allocation takes its bytes off the heap and touches
      nothing. Only a heap that has run out excuses the first two. */
  ghost predicate Did(op: Op, a: Moment, b: Moment, nx: bool) {
    match op
    case EnsureIdentity(base, len) =>
      && AddsIdentity(a.space, b.space, base / LARGE * 512, (base + len + LARGE - 1) / LARGE * 512, nx)
      && (len == 0 || b.room == 0 || Served(b.space, base / 4096, (base + len + 4095) / 4096))
      && b.frames == a.frames && b.runs == a.runs
    case Exec(file) =>
      && (Acceptable(file) && b.room != 0 ==> b.runs != a.runs)
      && (b.runs == a.runs || exists e :: b.runs == a.runs + [e] && Started(a.space, a.frames, e, file, nx))
    case Alloc(n) =>
      && b.space == a.space && b.frames == a.frames && b.runs == a.runs
      && var from := AlignUp(a.heapAt, 16);
         b.heapAt == if from + n <= a.heapEnd then from + n else from
  }

  /** Each operation in turn, from one moment to the next. */
  ghost predicate AllDone(ops: seq<Op>, log: seq<Moment>, nx: bool) {
    |log| == |ops| + 1 && forall i :: 0 <= i < |ops| ==> Did(ops[i], log[i], log[i + 1], nx)
  }

  lemma EnteredSafe(s: Space, f: map<nat, seq<byte>>, was: seq<Entered>, runs: seq<Entered>, file: seq<byte>, nx: bool)
    ensures runs == was || (exists e :: runs == was + [e] && Started(s, f, e, file, nx)) ==> SafeRuns(was, runs, nx)
  {
    hide Protected, Acceptable;
  }

  method Step(k: Kernel, op: Op)
    requires k.Live() && OpOk(op) && (k.pt.nxOk ==> KernelWX(k.pt.Sp()))
    modifies k`runs, k`imgLo, k`imgHi, k.pt`pos, k.pt`up, k.pt.mem`heapAt, k.pt.mem`tables, k.pt.mem`frames
    ensures k.Live() && KeepsKernel(old(k.pt.Sp()), k.pt.Sp())
    ensures k.pt.nxOk ==> KernelWX(k.pt.Sp())
    ensures SafeRuns(old(k.runs), k.runs, k.pt.nxOk)
    ensures Did(op, old(Now(k)), Now(k), k.pt.nxOk)
  {
    hide KeepsKernel, KernelWX, KernelSame, Heap.Room, Protected, AddsIdentity, Acceptable, Started, Served;
    ghost var s := k.pt.Sp();
    match op {
      case EnsureIdentity(base, len) =>
        k.pt.EnsureIdentity(base, len);
        ghost var lo, hi := base / LARGE * 512, (base + len + LARGE - 1) / LARGE * 512;
        IdentityStep(s, k.pt.mem.frames, k.pt.Sp(), k.pt.nxOk, lo, hi);
      case Exec(file) =>
        var r, done, reached := k.ElfRun(file);
        EnteredSafe(s, old(k.pt.mem.frames), old(k.runs), k.runs, file, k.pt.nxOk);
        SameKeeps(s, k.pt.Sp());
      case Alloc(n) =>
        var p := k.pt.mem.Kalloc(n);
        KeepsItself(s);
    }
  }

  lemma IdentityStep(s: Space, f: map<nat, seq<byte>>, s': Space, nx: bool, lo: nat, hi: nat)
    requires Protected(s, f, nx) && AddsIdentity(s, s', lo, hi, nx) && (nx ==> KernelWX(s))
    requires hi <= WINDOW_LO || WINDOW_HI <= lo
    ensures Protected(s', f, nx) && KeepsKernel(s, s') && (nx ==> KernelWX(s'))
  {
    IdentityKeeps(s, f, s', nx, lo, hi);
    if nx { IdentityKeepsWX(s, s', lo, hi); }
  }
}
