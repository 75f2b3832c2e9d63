/** The boot stage's kernel loader (src/efi/boot.c, kernel_load), once the file is in memory. */
module KernelLoad {
  import opened Wrappers
  import opened Arithmetic
  import opened Bytes
  import opened KernelImage
  import Elf

  datatype Step = Fine | Fail | Outside

  /** kernel_load's result. LeftPages is where its behaviour stops being modelled: the next
      access would be outside the pages it allocated. */
  datatype Outcome = Failed | LeftPages | Ready(entry: nat, base: nat)

  function AsStep(r: Load): Step {
    match r case Loaded(_) => Fine case Refused => Fail case Strays => Outside
  }

  /** The firmware's answer to a request for pages: none, or where they are. Pages that are not
      whole, or not all below 2^64, are no answer. */
  predicate Given(answer: Option<nat>, pages: nat) {
    answer.Some? && answer.value % 4096 == 0 && answer.value + pages * 4096 <= U64
  }

  method Copy(mem: array<byte>, at: nat, x: seq<byte>)
    requires at + |x| <= mem.Length
    modifies mem
    ensures mem[..] == Patch(old(mem[..]), at, x)
  {
    for i := 0 to |x|
      invariant forall k :: 0 <= k < mem.Length ==> mem[k] == if at <= k < at + i then x[k - at] else old(mem[k])
    {
      mem[at + i] := x[i];
    }
  }

  lemma RelocsNone(img: seq<byte>, l: Layout, slide: nat, a: nat)
    ensures Relocs(img, l, slide, a, 0) == Loaded(img)
  {
  }

  /** The relocation loop. */
  method RunRelocs(mem: array<byte>, l: Layout, slide: nat, a: nat, size: nat) returns (r: Step)
    requires l.Ok()
    modifies mem
    ensures r == AsStep(Relocs(old(mem[..]), l, slide, a, size / 24))
    ensures r == Fine ==> Loaded(mem[..]) == Relocs(old(mem[..]), l, slide, a, size / 24)
  {
    hide Word, Enc, Relocs, OneReloc;
    ghost var img := mem[..];
    RelocsNone(img, l, slide, a);
    var off, k := 0, 0;
    while off + 24 <= size
      invariant off == 24 * k && k <= size / 24
      invariant Relocs(img, l, slide, a, k) == Loaded(mem[..])
      decreases size - off
    {
      ghost var now := mem[..];
      r := RunReloc(mem, l, slide, a + off);
      RelocsNext(img, l, slide, a, k);
      if r != Fine { RelocsStuck(img, l, slide, a, k + 1, size / 24); return; }
      off, k := off + 24, k + 1;
    }
    assert k == size / 24;
    r := Fine;
  }

  /** One record. */
  method RunReloc(mem: array<byte>, l: Layout, slide: nat, a: nat) returns (r: Step)
    requires l.Ok()
    modifies mem
    ensures r == AsStep(OneReloc(old(mem[..]), l, slide, a))
    ensures r == Fine ==> Loaded(mem[..]) == OneReloc(old(mem[..]), l, slide, a)
  {
    hide Word, Enc;
    if a + 16 > mem.Length { return Outside; }
    if Word(mem[..], a + 8) % 0x1_0000_0000 != RELATIVE { return Fail; }
    var target := Word(mem[..], a);
    if target < l.lo || (target + 8) % U64 > l.hi { return Fail; }
    if target - l.lo + 8 > mem.Length || a + 24 > mem.Length { return Outside; }
    Copy(mem, target - l.lo, Enc((slide + Word(mem[..], a + 16)) % U64, 8));
    r := Fine;
  }

  /** The loop over a dynamic table, up to its DT_NULL. */
  method RunScan(mem: array<byte>, at: nat, n: nat) returns (s: Scan)
    ensures s == ScanFrom(mem[..], at, n, 0, 0, 0)
  {
    hide Word;
    var j: nat, rela: nat, size: nat := 0, 0, 0;
    while j < n
      invariant j <= n && ScanFrom(mem[..], at, n, j, rela, size) == ScanFrom(mem[..], at, n, 0, 0, 0)
    {
      var e := at + 16 * j;
      if e + 8 > mem.Length { return OffEnd; }
      var tag := Word(mem[..], e);
      if tag == 0 { break; }
      if tag == DT_RELA || tag == DT_RELASZ {
        if e + 16 > mem.Length { return OffEnd; }
        if tag == DT_RELA { rela := Word(mem[..], e + 8); }
        if tag == DT_RELASZ { size := Word(mem[..], e + 8); }
      }
      j := j + 1;
    }
    s := Found(rela, size);
  }

  /** One PT_DYNAMIC header. */
  method RunDynamic(mem: array<byte>, l: Layout, slide: nat, p: Elf.Phdr) returns (r: Step)
    requires l.Ok()
    modifies mem
    ensures r == AsStep(OneDynamic(old(mem[..]), l, slide, p))
    ensures r == Fine ==> Loaded(mem[..]) == OneDynamic(old(mem[..]), l, slide, p)
  {
    hide Relocs, ScanFrom, Word, Sub;
    if p.vaddr < l.lo || p.memsz > Sub(l.hi, p.vaddr) { return Fail; }
    var s := RunScan(mem, p.vaddr - l.lo, p.memsz / 16);
    if s.OffEnd? { return Outside; }
    if s.size == 0 { return Fine; }
    if s.rela < l.lo || s.size > Sub(l.hi, s.rela) { return Fail; }
    r := RunRelocs(mem, l, slide, s.rela - l.lo, s.size);
  }

  /** The loop over the PT_DYNAMIC headers. */
  method RunDynamics(mem: array<byte>, l: Layout, slide: nat, hs: seq<Elf.Phdr>) returns (r: Step)
    requires l.Ok()
    modifies mem
    ensures r == AsStep(Dynamics(old(mem[..]), l, slide, hs))
    ensures r == Fine ==> Loaded(mem[..]) == Dynamics(old(mem[..]), l, slide, hs)
  {
    hide OneDynamic;
    ghost var img := mem[..];
    for i := 0 to |hs|
      invariant Dynamics(img, l, slide, hs[..i]) == Loaded(mem[..])
    {
      assert hs[..i + 1][..i] == hs[..i];
      if hs[i].typ == PT_DYNAMIC {
        r := RunDynamic(mem, l, slide, hs[i]);
        if r != Fine { DynamicsStuck(img, l, slide, hs, i + 1); return; }
      }
    }
    assert hs[..|hs|] == hs;
    r := Fine;
  }

  /** The first loop: the range of the loadable segments, and its two refusals. */
  method Measure(hs: seq<Elf.Phdr>) returns (ok: bool, lo: nat, hi: nat)
    requires Words(hs)
    ensures ok <==> SegmentsOk(hs)
    ensures ok ==> lo == Low(hs) && hi == High(hs)
  {
    lo, hi := U64 - 1, 0;
    for i := 0 to |hs|
      invariant SegmentsOk(hs[..i]) && lo == Low(hs[..i]) && hi == High(hs[..i])
    {
      var p := hs[i];
      assert hs[..i + 1][..i] == hs[..i];
      if !p.Loads() { continue; }
      if p.filesz > p.memsz || (p.vaddr + p.memsz) % U64 < p.vaddr {
        assert !SegmentOk(hs[i]);
        return false, lo, hi;
      }
      if p.vaddr < lo { lo := p.vaddr; }
      if p.vaddr + p.memsz > hi { hi := p.vaddr + p.memsz; }
    }
    assert hs[..|hs|] == hs;
    ok := true;
  }

  /** The second loop: the segments' bytes into the zeroed pages. */
  method Fill(file: seq<byte>, l: Layout, hs: seq<Elf.Phdr>, mem: array<byte>) returns (ok: bool)
    requires l.Ok() && mem.Length == l.Span() && mem[..] == Zeros(l.Span())
    requires forall i :: 0 <= i < |hs| && (hs[i].Loads() ==> InFile(file, hs[i])) ==> Fits(file, l, hs[i])
    modifies mem
    ensures ok <==> forall i :: 0 <= i < |hs| ==> Fits(file, l, hs[i])
    ensures ok ==> mem[..] == Segments(file, l, hs)
  {
    for i := 0 to |hs|
      invariant forall j :: 0 <= j < i ==> Fits(file, l, hs[j])
      invariant mem[..] == Segments(file, l, hs[..i])
    {
      var p := hs[i];
      assert hs[..i + 1][..i] == hs[..i];
      if !p.Loads() { continue; }
      if p.off > |file| || p.filesz > |file| - p.off { return false; }
      assert Fits(file, l, hs[i]);
      Copy(mem, p.vaddr - l.lo, file[p.off..p.off + p.filesz]);
    }
    assert hs[..|hs|] == hs;
    ok := true;
  }

  /** Everything after the pages are there. */
  method Install(file: seq<byte>, hs: seq<Elf.Phdr>, l: Layout, base: nat, mem: array<byte>) returns (r: Step)
    requires HeaderOk(file) && hs == Headers(file) && Loadable(hs) && l == LayoutOf(hs) && l.Ok()
    requires mem.Length == l.Span() && mem[..] == Zeros(l.Span())
    modifies mem
    ensures r == AsStep(Kernel(file, base))
    ensures r == Fine ==> Loaded(mem[..]) == Kernel(file, base)
  {
    hide HeaderOk, Headers, Loadable, LayoutOf, Segments, Dynamics, Fits;
    forall i | 0 <= i < |hs| && (hs[i].Loads() ==> InFile(file, hs[i])) ensures Fits(file, l, hs[i]) {
      LoadableFits(file, hs, i);
    }
    var ok := Fill(file, l, hs, mem);
    if !ok { return Fail; }
    r := RunDynamics(mem, l, Sub(base, l.lo), hs);
  }

  /** The entry point, inside the image as the file places it. */
  predicate StartsAt(file: seq<byte>, base: nat, r: Outcome)
    requires HeaderOk(file)
  {
    var l := LayoutOf(Headers(file));
    r.Ready? && r.base == base && l.lo <= Elf.Entry(file) < l.hi && r.entry == base + (Elf.Entry(file) - l.lo)
  }

  /** The file passes every check made before memory is asked for. */
  predicate Asks(file: seq<byte>) {
    HeaderOk(file) && Loadable(Headers(file))
    && LayoutOf(Headers(file)).lo <= Elf.Entry(file) < LayoutOf(Headers(file)).hi
  }

  /** kernel_load. Its pages are `mem`, at the base it reports; every access it makes is to
      them, up to the point where it would leave them, and it leaves them exactly when the
      image of the file says so. Otherwise it loads that image. A static PIE, given pages,
      always loads. */
  method Load(file: seq<byte>, answer: Option<nat>) returns (r: Outcome, mem: array<byte>, ghost base: Option<nat>)
    ensures base.Some? <==> Asks(file) && Given(answer, LayoutOf(Headers(file)).Pages())
    ensures base.Some? ==>
              && base == answer && mem.Length == LayoutOf(Headers(file)).Span()
              && (r.LeftPages? <==> Kernel(file, base.value).Strays?)
              && (r.Failed? <==> Kernel(file, base.value).Refused?)
              && (r.Ready? ==> Kernel(file, base.value) == Loaded(mem[..]) && StartsAt(file, base.value, r))
              && (StaticPie(file) ==> r.Ready?)
    ensures base.None? ==> r.Failed?
    ensures fresh(mem)
  {
    hide HeaderOk, Headers, SegmentsOk, Low, High, Kernel, StaticPie;
    mem, base := new byte[0], None;
    r := Failed;
    if !HeaderOk(file) { return; }
    var hs := Headers(file);
    HeadersAreWords(file);
    var ok, low, hi := Measure(hs);
    if !ok || hi <= low || hi - low > SPAN_MAX { return; }
    var lo := low / 4096 * 4096;
    var entry := Elf.Entry(file);
    if entry < lo || entry >= hi { return; }
    var l := Layout(lo, hi);
    LoadableOk(hs);
    if !Given(answer, l.Pages()) { return; }
    base := answer;
    mem := new byte[l.Span()](_ => 0);
    assert mem[..] == Zeros(l.Span());
    r := Place(file, hs, l, answer.value, entry, mem);
    PieFine(file, answer.value);
  }

  /** What Load makes of the file in pages at `base`. */
  method Place(file: seq<byte>, hs: seq<Elf.Phdr>, l: Layout, base: nat, entry: nat, mem: array<byte>)
    returns (r: Outcome)
    requires HeaderOk(file) && hs == Headers(file) && Loadable(hs) && l == LayoutOf(hs) && l.Ok()
    requires mem.Length == l.Span() && mem[..] == Zeros(l.Span()) && base + l.Span() <= U64
    requires entry == Elf.Entry(file) && l.lo <= entry < l.hi
    modifies mem
    ensures r.LeftPages? <==> Kernel(file, base).Strays?
    ensures r.Failed? <==> Kernel(file, base).Refused?
    ensures r.Ready? ==> Kernel(file, base) == Loaded(mem[..]) && StartsAt(file, base, r)
  {
    hide HeaderOk, Headers, Loadable, LayoutOf, Kernel;
    var s := Install(file, hs, l, base, mem);
    if s == Fail { return Failed; }
    if s == Outside { return LeftPages; }
    EntrySum(base, l.lo, entry);
    r := Ready((Sub(base, l.lo) + entry) % U64, base);
  }

  lemma PieFine(file: seq<byte>, base: nat)
    requires HeaderOk(file) && Loadable(Headers(file))
    ensures StaticPie(file) ==> Kernel(file, base).Loaded?
  {
    if StaticPie(file) { StaticPieLoads(file, base); }
  }

  lemma EntrySum(base: nat, lo: nat, entry: nat)
    requires lo <= entry && base + (entry - lo) < U64
    ensures (Sub(base, lo) + entry) % U64 == base + (entry - lo)
  {
  }
}
