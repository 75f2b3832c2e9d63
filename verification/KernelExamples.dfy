/** Two small KERNEL.ELF files that take the boot loader out of the pages it allocated. */
module KernelExamples {
  import opened Arithmetic
  import opened Bytes
  import opened KernelImage
  import opened WordFiles
  import Elf

  /** One page to load, and one dynamic table at `dyn` of `len` bytes. At 176 the file has such
      a table, naming a relocation table at 224 with one record, for the word at 2^64 - 8. */
  function Dword(dyn: nat, len: nat, i: nat): (w: nat)
    ensures dyn < 0x1_0000_0000 && len < 0x1_0000_0000 ==> w < 0x1_0000_0000
  {
    match i
    case 0 => 0x464C457F case 1 => 0x0001_0102 case 4 => 0x003E_0003 case 5 => 1
    case 8 => 64 case 13 => 0x0038_0040 case 14 => 2
    case 16 => 1 case 17 => 7 case 24 => 248 case 26 => 0x1000
    case 30 => 2 case 31 => 6 case 34 => dyn case 40 => len
    case 44 => 7 case 46 => 224 case 48 => 8 case 50 => 24
    case 56 => 0xFFFF_FFF8 case 57 => 0xFFFF_FFFF case 58 => 8
    case _ => 0
  }

  function Words(dyn: nat, len: nat): nat -> nat { (i: nat) => Dword(dyn, len, i) }

  function File(dyn: nat, len: nat): (file: seq<byte>)
    ensures |file| == 248
  {
    FileOf(62, Words(dyn, len))
  }

  lemma FileHeader(dyn: nat, len: nat)
    requires dyn < 0x1_0000_0000 && len < 0x1_0000_0000
    ensures HeaderOk(File(dyn, len)) && Elf.PhNum(File(dyn, len)) == 2 && Elf.PhOff(File(dyn, len)) == 64
    ensures Elf.Entry(File(dyn, len)) == 0
  {
    hide LE, FileOf;
    var w := Words(dyn, len);
    FirstBytes(62, w);
    assert File(dyn, len)[..6] == File(dyn, len)[..7][..6];
    ReadHalf(62, w, 4);
    ReadLong(62, w, 6);
    ReadLong(62, w, 8);
    ReadHalf(62, w, 13);
    ReadHalf(62, w, 14);
  }

  lemma LoadPhdr(dyn: nat, len: nat)
    ensures PhdrOf(Words(dyn, len), 16) == Elf.Phdr(1, 7, 0, 0, 248, 0x1000)
  {
  }

  lemma DynPhdr(dyn: nat, len: nat)
    ensures PhdrOf(Words(dyn, len), 30) == Elf.Phdr(2, 6, 0, dyn, 0, len)
  {
  }

  lemma FileHeaders(dyn: nat, len: nat)
    requires dyn < 0x1_0000_0000 && len < 0x1_0000_0000
    ensures HeaderOk(File(dyn, len))
    ensures Headers(File(dyn, len)) == [Elf.Phdr(1, 7, 0, 0, 248, 0x1000), Elf.Phdr(2, 6, 0, dyn, 0, len)]
  {
    hide HeaderOk, Elf.PhdrAt, LE, Dword, PhdrOf;
    FileHeader(dyn, len);
    LoadPhdr(dyn, len);
    DynPhdr(dyn, len);
    PhdrRead(File(dyn, len), 62, Words(dyn, len), 16, 64);
    PhdrRead(File(dyn, len), 62, Words(dyn, len), 30, 120);
  }

  lemma FileLoads(dyn: nat, len: nat)
    requires dyn < 0x1_0000_0000 && len < 0x1_0000_0000
    ensures var f := File(dyn, len);
            && HeaderOk(f) && Loadable(Headers(f)) && AllFit(f)
            && LayoutOf(Headers(f)) == Layout(0, 0x1000) && Layout(0, 0x1000).Ok() && Layout(0, 0x1000).Span() == 0x1000
  {
    hide HeaderOk, Headers, FileOf, Loadable, LayoutOf;
    FileHeaders(dyn, len);
    OnePage(Elf.Phdr(1, 7, 0, 0, 248, 0x1000), Elf.Phdr(2, 6, 0, dyn, 0, len));
  }

  lemma OnePage(p: Elf.Phdr, q: Elf.Phdr)
    requires p == Elf.Phdr(1, 7, 0, 0, 248, 0x1000) && q.typ == 2
    ensures Loadable([p, q]) && LayoutOf([p, q]) == Layout(0, 0x1000)
    ensures Layout(0, 0x1000).Ok() && Layout(0, 0x1000).Span() == 0x1000
  {
    assert [p, q][..1] == [p] && [p][..0] == [];
    assert Low([p]) == 0 && High([p]) == 0x1000;
    assert Low([p, q]) == 0 && High([p, q]) == 0x1000;
  }

  /** The file is at the start of its page. */
  lemma ImageIsFile(dyn: nat, len: nat, k: nat)
    requires dyn < 0x1_0000_0000 && len < 0x1_0000_0000 && k < 248
    requires var f := File(dyn, len);
             HeaderOk(f) && Loadable(Headers(f)) && AllFit(f) && LayoutOf(Headers(f)) == Layout(0, 0x1000)
    ensures SegmentImage(File(dyn, len))[k] == File(dyn, len)[k]
  {
    hide HeaderOk, Headers, Loadable, LayoutOf, FileOf, Segments;
    FileHeaders(dyn, len);
    var hs := Headers(File(dyn, len));
    assert Fills(hs[0], k) && !Fills(hs[1], k);
    SegmentsByte(File(dyn, len), Layout(0, 0x1000), hs, k);
  }

  /** A dynamic table said to start at 0x2000, past the one page there is: the test lets it
      through, and its first entry is read from outside. */
  lemma TableOutside(base: nat)
    ensures var f := File(0x2000, 16); HeaderOk(f) && Loadable(Headers(f)) && Kernel(f, base) == Strays
  {
    hide HeaderOk, Headers, Loadable, LayoutOf;
    FileLoads(0x2000, 16);
    FileHeaders(0x2000, 16);
    var f := File(0x2000, 16);
    var img, l := SegmentImage(f), Layout(0, 0x1000);
    var hs := Headers(f);
    assert Sub(0x1000, 0x2000) == U64 - 0x1000;
    assert TableScan(img, l, hs[1]) == OffEnd;
    StraysThere(f, base);
  }

  /** If its one dynamic table strays, and names no relocation in order, the file does. */
  lemma StraysThere(f: seq<byte>, base: nat)
    requires HeaderOk(f) && Loadable(Headers(f)) && AllFit(f) && LayoutOf(Headers(f)) == Layout(0, 0x1000)
    requires Layout(0, 0x1000).Ok()
    requires |Headers(f)| == 2 && Headers(f)[0].typ == 1 && Headers(f)[1].typ == PT_DYNAMIC
    requires TableStrays(SegmentImage(f), Layout(0, 0x1000), Headers(f)[1])
    requires TableRecords(SegmentImage(f), Layout(0, 0x1000), Headers(f)[1]) == []
    ensures Kernel(f, base) == Strays
  {
    hide HeaderOk, Headers, Loadable, LayoutOf, TableStrays, TableRecords, TableOk;
    var img, l, hs := SegmentImage(f), Layout(0, 0x1000), Headers(f);
    StraysNotOk(img, l, hs[1]);
    assert FirstBadTable(img, l, hs, 1) == 1 && FirstBadTable(img, l, hs, 0) == 1;
    assert hs[..2] == hs && Processed(img, l, hs) == hs;
    assert hs[..1][..0] == [] && AllRecords(img, l, hs[..1]) == [];
    assert AllRecords(img, l, hs) == [];
    DynamicsCases(img, l, Sub(base, l.lo), hs);
  }

  lemma StraysNotOk(img: seq<byte>, l: Layout, p: Elf.Phdr)
    requires l.Ok() && TableStrays(img, l, p)
    ensures !TableOk(img, l, p)
  {
  }

  lemma ImageWord(dyn: nat, len: nat, j: nat)
    requires dyn < 0x1_0000_0000 && len < 0x1_0000_0000 && j < 61
    requires var f := File(dyn, len);
             HeaderOk(f) && Loadable(Headers(f)) && AllFit(f) && LayoutOf(Headers(f)) == Layout(0, 0x1000)
    ensures |SegmentImage(File(dyn, len))| == 0x1000
    ensures Word(SegmentImage(File(dyn, len)), 4 * j) == Dword(dyn, len, j) + 0x1_0000_0000 * Dword(dyn, len, j + 1)
  {
    hide HeaderOk, Headers, Loadable, LayoutOf, LE, FileOf, Dword;
    var f := File(dyn, len);
    forall k | 4 * j <= k < 4 * j + 8 ensures SegmentImage(f)[k] == f[k] { ImageIsFile(dyn, len, k); }
    var head := SegmentImage(f)[..248];
    LEPrefix(SegmentImage(f), head, 4 * j, 8);
    LESame(head, f, 4 * j, 8);
    ReadLong(62, Words(dyn, len), j);
  }

  lemma {:induction false} LEPrefix(a: seq<byte>, b: seq<byte>, at: nat, n: nat)
    requires at + n <= |b| <= |a| && b == a[..|b|]
    ensures LE(a, at, n) == LE(b, at, n)
    decreases n
  {
    if n > 0 { LEPrefix(a, b, at + 1, n - 1); }
  }

  /** A sound dynamic table naming one record whose target is 2^64 - 8: adding 8 wraps, the
      test lets it through, and the word is written below the image. */
  lemma TargetOutside(base: nat)
    ensures var f := File(176, 48); HeaderOk(f) && Loadable(Headers(f)) && Kernel(f, base) == Strays
  {
    hide HeaderOk, Headers, Loadable, LayoutOf, Word, RecordStrays, SegmentImage, ScanFrom;
    FileLoads(176, 48);
    FileHeaders(176, 48);
    var f := File(176, 48);
    var img, l, p := SegmentImage(f), Layout(0, 0x1000), Headers(f)[1];
    ScanOne();
    RecordOut();
    RangeTest(176, 48, l);
    RangeTest(224, 24, l);
    assert FirstBad(img, l, 224, 0, 1) == 0;
    assert TableStrays(img, l, p);
    StraysThere(f, base);
  }

  lemma ScanOne()
    requires var f := File(176, 48);
             HeaderOk(f) && Loadable(Headers(f)) && AllFit(f) && LayoutOf(Headers(f)) == Layout(0, 0x1000)
    ensures ScanFrom(SegmentImage(File(176, 48)), 176, 3, 0, 0, 0) == Found(224, 24)
  {
    hide HeaderOk, Headers, Loadable, LayoutOf, Word, SegmentImage;
    var img := SegmentImage(File(176, 48));
    ImageWord(176, 48, 44);
    ImageWord(176, 48, 46);
    ImageWord(176, 48, 48);
    ImageWord(176, 48, 50);
    ImageWord(176, 48, 52);
    assert Word(img, 176) == 7 && Word(img, 184) == 224 && Word(img, 192) == 8 && Word(img, 200) == 24
           && Word(img, 208) == 0;
    assert ScanFrom(img, 176, 3, 2, 224, 24) == Found(224, 24);
    assert ScanFrom(img, 176, 3, 1, 224, 0) == Found(224, 24);
  }

  lemma RecordOut()
    requires var f := File(176, 48);
             HeaderOk(f) && Loadable(Headers(f)) && AllFit(f) && LayoutOf(Headers(f)) == Layout(0, 0x1000)
    requires Layout(0, 0x1000).Ok() && Layout(0, 0x1000).Span() == 0x1000
    ensures var img := SegmentImage(File(176, 48));
            !NthOk(img, Layout(0, 0x1000), 224, 0) && RecordStrays(img, Layout(0, 0x1000), 224)
  {
    hide HeaderOk, Headers, Loadable, LayoutOf, Word, SegmentImage;
    ImageWord(176, 48, 56);
    ImageWord(176, 48, 58);
    assert Word(SegmentImage(File(176, 48)), 224) == U64 - 8 && Word(SegmentImage(File(176, 48)), 232) == 8;
  }
}
