/** The 64-bit words behind `PageTable.Entry`: each store the C code makes, written with
    its own masks and ors, decodes to the record the model stores. The masks are
    PTE_P 0x1, PTE_W 0x2, PTE_U 0x4, PTE_PS 0x80, PTE_NXB 1<<63 and PTE_ADDR. */
module PteBits {
  import opened PageTable

  function Field(e: bv64): bv64 { e & 0x000F_FFFF_FFFF_F000 }

  function Decode(e: bv64): Entry {
    Entry(e & 0x1 != 0, e & 0x2 != 0, e & 0x4 != 0, e & 0x80 != 0, e & 0x8000_0000_0000_0000 != 0, Field(e) as nat)
  }

  /** tab[idx] = (u64)n | PTE_P | PTE_W | (user ? PTE_U : 0) */
  lemma LinkWord(n: bv64, user: bool)
    requires Field(n) == n
    ensures Decode(n | 0x1 | 0x2 | (if user then 0x4 else 0)) == Entry(true, true, user, false, false, n as nat)
  {
    assert Field(n | 0x1 | 0x2 | (if user then 0x4 else 0)) == n;
  }

  /** tab[idx] |= PTE_U */
  lemma GrantWord(e: bv64)
    ensures Decode(e | 0x4) == Decode(e).(u := true)
  {
    assert Field(e | 0x4) == Field(e);
  }

  lemma OrBits(pa: bv64, f: bv64)
    requires pa & 0x000F_FFFF_FFFF_F000 == pa && f & 0x000F_FFFF_FFFF_F000 == 0
    ensures var s := pa | f;
            && s & 0x1 == f & 0x1 && s & 0x2 == f & 0x2 && s & 0x4 == f & 0x4 && s & 0x80 == f & 0x80
            && s & 0x8000_0000_0000_0000 == f & 0x8000_0000_0000_0000 && s & 0x000F_FFFF_FFFF_F000 == pa
  {
  }

  /** pt[...] = pa | flags, and pd[...] = pa | PTE_PS | flags: the flags' bits and the address. */
  lemma LeafWord(pa: bv64, f: bv64)
    requires pa & 0x000F_FFFF_FFFF_F000 == pa && f & 0x000F_FFFF_FFFF_F000 == 0
    ensures Decode(pa | f) == Decode(f).(addr := pa as nat)
  {
    OrBits(pa, f);
    SameBits(pa | f, pa, f);
  }

  lemma SameBits(s: bv64, pa: bv64, f: bv64)
    requires s & 0x1 == f & 0x1 && s & 0x2 == f & 0x2 && s & 0x4 == f & 0x4 && s & 0x80 == f & 0x80
    requires s & 0x8000_0000_0000_0000 == f & 0x8000_0000_0000_0000 && Field(s) == pa
    ensures Decode(s) == Decode(f).(addr := pa as nat)
  {
  }

  /** base + (i<<12) never carries out of its 2 MiB region. */
  lemma SplitAddress(base: bv64, i: bv64)
    requires base & 0x1F_FFFF == 0 && i < 512
    ensures base + (i << 12) == base | (i << 12)
  {
  }

  lemma SplitOffset(i: bv64)
    requires i < 512
    ensures (i << 12) & 0x1F_F000 == i << 12
  {
  }

  lemma SplitField(e: bv64, off: bv64)
    requires off & 0x1F_F000 == off
    ensures (((e & 0x000F_FFFF_FFFF_F000) | off) | (e & !(0x000F_FFFF_FFFF_F000 | 0x80))) & 0x000F_FFFF_FFFF_F000
            == (e & 0x000F_FFFF_FFFF_F000) | off
  {
  }

  lemma SplitFlags(e: bv64, off: bv64)
    requires off & 0x1F_F000 == off
    ensures var s := ((e & 0x000F_FFFF_FFFF_F000) | off) | (e & !(0x000F_FFFF_FFFF_F000 | 0x80));
            && s & 0x1 == e & 0x1 && s & 0x2 == e & 0x2 && s & 0x4 == e & 0x4
            && s & 0x8000_0000_0000_0000 == e & 0x8000_0000_0000_0000 && s & 0x80 == 0
  {
  }

  /** pt[i] = (base + (i<<12)) | flags, base and flags cut from a 2 MiB leaf, `off` for i<<12. */
  lemma SplitWord(e: bv64, off: bv64)
    requires off & 0x1F_F000 == off
    ensures Decode((Field(e) | off) | (e & !(0x000F_FFFF_FFFF_F000 | 0x80)))
            == Decode(e).(ps := false, addr := (Field(e) | off) as nat)
  {
    SplitField(e, off);
    SplitFlags(e, off);
  }
}
