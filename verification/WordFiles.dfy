/** Small files given as 32-bit little-endian words, for examples. */
module WordFiles {
  import opened Bytes
  import Elf

  function ByteOf(w: nat, k: nat): byte {
    if k == 0 then w % 256
    else if k == 1 then w / 256 % 256
    else if k == 2 then w / 256 / 256 % 256
    else w / 256 / 256 / 256 % 256
  }

  function FileOf(n: nat, w: nat -> nat): (file: seq<byte>)
    ensures |file| == 4 * n
  {
    seq<byte>(4 * n, i requires 0 <= i < 4 * n => ByteOf(w(i / 4), i % 4))
  }

  lemma FileBytes(n: nat, w: nat -> nat, j: nat)
    requires j < n
    ensures var f := FileOf(n, w);
            && f[4 * j] == ByteOf(w(j), 0) && f[4 * j + 1] == ByteOf(w(j), 1)
            && f[4 * j + 2] == ByteOf(w(j), 2) && f[4 * j + 3] == ByteOf(w(j), 3)
  {
    hide ByteOf;
    assert 4 * j / 4 == (4 * j + 1) / 4 == (4 * j + 2) / 4 == (4 * j + 3) / 4 == j;
    assert 4 * j % 4 == 0 && (4 * j + 1) % 4 == 1 && (4 * j + 2) % 4 == 2 && (4 * j + 3) % 4 == 3;
  }

  lemma LEStep(s: seq<byte>, at: nat, n: nat)
    requires at + n <= |s|
    ensures n > 0 ==> LE(s, at, n) == s[at] + 256 * LE(s, at + 1, n - 1)
    ensures n == 0 ==> LE(s, at, n) == 0
  {
  }

  lemma ReadHalf(n: nat, w: nat -> nat, j: nat)
    requires j < n && w(j) < 0x1_0000_0000
    ensures LE(FileOf(n, w), 4 * j, 2) == w(j) % 256 + 256 * (w(j) / 256 % 256)
    ensures LE(FileOf(n, w), 4 * j + 2, 2) == w(j) / 256 / 256
  {
    hide LE, FileOf, ByteOf;
    FileBytes(n, w, j);
    Pair(FileOf(n, w), 4 * j);
    Pair(FileOf(n, w), 4 * j + 2);
    Halves(w(j));
  }

  lemma Halves(v: nat)
    requires v < 0x1_0000_0000
    ensures 256 * ByteOf(v, 1) as int + ByteOf(v, 0) as int == v % 256 + 256 * (v / 256 % 256)
    ensures 256 * ByteOf(v, 3) as int + ByteOf(v, 2) as int == v / 256 / 256
  {
    var h := v / 256 / 256;
    assert h / 256 < 256 && h == 256 * (h / 256) + h % 256;
  }

  lemma Pair(s: seq<byte>, at: nat)
    requires at + 2 <= |s|
    ensures LE(s, at, 2) == 256 * s[at + 1] as int + s[at] as int
  {
    hide LE;
    LEStep(s, at, 2);
    LEStep(s, at + 1, 1);
    LEStep(s, at + 2, 0);
  }

  lemma {:induction false} LESplit(s: seq<byte>, at: nat, m: nat, n: nat)
    requires at + m + n <= |s|
    ensures LE(s, at, m + n) == LE(s, at, m) + Pow256(m) * LE(s, at + m, n)
    decreases m
  {
    hide LE;
    var rest := LE(s, at + m, n);
    LEStep(s, at, m);
    if m > 0 {
      LESplit(s, at + 1, m - 1, n);
      LEStep(s, at, m + n);
      TimesPow(m, rest);
    }
  }

  lemma TimesPow(m: nat, v: nat)
    requires m > 0
    ensures Pow256(m) * v == 256 * (Pow256(m - 1) * v)
  {
  }

  lemma ReadWord(n: nat, w: nat -> nat, j: nat)
    requires j < n && w(j) < 0x1_0000_0000
    ensures LE(FileOf(n, w), 4 * j, 4) == w(j)
  {
    hide LE, FileOf;
    ReadHalf(n, w, j);
    var v := w(j);
    assert v == 256 * (v / 256) + v % 256 && v / 256 == 256 * (v / 256 / 256) + v / 256 % 256;
    LESplit(FileOf(n, w), 4 * j, 2, 2);
    assert Pow256(2) == 0x1_0000;
  }

  lemma ReadLong(n: nat, w: nat -> nat, j: nat)
    requires j + 1 < n && w(j) < 0x1_0000_0000 && w(j + 1) < 0x1_0000_0000
    ensures LE(FileOf(n, w), 4 * j, 8) == w(j) + 0x1_0000_0000 * w(j + 1)
  {
    hide LE, FileOf;
    ReadWord(n, w, j);
    ReadWord(n, w, j + 1);
    LESplit(FileOf(n, w), 4 * j, 4, 4);
    assert Pow256(4) == 0x1_0000_0000;
  }

  /** The first two words hold the ELF identification. */
  lemma FirstBytes(n: nat, w: nat -> nat)
    requires n >= 2 && w(0) == 0x464C457F && w(1) == 0x0001_0102
    ensures FileOf(n, w)[0] == 0x7F && FileOf(n, w)[..7] == [0x7F, 0x45, 0x4C, 0x46, 2, 1, 1]
  {
    FileBytes(n, w, 0);
    FileBytes(n, w, 1);
    hide FileOf;
    var f := FileOf(n, w);
    assert f[0] == 0x7F && f[1] == 0x45 && f[2] == 0x4C && f[3] == 0x46 && f[4] == 2 && f[5] == 1 && f[6] == 1;
  }

  function PhdrOf(w: nat -> nat, j: nat): Elf.Phdr {
    Elf.Phdr(w(j), w(j + 1),
             w(j + 2) + 0x1_0000_0000 * w(j + 3), w(j + 4) + 0x1_0000_0000 * w(j + 5),
             w(j + 8) + 0x1_0000_0000 * w(j + 9), w(j + 10) + 0x1_0000_0000 * w(j + 11))
  }

  lemma PhdrRead(f: seq<byte>, n: nat, w: nat -> nat, j: nat, at: nat)
    requires f == FileOf(n, w) && at == 4 * j && at + Elf.PHDR <= |f|
    requires forall i :: j <= i < j + 14 ==> w(i) < 0x1_0000_0000
    ensures Elf.PhdrAt(f, at) == PhdrOf(w, j)
  {
    hide LE, FileOf;
    ReadWord(n, w, j);
    ReadWord(n, w, j + 1);
    ReadLong(n, w, j + 2);
    ReadLong(n, w, j + 4);
    ReadLong(n, w, j + 8);
    ReadLong(n, w, j + 10);
  }
}
