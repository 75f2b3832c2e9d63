/** The boot archive: written by tools/mkpak.py, read by src/kernel/proc.c. */
module Pak {
  import opened Wrappers
  import opened Arithmetic
  import opened Bytes

  /** "SBOSPAK1" */
  const MAGIC: seq<byte> := [0x53, 0x42, 0x4F, 0x53, 0x50, 0x41, 0x4B, 0x31]

  // --------------------------------------------------------------- the names

  /** A program to pack: its file name without directory and extension, and its bytes. */
  datatype File = File(stem: seq<byte>, data: seq<byte>)

  function LowerCase(s: seq<byte>): (r: seq<byte>)
    ensures |r| == |s|
  {
    seq(|s|, i requires 0 <= i < |s| => if 0x41 <= s[i] <= 0x5A then s[i] + 32 else s[i])
  }

  /** Lower case, without a leading "u_", at most 23 characters. */
  function Normal(stem: seq<byte>): (name: seq<byte>)
    ensures |name| <= 23
  {
    var low := LowerCase(stem);
    var bare := if 2 <= |low| && low[0] == 0x75 && low[1] == 0x5F then low[2..] else low;
    if |bare| <= 23 then bare else bare[..23]
  }

  predicate Ascii(s: seq<byte>) { forall i :: 0 <= i < |s| ==> 0 < s[i] < 128 }

  lemma NormalAscii(stem: seq<byte>)
    requires Ascii(stem)
    ensures Ascii(Normal(stem))
  {
  }

  /** A letter in lower case. */
  function Small(c: byte): byte { if 65 <= c <= 90 then c + 32 else c }

  /** What a program is called: its file's stem in lower case, without a leading "u_" in either
      case, and at most 23 characters of it. */
  lemma NormalIs(stem: seq<byte>)
    ensures var n, skip := Normal(stem), if |stem| >= 2 && (stem[0] == 0x75 || stem[0] == 0x55) && stem[1] == 0x5F
                                         then 2 else 0;
            && |n| == (if |stem| - skip < 23 then |stem| - skip else 23)
            && forall i :: 0 <= i < |n| ==> n[i] == Small(stem[skip + i])
  {
  }

  /** U_Hello is called hello. */
  lemma NameExample()
    ensures Normal([0x55, 0x5F, 0x48, 0x65, 0x6C, 0x6C, 0x6F]) == [0x68, 0x65, 0x6C, 0x6C, 0x6F]
  {
    NormalIs([0x55, 0x5F, 0x48, 0x65, 0x6C, 0x6C, 0x6F]);
  }

  // -------------------------------------------------------------- the layout

  function Round16(n: nat): (r: nat)
    ensures n <= r < n + 16 && r % 16 == 0
  {
    (n + 15) / 16 * 16
  }

  function HeadBytes(count: nat): (s: seq<byte>)
    ensures |s| == 16
  {
    MAGIC + Enc(count, 4) + Enc(0, 4)
  }

  /** One directory entry. */
  function EntryBytes(name: seq<byte>, off: nat, size: nat): (s: seq<byte>)
    requires |name| <= 24
    ensures |s| == 40
  {
    name + Zeros(24 - |name|) + Enc(off, 8) + Enc(size, 8)
  }

  /** Where blob i starts. */
  function Off(files: seq<File>, i: nat): (o: nat)
    requires i <= |files|
    ensures o % 16 == 0
  {
    if i == 0 then Round16(16 + 40 * |files|) else Round16(Off(files, i - 1) + |files[i - 1].data|)
  }

  ghost predicate At(buf: seq<byte>, at: nat, bytes: seq<byte>) {
    at + |bytes| <= |buf| && buf[at..at + |bytes|] == bytes
  }

  function Entry(files: seq<File>, i: nat): (s: seq<byte>)
    requires i < |files|
    ensures |s| == 40
  {
    EntryBytes(Normal(files[i].stem), Off(files, i), |files[i].data|)
  }

  /** The header and the first n directory entries. */
  ghost predicate Directory(buf: seq<byte>, files: seq<File>, n: nat)
    requires n <= |files|
  {
    && At(buf, 0, HeadBytes(|files|))
    && forall i {:trigger Entry(files, i)} :: 0 <= i < n ==> At(buf, 16 + 40 * i, Entry(files, i))
  }

  /** The first n blobs. */
  ghost predicate Blobs(buf: seq<byte>, files: seq<File>, n: nat)
    requires n <= |files|
  {
    forall i {:trigger Off(files, i)} :: 0 <= i < n ==> At(buf, Off(files, i), files[i].data)
  }

  /** An archive of these files: header, directory, blobs. */
  ghost predicate Archive(buf: seq<byte>, files: seq<File>) {
    |buf| == Off(files, |files|) && Directory(buf, files, |files|) && Blobs(buf, files, |files|)
  }

  /** For one: the archive of a single program, U_Hi, of two bytes. */
  lemma ArchiveExample(buf: seq<byte>)
    requires Archive(buf, [File([0x55, 0x5F, 0x48, 0x69], [7, 8])])
    ensures |buf| == 80
    ensures buf[0..4] == ['S' as byte, 'B' as byte, 'O' as byte, 'S' as byte]
    ensures buf[4..8] == ['P' as byte, 'A' as byte, 'K' as byte, '1' as byte]
    ensures buf[8..16] == [1, 0, 0, 0, 0, 0, 0, 0]
    ensures buf[16..19] == ['h' as byte, 'i' as byte, 0]
    ensures buf[40..48] == [64, 0, 0, 0, 0, 0, 0, 0] && buf[48..56] == [2, 0, 0, 0, 0, 0, 0, 0]
    ensures buf[64..66] == [7, 8]
  {
    hide Enc, Normal, EntryBytes, HeadBytes;
    var stem := [0x55, 0x5F, 0x48, 0x69];
    var files := [File(stem, [7, 8])];
    HiIs(stem);
    assert Off(files, 0) == 64 && Off(files, 1) == 80;
    var head, entry := HeadBytes(1), Entry(files, 0);
    HeadExample();
    EntryExample(Normal(stem));
    Inside(buf, 0, head, 0, 4);
    Inside(buf, 0, head, 4, 8);
    Inside(buf, 0, head, 8, 16);
    Inside(buf, 16, entry, 0, 3);
    Inside(buf, 16, entry, 24, 32);
    Inside(buf, 16, entry, 32, 40);
  }

  lemma Inside(buf: seq<byte>, at: nat, bytes: seq<byte>, i: nat, j: nat)
    requires At(buf, at, bytes) && i <= j <= |bytes|
    ensures buf[at + i..at + j] == bytes[i..j]
  {
    forall k | i <= k < j ensures buf[at + k] == bytes[k] {
      assert buf[at..at + |bytes|][k] == buf[at + k];
    }
  }

  lemma HiIs(stem: seq<byte>)
    requires stem == [0x55, 0x5F, 0x48, 0x69]
    ensures Normal(stem) == [0x68, 0x69]
  {
    NormalIs(stem);
  }

  lemma HeadExample()
    ensures HeadBytes(1)[0..4] == ['S' as byte, 'B' as byte, 'O' as byte, 'S' as byte]
    ensures HeadBytes(1)[4..8] == ['P' as byte, 'A' as byte, 'K' as byte, '1' as byte]
    ensures HeadBytes(1)[8..16] == [1, 0, 0, 0, 0, 0, 0, 0]
  {
    hide Enc;
    Small8(1);
  }

  lemma EntryExample(name: seq<byte>)
    requires name == [0x68, 0x69]
    ensures var e := EntryBytes(name, 64, 2);
            && e[0..3] == ['h' as byte, 'i' as byte, 0]
            && e[24..32] == [64, 0, 0, 0, 0, 0, 0, 0] && e[32..40] == [2, 0, 0, 0, 0, 0, 0, 0]
  {
    hide Enc;
    Small8(64);
    Small8(2);
  }

  lemma Small8(n: nat)
    requires n < 256
    ensures Enc(n, 4) == [n, 0, 0, 0] && Enc(n, 8) == [n, 0, 0, 0, 0, 0, 0, 0]
    ensures Enc(0, 4) == [0, 0, 0, 0]
  {
    assert Enc(0, 3) == [0, 0, 0];
    assert Enc(0, 7) == [0] + Enc(0, 6) == [0, 0] + Enc(0, 5) == [0, 0, 0] + Enc(0, 4);
  }

  /** Blobs are 16-aligned, past the directory, apart and inside the archive. */
  lemma {:induction false} BlobsApart(files: seq<File>, i: nat, j: nat)
    requires i < j <= |files|
    ensures 16 + 40 * |files| <= Off(files, 0) <= Off(files, i)
    ensures Off(files, i) + |files[i].data| <= Off(files, j) <= Off(files, |files|)
    decreases j - i
  {
    Ascending(files, 0, i);
    Ascending(files, i + 1, j);
    Ascending(files, j, |files|);
  }

  lemma {:induction false} Ascending(files: seq<File>, i: nat, j: nat)
    requires i <= j <= |files|
    ensures Off(files, i) <= Off(files, j)
    decreases j - i
  {
    if i < j { Ascending(files, i, j - 1); }
  }

  // --------------------------------------------------------------- the writer

  /** b2 is b but for the bytes from `at` on. */
  ghost predicate Patched(b: seq<byte>, b2: seq<byte>, at: nat, bytes: seq<byte>) {
    && |b2| == |b| && At(b2, at, bytes)
    && forall k :: 0 <= k < |b| && !(at <= k < at + |bytes|) ==> b2[k] == b[k]
  }

  lemma AtStays(b: seq<byte>, b2: seq<byte>, at: nat, bytes: seq<byte>, p: nat, x: seq<byte>)
    requires Patched(b, b2, at, bytes) && At(b, p, x) && (p + |x| <= at || at + |bytes| <= p)
    ensures At(b2, p, x)
  {
  }

  lemma EntryWritten(b: seq<byte>, b2: seq<byte>, files: seq<File>, n: nat)
    requires n < |files| && Directory(b, files, n) && Patched(b, b2, 16 + 40 * n, Entry(files, n))
    ensures Directory(b2, files, n + 1)
  {
    hide Patched, At, HeadBytes, Entry, Off;
    assert At(b2, 16 + 40 * n, Entry(files, n)) by { PatchedAt(b, b2, 16 + 40 * n, Entry(files, n)); }
    AtStays(b, b2, 16 + 40 * n, Entry(files, n), 0, HeadBytes(|files|));
    forall i {:trigger Entry(files, i)} | 0 <= i < n ensures At(b2, 16 + 40 * i, Entry(files, i)) {
      AtStays(b, b2, 16 + 40 * n, Entry(files, n), 16 + 40 * i, Entry(files, i));
    }
  }

  lemma PatchedAt(b: seq<byte>, b2: seq<byte>, at: nat, bytes: seq<byte>)
    requires Patched(b, b2, at, bytes)
    ensures At(b2, at, bytes)
  {
  }

  lemma BlobWritten(b: seq<byte>, b2: seq<byte>, files: seq<File>, n: nat)
    requires n < |files| && Directory(b, files, |files|) && Blobs(b, files, n)
    requires Patched(b, b2, Off(files, n), files[n].data)
    ensures Directory(b2, files, |files|) && Blobs(b2, files, n + 1)
  {
    hide Patched, At, HeadBytes, Entry, Off;
    BlobsApart(files, n, n + 1);
    var at, x := Off(files, n), files[n].data;
    PatchedAt(b, b2, at, x);
    AtStays(b, b2, at, x, 0, HeadBytes(|files|));
    forall i {:trigger Entry(files, i)} | 0 <= i < |files| ensures At(b2, 16 + 40 * i, Entry(files, i)) {
      AtStays(b, b2, at, x, 16 + 40 * i, Entry(files, i));
    }
    forall i {:trigger Off(files, i)} | 0 <= i < n ensures At(b2, Off(files, i), files[i].data) {
      BlobsApart(files, i, n);
      AtStays(b, b2, at, x, Off(files, i), files[i].data);
    }
  }

  /** A slice assignment into the bytearray. */
  method Write(buf: array<byte>, at: nat, bytes: seq<byte>)
    requires at + |bytes| <= buf.Length
    modifies buf
    ensures Patched(old(buf[..]), buf[..], at, bytes)
  {
    for i := 0 to |bytes|
      invariant buf[at..at + i] == bytes[..i]
      invariant forall k :: 0 <= k < buf.Length && !(at <= k < at + i) ==> buf[k] == old(buf[k])
    {
      buf[at + i] := bytes[i];
    }
  }

  datatype Row = Row(name: seq<byte>, off: nat, size: nat)

  datatype Blob = Blob(off: nat, data: seq<byte>)

  lemma OffNext(files: seq<File>, i: nat)
    requires i < |files|
    ensures Off(files, i + 1) == Round16(Off(files, i) + |files[i].data|)
  {
  }

  lemma OffFirst(files: seq<File>)
    ensures Off(files, 0) == Round16(16 + 40 * |files|)
  {
  }

  /** The first loop: where everything goes. */
  method Plan(files: seq<File>)
    returns (entries: seq<Row>, blobs: seq<Blob>, off: nat)
    ensures off == Off(files, |files|) && |entries| == |blobs| == |files|
    ensures forall k :: 0 <= k < |files| ==> entries[k] == Row(Normal(files[k].stem), Off(files, k), |files[k].data|)
    ensures forall k :: 0 <= k < |files| ==> blobs[k] == Blob(Off(files, k), files[k].data)
  {
    hide Off, Round16, Normal;
    entries, blobs := [], [];
    OffFirst(files);
    off := Round16(16 + 40 * |files|);
    for i := 0 to |files|
      invariant off == Off(files, i) && |entries| == i && |blobs| == i
      invariant forall k :: 0 <= k < i ==> entries[k] == Row(Normal(files[k].stem), Off(files, k), |files[k].data|)
      invariant forall k :: 0 <= k < i ==> blobs[k] == Blob(Off(files, k), files[k].data)
    {
      entries := entries + [Row(Normal(files[i].stem), off, |files[i].data|)];
      blobs := blobs + [Blob(off, files[i].data)];
      OffNext(files, i);
      off := Round16(off + |files[i].data|);
    }
  }

  /** main: nothing to pack is a usage error; otherwise the archive of the files. */
  method Pack(files: seq<File>) returns (r: Option<array<byte>>)
    ensures r.None? <==> files == []
    ensures r.Some? ==> Archive(r.value[..], files)
  {
    hide Patched, At, Off, Entry;
    if files == [] { return None; }
    var entries, blobs, off := Plan(files);
    var buf := new byte[off](_ => 0);
    BlobsApart(files, 0, |files|);
    ghost var zeros := buf[..];
    Write(buf, 0, HeadBytes(|files|));
    PatchedAt(zeros, buf[..], 0, HeadBytes(|files|));
    var pos := 16;
    for i := 0 to |entries|
      invariant pos == 16 + 40 * i && Directory(buf[..], files, i)
    {
      ghost var was := buf[..];
      EntryIs(files, i);
      Write(buf, pos, EntryBytes(entries[i].name, entries[i].off, entries[i].size));
      EntryWritten(was, buf[..], files, i);
      pos := pos + 40;
    }
    for i := 0 to |blobs|
      invariant Directory(buf[..], files, |files|) && Blobs(buf[..], files, i)
    {
      ghost var was := buf[..];
      BlobsApart(files, i, |files|);
      Write(buf, blobs[i].off, blobs[i].data);
      BlobWritten(was, buf[..], files, i);
    }
    r := Some(buf);
  }

  lemma EntryIs(files: seq<File>, i: nat)
    requires i < |files|
    ensures Entry(files, i) == EntryBytes(Normal(files[i].stem), Off(files, i), |files[i].data|)
  {
  }

  // --------------------------------------------------------------- the reader

  /** The C string in a field: what comes before the first NUL. */
  function Text(field: seq<byte>): (t: seq<byte>)
    ensures |t| <= |field| && t == field[..|t|] && 0 !in t && (|t| < |field| ==> field[|t|] == 0)
    ensures |t| == |field| <==> 0 !in field
  {
    if field == [] || field[0] == 0 then [] else [field[0]] + Text(field[1..])
  }

  /** What pak_init asks of the memory the loader hands over. */
  predicate Accepted(base: nat, mem: seq<byte>) {
    && base != 0 && 16 <= |mem| && mem[..8] == MAGIC
    && LE(mem, 8, 4) <= 256 && 16 + LE(mem, 8, 4) * 40 <= |mem|
  }

  /** An accepted archive, seen as the kernel's PakHdr and PakEnt records, and the memory that
      follows it, which a string without a NUL runs into. */
  datatype View = View(mem: seq<byte>, after: nat -> byte) {
    ghost predicate Valid() { 16 <= |mem| && 16 + 40 * Count() <= |mem| }

    function Count(): nat
      requires 16 <= |mem|
    {
      LE(mem, 8, 4)
    }

    function Field(i: nat): (f: seq<byte>)
      requires Valid() && i < Count()
      ensures |f| == 24
    {
      assert 16 + 40 * i + 40 <= |mem|;
      mem[16 + 40 * i..16 + 40 * i + 24]
    }

    function Peek(k: nat): byte { if k < |mem| then mem[k] else after(k - |mem|) }

    /** The C string that starts in entry i's name field is `name`, which has no NUL. */
    predicate Named(i: nat, name: seq<byte>) {
      (forall j :: 0 <= j < |name| ==> Peek(16 + 40 * i + j) == name[j]) && Peek(16 + 40 * i + |name|) == 0
    }

    function Offset(i: nat): nat
      requires Valid() && i < Count()
    {
      assert 16 + 40 * i + 40 <= |mem|;
      LE(mem, 16 + 40 * i + 24, 8)
    }

    function Size(i: nat): nat
      requires Valid() && i < Count()
    {
      assert 16 + 40 * i + 40 <= |mem|;
      LE(mem, 16 + 40 * i + 32, 8)
    }

    /** i is the first entry of that name. */
    ghost predicate FirstNamed(i: nat, name: seq<byte>)
      requires Valid()
    {
      i < Count() && Named(i, name) && forall k: nat :: k < i ==> !Named(k, name)
    }

    ghost predicate Lacks(name: seq<byte>)
      requires Valid()
    {
      forall k: nat :: k < Count() ==> !Named(k, name)
    }
  }

  /** In a NUL-padded field the C string is what comes before the first NUL. */
  lemma PaddedName(v: View, i: nat, name: seq<byte>)
    requires v.Valid() && i < v.Count() && v.Field(i)[23] == 0 && 0 !in name
    ensures v.Named(i, name) <==> Text(v.Field(i)) == name
  {
    hide LE, Text;
    var f, p := v.Field(i), 16 + 40 * i;
    assert forall j :: 0 <= j < 24 ==> f[j] == v.Peek(p + j);
    if v.Named(i, name) {
      assert forall j :: 0 <= j < 24 && j < |name| ==> f[j] == name[j] && name[j] in name;
      assert f[..|name|] == name;
      TextIs(f, name);
    }
    if Text(f) == name {
      TextPlain(f);
    }
  }

  lemma TextPlain(f: seq<byte>)
    ensures forall j :: 0 <= j < |Text(f)| ==> Text(f)[j] == f[j]
    ensures |Text(f)| < |f| ==> f[|Text(f)|] == 0
    ensures f != [] && f[|f| - 1] == 0 ==> |Text(f)| < |f|
  {
    assert forall j :: 0 <= j < |Text(f)| ==> Text(f)[j] == f[..|Text(f)|][j] == f[j];
  }

  /** A name of 24 bytes or more, which proc_has never looks for, is found by pak_find only in
      an entry whose name field has no NUL. */
  lemma LongNames(v: View, i: nat, name: seq<byte>)
    requires v.Valid() && i < v.Count() && v.Named(i, name) && 0 !in name && |name| >= 24
    ensures 0 !in v.Field(i)
  {
    forall j | 0 <= j < 24 ensures v.Field(i)[j] != 0 {
      assert v.Field(i)[j] == v.Peek(16 + 40 * i + j) == name[j];
    }
  }

  lemma TextIs(field: seq<byte>, t: seq<byte>)
    requires |t| <= |field| && t == field[..|t|] && 0 !in t && (|t| < |field| ==> field[|t|] == 0)
    ensures Text(field) == t
  {
    var u := Text(field);
    assert forall k :: 0 <= k < |t| ==> t[k] == field[..|t|][k] == field[k];
    assert forall k :: 0 <= k < |u| ==> u[k] == field[..|u|][k] == field[k];
    assert |t| == |u|;
  }

  /** memcmp_k */
  method Memcmp(x: seq<byte>, y: seq<byte>, n: nat) returns (d: int)
    requires n <= |x| && n <= |y|
    ensures d == 0 <==> x[..n] == y[..n]
  {
    for i := 0 to n
      invariant x[..i] == y[..i]
    {
      if x[i] != y[i] {
        assert x[..n][i] != y[..n][i];
        var p: int, q: int := x[i], y[i];
        return p - q;
      }
    }
    d := 0;
  }

  /** strcmp of the string in entry i with a C string, which `name` stands for without its
      NUL. It reads no further than the first difference. */
  method Strcmp(v: View, i: nat, name: seq<byte>) returns (d: int)
    requires 0 !in name
    ensures d == 0 <==> v.Named(i, name)
  {
    var p, j := 16 + 40 * i, 0;
    while j < |name| && v.Peek(p + j) != 0 && v.Peek(p + j) == name[j]
      invariant j <= |name| && forall k :: 0 <= k < j ==> v.Peek(p + k) == name[k]
      decreases |name| - j
    {
      j := j + 1;
    }
    var x: int, y: int := v.Peek(p + j), if j < |name| then name[j] else 0;
    d := x - y;
  }

  /** strncmp of the string in entry i with the first |name| bytes of a name. */
  method Strncmp(v: View, i: nat, name: seq<byte>) returns (d: int)
    requires 0 !in name
    ensures d == 0 <==> forall j :: 0 <= j < |name| ==> v.Peek(16 + 40 * i + j) == name[j]
  {
    var p, j := 16 + 40 * i, 0;
    while j < |name| && v.Peek(p + j) != 0 && v.Peek(p + j) == name[j]
      invariant j <= |name| && forall k :: 0 <= k < j ==> v.Peek(p + k) == name[k]
      decreases |name| - j
    {
      j := j + 1;
    }
    d := 0;
    if j < |name| {
      var x: int, y: int := v.Peek(p + j), name[j];
      d := x - y;
    }
  }

  datatype Fetched = NoSuchProgram | BadImage | Image(bytes: seq<byte>)

  class Reader {
    var pak: Option<View>

    ghost predicate Valid()
      reads this
    {
      pak.Some? ==> pak.value.Valid()
    }

    constructor ()
      ensures pak == None
    {
      pak := None;
    }

    /** pak_init: keep the archive if it is there and its header is sound. */
    method Init(base: nat, mem: seq<byte>, after: nat -> byte)
      requires pak == None
      modifies this
      ensures pak == if Accepted(base, mem) then Some(View(mem, after)) else None
      ensures Valid()
    {
      if base == 0 || |mem| < 16 { return; }
      var d := Memcmp(mem, MAGIC, 8);
      if d != 0 { return; }
      var count := LE(mem, 8, 4);
      if count > 256 || 16 + count * 40 > |mem| { return; }
      pak := Some(View(mem, after));
    }

    /** pak_find: the first entry of that name. */
    method Find(name: seq<byte>) returns (e: Option<nat>)
      requires Valid() && 0 !in name
      ensures e.Some? ==> pak.Some? && pak.value.FirstNamed(e.value, name)
      ensures e.None? && pak.Some? ==> pak.value.Lacks(name)
    {
      hide LE, View.Named;
      if pak.None? { return None; }
      var v := pak.value;
      for i := 0 to v.Count()
        invariant forall k: nat :: k < i ==> !v.Named(k, name)
      {
        var d := Strcmp(v, i, name);
        if d == 0 { return Some(i); }
      }
      e := None;
    }

    /** proc_has: is there a program of this name, which need not be terminated? It agrees with
        pak_find on every name of 1 to 23 bytes and says no to all others. */
    method Has(name: seq<byte>) returns (r: bool)
      requires Valid() && 0 !in name
      ensures r <==> pak.Some? && 0 < |name| < 24 && !pak.value.Lacks(name)
    {
      hide LE;
      if pak.None? || |name| == 0 || |name| >= 24 { return false; }
      var v := pak.value;
      for i := 0 to v.Count()
        invariant forall k: nat :: k < i ==> !v.Named(k, name)
      {
        var d := Strncmp(v, i, name);
        if d == 0 && v.Peek(16 + 40 * i + |name|) == 0 {
          assert v.Named(i, name);
          return true;
        }
      }
      r := false;
    }

    /** proc_exec, up to elf_run: find the program and check that its bytes are there. */
    method Fetch(name: seq<byte>) returns (f: Fetched)
      requires Valid() && 0 !in name
      ensures f.NoSuchProgram? <==> pak.None? || pak.value.Lacks(name)
      ensures !f.NoSuchProgram? ==> exists i ::
                && pak.value.FirstNamed(i, name)
                && var off, size := pak.value.Offset(i), pak.value.Size(i);
                   f == if off + size <= |pak.value.mem| then Image(pak.value.mem[off..off + size]) else BadImage
    {
      hide LE, View.Named;
      var e := Find(name);
      if e.None? { return NoSuchProgram; }
      var v := pak.value;
      var off, size := v.Offset(e.value), v.Size(e.value);
      if off <= |v.mem| && size <= |v.mem| - off {
        f := Image(v.mem[off..off + size]);
      } else {
        f := BadImage;
      }
      assert v.FirstNamed(e.value, name);
    }
  }

  // --------------------------------------------------------------- both sides

  lemma AtSub(buf: seq<byte>, at: nat, x: seq<byte>, from: nat, n: nat)
    requires At(buf, at, x) && from + n <= |x|
    ensures At(buf, at + from, x[from..from + n])
  {
    var y := x[from..from + n];
    forall k | 0 <= k < n ensures buf[at + from + k] == y[k] {
      assert buf[at..at + |x|][from + k] == x[from + k];
    }
    assert buf[at + from..at + from + n] == y;
  }

  lemma NumberAt(buf: seq<byte>, at: nat, v: nat, n: nat)
    requires At(buf, at, Enc(v, n)) && v < Pow256(n)
    ensures at + n <= |buf| && LE(buf, at, n) == v
  {
    EncRead(buf, at, v, n);
  }

  lemma Powers()
    ensures Pow256(8) == U64 && Pow256(4) == 0x1_0000_0000
  {
    assert Pow256(4) == 0x1_0000_0000;
  }

  /** The header of an archive: accepted exactly when it has at most 256 programs. */
  lemma HeaderRead(buf: seq<byte>, after: nat -> byte, files: seq<File>, base: nat)
    requires Archive(buf, files) && |files| < 0x1_0000_0000
    ensures 16 + 40 * |files| <= |buf| && LE(buf, 8, 4) == |files|
    ensures base != 0 ==> (Accepted(base, buf) <==> |files| <= 256)
    ensures View(buf, after).Valid() && View(buf, after).Count() == |files|
  {
    hide Off, Entry;
    Powers();
    Ascending(files, 0, |files|);
    OffFirst(files);
    AtSub(buf, 0, HeadBytes(|files|), 0, 8);
    AtSub(buf, 0, HeadBytes(|files|), 8, 4);
    NumberAt(buf, 8, |files|, 4);
  }

  /** A directory entry, wherever it stands. */
  lemma EntryThere(buf: seq<byte>, at: nat, name: seq<byte>, off: nat, size: nat)
    requires |name| <= 23 && 0 !in name && off < U64 && size < U64 && At(buf, at, EntryBytes(name, off, size))
    ensures at + 40 <= |buf| && Text(buf[at..at + 24]) == name && buf[at..at + 24][23] == 0
    ensures LE(buf, at + 24, 8) == off && LE(buf, at + 32, 8) == size
  {
    hide Enc, Text, EntryBytes, LE;
    var x := EntryBytes(name, off, size);
    Powers();
    EntryFields(name, off, size);
    AtSub(buf, at, x, 0, 24);
    AtSub(buf, at, x, 24, 8);
    AtSub(buf, at, x, 32, 8);
    NumberAt(buf, at + 24, off, 8);
    NumberAt(buf, at + 32, size, 8);
  }

  /** What the kernel reads in entry i is what was packed. */
  ghost predicate Told1(v: View, files: seq<File>, i: nat)
    requires v.Valid() && i < v.Count() && i < |files|
  {
    && Text(v.Field(i)) == Normal(files[i].stem) && v.Field(i)[23] == 0
    && v.Offset(i) + v.Size(i) <= |v.mem|
    && v.mem[v.Offset(i)..v.Offset(i) + v.Size(i)] == files[i].data
  }

  lemma ArchiveEntry(buf: seq<byte>, files: seq<File>, i: nat)
    requires Archive(buf, files) && i < |files|
    ensures |buf| == Off(files, |files|) && At(buf, Off(files, i), files[i].data)
    ensures At(buf, 16 + 40 * i, EntryBytes(Normal(files[i].stem), Off(files, i), |files[i].data|))
  {
    assert At(buf, 16 + 40 * i, Entry(files, i));
  }

  lemma ToldFrom(v: View, files: seq<File>, i: nat, off: nat)
    requires v.Valid() && i < v.Count() && i < |files| && At(v.mem, off, files[i].data)
    requires 16 + 40 * i + 40 <= |v.mem| && v.mem[16 + 40 * i..16 + 40 * i + 24][23] == 0
    requires Text(v.mem[16 + 40 * i..16 + 40 * i + 24]) == Normal(files[i].stem)
    requires LE(v.mem, 16 + 40 * i + 24, 8) == off && LE(v.mem, 16 + 40 * i + 32, 8) == |files[i].data|
    ensures Told1(v, files, i)
  {
    hide LE, Text, Normal;
  }

  lemma EntryRead(buf: seq<byte>, after: nat -> byte, files: seq<File>, i: nat)
    requires Archive(buf, files) && i < |files| < 0x1_0000_0000 && |buf| < U64 && Ascii(files[i].stem)
    ensures View(buf, after).Valid() && View(buf, after).Count() == |files| && Told1(View(buf, after), files, i)
  {
    hide Archive, Accepted, Off, Text, Normal, LE, EntryBytes, Told1, At;
    HeaderRead(buf, after, files, 1);
    NormalAscii(files[i].stem);
    BlobsApart(files, i, |files|);
    ArchiveEntry(buf, files, i);
    EntryThere(buf, 16 + 40 * i, Normal(files[i].stem), Off(files, i), |files[i].data|);
    ToldFrom(View(buf, after), files, i, Off(files, i));
  }

  lemma EntryFields(name: seq<byte>, off: nat, size: nat)
    requires |name| <= 23 && 0 !in name
    ensures var x := EntryBytes(name, off, size);
            Text(x[0..24]) == name && x[0..24][23] == 0 && x[24..32] == Enc(off, 8) && x[32..40] == Enc(size, 8)
  {
    hide Enc, Text;
    var x := EntryBytes(name, off, size);
    assert x[0..24] == name + Zeros(24 - |name|);
    assert x[0..24][..|name|] == name;
    TextIs(x[0..24], name);
  }

  /** File i is the first whose name normalises to `name`. */
  predicate FirstFile(files: seq<File>, i: nat, name: seq<byte>) {
    i < |files| && Normal(files[i].stem) == name && forall k :: 0 <= k < i ==> Normal(files[k].stem) != name
  }

  /** A name that belongs to any file has a first one. */
  lemma {:induction false} FirstThere(files: seq<File>, name: seq<byte>)
    ensures || (exists i: nat :: FirstFile(files, i, name))
            || forall i :: 0 <= i < |files| ==> Normal(files[i].stem) != name
  {
    if files != [] {
      var n := |files| - 1;
      FirstThere(files[..n], name);
      if i: nat :| FirstFile(files[..n], i, name) {
        assert FirstFile(files, i, name);
      } else {
        assert forall i :: 0 <= i < n ==> Normal(files[..n][i].stem) == Normal(files[i].stem);
        if Normal(files[n].stem) == name { assert FirstFile(files, n, name); }
      }
    }
  }

  /** The whole trip: whatever files are packed, once the kernel has accepted the archive a
      name fetches exactly the bytes of the first file it belongs to (of its only file, when
      the names are distinct), no program if it belongs to none, and proc_has says yes for
      just the same names. The kernel accepts it exactly up to 256 files. */
  method PackThenFetch(files: seq<File>, base: nat, after: nat -> byte, name: seq<byte>)
    returns (accepted: bool, f: Fetched, has: bool)
    requires files != [] && |files| < 0x1_0000_0000 && base != 0 && Off(files, |files|) < U64
    requires 0 !in name && forall i {:trigger files[i]} :: 0 <= i < |files| ==> Ascii(files[i].stem)
    ensures accepted <==> |files| <= 256
    ensures accepted ==> forall i: nat :: FirstFile(files, i, name) ==> f == Image(files[i].data)
    ensures accepted ==> (f == NoSuchProgram <==> forall i :: 0 <= i < |files| ==> Normal(files[i].stem) != name)
    ensures accepted && name != [] ==> (has <==> f != NoSuchProgram)
  {
    hide Archive, Accepted, Off, Normal, Tells, FirstFile, View.Lacks, View.FirstNamed;
    var made := Pack(files);
    var buf := made.value[..];
    HeaderRead(buf, after, files, base);
    AllRead(buf, after, files);
    var r := new Reader();
    r.Init(base, buf, after);
    accepted := r.pak.Some?;
    if !accepted { f, has := NoSuchProgram, false; return; }
    f := r.Fetch(name);
    FetchedIs(View(buf, after), files, name, f);
    has := r.Has(name);
  }

  /** What is fetched from a view that shows these files. */
  lemma FetchedIs(v: View, files: seq<File>, name: seq<byte>, f: Fetched)
    requires Tells(v, files) && 0 !in name && (f.NoSuchProgram? <==> v.Lacks(name))
    requires !f.NoSuchProgram? ==> exists i ::
               && v.FirstNamed(i, name)
               && var off, size := v.Offset(i), v.Size(i);
                  f == if off + size <= |v.mem| then Image(v.mem[off..off + size]) else BadImage
    ensures forall i: nat :: FirstFile(files, i, name) ==> i < |files| && f == Image(files[i].data)
    ensures f == NoSuchProgram <==> forall i :: 0 <= i < |files| ==> Normal(files[i].stem) != name
    ensures |name| >= 24 ==> v.Lacks(name)
  {
    hide Normal, View.Lacks;
    Told(v, files, name);
    forall i: nat | FirstFile(files, i, name) ensures f == Image(files[i].data) {
      assert Told1(v, files, i);
    }
  }

  /** The view shows these files. */
  ghost predicate Tells(v: View, files: seq<File>) {
    && v.Valid() && v.Count() == |files|
    && forall i :: 0 <= i < |files| ==> Told1(v, files, i)
  }

  lemma ArchiveSize(buf: seq<byte>, files: seq<File>)
    requires Archive(buf, files)
    ensures |buf| == Off(files, |files|)
  {
  }

  lemma AllRead(buf: seq<byte>, after: nat -> byte, files: seq<File>)
    requires Archive(buf, files) && |files| < 0x1_0000_0000 && Off(files, |files|) < U64
    requires forall i {:trigger files[i]} :: 0 <= i < |files| ==> Ascii(files[i].stem)
    ensures Tells(View(buf, after), files)
  {
    hide Archive, Told1;
    HeaderRead(buf, after, files, 1);
    ArchiveSize(buf, files);
    var v := View(buf, after);
    forall i | 0 <= i < |files| ensures Told1(v, files, i) {
      EntryRead(buf, after, files, i);
    }
  }

  lemma Told(v: View, files: seq<File>, name: seq<byte>)
    requires Tells(v, files) && 0 !in name
    ensures forall i: nat :: i < |files| ==> (v.Named(i, name) <==> Normal(files[i].stem) == name)
    ensures v.Lacks(name) <==> forall i :: 0 <= i < |files| ==> Normal(files[i].stem) != name
    ensures forall i: nat, j: nat :: v.FirstNamed(i, name) && FirstFile(files, j, name) ==> i == j
    ensures |name| >= 24 ==> v.Lacks(name)
  {
    hide LE, Text, View.Named, View.Field, View.Count, Normal;
    forall i: nat | i < |files| ensures v.Named(i, name) <==> Normal(files[i].stem) == name {
      assert Told1(v, files, i);
      PaddedName(v, i, name);
    }
  }
}
