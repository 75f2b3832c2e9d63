/** Small programs on which elf_run falls short of the ideal loader. */
module ElfExamples {
  import opened Wrappers
  import opened Bytes
  import opened PageTable
  import opened Paging
  import opened UserSpace
  import opened Elf
  import opened Proc
  import opened ExecImage
  import opened WordFiles

  /** An executable of two one-byte segments: a readable one at the bottom of the window, and
      one 0x800 bytes further on, in the same page, with given flags. */
  function Dword(flags: nat, i: nat): (w: nat)
    ensures flags < 8 ==> w < 0x1_0000_0000
  {
    match i
    case 0 => 0x464C457F case 1 => 0x0001_0102 case 4 => 0x003E_0002 case 5 => 1 case 7 => 0x7000
    case 8 => 64 case 13 => 0x0038_0040 case 14 => 2
    case 16 => 1 case 17 => 4 case 21 => 0x7000 case 24 => 1 case 26 => 1
    case 30 => 1 case 31 => flags case 34 => 0x800 case 35 => 0x7000 case 38 => 1 case 40 => 1
    case _ => 0
  }

  function TwoWords(flags: nat): nat -> nat { (i: nat) => Dword(flags, i) }

  function Two(flags: nat): (file: seq<byte>)
    ensures |file| == 176
  {
    FileOf(44, TwoWords(flags))
  }

  lemma TwoHeader(flags: nat)
    requires flags < 8
    ensures HeaderOk(Two(flags)) && PhNum(Two(flags)) == 2 && PhOff(Two(flags)) == 64
  {
    hide LE, FileOf;
    var w := TwoWords(flags);
    FirstBytes(44, w);
    assert Two(flags)[..7] == IDENT;
    ReadHalf(44, w, 4);
    ReadLong(44, w, 6);
    ReadLong(44, w, 8);
    ReadHalf(44, w, 13);
    ReadHalf(44, w, 14);
  }

  lemma FirstPhdr(flags: nat)
    ensures PhdrOf(TwoWords(flags), 16) == Phdr(1, 4, 0, USER_BASE, 1, 1)
  {
  }

  lemma SecondPhdr(flags: nat)
    ensures PhdrOf(TwoWords(flags), 30) == Phdr(1, flags, 0, USER_BASE + 0x800, 1, 1)
  {
  }

  lemma TwoHeaders(flags: nat)
    requires flags < 8
    ensures HeaderOk(Two(flags)) && PhNum(Two(flags)) == 2
    ensures Ph(Two(flags), 0) == Phdr(1, 4, 0, USER_BASE, 1, 1)
    ensures Ph(Two(flags), 1) == Phdr(1, flags, 0, USER_BASE + 0x800, 1, 1)
  {
    hide HeaderOk, PhdrAt, LE, Dword, PhdrOf;
    TwoHeader(flags);
    FirstPhdr(flags);
    SecondPhdr(flags);
    PhdrRead(Two(flags), 44, TwoWords(flags), 16, 64);
    PhdrRead(Two(flags), 44, TwoWords(flags), 30, 120);
  }

  /** Two read-only segments in one page: the program is accepted, but no loading can be
      faithful to it, since the second segment's page replaces the first's. */
  lemma SharedPageLost(nx: bool)
    ensures Acceptable(Two(4)) && !Agree(Two(4), nx)
  {
    hide HeaderOk, Ph;
    var f := Two(4);
    TwoHeaders(4);
    var v := USER_BASE / 4096;
    assert Ph(f, 0).Covers(v) && Ph(f, 1).Covers(v);
    FirstBytes(44, TwoWords(4));
    assert SegView(f, Ph(f, 0), nx, v).bytes[0] == SegByte(f, Ph(f, 0), v * 4096) == 0x7F;
    assert SegView(f, Ph(f, 1), nx, v).bytes[0] == SegByte(f, Ph(f, 1), v * 4096) == 0;
  }

  /** A second segment with flags 5, as linkers give text: its page can be run and not written.
      With flags 6, as they give data: it can be written and not run. */
  lemma TextAndData()
    ensures SecondPage(5, false, true) && SecondPage(6, true, false)
  {
    hide SecondPage;
    SecondsPage(5);
    SecondsPage(6);
  }

  /** With these flags the program is accepted, and the shared page can be written, or run. */
  ghost predicate SecondPage(flags: nat, w: bool, x: bool) {
    && Acceptable(Two(flags)) && PhNum(Two(flags)) == 2
    && var u := ImageAt(Two(flags), 2, true, USER_BASE / 4096, None);
       u.Some? && u.value.w == w && u.value.x == x
  }

  lemma SecondsPage(flags: nat)
    requires flags < 8 && flags % 4 != 3
    ensures SecondPage(flags, flags / 2 % 2 == 1, flags % 2 == 1)
  {
    hide HeaderOk, Ph, PhNum, SegPage, Two;
    TwoHeaders(flags);
    var f := Two(flags);
    assert Ph(f, 1).Covers(USER_BASE / 4096) && Ph(f, 0).Loads();
  }

  /** A second segment that is writable and executable: the program is refused at that
      segment, after the first one's page has been opened to ring 3. */
  lemma RefusedAfterOpening()
    ensures HeaderOk(Two(7)) && PhNum(Two(7)) == 2 && !Acceptable(Two(7))
    ensures SegOk(|Two(7)|, Ph(Two(7), 0)) && !SegOk(|Two(7)|, Ph(Two(7), 1))
    ensures Loaded(Two(7), 1, USER_BASE / 4096)
  {
    hide HeaderOk, Ph;
    TwoHeaders(7);
    assert Ph(Two(7), 0).Covers(USER_BASE / 4096);
  }

  /** What a refusal leaves of the window, given what it adds: it is as before exactly when
      every page of the headers before the bad one was open already; from an empty window,
      exactly when none of those headers loads anything. */
  lemma NothingLeftIff(s0: Space, s: Space, file: seq<byte>, done: nat)
    requires HeaderOk(file) && done <= PhNum(file)
    requires forall i :: 0 <= i < done && Ph(file, i).Loads() ==> SegOk(|file|, Ph(file, i))
    requires forall v :: 0 <= v < PAGES ==> (UserPage(s, v) <==> UserPage(s0, v) || Loaded(file, done, v))
    ensures (forall v :: 0 <= v < PAGES ==> (UserPage(s, v) <==> UserPage(s0, v))) <==>
              (forall v :: 0 <= v < PAGES && Loaded(file, done, v) ==> UserPage(s0, v))
    ensures (forall v :: 0 <= v < PAGES ==> !UserPage(s0, v)) ==>
              ((forall v :: 0 <= v < PAGES ==> !UserPage(s, v)) <==> forall i :: 0 <= i < done ==> !Ph(file, i).Loads())
  {
    hide HeaderOk, Ph, UserPage;
    if i :| 0 <= i < done && Ph(file, i).Loads() {
      var v := Ph(file, i).First();
      SegSpan(|file|, Ph(file, i));
      assert Ph(file, i).Covers(v) && Loaded(file, done, v);
    }
  }
}
