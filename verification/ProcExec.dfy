/** proc_exec: a name, the archive, and the loader together. */
module ProcExec {
  import opened Bytes
  import opened PageTable
  import opened Paging
  import opened UserSpace
  import opened Elf
  import opened Proc
  import opened Pak

  /** -1 for a name that is not in the archive, and then nothing has been touched; 0 for
      every other, however its run or its loading went. A first entry of that name whose bytes
      lie in the archive is loaded, and if that succeeds ring 3 is entered once, on the image
      of exactly these bytes over what it had before. Ring 3 stays confined either way. */
  method Exec(k: Kernel, r: Reader, name: seq<byte>)
    returns (ret: int, ghost code: int, ghost done: nat, ghost reached: nat)
    requires k.Live() && r.Valid() && 0 !in name
    modifies k`runs, k`imgLo, k`imgHi, k.pt`pos, k.pt`up, k.pt.mem`heapAt, k.pt.mem`tables, k.pt.mem`frames
    ensures k.Live() && KernelSame(old(k.pt.Sp()), k.pt.Sp())
    ensures ret == -1 <==> r.pak.None? || r.pak.value.Lacks(name)
    ensures ret == -1 || ret == 0
    ensures ret == -1 ==> code == -1 && Untouched(old(k.pt.Sp()), old(k.pt.mem.frames), old(k.runs), k)
    ensures ret == 0 ==> exists i ::
              && r.pak.value.FirstNamed(i, name)
              && var off, size := r.pak.value.Offset(i), r.pak.value.Size(i);
                 if off + size > |r.pak.value.mem|
                 then code == -1 && Untouched(old(k.pt.Sp()), old(k.pt.mem.frames), old(k.runs), k)
                 else Came(old(k.pt.Sp()), old(k.pt.mem.frames), old(k.runs), k,
                           r.pak.value.mem[off..off + size], code, done, reached)
  {
    hide KernelSame, View.Lacks, View.FirstNamed, Started, Opened, OpenedPart, Acceptable;
    Unchanged(k.pt.Sp());
    code, done, reached := -1, 0, 0;
    var f := r.Fetch(name);
    match f
    case NoSuchProgram => ret := -1;
    case BadImage => ret := 0;
    case Image(bytes) =>
      var c: int;
      c, done, reached := k.ElfRun(bytes);
      code, ret := c, 0;
  }

  ghost predicate Untouched(s0: Space, f0: map<nat, seq<byte>>, was: seq<Entered>, k: Kernel)
    reads k, k.pt, k.pt.mem
  {
    k.pt.Sp() == s0 && k.pt.mem.frames == f0 && k.runs == was
  }

  /** What elf_run of these bytes comes to: the program was entered, or refused, or memory ran
      out; and in the last two cases which of its pages are open. */
  ghost predicate Came(s0: Space, f0: map<nat, seq<byte>>, was: seq<Entered>, k: Kernel, bytes: seq<byte>,
                       code: int, done: nat, reached: nat)
    reads k, k.pt, k.pt.mem
  {
    && (code == 0 || (code == -1 && !Acceptable(bytes)) || (code == -2 && k.pt.mem.Room() == 0))
    && (code == 0 ==> exists e :: k.runs == was + [e] && Started(s0, f0, e, bytes, k.pt.nxOk))
    && (code != 0 ==> k.runs == was)
    && (code == -1 ==> Opened(s0, k.pt.Sp(), bytes, done))
    && (code == -2 ==> OpenedPart(s0, k.pt.Sp(), bytes, done, reached))
  }
}
