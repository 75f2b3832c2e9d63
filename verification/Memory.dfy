/** The kernel heap (src/kernel/kmain.c) and the pages carved from it. */
module Memory {
  import opened Wrappers
  import opened Bytes
  import opened PageTable

  const PAGE := 4096

  function AlignUp(n: nat, a: nat): (r: nat)
    requires a == 4096 || a == 16
    ensures n <= r < n + a && r % a == 0
  {
    if a == 4096 then (n + 4095) / 4096 * 4096 else (n + 15) / 16 * 16
  }

  /** What the caller of kalloc_page uses its zeroed page as. */
  datatype Use = AsTable | AsFrame

  class Heap {
    var heapStart: nat
    var heapAt: nat
    var heapEnd: nat
    /** Contents of the pages handed out so far, by physical address. */
    var tables: map<nat, Table>
    var frames: map<nat, seq<byte>>

    predicate InHeap(p: nat)
      reads this`heapStart, this`heapAt, this`heapEnd
    {
      p % PAGE == 0 && heapStart <= p && p + PAGE <= heapAt && p + PAGE <= heapEnd
    }

    /** Pages handed out are whole, lie below the bump pointer, and are tables or
        frames but never both. */
    ghost predicate Valid()
      reads this
    {
      && 0 < heapStart <= heapAt
      && (forall p :: p in tables ==> InHeap(p))
      && (forall p :: p in frames ==> InHeap(p) && |frames[p]| == PAGE)
      && tables.Keys !! frames.Keys
    }

    /** How many more pages kalloc_page can hand out. */
    function Room(): nat
      reads this`heapAt, this`heapEnd
    {
      if AlignUp(heapAt, PAGE) <= heapEnd then (heapEnd - AlignUp(heapAt, PAGE)) / PAGE else 0
    }

    /** kalloc_init. The firmware never offers the page at address 0. */
    constructor (base: nat, size: nat)
      requires 0 < base
      ensures Valid() && heapStart == heapAt == base && heapEnd == base + size
      ensures tables == map[] && frames == map[]
    {
      heapStart, heapAt, heapEnd := base, base, base + size;
      tables, frames := map[], map[];
    }

    /** kalloc: a block above everything handed out before. The pointer stays aligned
        up even when the block does not fit. */
    method Kalloc(n: nat) returns (r: Option<nat>)
      requires Valid()
      modifies this`heapAt
      ensures Valid() && old(heapAt) <= heapAt
      ensures r.Some? <==> AlignUp(old(heapAt), 16) + n <= heapEnd
      ensures r.Some? ==> r.value == AlignUp(old(heapAt), 16)
      ensures r.Some? ==> old(heapAt) <= r.value && r.value + n == heapAt <= heapEnd && r.value % 16 == 0
      ensures r.None? ==> heapAt == AlignUp(old(heapAt), 16)
      ensures forall p :: p in tables || p in frames ==> r.Some? ==> p + PAGE <= r.value
    {
      heapAt := AlignUp(heapAt, 16);
      if heapAt > heapEnd || n > heapEnd - heapAt {
        return None;
      }
      r := Some(heapAt);
      heapAt := heapAt + n;
    }

    /** kalloc_page: a fresh zeroed page, entered under the use it is put to. It is
        handed out exactly when one is left. */
    method KallocPage(use: Use) returns (r: Option<nat>)
      requires Valid()
      modifies this`heapAt, this`tables, this`frames
      ensures Valid() && old(heapAt) <= heapAt
      ensures r.Some? <==> old(Room()) > 0
      ensures Room() == if r.Some? then old(Room()) - 1 else 0
      ensures r.Some? ==>
                InHeap(r.value) && r.value !in old(tables) && r.value !in old(frames) && old(heapAt) <= r.value
      ensures tables == if r.Some? && use.AsTable? then old(tables)[r.value := ZeroTable()] else old(tables)
      ensures frames == if r.Some? && use.AsFrame? then old(frames)[r.value := Zeros(PAGE)] else old(frames)
    {
      heapAt := AlignUp(heapAt, PAGE);
      if heapAt > heapEnd || PAGE > heapEnd - heapAt {
        return None;
      }
      var p := heapAt;
      heapAt := heapAt + PAGE;
      if use.AsTable? {
        tables := tables[p := ZeroTable()];
      } else {
        frames := frames[p := Zeros(PAGE)];
      }
      r := Some(p);
    }

    /** A store of one 64-bit entry into a table page. */
    method Store(p: nat, i: Index, e: Entry)
      requires Valid() && p in tables
      modifies this`tables
      ensures Valid() && tables == old(tables)[p := old(tables)[p][i := e]] && Room() == old(Room())
    {
      tables := tables[p := tables[p][i := e]];
    }

    /** A one-byte store into frame p. */
    method Poke(p: nat, at: nat, b: byte)
      requires Valid() && p in frames && at < PAGE
      modifies this`frames
      ensures Valid() && frames == old(frames)[p := old(frames)[p][..at] + [b] + old(frames)[p][at + 1..]]
    {
      frames := frames[p := frames[p][..at] + [b] + frames[p][at + 1..]];
    }

    /** memcpy of src into frame p, starting `at` bytes in. */
    method CopyIn(p: nat, at: nat, src: seq<byte>)
      requires Valid() && p in frames && at + |src| <= PAGE
      modifies this`frames
      ensures Valid() && frames.Keys == old(frames.Keys)
      ensures frames == old(frames)[p := old(frames)[p][..at] + src + old(frames)[p][at + |src|..]]
    {
      ghost var was := frames;
      var i := 0;
      while i < |src|
        invariant i <= |src| && Valid() && frames.Keys == was.Keys
        invariant frames == was[p := frames[p]]
        invariant forall k :: 0 <= k < PAGE ==>
                    frames[p][k] == if at <= k < at + i then src[k - at] else was[p][k]
      {
        frames := frames[p := frames[p][at + i := src[i]]];
        i := i + 1;
      }
      assert frames[p] == was[p][..at] + src + was[p][at + |src|..];
    }
  }
}
