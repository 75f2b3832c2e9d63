/** The xHCI event ring (src/kernel/usb.c): written by the controller, read by the
    driver's poll, with nothing between them but the cycle bit and the dequeue pointer. */
module XhciEvents {
  import opened Arithmetic
  import opened Wrappers
  import opened XhciRing

  const SIZE: nat := 256                        // RING_TRBS

  /** An event: its three words, cycle bit cleared. */
  type Event = Request

  function Code(e: Event): nat { e.s / 0x100_0000 % 256 }
  function SlotId(e: Event): nat { e.ctl / 0x100_0000 % 256 }
  function Dci(e: Event): nat { e.ctl / 0x1_0000 % 32 }

  /** Event words as section 6.4.2 of the xHCI specification lays them out: the completion code
      in the top byte of the second word; in the third the slot in the top byte, the endpoint
      below it, and the type from bit 10 on. */
  lemma EventWords(p: nat, code: nat, length: nat, slot: nat, dci: nat, kind: nat, low: nat)
    requires code < 256 && length < 0x100_0000 && slot < 256 && dci < 32 && kind < 64 && low < 1024
    ensures var e := Request(p, code * 0x100_0000 + length, slot * 0x100_0000 + dci * 0x1_0000 + kind * 1024 + low);
            Code(e) == code && SlotId(e) == slot && Dci(e) == dci && Type(e.ctl) == kind
  {
    var ctl := slot * 0x100_0000 + dci * 0x1_0000 + kind * 1024 + low;
    Unique(code * 0x100_0000 + length, 0x100_0000, code, length);
    Unique(ctl, 0x100_0000, slot, dci * 0x1_0000 + kind * 1024 + low);
    Unique(ctl, 0x1_0000, slot * 256 + dci, kind * 1024 + low);
    Unique(slot * 256 + dci, 32, slot * 8, dci);
    Unique(ctl, 1024, slot * 16384 + dci * 64 + kind, low);
    Unique(slot * 16384 + dci * 64 + kind, 64, slot * 256 + dci, kind);
  }

  // ------------------------------------------------------------ handle_event

  datatype Awaits = Nothing | Command | Transfer

  /** The one outstanding waiter: what it waits for and what it has been told. */
  datatype Waiter = Waiter(awaits: Awaits, p: nat, slot: nat, dci: nat, done: bool, cc: nat, slotOut: nat)

  /** Is e the completion this waiter is for? Transfer events of an armed keyboard pipe
      belong to the keyboard instead. */
  predicate Completes(w: Waiter, kbds: set<(nat, nat)>, e: Event) {
    || (Type(e.ctl) == 33 && w.awaits == Command && e.p == w.p)
    || (Type(e.ctl) == 32 && w.awaits == Transfer && SlotId(e) == w.slot && Dci(e) == w.dci
       && (SlotId(e), Dci(e)) !in kbds)
  }

  /** What a completion tells: the code, and for a command the slot. */
  predicate Told(w: Waiter, w': Waiter, e: Event) {
    w'.cc == Code(e) && (w.awaits == Command ==> w'.slotOut == SlotId(e))
  }

  /** handle_event, as far as the waiter goes. */
  function Handle(w: Waiter, kbds: set<(nat, nat)>, e: Event): Waiter {
    if Type(e.ctl) == 33 then
      if w.awaits == Command && e.p == w.p then w.(cc := Code(e), slotOut := SlotId(e), done := true) else w
    else if Type(e.ctl) == 32 then
      if (SlotId(e), Dci(e)) in kbds then w
      else if w.awaits == Transfer && SlotId(e) == w.slot && Dci(e) == w.dci then w.(cc := Code(e), done := true)
      else w
    else w
  }

  function HandleAll(w: Waiter, kbds: set<(nat, nat)>, es: seq<Event>): Waiter
    decreases |es|
  {
    if es == [] then w else Handle(HandleAll(w, kbds, es[..|es| - 1]), kbds, es[|es| - 1])
  }

  /** After a run of events the waiter is done exactly when one of them was its
      completion (or it was done before), and it then reports the last one's code. */
  lemma {:induction false} HandledAll(w: Waiter, kbds: set<(nat, nat)>, es: seq<Event>)
    ensures var w' := HandleAll(w, kbds, es);
            && w'.awaits == w.awaits && w'.p == w.p && w'.slot == w.slot && w'.dci == w.dci
            && (w'.done <==> w.done || exists k :: 0 <= k < |es| && Completes(w, kbds, es[k]))
            && ((exists k :: 0 <= k < |es| && Completes(w, kbds, es[k])) ==>
                  exists k :: 0 <= k < |es| && Completes(w, kbds, es[k]) && Told(w, w', es[k])
                              && forall j :: k < j < |es| ==> !Completes(w, kbds, es[j]))
            && ((forall k :: 0 <= k < |es| ==> !Completes(w, kbds, es[k])) ==> w' == w)
    decreases |es|
  {
    if es != [] {
      var n := |es| - 1;
      HandledAll(w, kbds, es[..n]);
      assert Completes(HandleAll(w, kbds, es[..n]), kbds, es[n]) == Completes(w, kbds, es[n]);
      if !Completes(w, kbds, es[n]) && exists k :: 0 <= k < n && Completes(w, kbds, es[..n][k]) {
        var k :| 0 <= k < n && Completes(w, kbds, es[..n][k]) && Told(w, HandleAll(w, kbds, es[..n]), es[..n][k])
                 && forall j :: k < j < n ==> !Completes(w, kbds, es[..n][j]);
        assert Completes(w, kbds, es[k]);
        forall j | k < j < |es| ensures !Completes(w, kbds, es[j]) {
          if j < n { assert es[..n][j] == es[j]; }
        }
      } else if Completes(w, kbds, es[n]) {
      } else {
        forall k | 0 <= k < |es| ensures !Completes(w, kbds, es[k]) {
          if k < n { assert es[..n][k] == es[k]; }
        }
      }
    }
  }

  lemma HandleNone(w: Waiter, kbds: set<(nat, nat)>, es: seq<Event>, from: nat)
    requires from <= |es|
    ensures HandleAll(w, kbds, es[from..from]) == w
  {
  }

  lemma HandleOne(w: Waiter, kbds: set<(nat, nat)>, es: seq<Event>, from: nat, upto: nat)
    requires from < upto <= |es|
    ensures HandleAll(w, kbds, es[from..upto]) == Handle(HandleAll(w, kbds, es[from..upto - 1]), kbds, es[upto - 1])
  {
    var run := es[from..upto];
    assert run[..|run| - 1] == es[from..upto - 1];
  }

  lemma {:induction false} HandleJoins(w: Waiter, kbds: set<(nat, nat)>, es: seq<Event>, from: nat, mid: nat, upto: nat)
    requires from <= mid <= upto <= |es|
    ensures HandleAll(w, kbds, es[from..upto]) == HandleAll(HandleAll(w, kbds, es[from..mid]), kbds, es[mid..upto])
    decreases upto - mid
  {
    if mid == upto {
      HandleNone(HandleAll(w, kbds, es[from..mid]), kbds, es, mid);
    } else {
      HandleJoins(w, kbds, es, from, mid, upto - 1);
      HandleOne(w, kbds, es, from, upto);
      HandleOne(HandleAll(w, kbds, es[from..mid]), kbds, es, mid, upto);
    }
  }

  /** Event k is the last completion in a run, and what the waiter has been told. */
  ghost predicate LastTold(w: Waiter, w': Waiter, kbds: set<(nat, nat)>, es: seq<Event>, from: nat, k: int, upto: nat)
    requires upto <= |es|
  {
    && from <= k < upto && Completes(w, kbds, es[k]) && Told(w, w', es[k])
    && forall j :: k < j < upto ==> !Completes(w, kbds, es[j])
  }

  /** HandledAll, in terms of a run inside the history. */
  lemma Runs(w: Waiter, kbds: set<(nat, nat)>, es: seq<Event>, from: nat, upto: nat)
    requires from <= upto <= |es| && !w.done
    ensures var w' := HandleAll(w, kbds, es[from..upto]);
            && (w'.done <==> exists k :: from <= k < upto && Completes(w, kbds, es[k]))
            && (w'.done ==> exists k :: LastTold(w, w', kbds, es, from, k, upto))
  {
    var run := es[from..upto];
    HandledAll(w, kbds, run);
    var w' := HandleAll(w, kbds, run);
    if w'.done {
      var k :| 0 <= k < |run| && Completes(w, kbds, run[k]) && Told(w, w', run[k])
               && forall j :: k < j < |run| ==> !Completes(w, kbds, run[j]);
      forall j | from + k < j < upto ensures !Completes(w, kbds, es[j]) {
        assert run[j - from] == es[j];
      }
      assert run[k] == es[from + k] && LastTold(w, w', kbds, es, from, from + k, upto);
    } else {
      forall k | from <= k < upto ensures !Completes(w, kbds, es[k]) {
        assert run[k - from] == es[k];
      }
    }
  }

  // ---------------------------------------------------------- the ring memory

  /** Slot i, given all events written: this lap's below the controller's index, the
      previous lap's above it, zero memory before the first lap. */
  ghost predicate EventSlot(t: seq<Trb>, written: seq<Event>, lap: nat, at: nat, i: nat)
    requires |t| == SIZE && i < SIZE && at < SIZE && |written| == SIZE * lap + at
  {
    if i < at then t[i] == Written(written[SIZE * lap + i], LapBit(lap))
    else if lap > 0 then t[i] == Written(written[SIZE * (lap - 1) + i], LapBit(lap - 1))
    else t[i].c == 0
  }

  ghost predicate EventsOk(t: seq<Trb>, written: seq<Event>, lap: nat, at: nat) {
    && |t| == SIZE && at < SIZE && |written| == SIZE * lap + at
    && (forall i {:trigger written[i]} :: 0 <= i < |written| ==> written[i].ctl % 2 == 0)
    && (forall i {:trigger t[i]} :: 0 <= i < SIZE ==> EventSlot(t, written, lap, at, i))
  }

  /** The driver has handled `handled` events and has told the controller of `acked`. */
  ghost predicate PollOk(written: nat, handled: nat, acked: nat, rlap: nat, deq: nat, cyc: nat) {
    && deq < SIZE && handled == SIZE * rlap + deq && cyc == LapBit(rlap)
    && acked <= handled <= written < acked + SIZE
  }

  /** What the driver finds at its dequeue index: the next event, or a cycle bit that
      says there is none. */
  lemma NextEvent(t: seq<Trb>, written: seq<Event>, lap: nat, at: nat, handled: nat, acked: nat,
                  rlap: nat, deq: nat, cyc: nat)
    requires EventsOk(t, written, lap, at) && PollOk(|written|, handled, acked, rlap, deq, cyc)
    ensures Cycle(t[deq].c) == cyc <==> handled < |written|
    ensures handled < |written| ==> Taken(t[deq]) == written[handled]
  {
    assert rlap == lap || rlap == lap - 1;
    assert LapBit(lap - 1) != LapBit(lap);
    assert EventSlot(t, written, lap, at, deq);
    if deq < at {
      WordBits(written[SIZE * lap + deq].ctl, LapBit(lap));
    } else if lap > 0 {
      WordBits(written[SIZE * (lap - 1) + deq].ctl, LapBit(lap - 1));
    }
  }

  /** Writing the next event keeps the ring memory right, on the same lap... */
  lemma WriteInLap(t: seq<Trb>, written: seq<Event>, lap: nat, at: nat, e: Event)
    requires EventsOk(t, written, lap, at) && e.ctl % 2 == 0 && at + 1 < SIZE
    ensures EventsOk(t[at := Written(e, LapBit(lap))], written + [e], lap, at + 1)
  {
    var t', all, next := t[at := Written(e, LapBit(lap))], written + [e], at + 1;
    forall i | 0 <= i < SIZE ensures EventSlot(t', all, lap, next, i) {
      assert EventSlot(t, written, lap, at, i);
    }
  }

  /** ... and on to the next. */
  lemma WriteWraps(t: seq<Trb>, written: seq<Event>, lap: nat, at: nat, e: Event)
    requires EventsOk(t, written, lap, at) && e.ctl % 2 == 0 && at + 1 == SIZE
    ensures EventsOk(t[at := Written(e, LapBit(lap))], written + [e], lap + 1, 0)
  {
    var t', all, next := t[at := Written(e, LapBit(lap))], written + [e], lap + 1;
    forall i | 0 <= i < SIZE ensures EventSlot(t', all, next, 0, i) {
      assert EventSlot(t, written, lap, at, i);
    }
  }

  /** Not being one slot short of ERDP means there is room. */
  lemma NotFull(written: nat, lap: nat, at: nat, acked: nat, erdp: nat)
    requires at < SIZE && written == SIZE * lap + at && erdp == acked % SIZE && acked <= written < acked + SIZE
    requires (at + 1) % SIZE != erdp
    ensures written + 1 < acked + SIZE
  {
  }

  class EventRing {
    var ev: array<Trb>
    var deq: nat                 // ev_deq, ev_cyc
    var cyc: nat
    var waiter: Waiter
    var kbds: set<(nat, nat)>
    // the controller's side: where it writes, and the ERDP register
    var at: nat
    var bit: nat
    var erdp: nat
    // history: events written, handled, and handled when ERDP was last written
    ghost var written: seq<Event>
    ghost var handled: nat
    ghost var acked: nat
    ghost var lap: nat
    ghost var rlap: nat

    ghost predicate Valid()
      reads this, ev
    {
      && ev.Length == SIZE && bit == LapBit(lap)
      && EventsOk(ev[..], written, lap, at)
      && PollOk(|written|, handled, acked, rlap, deq, cyc)
      && erdp == acked % SIZE
    }

    constructor ()
      ensures Valid() && written == [] && handled == 0 && fresh(ev)
    {
      ev := new Trb[SIZE](_ => Trb(0, 0, 0));
      deq, cyc, at, bit, erdp := 0, 1, 0, 1, 0;
      waiter, kbds := Waiter(Nothing, 0, 0, 0, false, 0, 0), {};
      written, handled, acked, lap, rlap := [], 0, 0, 0, 0;
      new;
      forall i | 0 <= i < SIZE ensures EventSlot(ev[..], written, lap, at, i) {
        assert ev[i] == Trb(0, 0, 0);
      }
    }

    /** The controller reports an event, unless the slot after this one is where ERDP
        points (section 4.9.4 of the xHCI specification); it toggles its cycle bit on each
        lap. */
    method ControllerWrites(e: Event)
      requires Valid() && e.ctl % 2 == 0
      modifies this`at, this`bit, this`written, this`lap, ev
      ensures Valid() && written == if (old(at) + 1) % SIZE == erdp then old(written) else old(written) + [e]
    {
      if (at + 1) % SIZE == erdp { return; }
      NotFull(|written|, lap, at, acked, erdp);
      hide EventsOk;
      Place(e);
    }

    method Place(e: Event)
      requires Valid() && e.ctl % 2 == 0 && |written| + 1 < acked + SIZE
      modifies this`at, this`bit, this`written, this`lap, ev
      ensures Valid() && written == old(written) + [e]
    {
      hide EventsOk;
      AtBound();
      ghost var was := ev[..];
      ev[at] := Trb(e.p, e.s, Word(e.ctl, bit));
      assert ev[..] == was[at := Written(e, bit)];
      if at + 1 == SIZE {
        WriteWraps(was, written, lap, at, e);
        at, bit, lap := 0, 1 - bit, lap + 1;
      } else {
        WriteInLap(was, written, lap, at, e);
        at := at + 1;
      }
      written := written + [e];
    }

    lemma AtBound()
      requires Valid()
      ensures at < SIZE && |written| == SIZE * lap + at
    {
    }

    /** The controller at work for a while. */
    method ControllerRuns()
      requires Valid()
      modifies this`at, this`bit, this`written, this`lap, ev
      ensures Valid() && old(written) <= written
    {
      var steps: nat := *;
      ghost var had := written;
      while steps > 0
        invariant Valid() && had <= written
      {
        var e: Event := *;
        if e.ctl % 2 == 0 {
          ControllerWrites(e);
        }
        steps := steps - 1;
      }
    }

    lemma Looks()
      requires Valid()
      ensures Cycle(ev[deq].c) == cyc <==> handled < |written|
      ensures handled < |written| ==> Taken(ev[deq]) == written[handled]
    {
      NextEvent(ev[..], written, lap, at, handled, acked, rlap, deq, cyc);
    }

    /** poll_events, with the controller writing at any moment, even between the cycle
        check and the reads of the event. Each event is handled once and in order; all
        that was pending when the poll began is handled, because the 512 limit is out of
        reach while ERDP stands still; and the controller is told how far the driver got. */
    method Poll() returns (n: nat)
      requires Valid()
      modifies this`deq, this`cyc, this`waiter, this`erdp, this`acked, this`at, this`bit, this`written,
               this`handled, this`lap, this`rlap, ev
      ensures Valid() && old(written) <= written
      ensures handled == old(handled) + n && n < SIZE
      ensures old(|written|) <= handled <= |written|
      ensures n > 0 ==> acked == handled
      ensures waiter == HandleAll(old(waiter), kbds, written[old(handled)..handled])
    {
      hide Valid, HandleAll;
      Bound();
      ghost var from, w0, all := handled, waiter, written;
      HandleNone(w0, kbds, written, from);
      n := 0;
      while true
        invariant Valid() && all <= written && handled == from + n && n <= 512 && acked == old(acked)
        invariant from <= handled <= |written| && waiter == HandleAll(w0, kbds, written[from..handled])
        decreases 513 - n
      {
        ghost var now := written;
        var more := PollOne();
        assert written[from..from + n] == now[from..from + n];
        if !more { break; }
        HandleOne(w0, kbds, written, from, handled);
        n := n + 1;
        if n > 512 { break; }
      }
      Bound();
      if n > 0 {
        WriteErdp();
      }
    }

    lemma Bound()
      requires Valid()
      ensures acked <= handled <= |written| < acked + SIZE
    {
    }

    /** rw64(ERDP, ...) */
    method WriteErdp()
      requires Valid()
      modifies this`erdp, this`acked
      ensures Valid() && acked == handled
    {
      hide EventsOk;
      erdp, acked := deq, handled;
    }

    /** One round of the loop in poll_events. */
    method PollOne() returns (more: bool)
      requires Valid()
      modifies this`deq, this`cyc, this`waiter, this`at, this`bit, this`written, this`handled, this`lap, this`rlap, ev
      ensures Valid() && old(written) <= written
      ensures more ==> handled == old(handled) + 1 <= |written|
      ensures more ==> waiter == Handle(old(waiter), kbds, written[old(handled)])
      ensures !more ==> handled == old(handled) && waiter == old(waiter) && old(|written|) <= handled <= |written|
    {
      ControllerRuns();
      Looks();
      if Cycle(ev[deq].c) != cyc { return false; }
      ControllerRuns();
      Looks();
      waiter := Handle(waiter, kbds, Taken(ev[deq]));
      Advance();
      more := true;
    }

    method Advance()
      requires Valid() && handled < |written|
      modifies this`deq, this`cyc, this`handled, this`rlap
      ensures Valid() && handled == old(handled) + 1
    {
      deq, handled := deq + 1, handled + 1;
      if deq == SIZE { deq, cyc, rlap := 0, 1 - cyc, rlap + 1; }
    }

    /** wait_done: polls until the armed waiter is told or the timer runs out. It reports
        a code exactly when a completion came by, and then the last one's. */
    method WaitDone() returns (cc: int)
      requires Valid() && !waiter.done
      modifies this`deq, this`cyc, this`waiter, this`erdp, this`acked, this`at, this`bit, this`written,
               this`handled, this`lap, this`rlap, ev
      ensures Valid() && old(written) <= written && old(handled) <= handled <= |written|
      ensures waiter.awaits == Nothing && !waiter.done
      ensures cc == -1 <==> forall k :: old(handled) <= k < handled ==> !Completes(old(waiter), kbds, written[k])
      ensures cc != -1 ==> exists k :: LastTold(old(waiter), waiter, kbds, written, old(handled), k, handled)
                                       && cc == Code(written[k])
    {
      hide Valid, HandleAll, Completes;
      Bound();
      ghost var from, w0, all := handled, waiter, written;
      HandleNone(w0, kbds, written, from);
      var ticks: nat := *;
      while !waiter.done && ticks > 0
        invariant Valid() && all <= written && from <= handled <= |written|
        invariant waiter == HandleAll(w0, kbds, written[from..handled])
      {
        ghost var mid, now, w := handled, written, waiter;
        var n := Poll();
        HandleJoins(w0, kbds, written, from, mid, handled);
        assert written[from..mid] == now[from..mid];
        ticks := ticks - 1;
      }
      HandledAll(w0, kbds, written[from..handled]);
      Runs(w0, kbds, written, from, handled);
      cc := if waiter.done then waiter.cc else -1;
      Arm(Nothing, waiter.p);
    }

    method Arm(awaits: Awaits, p: nat)
      requires Valid()
      modifies this`waiter
      ensures Valid() && waiter == old(waiter).(awaits := awaits, p := p, done := false)
    {
      waiter := waiter.(awaits := awaits, p := p, done := false);
    }

    method ArmTransfer(slot: nat, dci: nat)
      requires Valid()
      modifies this`waiter
      ensures Valid() && waiter == old(waiter).(awaits := Transfer, slot := slot, dci := dci, done := false)
    {
      waiter := waiter.(awaits := Transfer, slot := slot, dci := dci, done := false);
    }

    /** cmd_exec, once the command TRB is in the ring at address trb: the code and the slot
        returned are those the controller gave in a completion event that names that address. */
    method CmdExec(trb: nat) returns (cc: int, slotOut: nat)
      requires Valid()
      modifies this`deq, this`cyc, this`waiter, this`erdp, this`acked, this`at, this`bit, this`written,
               this`handled, this`lap, this`rlap, ev
      ensures Valid() && old(written) <= written && old(handled) <= handled <= |written|
      ensures cc != -1 ==> exists k :: old(handled) <= k < handled && cc == Code(written[k])
                                       && Type(written[k].ctl) == 33 && written[k].p == trb
                                       && slotOut == SlotId(written[k])
                                       && forall j :: k < j < handled ==>
                                            !(Type(written[j].ctl) == 33 && written[j].p == trb)
      ensures !waiter.done
      ensures cc == -1 ==> forall k :: old(handled) <= k < handled ==>
                             !(Type(written[k].ctl) == 33 && written[k].p == trb)
    {
      Arm(Command, trb);
      cc := WaitDone();
      slotOut := waiter.slotOut;
    }
  }
}
