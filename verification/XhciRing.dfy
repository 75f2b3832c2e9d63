/** xHCI producer rings (src/kernel/usb.c): transfer and command rings written by the
    driver and read by the controller, which take turns only through the cycle bit. */
module XhciRing {
  import opened Arithmetic
  import opened Wrappers

  const LINK: nat := 255                       // RING_TRBS - 1, the slot of the Link TRB

  /** A transfer request block; c is the control word, bit 0 its cycle bit. */
  datatype Trb = Trb(p: nat, s: nat, c: nat)

  /** A request as the driver means it and as the controller takes it: no cycle bit. */
  datatype Request = Request(p: nat, s: nat, ctl: nat)

  function Cycle(c: nat): nat { c % 2 }
  function Type(c: nat): nat { c / 1024 % 64 }
  predicate Toggles(c: nat) { c / 2 % 2 == 1 }

  const LINK_WORD: nat := 6 * 1024 + 2         // (6u<<10) | 2u

  /** (ctl & ~1u) | cyc */
  function Word(ctl: nat, cyc: nat): nat { ctl / 2 * 2 + cyc }

  function Taken(t: Trb): Request { Request(t.p, t.s, t.c / 2 * 2) }

  /** The cycle bit of each lap over the ring: 1, 0, 1, 0, ... */
  function LapBit(lap: int): nat { if lap % 2 == 0 then 1 else 0 }

  // ------------------------------------------------- the controller's rules

  /** Sections 4.9.2 and 4.11.5.1 of the xHCI specification: a TRB belongs to the
      controller when its cycle bit equals the consumer cycle state; a Link TRB sends it
      to the address it holds and may toggle that state. */
  datatype Look = NotOwned | Follow | Take(r: Request)

  function LookAt(t: seq<Trb>, deq: nat, ccs: nat): Look
    requires deq < |t|
  {
    if Cycle(t[deq].c) != ccs then NotOwned
    else if Type(t[deq].c) == 6 then Follow
    else Take(Taken(t[deq]))
  }

  // ---------------------------------------------- what the ring memory holds

  /** Slot i of the ring, given everything pushed so far: this lap's request below the
      enqueue index, the previous lap's above it, zero memory before the first lap. */
  ghost predicate SlotHolds(t: seq<Trb>, sent: seq<Request>, lap: nat, enq: nat, i: nat)
    requires |t| == 256 && i < LINK && enq <= LINK && |sent| == 255 * lap + enq
  {
    if i < enq then t[i] == Written(sent[255 * lap + i], LapBit(lap))
    else if lap > 0 then t[i] == Written(sent[255 * (lap - 1) + i], LapBit(lap - 1))
    else t[i].c == 0
  }

  function Written(r: Request, bit: nat): Trb { Trb(r.p, r.s, Word(r.ctl, bit)) }

  ghost predicate LinkHolds(t: seq<Trb>, phys: nat, lap: nat)
    requires |t| == 256
  {
    if lap > 0 then t[LINK] == Trb(phys, 0, LINK_WORD + LapBit(lap - 1)) else t[LINK].c == 0
  }

  /** Requests a driver may push: anything but a Link TRB. */
  predicate Plain(r: Request) { Type(r.ctl) != 6 && r.ctl % 2 == 0 }

  /** The control word a slot has before this lap's push into it. */
  ghost predicate OldWord(c: nat, sent: seq<Request>, lap: nat, enq: nat)
    requires enq < LINK && |sent| == 255 * lap + enq
  {
    Cycle(c) != LapBit(lap) && if lap > 0 then c == Word(sent[255 * (lap - 1) + enq].ctl, LapBit(lap - 1)) else c == 0
  }

  /** The ring memory is right; while a push is under way (`half`), the slot at enq may
      already have its address and length but still has its old control word. */
  ghost predicate MemoryOk(t: seq<Trb>, phys: nat, sent: seq<Request>, lap: nat, enq: nat, half: bool) {
    && |t| == 256 && enq <= LINK && |sent| == 255 * lap + enq
    && (forall i {:trigger sent[i]} :: 0 <= i < |sent| ==> Plain(sent[i]))
    && (forall i {:trigger t[i]} :: 0 <= i < LINK && !(half && i == enq) ==> SlotHolds(t, sent, lap, enq, i))
    && LinkHolds(t, phys, lap)
    && (half ==> enq < LINK && OldWord(t[enq].c, sent, lap, enq))
  }

  /** The controller has taken `taken` of the requests, and stands where that leaves it.
      No more than 255 are outstanding, fewer while a push is rewriting a slot. */
  ghost predicate ReaderOk(sent: nat, lap: nat, enq: nat, half: bool, taken: nat, rlap: nat, deq: nat, ccs: nat) {
    && deq <= LINK && rlap <= lap && taken == 255 * rlap + deq && ccs == LapBit(rlap)
    && taken <= sent <= taken + 255 && (half || (enq == 0 && lap > 0) ==> sent < taken + 255)
  }

  /** The same without the bound: the controller has passed `taken` slots that a request was
      written to, on an earlier lap of the driver's or on this one. */
  ghost predicate ReaderAt(sent: nat, lap: nat, taken: nat, rlap: nat, deq: nat, ccs: nat) {
    deq <= LINK && rlap <= lap && taken == 255 * rlap + deq && ccs == LapBit(rlap) && taken <= sent
  }

  /** How many laps `o` outstanding requests are spread over. */
  function Rounds(o: nat): nat { (o + 254) / 255 }

  lemma RoundsIs(laps: nat, enq: nat, deq: nat)
    requires enq <= LINK && deq < LINK && 0 <= 255 * laps + enq - deq
    ensures Rounds(255 * laps + enq - deq) == if deq < enq then laps + 1 else laps
  {
    if deq < enq {
      Unique(255 * laps + enq - deq + 254, 255, laps + 1, enq - deq - 1);
    } else {
      Unique(255 * laps + enq - deq + 254, 255, laps, 254 + enq - deq);
    }
  }

  lemma FewRounds(o: nat)
    requires o <= 255
    ensures Rounds(o) == if o == 0 then 0 else 1
  {
  }

  lemma RoundsFull(more: nat)
    requires more <= 510
    ensures Rounds(255 + more) == if more == 0 then 1 else if more <= 255 then 2 else 3
  {
  }

  lemma SameBit(lap: int, rlap: int)
    ensures LapBit(lap) == LapBit(rlap) <==> (lap - rlap) % 2 == 0
  {
  }

  lemma Laps(sent: nat, lap: nat, enq: nat, half: bool, taken: nat, rlap: nat, deq: nat, ccs: nat)
    requires ReaderOk(sent, lap, enq, half, taken, rlap, deq, ccs) && sent == 255 * lap + enq && enq <= LINK
    ensures rlap == lap || (rlap == lap - 1 && deq >= enq && (half ==> deq > enq))
    ensures LapBit(lap - 1) != LapBit(lap)
  {
  }

  lemma WordBits(ctl: nat, bit: nat)
    requires ctl % 2 == 0 && bit < 2
    ensures Cycle(Word(ctl, bit)) == bit && Word(ctl, bit) / 2 * 2 == ctl && Type(Word(ctl, bit)) == Type(ctl)
  {
    var h, q, r := ctl / 2, ctl / 1024, ctl % 1024;
    assert ctl == h * 2;
    assert r % 2 == 0 && r + bit < 1024;
    Unique(Word(ctl, bit), 2, h, bit);
    Unique(Word(ctl, bit), 1024, q, r + bit);
  }

  /** At a data slot the controller finds the next request, or nothing if there is none:
      never a half-written or an already taken one. */
  lemma DataLook(t: seq<Trb>, phys: nat, sent: seq<Request>, lap: nat, enq: nat, half: bool,
                 taken: nat, rlap: nat, deq: nat, ccs: nat)
    requires MemoryOk(t, phys, sent, lap, enq, half) && ReaderOk(|sent|, lap, enq, half, taken, rlap, deq, ccs)
    requires deq < LINK
    ensures LookAt(t, deq, ccs) == if taken < |sent| then Take(sent[taken]) else NotOwned
  {
    if half && deq == enq {
      TornLook(t, phys, sent, lap, enq, taken, rlap, deq, ccs);
    } else {
      AnyLook(t, phys, sent, lap, enq, half, taken, rlap, deq, ccs);
    }
  }

  /** At the last slot it finds the Link TRB exactly when the driver has gone past it. */
  lemma LinkLook(t: seq<Trb>, phys: nat, sent: seq<Request>, lap: nat, enq: nat, half: bool,
                 taken: nat, rlap: nat, deq: nat, ccs: nat)
    requires MemoryOk(t, phys, sent, lap, enq, half) && ReaderOk(|sent|, lap, enq, half, taken, rlap, deq, ccs)
    requires deq == LINK
    ensures LookAt(t, deq, ccs) == if rlap < lap then Follow else NotOwned
    ensures rlap < lap ==> t[deq].p == phys && Toggles(t[deq].c)
    ensures taken < |sent| ==> rlap < lap
  {
    Laps(|sent|, lap, enq, half, taken, rlap, deq, ccs);
    LinkBits(LapBit(lap - 1));
    assert LinkHolds(t, phys, lap);
  }

  /** What the controller finds however many are outstanding. Its slot holds the newest of the
      requests written there, and with an even number of laps between them its cycle bit says
      that there is nothing: the ring loses 510 requests at a time without a trace. */
  lemma AnyLook(t: seq<Trb>, phys: nat, sent: seq<Request>, lap: nat, enq: nat, half: bool,
                taken: nat, rlap: nat, deq: nat, ccs: nat)
    requires MemoryOk(t, phys, sent, lap, enq, half) && ReaderAt(|sent|, lap, taken, rlap, deq, ccs)
    requires deq < LINK && !(half && deq == enq)
    ensures var n := Rounds(|sent| - taken);
            && (n % 2 == 1 ==> taken + 255 * (n - 1) < |sent|)
            && LookAt(t, deq, ccs) == if n % 2 == 1 then Take(sent[taken + 255 * (n - 1)]) else NotOwned
  {
    hide LapBit, Cycle, Type, Rounds;
    RoundsIs(lap - rlap, enq, deq);
    assert SlotHolds(t, sent, lap, enq, deq);
    if deq < enq {
      SameBit(lap, rlap);
      HeldWord(sent, 255 * lap + deq, lap);
    } else if lap > 0 {
      SameBit(lap - 1, rlap);
      HeldWord(sent, 255 * (lap - 1) + deq, lap - 1);
    } else {
      SameBit(0, rlap);
      ZeroBits();
    }
  }

  /** A request as it stands in a slot, and zero memory. */
  lemma HeldWord(sent: seq<Request>, i: nat, lap: nat)
    requires i < |sent| && Plain(sent[i])
    ensures var w := Written(sent[i], LapBit(lap)); Cycle(w.c) == LapBit(lap) && Type(w.c) != 6 && Taken(w) == sent[i]
  {
    WordBits(sent[i].ctl, LapBit(lap));
  }

  lemma ZeroBits()
    ensures Cycle(0) == 0 && LapBit(0) == 1
  {
  }

  /** The Link TRB likewise, which only an odd number of laps lets through. */
  lemma AnyLink(t: seq<Trb>, phys: nat, sent: seq<Request>, lap: nat, enq: nat, half: bool,
                taken: nat, rlap: nat, deq: nat, ccs: nat)
    requires MemoryOk(t, phys, sent, lap, enq, half) && ReaderAt(|sent|, lap, taken, rlap, deq, ccs) && deq == LINK
    ensures LookAt(t, deq, ccs) == if (lap - rlap) % 2 == 1 then Follow else NotOwned
    ensures (lap - rlap) % 2 == 1 ==> t[deq].p == phys && Toggles(t[deq].c)
  {
    LinkBits(LapBit(lap - 1));
    assert LinkHolds(t, phys, lap);
  }

  /** A slot being rewritten while the controller owns it is read torn: whatever address and
      length are there by then, under the old request's control word. */
  lemma TornLook(t: seq<Trb>, phys: nat, sent: seq<Request>, lap: nat, enq: nat,
                 taken: nat, rlap: nat, deq: nat, ccs: nat)
    requires MemoryOk(t, phys, sent, lap, enq, true) && ReaderAt(|sent|, lap, taken, rlap, deq, ccs) && deq == enq
    ensures var n := Rounds(|sent| - taken);
            && |sent| - taken == 255 * n && (n % 2 == 1 ==> |sent| >= 255)
            && LookAt(t, deq, ccs) == if n % 2 == 1 then Take(Request(t[deq].p, t[deq].s, sent[|sent| - 255].ctl))
                                      else NotOwned
  {
    hide LapBit, Cycle, Type, Rounds;
    RoundsIs(lap - rlap, enq, deq);
    SameBit(lap - 1, rlap);
    assert OldWord(t[enq].c, sent, lap, enq);
    if lap > 0 {
      var i := |sent| - 255;
      assert i == 255 * (lap - 1) + enq && t[deq].c == Word(sent[i].ctl, LapBit(lap - 1));
      HeldWord(sent, i, lap - 1);
      assert Taken(t[deq]) == Request(t[deq].p, t[deq].s, sent[i].ctl);
    } else {
      ZeroBits();
    }
  }

  /** The words of section 6.4 of the xHCI specification: bit 0 the cycle, bits 10 to 15 the
      type; a Link TRB is type 6 with Toggle Cycle in bit 1. */
  lemma TrbWords(ctl: nat)
    ensures Type(ctl) == ctl % 0x1_0000 / 1024
    ensures (Toggles(ctl) <==> ctl % 4 >= 2) && (Cycle(ctl) == 1 <==> ctl % 2 == 1)
    ensures LINK_WORD == 0x1802 && Type(LINK_WORD) == 6 && Toggles(LINK_WORD) && Cycle(LINK_WORD) == 0
    ensures LapBit(0) == 1 && LapBit(1) == 0
  {
    TypeBits(ctl);
  }

  lemma TypeBits(ctl: nat)
    ensures Type(ctl) == ctl % 0x1_0000 / 1024
  {
    var q, r := ctl / 0x1_0000, ctl % 0x1_0000;
    Unique(ctl, 1024, q * 64 + r / 1024, r % 1024);
    Unique(q * 64 + r / 1024, 64, q, r / 1024);
  }

  lemma LinkBits(bit: nat)
    requires bit < 2
    ensures Cycle(LINK_WORD + bit) == bit && Type(LINK_WORD + bit) == 6 && Toggles(LINK_WORD + bit)
  {
  }

  // ------------------------------------------------- pushes without a bound

  /** What ring_push leaves in memory, read off its stores. */
  function PushedMemory(t: seq<Trb>, phys: nat, enq: nat, cyc: nat, p: nat, s: nat, ctl: nat): seq<Trb>
    requires |t| == 256 && enq <= LINK && cyc < 2
  {
    if enq == LINK then t[LINK := Trb(phys, 0, LINK_WORD + cyc)][0 := Trb(p, s, Word(ctl, 1 - cyc))]
    else t[enq := Trb(p, s, Word(ctl, cyc))]
  }

  /** The bound is exact: a push made while 255 requests are outstanding leaves the
      controller, wherever it stands, in front of a slot it does not own, with 256 requests
      unread. */
  lemma OverrunStalls(t: seq<Trb>, phys: nat, sent: seq<Request>, lap: nat, enq: nat,
                      taken: nat, rlap: nat, deq: nat, ccs: nat, p: nat, s: nat, ctl: nat)
    requires MemoryOk(t, phys, sent, lap, enq, false) && ReaderOk(|sent|, lap, enq, false, taken, rlap, deq, ccs)
    requires |sent| == taken + 255
    ensures LookAt(PushedMemory(t, phys, enq, LapBit(lap), p, s, ctl), deq, ccs) == NotOwned
  {
    Laps(|sent|, lap, enq, false, taken, rlap, deq, ccs);
    LinkBits(LapBit(lap));
    assert Cycle(Word(ctl, 1 - ccs)) == 1 - ccs;
  }

  /** The driver's side of a ring. */
  datatype Side = Side(t: seq<Trb>, enq: nat, cyc: nat)

  predicate SideOk(d: Side) { |d.t| == 256 && d.enq <= LINK && d.cyc < 2 }

  function Pushed(d: Side, phys: nat, r: Request): (d': Side)
    requires SideOk(d)
    ensures SideOk(d')
  {
    var t := PushedMemory(d.t, phys, d.enq, d.cyc, r.p, r.s, r.ctl);
    if d.enq == LINK then Side(t, 1, 1 - d.cyc) else Side(t, d.enq + 1, d.cyc)
  }

  /** The ring after ring_init and these pushes. */
  function Ringful(phys: nat, rs: seq<Request>): (d: Side)
    ensures SideOk(d)
  {
    if rs == [] then Side(seq(256, _ => Trb(0, 0, 0)), 0, 1)
    else Pushed(Ringful(phys, rs[..|rs| - 1]), phys, rs[|rs| - 1])
  }

  lemma PushInLap(t: seq<Trb>, phys: nat, sent: seq<Request>, lap: nat, enq: nat, r: Request)
    requires MemoryOk(t, phys, sent, lap, enq, false) && Plain(r) && enq < LINK
    ensures MemoryOk(t[enq := Written(r, LapBit(lap))], phys, sent + [r], lap, enq + 1, false)
  {
    var t', all, next := t[enq := Written(r, LapBit(lap))], sent + [r], enq + 1;
    assert LinkHolds(t, phys, lap) && LinkHolds(t', phys, lap);
    forall i | 0 <= i < LINK ensures SlotHolds(t', all, lap, next, i) {
      assert SlotHolds(t, sent, lap, enq, i);
    }
  }

  lemma LinkInLap(t: seq<Trb>, phys: nat, sent: seq<Request>, lap: nat)
    requires MemoryOk(t, phys, sent, lap, LINK, false)
    ensures MemoryOk(t[LINK := Trb(phys, 0, LINK_WORD + LapBit(lap))], phys, sent, lap + 1, 0, false)
  {
    var t', next := t[LINK := Trb(phys, 0, LINK_WORD + LapBit(lap))], lap + 1;
    forall i | 0 <= i < LINK ensures SlotHolds(t', sent, next, 0, i) {
      assert SlotHolds(t, sent, lap, LINK, i);
    }
  }

  /** Any number of pushes leave the ring memory right: the last 255 requests, in their
      slots. */
  lemma {:induction false} RingfulOk(phys: nat, rs: seq<Request>) returns (lap: nat)
    requires forall i :: 0 <= i < |rs| ==> Plain(rs[i])
    ensures var d := Ringful(phys, rs); MemoryOk(d.t, phys, rs, lap, d.enq, false) && d.cyc == LapBit(lap)
    ensures rs != [] ==> 1 <= Ringful(phys, rs).enq
  {
    hide MemoryOk, LapBit;
    if rs == [] {
      lap := 0;
      NoneWritten(phys);
    } else {
      var front, r := rs[..|rs| - 1], rs[|rs| - 1];
      var d := Ringful(phys, front);
      lap := RingfulOk(phys, front);
      assert rs == front + [r] && Plain(r);
      if d.enq == LINK {
        LinkInLap(d.t, phys, front, lap);
        NextBit(lap);
        lap := lap + 1;
        PushInLap(d.t[LINK := Trb(phys, 0, LINK_WORD + d.cyc)], phys, front, lap, 0, r);
      } else {
        PushInLap(d.t, phys, front, lap, d.enq, r);
      }
    }
  }

  lemma NextBit(lap: nat)
    ensures LapBit(lap + 1) == 1 - LapBit(lap)
  {
  }

  lemma NoneWritten(phys: nat)
    ensures MemoryOk(seq(256, _ => Trb(0, 0, 0)), phys, [], 0, 0, false) && LapBit(0) == 1
  {
    var t: seq<Trb> := seq(256, _ => Trb(0, 0, 0));
    forall i | 0 <= i < LINK ensures SlotHolds(t, [], 0, 0, i) {
      assert t[i] == Trb(0, 0, 0);
    }
  }

  /** A controller that has taken `taken` requests and then lets any number be pushed: with
      up to 255 outstanding it finds the next one; with 256 to 510 nothing; with 511 to 765
      the one 510 later, and so on, every 510 requests lost alike. */
  lemma LeftBehind(phys: nat, rs: seq<Request>, taken: nat)
    requires taken < |rs| && forall i :: 0 <= i < |rs| ==> Plain(rs[i])
    ensures var n := Rounds(|rs| - taken);
            && (n % 2 == 1 ==> taken + 255 * (n - 1) < |rs|)
            && LookAt(Ringful(phys, rs).t, taken % 255, LapBit(taken / 255)) ==
               if n % 2 == 1 then Take(rs[taken + 255 * (n - 1)]) else NotOwned
  {
    hide LapBit;
    var lap := RingfulOk(phys, rs);
    var d := Ringful(phys, rs);
    assert taken / 255 <= lap;
    AnyLook(d.t, phys, rs, lap, d.enq, false, taken, taken / 255, taken % 255, LapBit(taken / 255));
  }

  /** What the controller has got now is what it had, and then requests from..upto of s. */
  ghost predicate Took(got: seq<Request>, had: seq<Request>, s: seq<Request>, from: nat, upto: nat) {
    from <= upto <= |s| && got == had + s[from..upto]
  }

  lemma TookNone(got: seq<Request>, s: seq<Request>, at: nat)
    requires at <= |s|
    ensures Took(got, got, s, at, at)
  {
  }

  lemma TookMore(got: seq<Request>, mid: seq<Request>, had: seq<Request>, s: seq<Request>, from: nat, at: nat,
                 upto: nat)
    requires Took(mid, had, s, from, at) && Took(got, mid, s, at, upto)
    ensures Took(got, had, s, from, upto)
  {
    assert s[from..at] + s[at..upto] == s[from..upto];
  }

  lemma TookLonger(got: seq<Request>, had: seq<Request>, s: seq<Request>, r: Request, from: nat, upto: nat)
    requires Took(got, had, s, from, upto)
    ensures Took(got, had, s + [r], from, upto)
  {
    assert (s + [r])[from..upto] == s[from..upto];
  }

  // --------------------------------------------------------------- the ring

  class Ring {
    const phys: nat
    var t: array<Trb>
    var enq: nat
    var cyc: nat
    // the controller's side
    var deq: nat
    var ccs: nat
    // history: what was pushed, how far the controller has got, what it took
    var sent: seq<Request>
    var taken: nat
    ghost var got: seq<Request>
    ghost var lap: nat
    ghost var rlap: nat

    /** What the driver writes is in memory, and the controller is somewhere behind. */
    ghost predicate Wrote(half: bool)
      reads this, t
    {
      && t.Length == 256 && cyc == LapBit(lap)
      && MemoryOk(t[..], phys, sent, lap, enq, half)
      && ReaderAt(|sent|, lap, taken, rlap, deq, ccs)
    }

    ghost predicate Sound()
      reads this, t
    {
      Wrote(false)
    }

    /** No more than 255 requests are outstanding, fewer while a push is rewriting a slot. */
    ghost predicate Near(half: bool)
      reads this
    {
      |sent| <= taken + 255 && (half || (enq == 0 && lap > 0) ==> |sent| < taken + 255)
    }

    ghost predicate Consistent(half: bool)
      reads this, t
    {
      Wrote(half) && Near(half)
    }

    ghost predicate Valid()
      reads this, t
    {
      Consistent(false)
    }

    ghost function Outstanding(): int
      reads this
    {
      |sent| - taken
    }

    /** There is room for one more request. */
    ghost predicate Roomy()
      reads this
    {
      Outstanding() < 255
    }

    /** ring_init: zeroed memory, both sides at slot 0 with cycle state 1. */
    constructor (phys: nat)
      ensures Valid() && sent == [] && taken == 0 && got == [] && this.phys == phys && fresh(t)
    {
      this.phys := phys;
      t := new Trb[256](_ => Trb(0, 0, 0));
      enq, cyc, deq, ccs := 0, 1, 0, 1;
      sent, taken, got, lap, rlap := [], 0, [], 0, 0;
      new;
      forall i | 0 <= i < LINK ensures SlotHolds(t[..], sent, lap, enq, i) {
        assert t[i] == Trb(0, 0, 0);
      }
    }

    /** One look by the controller, at any moment. It takes the next request in order,
        or follows the link, or waits; it waits only when nothing is left. With too many
        outstanding it takes a later one, or one that is half rewritten. */
    method ControllerStep(ghost half: bool) returns (moved: bool)
      requires Wrote(half)
      modifies this`deq, this`ccs, this`taken, this`got, this`rlap
      ensures Wrote(half)
      ensures (taken == old(taken) && got == old(got)) || (taken == old(taken) + 1 <= |sent| && |got| == old(|got|) + 1)
      ensures moved && taken == old(taken) ==> old(deq) == LINK && deq == 0
      ensures taken == old(taken) + 1 <==> deq == old(deq) + 1
      ensures old(Near(half)) ==> Near(half) && (!moved ==> taken == |sent|)
      ensures old(Near(half)) && taken == old(taken) + 1 ==> got == old(got) + [sent[old(taken)]]
      ensures !half && taken == old(taken) + 1 ==>
                var skip := 255 * (Rounds(|sent| - old(taken)) - 1);
                0 <= skip && old(taken) + skip < |sent| && got == old(got) + [sent[old(taken) + skip]]
    {
      WroteBasics(half);
      hide Wrote, Near, LookAt, Rounds;
      Looks(half);
      if Near(half) { LooksNear(half); }
      match LookAt(t[..], deq, ccs) {
        case NotOwned =>
          moved := false;
        case Follow =>
          FollowLink(half);
          moved := true;
        case Take(r) =>
          TakeOne(half, r);
          moved := true;
      }
    }

    method FollowLink(ghost half: bool)
      requires Wrote(half) && deq == LINK && rlap < lap && t[deq].p == phys && Toggles(t[deq].c)
      modifies this`deq, this`ccs, this`rlap
      ensures Wrote(half) && deq == 0 && (old(Near(half)) ==> Near(half))
    {
      hide MemoryOk;
      if Toggles(t[deq].c) { ccs := 1 - ccs; }
      deq := (t[deq].p - phys) / 16;
      rlap := rlap + 1;
    }

    method TakeOne(ghost half: bool, r: Request)
      requires Wrote(half) && deq < LINK && taken < |sent|
      modifies this`deq, this`taken, this`got
      ensures Wrote(half) && deq == old(deq) + 1 && (old(Near(half)) ==> Near(half))
      ensures taken == old(taken) + 1 && got == old(got) + [r]
    {
      hide MemoryOk;
      got := got + [r];
      taken, deq := taken + 1, deq + 1;
    }

    /** What a look finds: a request pushed and not yet passed, the link, or nothing. */
    lemma Looks(half: bool)
      requires Wrote(half)
      ensures deq <= LINK
      ensures LookAt(t[..], deq, ccs).Take? ==> deq < LINK && taken < |sent|
      ensures LookAt(t[..], deq, ccs).Follow? ==> deq == LINK && rlap < lap && t[deq].p == phys && Toggles(t[deq].c)
      ensures !half && LookAt(t[..], deq, ccs).Take? ==>
                var skip := 255 * (Rounds(|sent| - taken) - 1);
                0 <= skip && taken + skip < |sent| && LookAt(t[..], deq, ccs).r == sent[taken + skip]
    {
      WroteBasics(half);
      hide LookAt, LapBit, MemoryOk, Rounds;
      if deq == LINK {
        AnyLink(t[..], phys, sent, lap, enq, half, taken, rlap, deq, ccs);
      } else if half && deq == enq {
        TornLook(t[..], phys, sent, lap, enq, taken, rlap, deq, ccs);
      } else {
        AnyLook(t[..], phys, sent, lap, enq, half, taken, rlap, deq, ccs);
      }
    }

    /** With room to spare it is the next request, or nothing is left. */
    lemma LooksNear(half: bool)
      requires Wrote(half) && Near(half)
      ensures LookAt(t[..], deq, ccs).Take? ==> taken < |sent| && LookAt(t[..], deq, ccs).r == sent[taken]
      ensures LookAt(t[..], deq, ccs).NotOwned? ==> taken == |sent|
    {
      hide LookAt, LapBit, MemoryOk;
      if deq == LINK {
        LinkLook(t[..], phys, sent, lap, enq, half, taken, rlap, deq, ccs);
      } else {
        DataLook(t[..], phys, sent, lap, enq, half, taken, rlap, deq, ccs);
      }
    }

    /** The controller running on its own for a while. */
    method ControllerRuns(ghost half: bool)
      requires Wrote(half)
      modifies this`deq, this`ccs, this`taken, this`got, this`rlap
      ensures Wrote(half) && old(taken) <= taken
      ensures old(Near(half)) ==> Near(half) && Took(got, old(got), sent, old(taken), taken)
    {
      var steps: nat := *;
      ghost var from, had, near := taken, got, Near(half);
      while steps > 0
        invariant Wrote(half) && from <= taken
        invariant near ==> Near(half) && Took(got, had, sent, from, taken)
      {
        ghost var was := taken;
        var moved := ControllerStep(half);
        assert near && taken == was + 1 ==> sent[from..taken] == sent[from..was] + [sent[was]];
        steps := steps - 1;
      }
    }

    /** A controller that keeps going takes everything outstanding, in order. */
    method ControllerDrains()
      requires Valid()
      modifies this`deq, this`ccs, this`taken, this`got, this`rlap
      ensures Valid() && taken == |sent| && got == old(got) + sent[old(taken)..]
    {
      ghost var from, had := taken, got;
      var moved := true;
      hide Wrote;
      WroteBasics(false);
      while moved
        invariant Valid() && from <= taken <= |sent| && got == had + sent[from..taken]
        invariant !moved ==> taken == |sent|
        decreases moved, |sent| - taken, deq == LINK
      {
        ghost var was := taken;
        moved := ControllerStep(false);
        assert taken == was + 1 ==> sent[from..taken] == sent[from..was] + [sent[was]];
      }
    }

    /** The wrap: the Link TRB, address and length first, control word last; then the
        driver goes round. */
    method WriteLink()
      requires Sound() && enq == LINK
      modifies this, t
      ensures Sound() && t == old(t) && enq == 0 && cyc == 1 - old(cyc) && sent == old(sent) && old(taken) <= taken
      ensures t[..] == old(t[..])[LINK := Trb(phys, 0, LINK_WORD + old(cyc))]
      ensures old(Roomy()) ==> Near(false) && Roomy() && Took(got, old(got), sent, old(taken), taken)
    {
      StoreLinkBody();
      ControllerRuns(false);
      FlipLink();
    }

    /** The Link TRB's address and length, while it is not yet the controller's. */
    method StoreLinkBody()
      requires Sound() && enq == LINK
      modifies t
      ensures Sound() && t[..] == old(t[..])[LINK := old(t[LINK]).(p := phys, s := 0)]
    {
      ghost var was := t[..];
      t[LINK] := t[LINK].(p := phys, s := 0);
      assert forall i :: 0 <= i < LINK ==> SlotHolds(was, sent, lap, enq, i) ==> SlotHolds(t[..], sent, lap, enq, i);
    }

    /** Its control word hands it over; the driver's lap is done. */
    method FlipLink()
      requires Sound() && enq == LINK && t[LINK].p == phys && t[LINK].s == 0
      modifies this`enq, this`cyc, this`lap, t
      ensures Sound() && enq == 0 && cyc == 1 - old(cyc)
      ensures t[..] == old(t[..])[LINK := Trb(phys, 0, LINK_WORD + old(cyc))]
      ensures Roomy() ==> Near(false)
    {
      t[LINK] := t[LINK].(c := LINK_WORD + cyc);
      enq, cyc, lap := 0, 1 - cyc, lap + 1;
      forall i | 0 <= i < LINK ensures SlotHolds(t[..], sent, lap, enq, i) {
        assert SlotHolds(old(t[..]), sent, lap - 1, LINK, i);
      }
    }

    /** The free slot at enq still carries the previous lap's control word. */
    lemma FreeSlot()
      requires Sound() && enq < LINK
      ensures OldWord(t[enq].c, sent, lap, enq)
    {
      assert SlotHolds(t[..], sent, lap, enq, enq);
      if lap > 0 {
        assert Plain(sent[255 * (lap - 1) + enq]);
        WordBits(sent[255 * (lap - 1) + enq].ctl, LapBit(lap - 1));
      }
    }

    /** One store of the request's body, at the slot the push is filling. */
    method StoreAt(ghost half: bool, v: Trb)
      requires Wrote(half) && enq < LINK && v.c == t[enq].c
      modifies t
      ensures Wrote(true) && t[..] == old(t[..])[enq := v]
      ensures Roomy() ==> Near(true)
    {
      if !half { FreeSlot(); }
      ghost var was := t[..];
      t[enq] := v;
      assert forall i :: 0 <= i < LINK && i != enq ==> SlotHolds(was, sent, lap, enq, i) ==>
             SlotHolds(t[..], sent, lap, enq, i);
    }

    /** t->p = p; t->s = s */
    method StoreBody(p: nat, s: nat)
      requires Sound() && enq < LINK
      modifies this`deq, this`ccs, this`taken, this`got, this`rlap, t
      ensures Wrote(true) && old(taken) <= taken && t[..] == old(t[..])[enq := Trb(p, s, old(t[enq]).c)]
      ensures old(Roomy()) ==> Near(true) && Took(got, old(got), sent, old(taken), taken)
    {
      hide Wrote, Took;
      WroteBasics(false);
      StoreAt(false, t[enq].(p := p));
      WroteBasics(true);
      ControllerRuns(true);
      StoreAt(true, t[enq].(s := s));
    }

    /** t->c = (ctl & ~1u) | r->cyc, and the slot is the controller's. */
    method StoreControl(p: nat, s: nat, ctl: nat)
      requires Wrote(true) && t[enq].p == p && t[enq].s == s && Type(ctl) != 6
      modifies this`enq, this`sent, t
      ensures Sound() && sent == old(sent) + [Request(p, s, ctl / 2 * 2)] && enq == old(enq) + 1
      ensures t[..] == old(t[..])[old(enq) := Trb(p, s, Word(ctl, cyc))]
      ensures old(Near(true)) ==> Near(false)
    {
      var r := Request(p, s, ctl / 2 * 2);
      assert LinkHolds(t[..], phys, lap);
      t[enq] := t[enq].(c := Word(ctl, cyc));
      assert LinkHolds(t[..], phys, lap);
      assert Type(r.ctl) == Type(ctl);
      sent := sent + [r];
      enq := enq + 1;
      forall i | 0 <= i < LINK ensures SlotHolds(t[..], sent, lap, enq, i) {
        if i != enq - 1 {
          assert SlotHolds(old(t[..]), old(sent), lap, enq - 1, i);
        }
      }
    }

    /** ring_push, with the controller free to run between any two of its stores. What it
        leaves in memory does not depend on the controller; and with fewer than 255
        outstanding the controller never sees a half-written request, and what it takes
        meanwhile is still the pushed sequence in order. */
    method Push(p: nat, s: nat, ctl: nat)
      requires Sound() && Type(ctl) != 6
      modifies this, t
      ensures Sound() && t == old(t) && |sent| == 255 * lap + enq && 1 <= enq <= LINK && old(taken) <= taken
      ensures sent == old(sent) + [Request(p, s, ctl / 2 * 2)]
      ensures old(enq) <= LINK && old(cyc) < 2 && old(t.Length) == 256
      ensures t[..] == PushedMemory(old(t[..]), phys, old(enq), old(cyc), p, s, ctl)
      ensures old(Roomy()) ==> Valid() && Took(got, old(got), sent, old(taken), taken)
    {
      hide Wrote, Took, Near;
      WroteBasics(false);
      ghost var had, from, all, roomy := got, taken, sent, Roomy();
      TookNone(got, sent, taken);
      if enq == LINK {
        WriteLink();
        WroteBasics(false);
      }
      ghost var g0, a := got, taken;
      Fill(p, s, ctl);
      if roomy {
        TookLonger(g0, had, all, Request(p, s, ctl / 2 * 2), from, a);
        TookMore(got, g0, had, sent, from, a, taken);
      }
    }

    /** The stores of the request itself. */
    method Fill(p: nat, s: nat, ctl: nat)
      requires Sound() && enq < LINK && Type(ctl) != 6
      modifies this, t
      ensures Sound() && t == old(t) && |sent| == 255 * lap + enq && enq == old(enq) + 1 <= LINK && old(taken) <= taken
      ensures sent == old(sent) + [Request(p, s, ctl / 2 * 2)] && cyc == old(cyc)
      ensures old(t.Length) == 256 && t[..] == old(t[..])[old(enq) := Trb(p, s, Word(ctl, old(cyc)))]
      ensures old(Roomy()) ==> Near(false) && Took(got, old(got), sent, old(taken), taken)
    {
      hide Wrote, Took, Near;
      WroteBasics(false);
      ghost var had, from, all, roomy := got, taken, sent, Roomy();
      StoreBody(p, s);
      WroteBasics(true);
      ghost var g0, a := got, taken;
      ControllerRuns(true);
      if roomy { TookMore(got, g0, had, all, from, a, taken); }
      StoreControl(p, s, ctl);
      if roomy { TookLonger(got, had, all, Request(p, s, ctl / 2 * 2), from, taken); }
      g0, a := got, taken;
      ControllerRuns(false);
      if roomy { TookMore(got, g0, had, sent, from, a, taken); }
      WroteBasics(false);
    }

    lemma WroteBasics(half: bool)
      requires Wrote(half)
      ensures t.Length == 256 && enq <= LINK && cyc < 2 && |sent| == 255 * lap + enq && taken <= |sent|
      ensures half ==> enq < LINK
      ensures Roomy() ==> Near(half)
    {
    }

    lemma EnqBound()
      requires Valid()
      ensures enq <= LINK && taken <= |sent| && |sent| == 255 * lap + enq
    {
    }

    /** kbd_recover: the controller, stopped, is pointed at t[enq] | cyc. Whatever was
        outstanding is dropped, and the two sides agree again, even when enq is the link
        slot and its Link TRB is not yet written. */
    method Recover()
      requires Sound()
      modifies this`deq, this`ccs, this`taken, this`rlap
      ensures Valid() && taken == |sent|
    {
      deq, ccs := enq, cyc;
      taken, rlap := |sent|, lap;
    }
  }
}
