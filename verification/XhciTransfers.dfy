/** Rings and events together (src/kernel/usb.c): commands, control transfers and the keyboard
    pipe, and how many requests each can leave outstanding. */
module XhciTransfers {
  import opened Arithmetic
  import opened XhciRing
  import opened XhciEvents

  // ------------------------------------------------------- control transfers

  /** A success event of a slot's endpoint 0. */
  predicate Success(e: Event, slot: nat) {
    Type(e.ctl) == 32 && SlotId(e) == slot && Dci(e) == 1 && Code(e) == 1
  }

  function Successes(es: seq<Event>, slot: nat): nat {
    if es == [] then 0
    else Successes(es[..|es| - 1], slot) + if Success(es[|es| - 1], slot) then 1 else 0
  }

  lemma {:induction false} SuccessesGrow(es: seq<Event>, slot: nat, m: nat, n: nat)
    requires m <= n <= |es|
    ensures Successes(es[..m], slot) <= Successes(es[..n], slot)
    ensures forall k :: m <= k < n && Success(es[k], slot) ==> Successes(es[..m], slot) < Successes(es[..n], slot)
    decreases n
  {
    if m < n {
      assert es[..n][..n - 1] == es[..n - 1];
      SuccessesGrow(es, slot, m, n - 1);
    }
  }

  /** Where each transfer's requests end in the sequence pushed: each has at most three. */
  predicate Ends(ends: seq<nat>, sent: nat) {
    if ends == [] then sent == 0
    else
      var before := if |ends| == 1 then 0 else ends[|ends| - 2];
      ends[|ends| - 1] == sent && before < sent <= before + 3 && Ends(ends[..|ends| - 1], before)
  }

  lemma EndsNext(ends: seq<nat>, sent: nat, more: nat)
    requires Ends(ends, sent) && sent < more <= sent + 3
    ensures Ends(ends + [more], more)
  {
    assert (ends + [more])[..|ends|] == ends;
  }

  /** Transfers of which the controller has taken everything. */
  function Whole(ends: seq<nat>, taken: nat): nat {
    if ends == [] then 0 else Whole(ends[..|ends| - 1], taken) + if ends[|ends| - 1] <= taken then 1 else 0
  }

  lemma {:induction false} WholeBound(ends: seq<nat>, sent: nat, taken: nat)
    requires Ends(ends, sent) && taken <= sent
    ensures Whole(ends, taken) <= |ends| && sent - taken <= 3 * (|ends| - Whole(ends, taken))
    decreases |ends|
  {
    if ends != [] {
      var front := ends[..|ends| - 1];
      var before := if |ends| == 1 then 0 else ends[|ends| - 2];
      if taken <= before {
        WholeBound(front, before, taken);
      } else {
        WholeAll(front, before, taken);
      }
    }
  }

  lemma {:induction false} WholeAll(ends: seq<nat>, sent: nat, taken: nat)
    requires Ends(ends, sent) && sent <= taken
    ensures Whole(ends, taken) == |ends|
    decreases |ends|
  {
    if ends != [] {
      WholeAll(ends[..|ends| - 1], if |ends| == 1 then 0 else ends[|ends| - 2], taken);
    }
  }

  /** The setup packet and buffer of a control transfer. */
  datatype Setup = Setup(bm: nat, req: nat, val: nat, idx: nat, buf: nat, len: nat)

  /** Its requests: setup, data if any, status. */
  function Td(x: Setup): (td: seq<Request>)
    ensures |td| == if x.len == 0 then 2 else 3
  {
    var setup := x.bm + x.req * 0x100 + x.val * 0x1_0000 + x.idx * 0x1_0000_0000 + x.len * 0x1_0000_0000_0000;
    var inward := x.bm / 128 % 2;
    var trt := if x.len == 0 then 0 else if inward == 1 then 3 else 2;
    var stdir := if x.len != 0 && inward == 1 then 0 else 1;
    [Request(setup, 8, 2 * 1024 + 64 + trt * 0x1_0000)]
    + (if x.len == 0 then [] else [Request(x.buf, x.len, 3 * 1024 + inward * 0x1_0000)])
    + [Request(0, 0, 4 * 1024 + 32 + stdir * 0x1_0000)]
  }

  predicate Bit(c: nat, i: nat) { c / Pow2(i) % 2 == 1 }

  /** The USB setup packet, as the eight bytes of a little-endian word: bmRequestType, bRequest,
      wValue, wIndex, wLength. */
  lemma SetupBytes(x: Setup)
    requires x.bm < 0x100 && x.req < 0x100 && x.val < 0x1_0000 && x.idx < 0x1_0000 && x.len < 0x1_0000
    ensures var w := Td(x)[0].p;
            && w % 0x100 == x.bm && w / 0x100 % 0x100 == x.req && w / 0x1_0000 % 0x1_0000 == x.val
            && w / 0x1_0000_0000 % 0x1_0000 == x.idx && w / 0x1_0000_0000_0000 == x.len
  {
    var w := Td(x)[0].p;
    var w1 := x.req + x.val * 0x100 + x.idx * 0x100_0000 + x.len * 0x100_0000_0000;
    var w2 := x.val + x.idx * 0x1_0000 + x.len * 0x1_0000_0000;
    var w4 := x.idx + x.len * 0x1_0000;
    Unique(w, 0x100, w1, x.bm);
    Unique(w1, 0x100, w2, x.req);
    Unique(w, 0x1_0000, w2, x.bm + x.req * 0x100);
    Unique(w2, 0x1_0000, w4, x.val);
    Unique(w, 0x1_0000_0000, w4, x.bm + x.req * 0x100 + x.val * 0x1_0000);
    Unique(w4, 0x1_0000, x.len, x.idx);
    Unique(w, 0x1_0000_0000_0000, x.len, x.bm + x.req * 0x100 + x.val * 0x1_0000 + x.idx * 0x1_0000_0000);
  }

  /** The control words, as section 6.4.1.2 of the xHCI specification has them: types 2, 3 and
      4; immediate data (bit 6) in the setup stage only and interrupt on completion (bit 5) in
      the status stage only; transfer type (bits 16 and 17) and data direction (bit 16) after
      bit 7 of bmRequestType; status the other way (bit 16). */
  lemma StageWords(x: Setup)
    requires x.bm < 0x100
    ensures var td := Td(x);
            var last := |td| - 1;
            && Type(td[0].ctl) == 2 && td[0].s == 8 && Bit(td[0].ctl, 6) && !Bit(td[0].ctl, 5)
            && (Bit(td[0].ctl, 16) <==> x.len != 0 && x.bm >= 0x80) && (Bit(td[0].ctl, 17) <==> x.len != 0)
            && (x.len != 0 ==> last == 2 && td[1].p == x.buf && td[1].s == x.len && Type(td[1].ctl) == 3
                               && !Bit(td[1].ctl, 5) && !Bit(td[1].ctl, 6) && (Bit(td[1].ctl, 16) <==> x.bm >= 0x80))
            && (x.len == 0 ==> last == 1)
            && Type(td[last].ctl) == 4 && td[last].p == td[last].s == 0
            && Bit(td[last].ctl, 5) && !Bit(td[last].ctl, 6)
            && (Bit(td[last].ctl, 16) <==> !(x.len != 0 && x.bm >= 0x80))
  {
    assert Pow2(2) == 4 && Pow2(4) == 16 && Pow2(6) == 64 && Pow2(5) == 32;
    assert Pow2(8) == 256 && Pow2(10) == 1024 && Pow2(12) == 4096 && Pow2(14) == 0x4000;
    assert Pow2(16) == 0x1_0000 && Pow2(17) == 0x2_0000;
  }

  /** The first request made of every device: GET_DESCRIPTOR, device, 18 bytes. */
  lemma FirstRequest(buf: nat)
    ensures var td := Td(Setup(0x80, 6, 0x0100, 0, buf, 18));
            && td == [Request(0x0012_0000_0100_0680, 8, 0x3_0840), Request(buf, 18, 0x1_0C00), Request(0, 0, 0x1020)]
  {
  }

  lemma TdPlain(x: Setup)
    ensures forall i :: 0 <= i < |Td(x)| ==> Plain(Td(x)[i])
  {
  }

  function Tds(xs: seq<Setup>): seq<Request> {
    if xs == [] then [] else Tds(xs[..|xs| - 1]) + Td(xs[|xs| - 1])
  }

  lemma {:induction false} TdsPlain(xs: seq<Setup>)
    ensures forall i :: 0 <= i < |Tds(xs)| ==> Plain(Tds(xs)[i])
    ensures (forall i :: 0 <= i < |xs| ==> xs[i].len != 0) ==> |Tds(xs)| == 3 * |xs|
  {
    hide Td;
    if xs != [] {
      var front := xs[..|xs| - 1];
      TdsPlain(front);
      TdPlain(xs[|xs| - 1]);
      assert forall i :: 0 <= i < |front| ==> front[i] == xs[i];
    }
  }

  /** The bound is attained: 85 transfers with data fill the ring of a pipe that has stopped
      after none of them. What the controller would find there, were it to go on, is the
      first of the 255 requests; after up to 255 more pushes nothing at all; and then the
      newest request of all, with everything before it lost. */
  lemma StoppedPipe(phys: nat, xs: seq<Setup>, more: seq<Request>)
    requires |xs| == 85 && forall i :: 0 <= i < |xs| ==> xs[i].len != 0
    requires forall i :: 0 <= i < |more| ==> Plain(more[i])
    ensures |Tds(xs)| == 255
    ensures var look := LookAt(Ringful(phys, Tds(xs) + more).t, 0, 1);
            && (|more| == 0 ==> look == Take(Tds(xs)[0]))
            && (1 <= |more| <= 255 ==> look == NotOwned)
            && (256 <= |more| <= 510 ==> look == Take(more[255]))
  {
    hide Tds, Rounds, LookAt;
    TdsPlain(xs);
    if |more| <= 510 { RoundsFull(|more|); }
    LeftBehind(phys, Tds(xs) + more, 0);
  }

  /** The event that the last request of a slot's first control transfer succeeded. */
  function Report(phys: nat, slot: nat): Event {
    Request(phys + 32, 0x100_0000, slot * 0x100_0000 + 0x1_8000)
  }

  lemma ReportIs(phys: nat, slot: nat)
    requires slot < 256
    ensures Success(Report(phys, slot), slot) && Code(Report(phys, slot)) == 1
  {
    var c := Report(phys, slot).ctl;
    Unique(c, 1024, slot * 16384 + 96, 0);
    Unique(slot * 16384 + 96, 64, slot * 256 + 1, 32);
    Unique(c, 0x100_0000, slot, 0x1_8000);
    Unique(c, 0x1_0000, slot * 256 + 1, 0x8000);
    Unique(slot * 256 + 1, 32, slot * 8, 1);
  }

  /** The failures since the last success do not bound it. Transfer x has timed out, no event
      having come, and x' has been pushed when the controller, which has taken x and nothing of x', reports x:
      handle_event tells the waiter for x' that it is done. Three requests are outstanding
      right after that success, and the controller has been honest. */
  lemma LateReport(phys: nat, slot: nat, x: Setup, x': Setup, kbds: set<(nat, nat)>)
    requires slot < 256 && x.len != 0 && x'.len != 0 && (slot, 1) !in kbds
    ensures var d, w := Ringful(phys, Td(x) + Td(x')), Waiter(Transfer, 0, slot, 1, false, 0, 0);
            && MemoryOk(d.t, phys, Td(x) + Td(x'), 0, 6, false) && ReaderOk(6, 0, 6, false, 3, 0, 3, 1)
            && LookAt(d.t, 3, 1) == Take(Td(x')[0])
            && !HandleAll(w, kbds, []).done
            && HandleAll(w, kbds, [Report(phys, slot)]) == w.(done := true, cc := 1)
            && Snap(6, [3, 6], 3, [Report(phys, slot)]).Honest(slot)
  {
    hide Td, Report, MemoryOk, LookAt;
    TdPlain(x);
    TdPlain(x');
    SixPushed(phys, Td(x) + Td(x'));
    ReportIs(phys, slot);
    var e, w := Report(phys, slot), Waiter(Transfer, 0, slot, 1, false, 0, 0);
    assert [e][..0] == [] && HandleAll(w, kbds, []) == w && Successes([], slot) == 0;
    assert [3, 6][..1] == [3] && [3][..0] == [];
    assert Successes([e], slot) == 1 == Whole([3], 3) == Whole([3, 6], 3);
  }

  lemma SixPushed(phys: nat, rs: seq<Request>)
    requires |rs| == 6 && forall i :: 0 <= i < |rs| ==> Plain(rs[i])
    ensures MemoryOk(Ringful(phys, rs).t, phys, rs, 0, 6, false)
    ensures LookAt(Ringful(phys, rs).t, 3, 1) == Take(rs[3])
  {
    var lap := RingfulOk(phys, rs);
    LeftBehind(phys, rs, 3);
  }

  /** What has happened on a pipe: how many requests were pushed, where each transfer's end,
      how many slots the controller has passed, and the events since the pipe was set up. */
  datatype Snap = Snap(sent: nat, ends: seq<nat>, taken: nat, events: seq<Event>) {
    /** A controller reports a transfer's success at most once, and not before it has passed
        all its requests. */
    ghost predicate Honest(slot: nat) { Successes(events, slot) <= Whole(ends, taken) }
  }

  lemma TookAll(got: seq<Request>, had: seq<Request>, s: seq<Request>, more: seq<Request>, from: nat, upto: nat)
    requires Took(got, had, s, from, upto)
    ensures Took(got, had, s + more, from, upto)
  {
    assert (s + more)[from..upto] == s[from..upto];
  }

  /** How many of these transfers timed out or failed. */
  function Failures(ccs: seq<int>): nat {
    if ccs == [] then 0 else Failures(ccs[..|ccs| - 1]) + if ccs[|ccs| - 1] == 1 then 0 else 1
  }

  /** Whenever the controller had been honest, at most three requests were outstanding for each
      failure, f of them from before. */
  ghost predicate Bounded(seen: seq<Snap>, ccs: seq<int>, slot: nat, f: nat)
    requires |seen| == |ccs| + 1
  {
    forall i :: 0 <= i < |seen| && seen[i].Honest(slot) ==>
      0 <= seen[i].sent - seen[i].taken <= 3 * (f + Failures(ccs[..i]))
  }

  lemma BoundedNext(seen: seq<Snap>, ccs: seq<int>, slot: nat, f: nat, m: Snap, cc: int)
    requires |seen| == |ccs| + 1 && Bounded(seen, ccs, slot, f)
    requires m.Honest(slot) ==> 0 <= m.sent - m.taken <= 3 * (f + Failures(ccs + [cc]))
    ensures Bounded(seen + [m], ccs + [cc], slot, f)
    ensures Failures(ccs + [cc]) == Failures(ccs) + if cc == 1 then 0 else 1
  {
    hide Snap.Honest, Failures;
    var seen', ccs' := seen + [m], ccs + [cc];
    assert ccs'[..|seen|] == ccs';
    forall i | 0 <= i < |seen'| && seen'[i].Honest(slot)
      ensures 0 <= seen'[i].sent - seen'[i].taken <= 3 * (f + Failures(ccs'[..i]))
    {
      if i < |seen| { assert seen'[i] == seen[i] && ccs'[..i] == ccs[..i]; }
    }
    FailuresNext(ccs, cc);
  }

  lemma FailuresNext(ccs: seq<int>, cc: int)
    ensures Failures(ccs + [cc]) == Failures(ccs) + if cc == 1 then 0 else 1
  {
    assert (ccs + [cc])[..|ccs|] == ccs;
  }

  ghost predicate AllHonest(seen: seq<Snap>, slot: nat) { forall i :: 0 <= i < |seen| ==> seen[i].Honest(slot) }

  lemma HonestFront(seen: seq<Snap>, m: Snap, i: nat, slot: nat)
    requires i < |seen|
    ensures (seen + [m])[..i + 1] == seen[..i + 1]
    ensures AllHonest(seen[..i + 1], slot) ==> AllHonest(seen[..i], slot) && seen[i].Honest(slot)
  {
  }

  lemma TdsNext(xs: seq<Setup>, i: nat)
    requires i < |xs|
    ensures Tds(xs[..i + 1]) == Tds(xs[..i]) + Td(xs[i])
  {
    assert xs[..i + 1][..i] == xs[..i];
  }

  /** Endpoint 0 of a device, and the event ring it shares. */
  class Control {
    const ring: Ring
    const er: EventRing
    const slot: nat
    /** The events before the pipe was set up, which are of whoever had the slot then. */
    ghost const from: nat
    ghost var ends: seq<nat>
    ghost var wins: nat
    ghost var fails: nat

    /** Each transfer reported a success has had a success event of its own. */
    ghost predicate Valid()
      reads this, ring, ring.t, er, er.ev
    {
      && ring.Sound() && er.Valid() && ring.t != er.ev && !er.waiter.done && (slot, 1) !in er.kbds
      && from <= er.handled <= |er.written|
      && Ends(ends, |ring.sent|) && |ends| == wins + fails
      && wins <= Successes(er.written[from..er.handled], slot)
    }

    ghost function Now(): Snap
      requires from <= |er.written|
      reads this, ring, er
    {
      Snap(|ring.sent|, ends, ring.taken, er.written[from..])
    }

    ghost predicate Honest()
      requires from <= |er.written|
      reads this, ring, er
    {
      Now().Honest(slot)
    }

    /** A fresh pipe. What the slot's former owner was told does not count. */
    constructor (ring: Ring, er: EventRing, slot: nat)
      requires ring.Sound() && ring.sent == [] && er.Valid() && ring.t != er.ev && !er.waiter.done
               && (slot, 1) !in er.kbds
      ensures Valid() && this.ring == ring && this.er == er && this.slot == slot && wins == fails == 0
      ensures from == er.handled <= |er.written| && Now() == Snap(0, [], ring.taken, er.written[er.handled..])
    {
      this.ring, this.er, this.slot, this.from := ring, er, slot, er.handled;
      ends, wins, fails := [], 0, 0;
      new;
      er.Bound();
    }

    /** At most three requests are outstanding for each transfer that ever failed. */
    lemma Bound()
      requires Valid() && Honest()
      ensures 0 <= ring.Outstanding() <= 3 * fails
      ensures fails <= 84 ==> ring.Outstanding() <= 252 && ring.Valid()
    {
      hide Ring.Wrote;
      ring.WroteBasics(false);
      var es := er.written[from..];
      assert es[..|es|] == es && es[..er.handled - from] == er.written[from..er.handled];
      SuccessesGrow(es, slot, er.handled - from, |es|);
      WholeBound(ends, |ring.sent|, ring.taken);
    }

    /** The requests of the transfer, one push each. */
    method SendAll(td: seq<Request>)
      requires ring.Sound() && |td| <= 3 && forall i :: 0 <= i < |td| ==> Plain(td[i])
      modifies ring, ring.t
      ensures ring.Sound() && ring.t == old(ring.t) && ring.sent == old(ring.sent) + td && old(ring.taken) <= ring.taken
      ensures old(ring.Valid() && ring.Outstanding() <= 252) ==>
                ring.Valid() && Took(ring.got, old(ring.got), ring.sent, old(ring.taken), ring.taken)
    {
      hide Ring.Wrote, Took;
      ring.WroteBasics(false);
      ghost var s, g, k, room := ring.sent, ring.got, ring.taken, ring.Valid() && ring.Outstanding() <= 252;
      TookNone(g, s, k);
      for i := 0 to |td|
        invariant ring.Sound() && ring.t == old(ring.t) && ring.sent == s + td[..i] && k <= ring.taken
        invariant room ==> ring.Valid() && ring.Outstanding() <= 252 + i && Took(ring.got, g, ring.sent, k, ring.taken)
      {
        ghost var s1, g1, k1 := ring.sent, ring.got, ring.taken;
        ring.Push(td[i].p, td[i].s, td[i].ctl);
        assert td[..i + 1] == td[..i] + [td[i]];
        if room {
          TookLonger(g1, g, s1, td[i], k, k1);
          TookMore(ring.got, g1, g, ring.sent, k, k1, ring.taken);
        }
      }
      assert td[..|td|] == td;
    }

    /** ctrl_xfer: the requests, the doorbell, and the wait. The transfer counts as a success
        only with a success event of its own; otherwise it timed out or failed, and its
        requests may stay. 84 failures leave room for one more transfer. */
    method Xfer(x: Setup) returns (cc: int)
      requires Valid()
      modifies this`ends, this`wins, this`fails, ring, ring.t, er, er.ev
      ensures Valid() && ring.t == old(ring.t) && er.ev == old(er.ev)
      ensures ring.sent == old(ring.sent) + Td(x) && ends == old(ends) + [|ring.sent|]
      ensures if cc == 1 then wins == old(wins) + 1 && fails == old(fails)
              else wins == old(wins) && fails == old(fails) + 1
      ensures old(Honest() && fails <= 84) ==>
                ring.Valid() && Took(ring.got, old(ring.got), ring.sent, old(ring.taken), ring.taken)
    {
      hide Ring.Wrote, EventRing.Valid, Td, Took, Ends, Successes, Whole;
      ghost var g, k, room := ring.got, ring.taken, Honest() && fails <= 84;
      if room { Bound(); }
      TdPlain(x);
      SendAll(Td(x));
      ghost var g1, k1, s := ring.got, ring.taken, ring.sent;
      cc := Await();
      if room { TookMore(ring.got, g1, g, s, k, k1, ring.taken); }
      EndsNext(ends, |s| - |Td(x)|, |s|);
      ends := ends + [|s|];
      if cc == 1 { wins := wins + 1; } else { fails := fails + 1; }
    }

    /** Over any transfers: whenever the controller has been honest so far, no more than three
        requests are outstanding for each failure so far; and while there are no more than 84
        of those, what it takes is what was pushed, in order and whole. */
    method Run(xs: seq<Setup>) returns (ccs: seq<int>, ghost seen: seq<Snap>)
      requires Valid()
      modifies this`ends, this`wins, this`fails, ring, ring.t, er, er.ev
      ensures Valid() && ring.t == old(ring.t) && er.ev == old(er.ev) && ring.sent == old(ring.sent) + Tds(xs)
      ensures |ccs| == |xs| == |seen| - 1 && seen[0] == old(Now()) && seen[|xs|] == Now()
      ensures fails == old(fails) + Failures(ccs) && Bounded(seen, ccs, slot, old(fails))
      ensures AllHonest(seen[..|xs|], slot) && fails <= 84 ==>
                Took(ring.got, old(ring.got), ring.sent, old(ring.taken), ring.taken)
    {
      hide Valid, Snap.Honest, Took, Td, Bounded, AllHonest, Failures;
      ghost var g, k, f, s0 := ring.got, ring.taken, fails, ring.sent;
      ccs := [];
      seen := Begun();
      for i := 0 to |xs|
        invariant Valid() && ring.t == old(ring.t) && er.ev == old(er.ev) && ring.sent == s0 + Tds(xs[..i])
        invariant |ccs| == i == |seen| - 1 && seen[0] == old(Now()) && from <= |er.written| && seen[i] == Now()
        invariant fails == f + Failures(ccs) && Bounded(seen, ccs, slot, f)
        invariant AllHonest(seen[..i], slot) && fails <= 84 ==> Took(ring.got, g, ring.sent, k, ring.taken)
      {
        ghost var g1, k1, s1, was, fine := ring.got, ring.taken, ring.sent, seen, Honest() && fails <= 84;
        var cc := Xfer(xs[i]);
        TdsNext(xs, i);
        SentBound();
        FailuresNext(ccs, cc);
        BoundedNext(seen, ccs, slot, f, Now(), cc) by { BoundNow(); }
        ccs, seen := ccs + [cc], seen + [Now()];
        HonestFront(was, Now(), i, slot);
        if AllHonest(seen[..i + 1], slot) && fails <= 84 {
          TookAll(g1, g, s1, Td(xs[i]), k, k1);
          TookMore(ring.got, g1, g, ring.sent, k, k1, ring.taken);
        }
      }
      assert xs[..|xs|] == xs;
    }

    ghost method Begun() returns (seen: seq<Snap>)
      requires Valid()
      ensures from <= |er.written| && seen == [Now()] && Bounded(seen, [], slot, fails) && Failures([]) == 0
      ensures Took(ring.got, ring.got, ring.sent, ring.taken, ring.taken)
    {
      SentBound();
      BoundNow();
      TookNone(ring.got, ring.sent, ring.taken);
      seen := [Now()];
    }

    lemma SentBound()
      requires Valid()
      ensures from <= |er.written| && ring.taken <= |ring.sent|
    {
      ring.WroteBasics(false);
    }

    lemma BoundNow()
      requires Valid() && from <= |er.written|
      ensures Now().Honest(slot) ==> 0 <= Now().sent - Now().taken <= 3 * fails
    {
      if Honest() { Bound(); }
    }

    /** The wait, with the controller free to take requests meanwhile. */
    method Await() returns (cc: int)
      requires ring.Sound() && er.Valid() && ring.t != er.ev && (slot, 1) !in er.kbds
      requires from <= er.handled <= |er.written|
      modifies ring`deq, ring`ccs, ring`taken, ring`got, ring`rlap, er, er.ev
      ensures ring.Sound() && er.Valid() && er.ev == old(er.ev) && er.kbds == old(er.kbds)
      ensures !er.waiter.done && from <= er.handled <= |er.written|
      ensures Successes(er.written[from..er.handled], slot) >=
              Successes(old(er.written[from..er.handled]), slot) + if cc == 1 then 1 else 0
      ensures old(ring.Near(false)) ==>
                ring.Near(false) && Took(ring.got, old(ring.got), ring.sent, old(ring.taken), ring.taken)
    {
      hide Ring.Wrote, EventRing.Valid, Took;
      er.ArmTransfer(slot, 1);
      ghost var w, h := er.written, er.handled;
      cc := er.WaitDone();
      ring.ControllerRuns(false);
      ghost var es := er.written[from..];
      assert es[..h - from] == w[from..h] && es[..er.handled - from] == er.written[from..er.handled];
      SuccessesGrow(es, slot, h - from, er.handled - from);
      assert forall k {:trigger er.written[k]} :: h <= k < er.handled ==> es[k - from] == er.written[k];
    }
  }

  // ----------------------------------------------------------------- commands

  /** The address of request i: the ring has 255 slots for requests. */
  function Address(phys: nat, i: nat): nat { phys + 16 * (i % 255) }

  /** The command completion events of a history. */
  function Completions(es: seq<Event>): seq<Event> {
    if es == [] then []
    else Completions(es[..|es| - 1]) + if Type(es[|es| - 1].ctl) == 33 then [es[|es| - 1]] else []
  }

  lemma {:induction false} CompletionsGrow(es: seq<Event>, m: nat, n: nat)
    requires m <= n <= |es|
    ensures Completions(es[..m]) <= Completions(es[..n])
    ensures forall k :: m <= k < n && Type(es[k].ctl) == 33 ==>
              |Completions(es[..k])| < |Completions(es[..n])| && Completions(es[..n])[|Completions(es[..k])|] == es[k]
              && |Completions(es[..m])| <= |Completions(es[..k])|
    decreases n
  {
    if m < n {
      assert es[..n][..n - 1] == es[..n - 1];
      CompletionsGrow(es, m, n - 1);
    }
  }

  /** Two requests less than 255 apart have different addresses. */
  lemma AddressesApart(phys: nat, i: nat, j: nat)
    requires i <= j < i + 255 && Address(phys, i) == Address(phys, j)
    ensures i == j
  {
  }

  /** The command ring and the event ring. */
  class Commands {
    const ring: Ring
    const er: EventRing
    /** Commands given up on since the last completion. */
    ghost var since: nat

    ghost predicate Valid()
      reads this, ring, ring.t, er, er.ev
    {
      && ring.Sound() && er.Valid() && ring.t != er.ev && !er.waiter.done && er.handled <= |er.written|
    }

    /** A controller completes commands in order, once each, after taking them, and names each
        by its address. */
    ghost predicate Honest()
      reads this, ring, er
    {
      var ce := Completions(er.written);
      |ce| <= ring.taken && forall i :: 0 <= i < |ce| ==> ce[i].p == Address(ring.phys, i)
    }

    /** The driver has seen the completions of all commands but those given up on since. */
    ghost predicate Accounted()
      reads this, ring, er
    {
      er.handled <= |er.written| && |ring.sent| <= |Completions(er.written[..er.handled])| + since
    }

    constructor (ring: Ring, er: EventRing)
      requires ring.Sound() && ring.sent == [] && er.Valid() && ring.t != er.ev && !er.waiter.done
      ensures Valid() && Accounted() && this.ring == ring && this.er == er && since == 0
    {
      this.ring, this.er, since := ring, er, 0;
      new;
      er.Bound();
    }

    /** At most one command is outstanding for each that timed out since the last completion. */
    lemma Bound()
      requires Valid() && Accounted() && Honest()
      ensures 0 <= ring.Outstanding() <= since
      ensures since <= 254 ==> ring.Valid() && ring.Roomy()
    {
      hide Ring.Wrote;
      ring.WroteBasics(false);
      assert er.written[..|er.written|] == er.written;
      CompletionsGrow(er.written, er.handled, |er.written|);
    }

    /** cmd_exec. With fewer than 255 timeouts in a row the push has room, an honest
        controller's answer is the answer to this very command, and after it nothing is
        outstanding. */
    method Exec(param: nat, ctl: nat) returns (cc: int, slotOut: nat)
      requires Valid() && Type(ctl) != 6
      modifies this`since, ring, ring.t, er, er.ev
      ensures Valid() && ring.t == old(ring.t) && er.ev == old(er.ev)
      ensures ring.sent == old(ring.sent) + [Request(param, 0, ctl / 2 * 2)]
      ensures since == if cc == -1 then old(since) + 1 else 0
      ensures old(Fine()) ==> ring.Valid() && Took(ring.got, old(ring.got), ring.sent, old(ring.taken), ring.taken)
      ensures old(Fine()) && Honest() ==> Accounted()
      ensures old(Fine()) && Honest() && cc != -1 ==>
                && ring.Outstanding() == 0
                && var e := Answer(old(|ring.sent|)); cc == Code(e) && slotOut == SlotId(e)
    {
      hide Ring.Wrote, EventRing.Valid, Took, Completions;
      ghost var n, w, h, fine := |ring.sent|, er.written, er.handled, Fine();
      ghost var g, k := ring.got, ring.taken;
      var trb := Issue(param, ctl);
      ghost var g1, k1, s := ring.got, ring.taken, ring.sent;
      cc, slotOut := er.CmdExec(trb);
      ring.ControllerRuns(false);
      ring.WroteBasics(false);
      if fine { TookMore(ring.got, g1, g, s, k, k1, ring.taken); }
      assert er.written[..h] == w[..h];
      if fine { Settled(n, h, trb, cc, slotOut); }
      since := if cc == -1 then since + 1 else 0;
    }

    /** So far the driver and the controller have kept up with each other. */
    ghost predicate Fine()
      reads this, ring, er
    {
      Accounted() && Honest() && since <= 254
    }

    /** The push, and the address of the command. */
    method Issue(param: nat, ctl: nat) returns (trb: nat)
      requires Valid() && Type(ctl) != 6
      modifies ring, ring.t
      ensures Valid() && ring.t == old(ring.t) && ring.sent == old(ring.sent) + [Request(param, 0, ctl / 2 * 2)]
      ensures trb == Address(ring.phys, old(|ring.sent|))
      ensures old(Fine()) ==> ring.Valid() && Took(ring.got, old(ring.got), ring.sent, old(ring.taken), ring.taken)
    {
      hide Ring.Wrote, EventRing.Valid, Took, Completions;
      if Fine() { Bound(); }
      ghost var n := |ring.sent|;
      ring.Push(param, 0, ctl);
      trb := ring.phys + 16 * (ring.enq - 1);
      LastSlot(n, ring.lap, ring.enq);
    }

    /** What the wait for command n comes to. */
    lemma Settled(n: nat, h: nat, trb: nat, cc: int, slotOut: nat)
      requires h <= er.handled <= |er.written| && |ring.sent| == n + 1 && ring.taken <= |ring.sent|
      requires n <= |Completions(er.written[..h])| + since && since <= 254 && trb == Address(ring.phys, n)
      requires cc != -1 ==> exists k :: h <= k < er.handled && cc == Code(er.written[k])
                                        && Type(er.written[k].ctl) == 33 && er.written[k].p == trb
                                        && slotOut == SlotId(er.written[k])
      ensures cc == -1 ==> n + 1 <= |Completions(er.written[..er.handled])| + since + 1
      ensures cc != -1 && Honest() ==>
                && |Completions(er.written[..er.handled])| == n + 1 == ring.taken
                && cc == Code(Answer(n)) && slotOut == SlotId(Answer(n))
    {
      hide Completions;
      CompletionsGrow(er.written, h, er.handled);
      if cc != -1 {
        var k :| h <= k < er.handled && cc == Code(er.written[k]) && Type(er.written[k].ctl) == 33
                 && er.written[k].p == trb && slotOut == SlotId(er.written[k]);
        Answered(n, h, k);
      }
    }

    /** The completion of command n, if it has come. */
    ghost function Answer(n: nat): Event
      reads er
    {
      var ce := Completions(er.written);
      if n < |ce| then ce[n] else Request(0, 0, 0)
    }

    lemma LastSlot(n: nat, lap: nat, enq: nat)
      requires n + 1 == 255 * lap + enq && 1 <= enq <= 255
      ensures n % 255 == enq - 1
    {
    }

    /** The completion that ended the wait is command n's. */
    lemma Answered(n: nat, h: nat, k: nat)
      requires er.handled <= |er.written| && h <= k < er.handled && Type(er.written[k].ctl) == 33
      requires er.written[k].p == Address(ring.phys, n) && |ring.sent| == n + 1 && ring.taken <= |ring.sent|
      requires n <= |Completions(er.written[..h])| + since && since <= 254
      ensures Honest() ==>
                && |Completions(er.written[..er.handled])| == n + 1 == ring.taken && Answer(n) == er.written[k]
    {
      if Honest() {
        var es := er.written;
        assert es[..|es|] == es;
        CompletionsGrow(es, h, er.handled);
        CompletionsGrow(es, er.handled, |es|);
        var j := |Completions(es[..k])|;
        assert Completions(es)[j] == es[k];
        AddressesApart(ring.phys, j, n);
      }
    }
  }

  // ------------------------------------------------------------- the keyboard

  /** A keyboard's interrupt pipe: one request is queued when the last one was reported. */
  class Keyboard {
    const ring: Ring
    const buf: nat
    const len: nat
    var isKbd: bool
    var needRecover: bool
    /** Requests the controller has reported, or that were given up in a recovery. */
    var reported: nat

    /** Every request but the last has been reported or given up. */
    ghost predicate Valid()
      reads this, ring, ring.t
    {
      ring.Valid() && reported <= ring.taken && |ring.sent| <= reported + 1
    }

    lemma AtMostOne()
      requires Valid()
      ensures 0 <= ring.Outstanding() <= 1
    {
      ring.EnqBound();
    }

    /** The end of enum_device for a keyboard: the pipe is armed. */
    constructor (ring: Ring, buf: nat, len: nat)
      requires ring.Valid() && ring.sent == [] && ring.taken == 0
      modifies ring, ring.t
      ensures Valid() && this.ring == ring && ring.t == old(ring.t) && isKbd && !needRecover
    {
      this.ring, this.buf, this.len, isKbd, needRecover, reported := ring, buf, len, true, false, 0;
      new;
      Arm();
    }

    /** kbd_arm, when all that was queued has been reported or given up: the push has room. */
    method Arm()
      requires Valid() && |ring.sent| == reported
      modifies ring, ring.t
      ensures Valid() && ring.t == old(ring.t) && ring.sent == old(ring.sent) + [Request(buf, len, 0x424)]
    {
      hide Ring.Wrote;
      ring.EnqBound();
      ring.Push(buf, len, 0x424);
    }

    /** handle_event for this pipe, for a request taken and not reported before: a report arms
        the pipe again, an error asks for recovery. */
    method OnEvent(code: nat)
      requires Valid() && reported < ring.taken
      modifies this`needRecover, this`reported, ring, ring.t
      ensures Valid() && ring.t == old(ring.t)
      ensures ring.sent == old(ring.sent) + if code == 1 || code == 13 then [Request(buf, len, 0x424)] else []
      ensures needRecover <==> old(needRecover) || !(code == 1 || code == 13)
    {
      ring.EnqBound();
      reported := reported + 1;
      if code == 1 || code == 13 { Arm(); } else { needRecover := true; }
    }

    /** kbd_recover: reset the endpoint and point the controller past what is queued; either
        command may fail, and then the keyboard is given up. */
    method Recover(reset: bool, moved: bool)
      requires Valid()
      modifies this`needRecover, this`isKbd, this`reported, ring, ring.t
      ensures Valid() && ring.t == old(ring.t) && !needRecover
      ensures reset && moved ==> isKbd == old(isKbd) && ring.sent == old(ring.sent) + [Request(buf, len, 0x424)]
      ensures !(reset && moved) ==> !isKbd && ring.sent == old(ring.sent)
    {
      hide Ring.Wrote;
      needRecover := false;
      if !reset || !moved { isKbd := false; return; }
      ring.Recover();
      reported := |ring.sent|;
      Arm();
    }

    /** Over any run of controller steps, reports and recoveries, at most one request is
        outstanding: every push the driver makes has room. */
    method Run()
      requires Valid()
      modifies this`needRecover, this`isKbd, this`reported, ring, ring.t
      ensures Valid() && ring.Outstanding() <= 1
    {
      hide Ring.Wrote;
      var steps: nat := *;
      while steps > 0
        invariant Valid() && ring.t == old(ring.t)
      {
        var code: nat, reset, moved := *, *, *;
        if * {
          ring.ControllerRuns(false);
        } else if * {
          if reported < ring.taken && isKbd { OnEvent(code); }
        } else if needRecover {
          Recover(reset, moved);
        }
        steps := steps - 1;
      }
      AtMostOne();
    }
  }
}
