/** The xHCI driver's device table and slot array (src/kernel/usb.c): who owns which
    slot, across enumeration, hubs, hot-unplug and any pattern of failing commands. */
module XhciDevices {
  import opened Wrappers

  const MAX_DEVS: nat := 16

  /** One record of the table. parent is the index of the hub above, or -1. */
  datatype Dev = Dev(used: bool, slot: nat, rootport: nat, route: nat, parent: int,
                     isKbd: bool, isHub: bool, nports: nat, conn: set<nat>)

  const FREE: Dev := Dev(false, 0, 0, 0, -1, false, false, 0, {})

  // ------------------------------------------------------------ the invariant

  /** A used record owns a slot the controller has enabled and the slot array knows. */
  ghost predicate OwnsSlot(d: seq<Dev>, dc: seq<nat>, enabled: set<nat>, i: nat)
    requires i < |d|
  {
    d[i].used ==> 1 <= d[i].slot < |dc| && dc[d[i].slot] != 0 && d[i].slot in enabled
  }

  /** Two used records share neither a slot nor a place in the topology. */
  ghost predicate Distinct(d: seq<Dev>, i: nat, j: nat)
    requires i < |d| && j < |d|
  {
    i != j && d[i].used && d[j].used ==>
      d[i].slot != d[j].slot && !(d[i].rootport == d[j].rootport && d[i].route == d[j].route)
  }

  /** A record below a hub names a used hub on a root port, on the same root port, that
      believes something is attached there; others sit on the root port itself. Hubs
      below hubs are not set up. */
  ghost predicate Placed(d: seq<Dev>, i: nat)
    requires i < |d|
  {
    d[i].used ==>
      if d[i].parent == -1 then d[i].route == 0
      else && 0 <= d[i].parent < |d| && 1 <= d[i].route && !d[i].isHub
           && var p := d[d[i].parent];
              p.used && p.isHub && p.parent == -1 && p.rootport == d[i].rootport && d[i].route in p.conn
  }

  /** Every entry of the slot array belongs to a used record. */
  ghost predicate Claimed(d: seq<Dev>, dc: seq<nat>, s: nat)
    requires s < |dc|
  {
    1 <= s && dc[s] != 0 ==> exists i :: 0 <= i < |d| && d[i].used && d[i].slot == s
  }

  ghost predicate TableOk(d: seq<Dev>, dc: seq<nat>, enabled: set<nat>) {
    && |d| == MAX_DEVS && 1 <= |dc| <= MAX_DEVS
    && (forall i :: 0 <= i < MAX_DEVS ==> OwnsSlot(d, dc, enabled, i))
    && (forall i, j :: 0 <= i < MAX_DEVS && 0 <= j < MAX_DEVS ==> Distinct(d, i, j))
    && (forall i :: 0 <= i < MAX_DEVS ==> Placed(d, i))
    && (forall s :: 0 <= s < |dc| ==> Claimed(d, dc, s))
  }

  // -------------------------------------------------------------- pigeonhole

  ghost function SlotsOf(d: seq<Dev>, n: nat): set<nat>
    requires n <= |d|
  {
    set i | 0 <= i < n :: d[i].slot
  }

  lemma {:induction false} SlotsCount(d: seq<Dev>, n: nat)
    requires n <= |d|
    requires forall i, j :: 0 <= i < j < n ==> d[i].slot != d[j].slot
    ensures |SlotsOf(d, n)| == n
  {
    if n == 0 {
      assert SlotsOf(d, 0) == {};
    } else {
      SlotsCount(d, n - 1);
      assert SlotsOf(d, n) == SlotsOf(d, n - 1) + {d[n - 1].slot};
    }
  }

  lemma {:induction false} RangeCount(s: set<nat>, n: nat)
    requires forall x :: x in s ==> 1 <= x < n
    ensures |s| <= if n == 0 then 0 else n - 1
  {
    if n <= 1 {
      assert s == {};
    } else {
      RangeCount(s - {n - 1}, n - 1);
      if n - 1 in s {
        assert |s - {n - 1}| == |s| - 1;
      } else {
        assert s - {n - 1} == s;
      }
    }
  }

  /** There are at most 15 slots and 16 records, so a record is always free. */
  lemma SomeFree(d: seq<Dev>, dc: seq<nat>, enabled: set<nat>)
    requires TableOk(d, dc, enabled)
    ensures exists i :: 0 <= i < MAX_DEVS && !d[i].used
  {
    if forall i :: 0 <= i < MAX_DEVS ==> d[i].used {
      forall i, j | 0 <= i < j < MAX_DEVS ensures d[i].slot != d[j].slot {
        assert Distinct(d, i, j);
      }
      SlotsCount(d, MAX_DEVS);
      forall x | x in SlotsOf(d, MAX_DEVS) ensures 1 <= x < |dc| {
        var i :| 0 <= i < MAX_DEVS && d[i].slot == x;
        assert OwnsSlot(d, dc, enabled, i);
      }
      RangeCount(SlotsOf(d, MAX_DEVS), |dc|);
      assert false;
    }
  }

  // ------------------------------------------------------ steps on the table

  /** Is place (rootport, route) of the topology free? */
  ghost predicate Vacant(d: seq<Dev>, rootport: nat, route: nat) {
    forall i :: 0 <= i < |d| && d[i].used ==> !(d[i].rootport == rootport && d[i].route == route)
  }

  /** enum_device's first success: a free record takes a fresh slot. */
  lemma Adopt(d: seq<Dev>, dc: seq<nat>, enabled: set<nat>, i: nat, n: Dev, octx: nat)
    requires TableOk(d, dc, enabled) && i < MAX_DEVS && !d[i].used
    requires n.used && !n.isHub && 1 <= n.slot < |dc| && n.slot !in enabled && octx != 0
    requires Vacant(d, n.rootport, n.route) && Placed(d[i := n], i)
    ensures TableOk(d[i := n], dc[n.slot := octx], enabled + {n.slot})
    ensures n.parent != i && forall k :: 0 <= k < MAX_DEVS && d[k].used ==> d[k].parent != i
  {
    forall k | 0 <= k < MAX_DEVS && d[k].used ensures d[k].parent != i {
      assert Placed(d, k);
    }
    var d', dc', enabled' := d[i := n], dc[n.slot := octx], enabled + {n.slot};
    forall k | 0 <= k < MAX_DEVS ensures OwnsSlot(d', dc', enabled', k) && Placed(d', k) {
      assert OwnsSlot(d, dc, enabled, k) && Placed(d, k);
    }
    forall k, l | 0 <= k < MAX_DEVS && 0 <= l < MAX_DEVS ensures Distinct(d', k, l) {
      assert Distinct(d, k, l) && OwnsSlot(d, dc, enabled, k) && OwnsSlot(d, dc, enabled, l);
    }
    forall s | 0 <= s < |dc'| ensures Claimed(d', dc', s) {
      if s == n.slot {
        assert d'[i].used && d'[i].slot == s;
      } else {
        assert Claimed(d, dc, s);
        if 1 <= s && dc[s] != 0 {
          var k :| 0 <= k < |d| && d[k].used && d[k].slot == s;
          assert d'[k].used && d'[k].slot == s;
        }
      }
    }
  }

  /** The table is right but for some records about to be dropped: no record outside
      `doomed` hangs off one inside it. */
  ghost predicate TableBut(d: seq<Dev>, dc: seq<nat>, enabled: set<nat>, doomed: set<nat>) {
    && |d| == MAX_DEVS && 1 <= |dc| <= MAX_DEVS
    && (forall i :: 0 <= i < MAX_DEVS ==> OwnsSlot(d, dc, enabled, i))
    && (forall i, j :: 0 <= i < MAX_DEVS && 0 <= j < MAX_DEVS ==> Distinct(d, i, j))
    && (forall i :: 0 <= i < MAX_DEVS && i !in doomed ==> Placed(d, i))
    && (forall i :: 0 <= i < MAX_DEVS && i !in doomed && d[i].used ==> d[i].parent !in doomed)
    && (forall s :: 0 <= s < |dc| ==> Claimed(d, dc, s))
  }

  /** dev_drop: the slot is disabled (or the command fails), its entry cleared, the
      record freed. */
  lemma Drop(d: seq<Dev>, dc: seq<nat>, enabled: set<nat>, enabled': set<nat>, doomed: set<nat>, i: nat)
    requires TableBut(d, dc, enabled, doomed) && i in doomed && i < MAX_DEVS && d[i].used
    requires enabled - {d[i].slot} <= enabled'
    ensures d[i].slot < |dc|
    ensures TableBut(d[i := d[i].(used := false)], dc[d[i].slot := 0], enabled', doomed)
  {
    assert OwnsSlot(d, dc, enabled, i);
    var d', dc' := d[i := d[i].(used := false)], dc[d[i].slot := 0];
    forall k | 0 <= k < MAX_DEVS ensures OwnsSlot(d', dc', enabled', k) && (k !in doomed ==> Placed(d', k)) {
      assert OwnsSlot(d, dc, enabled, k) && Distinct(d, i, k) && (k !in doomed ==> Placed(d, k));
    }
    forall k, l | 0 <= k < MAX_DEVS && 0 <= l < MAX_DEVS ensures Distinct(d', k, l) {
      assert Distinct(d, k, l);
    }
    forall s | 0 <= s < |dc'| ensures Claimed(d', dc', s) {
      assert Claimed(d, dc, s);
      if 1 <= s && dc'[s] != 0 {
        var k :| 0 <= k < |d| && d[k].used && d[k].slot == s;
        assert d'[k].used && d'[k].slot == s;
      }
    }
  }

  lemma DropDone(d: seq<Dev>, dc: seq<nat>, enabled: set<nat>, doomed: set<nat>)
    requires TableBut(d, dc, enabled, doomed)
    requires forall i :: i in doomed && 0 <= i < MAX_DEVS ==> !d[i].used
    ensures TableOk(d, dc, enabled)
  {
    forall i | 0 <= i < MAX_DEVS ensures Placed(d, i) {
    }
  }

  /** Everything on one root port may go at once. */
  lemma DoomPort(d: seq<Dev>, dc: seq<nat>, enabled: set<nat>, port: nat)
    requires TableOk(d, dc, enabled)
    ensures TableBut(d, dc, enabled, set i | 0 <= i < MAX_DEVS && d[i].used && d[i].rootport == port)
  {
    forall i | 0 <= i < MAX_DEVS && d[i].used ensures Placed(d, i) {
    }
  }

  /** A record that nothing hangs off may go. */
  lemma DoomOne(d: seq<Dev>, dc: seq<nat>, enabled: set<nat>, i: nat)
    requires TableOk(d, dc, enabled) && i < MAX_DEVS
    requires forall k :: 0 <= k < MAX_DEVS && d[k].used ==> d[k].parent != i
    ensures TableBut(d, dc, enabled, {i})
  {
  }

  /** A hub port that lost its device: its bit is cleared and what hung there may go. */
  lemma DoomChild(d: seq<Dev>, dc: seq<nat>, enabled: set<nat>, h: nat, p: nat)
    requires TableOk(d, dc, enabled) && h < MAX_DEVS && d[h].used && d[h].isHub && d[h].parent == -1 && 1 <= p
    ensures TableBut(d[h := d[h].(conn := d[h].conn - {p})], dc, enabled,
                     set i | 0 <= i < MAX_DEVS && d[i].used && d[i].parent == h && d[i].route == p)
  {
    var doomed := set i | 0 <= i < MAX_DEVS && d[i].used && d[i].parent == h && d[i].route == p;
    forall i | 0 <= i < MAX_DEVS && d[i].used && d[i].parent == h && i !in doomed
      ensures d[i].route in d[h].conn - {p}
    {
      assert Placed(d, i);
    }
    Rewrite(d, dc, enabled, h, d[h].(conn := d[h].conn - {p}), doomed);
  }

  /** Rewriting a root record's hub fields; it may forget the ports of doomed children. */
  lemma Rewrite(d: seq<Dev>, dc: seq<nat>, enabled: set<nat>, h: nat, n: Dev, doomed: set<nat>)
    requires TableOk(d, dc, enabled) && h < MAX_DEVS && d[h].used && d[h].parent == -1
    requires n == d[h].(isHub := n.isHub, nports := n.nports, conn := n.conn, isKbd := n.isKbd)
             && (d[h].isHub ==> n.isHub)
    requires forall i :: 0 <= i < MAX_DEVS && d[i].used && d[i].parent == h && i !in doomed ==> d[i].route in n.conn
    requires forall i :: i in doomed ==> 0 <= i < MAX_DEVS && d[i].used && d[i].parent == h
    ensures TableBut(d[h := n], dc, enabled, doomed)
  {
    var d' := d[h := n];
    forall k | 0 <= k < MAX_DEVS ensures OwnsSlot(d', dc, enabled, k) && (k !in doomed ==> Placed(d', k)) {
      assert OwnsSlot(d, dc, enabled, k) && Placed(d, k);
    }
    forall k | 0 <= k < MAX_DEVS && k !in doomed && d'[k].used ensures d'[k].parent !in doomed {
      assert Placed(d, k);
    }
    forall k, l | 0 <= k < MAX_DEVS && 0 <= l < MAX_DEVS ensures Distinct(d', k, l) {
      assert Distinct(d, k, l);
    }
    forall s | 0 <= s < |dc| ensures Claimed(d', dc, s) {
      assert Claimed(d, dc, s);
      if 1 <= s && dc[s] != 0 {
        var k :| 0 <= k < |d| && d[k].used && d[k].slot == s;
        assert d'[k].used && d'[k].slot == s;
      }
    }
  }

  /** A hub port whose bit is clear has nothing below it. */
  lemma VacantBelow(d: seq<Dev>, dc: seq<nat>, enabled: set<nat>, h: nat, p: nat)
    requires TableOk(d, dc, enabled) && h < MAX_DEVS && d[h].used && d[h].parent == -1 && 1 <= p && p !in d[h].conn
    ensures Vacant(d, d[h].rootport, p) && !Below(d, h, p)
  {
    assert Placed(d, h);
    forall i | 0 <= i < |d| && d[i].used
      ensures !(d[i].rootport == d[h].rootport && d[i].route == p) && !(d[i].parent == h && d[i].route == p)
    {
      assert Placed(d, i);
      if d[i].parent != -1 {
        assert Placed(d, d[i].parent);
        assert Distinct(d, d[i].parent, h);
      }
    }
  }

  /** The table with the doomed records before n freed. */
  ghost function Without(d: seq<Dev>, doomed: set<nat>, n: nat): (r: seq<Dev>)
    ensures |r| == |d|
  {
    seq(|d|, k requires 0 <= k < |d| => if k in doomed && k < n then d[k].(used := false) else d[k])
  }

  lemma OneLess(d: seq<Dev>, doomed: set<nat>, n: nat)
    requires n < |d|
    ensures Without(d, doomed, n + 1) ==
            if n in doomed then Without(d, doomed, n)[n := d[n].(used := false)] else Without(d, doomed, n)
  {
  }

  lemma NoMoreBelow(d: seq<Dev>, d': seq<Dev>, h: nat, p: nat)
    requires h < |d| == |d'| && d'[h].parent != h && forall k :: 0 <= k < |d| && k != h ==> d'[k] == d[k]
    ensures Below(d', h, p) ==> Below(d, h, p)
  {
    if Below(d', h, p) {
      var k :| 0 <= k < |d'| && d'[k].used && d'[k].parent == h && d'[k].route == p;
      assert d[k].used;
    }
  }

  /** Rewriting an unused record, with at least the old slots enabled, changes nothing. */
  lemma Untouched(d: seq<Dev>, dc: seq<nat>, enabled: set<nat>, enabled': set<nat>, i: nat, n: Dev)
    requires TableOk(d, dc, enabled) && i < MAX_DEVS && !d[i].used && !n.used && enabled <= enabled'
    ensures TableOk(d[i := n], dc, enabled')
  {
    var d' := d[i := n];
    forall k | 0 <= k < MAX_DEVS ensures OwnsSlot(d', dc, enabled', k) && Placed(d', k) {
      assert OwnsSlot(d, dc, enabled, k) && Placed(d, k);
    }
    forall k, l | 0 <= k < MAX_DEVS && 0 <= l < MAX_DEVS ensures Distinct(d', k, l) {
      assert Distinct(d, k, l);
    }
    forall s | 0 <= s < |dc| ensures Claimed(d', dc, s) {
      assert Claimed(d, dc, s);
      if 1 <= s && dc[s] != 0 {
        var k :| 0 <= k < |d| && d[k].used && d[k].slot == s;
        assert d'[k].used && d'[k].slot == s;
      }
    }
  }

  /** A slot the controller had not enabled has no entry. */
  lemma Unowned(d: seq<Dev>, dc: seq<nat>, enabled: set<nat>, s: nat)
    requires TableOk(d, dc, enabled) && 1 <= s < |dc| && s !in enabled
    ensures dc[s] == 0
  {
    forall k | 0 <= k < |d| ensures !(d[k].used && d[k].slot == s) {
      assert OwnsSlot(d, dc, enabled, k);
    }
    assert Claimed(d, dc, s);
  }

  /** Records in use keep everything, record `but` aside. */
  ghost predicate Keeps(d: seq<Dev>, d': seq<Dev>, but: int) {
    |d'| == |d| && forall k :: 0 <= k < |d| && k != but && d[k].used ==> d'[k] == d[k]
  }

  /** Records in use that neither are h nor hang off it keep everything. */
  ghost predicate KeepsAway(d: seq<Dev>, d': seq<Dev>, h: int) {
    |d'| == |d| && forall k :: 0 <= k < |d| && k != h && d[k].used && d[k].parent != h ==> d'[k] == d[k]
  }

  /** What an enumeration is told: the slot the controller grants and whether the driver hears
      of it, the context memory (0: none to be had), whether the device gives its descriptors,
      its class, a boot keyboard interface, and whether that could be configured; of a hub,
      also its own descriptor, its ports, whether its slot could be marked, and what its ports
      say. */
  datatype Finding = Finding(grant: Option<nat>, heard: bool, octx: nat, described: bool, devclass: nat,
                             hasKbd: bool, configured: bool, hubSeen: bool, nports: nat, marked: bool,
                             ports: seq<Port>) {
    predicate Hub() { devclass == 9 }
    predicate Keyboard() { !Hub() && hasKbd && configured }

    /** Nothing in the way of the device but, perhaps, an earlier owner of its slot. */
    predicate Complete(slots: nat) {
      grant.Some? && heard && 1 <= grant.value < slots && octx != 0 && described
    }

    ghost function Granted(): set<nat> { if grant.Some? then {grant.value} else {} }
  }

  /** hub_port_status and the reset that follows a new connection: whether there is an
      answer at all, whether something is attached, whether the hub falls silent during the
      reset, whether the port ends up enabled, and what enumerating the device finds. */
  datatype Port = Port(answered: bool, attached: bool, lost: bool, enabled: bool, finding: Finding) {
    predicate Ready(slots: nat) { !lost && enabled && finding.Complete(slots) }
  }

  const NOTHING: Finding := Finding(None, false, 0, false, 0, false, false, false, 0, false, [])

  /** Port p, counted from 1; one that is not there does not answer. */
  function At(ports: seq<Port>, p: nat): Port {
    if 1 <= p <= |ports| then ports[p - 1] else Port(false, false, false, false, NOTHING)
  }

  /** The record of a device that came up, before any port below it is scanned. */
  ghost function Record(f: Finding, rootport: nat, route: nat, parent: int): Dev
    requires f.grant.Some?
  {
    Dev(true, f.grant.value, rootport, route, parent, f.Keyboard(),
        parent == -1 && f.Hub() && f.hubSeen && f.marked,
        if parent == -1 && f.Hub() && f.hubSeen then if f.nports < 15 then f.nports else 15 else 0, {})
  }

  /** Record i, the first free one, is now n; the table is otherwise as it was, but that a new
      hub's ports have been scanned. */
  ghost predicate CameUp(d: seq<Dev>, d': seq<Dev>, i: nat, n: Dev, ports: seq<Port>, en: set<nat>, slots: nat) {
    && i < |d| == |d'| && !d[i].used && (forall k :: 0 <= k < i ==> d[k].used)
    && if n.isHub then Scanned(d[i := n], d', i, ports, en + {n.slot}, slots) else d' == d[i := n]
  }

  /** A device hangs off port p of hub h; as finding f has it. */
  ghost predicate Below(d: seq<Dev>, h: nat, p: nat) {
    exists k :: 0 <= k < |d| && d[k].used && d[k].parent == h && d[k].route == p
  }

  ghost predicate BelowAs(d: seq<Dev>, h: nat, p: nat, f: Finding) {
    h < |d| && f.grant.Some? && exists k :: 0 <= k < |d| && d[k] == Record(f, d[h].rootport, p, h)
  }

  /** Whatever else came into use hangs off record i. */
  ghost predicate OnlyBelow(d: seq<Dev>, d': seq<Dev>, i: nat) {
    |d'| == |d| && forall k :: 0 <= k < |d| && k != i && d'[k].used && !d[k].used ==> d'[k].parent == i
  }

  /** The records in use are those that were, as they were. */
  ghost predicate SameUse(d: seq<Dev>, d': seq<Dev>) {
    |d'| == |d| && forall k :: 0 <= k < |d| ==> d'[k].used == d[k].used && (d[k].used ==> d'[k] == d[k])
  }

  /** Record h stays in its place. */
  ghost predicate Stays(d: seq<Dev>, d': seq<Dev>, h: nat) {
    && |d'| == |d| && h < |d| && d'[h].used && d'[h].slot == d[h].slot
    && d'[h].rootport == d[h].rootport && d'[h].route == d[h].route && d'[h].parent == d[h].parent
  }

  /** Only hubs on root ports have anything below them. */
  lemma NoneBelow(d: seq<Dev>, dc: seq<nat>, enabled: set<nat>, i: nat)
    requires TableOk(d, dc, enabled) && i < MAX_DEVS && d[i].parent != -1
    ensures forall k :: 0 <= k < MAX_DEVS && d[k].used ==> d[k].parent != i
  {
    forall k | 0 <= k < MAX_DEVS && d[k].used ensures d[k].parent != i { assert Placed(d, k); }
  }

  // ------------------------------------------------------ scanning a hub

  /** After the ports up to `upto`, the hub's attached bits are what the ports said; the
      others are as before. */
  ghost predicate Noted(d: seq<Dev>, d': seq<Dev>, h: nat, ports: seq<Port>, upto: nat)
    requires h < |d| == |d'|
  {
    forall p: nat {:trigger p in d'[h].conn} :: 1 <= p ==>
      (p in d'[h].conn <==> if p <= upto then At(ports, p).attached else p in d[h].conn)
  }

  /** Devices on ports that are still attached, or not scanned, keep everything. */
  ghost predicate KeepsAttached(d: seq<Dev>, d': seq<Dev>, h: nat, ports: seq<Port>, upto: nat) {
    && |d'| == |d|
    && forall k ::
         0 <= k < |d| && d[k].used && d[k].parent == h && (d[k].route > upto || At(ports, d[k].route).attached) ==>
           d'[k] == d[k]
  }

  /** A port newly attached: a device is there only if the port was ready for it, and then as
      found; and it is there if besides its slot was granted to nobody else meanwhile. */
  ghost predicate FilledAt(d: seq<Dev>, d': seq<Dev>, h: nat, ports: seq<Port>, p: nat, en: set<nat>, slots: nat)
    requires h < |d|
  {
    At(ports, p).attached && p !in d[h].conn ==>
      && (Below(d', h, p) ==> At(ports, p).Ready(slots) && BelowAs(d', h, p, At(ports, p).finding))
      && (At(ports, p).Ready(slots) && FirstGrant(ports, p, en) ==> Below(d', h, p))
  }

  ghost predicate FirstGrant(ports: seq<Port>, p: nat, en: set<nat>) {
    var g := At(ports, p).finding.grant;
    g.Some? && g.value !in en && forall q :: 1 <= q < p ==> At(ports, q).finding.grant != g
  }

  /** What a scan of hub h comes to: it covers all ports, or ends at one whose transfers fail. */
  ghost predicate ScanDone(d: seq<Dev>, d': seq<Dev>, h: nat, ports: seq<Port>, upto: nat, en: set<nat>, slots: nat) {
    && h < |d| == |d'| && upto <= d[h].nports
    && (upto < d[h].nports ==> !At(ports, upto + 1).answered || (upto > 0 && At(ports, upto).lost))
    && Noted(d, d', h, ports, upto) && KeepsAttached(d, d', h, ports, upto)
    && (forall p :: 1 <= p <= upto ==> FilledAt(d, d', h, ports, p, en, slots))
    && d'[h] == d[h].(conn := d'[h].conn)
  }

  ghost predicate Scanned(d: seq<Dev>, d': seq<Dev>, h: nat, ports: seq<Port>, en: set<nat>, slots: nat) {
    exists upto :: ScanDone(d, d', h, ports, upto, en, slots)
  }

  /** What one port's turn may change. */
  ghost predicate PortStep(d: seq<Dev>, d': seq<Dev>, h: nat, p: nat, port: Port) {
    && |d'| == |d| && h < |d|
    && d'[h] == d[h].(conn := if !port.answered then d[h].conn
                              else if port.attached then d[h].conn + {p} else d[h].conn - {p})
    && (forall k :: 0 <= k < |d| && k != h && d[k].used ==>
          d'[k] == d[k]
          || (port.answered && !port.attached && d[k].parent == h && d[k].route == p
              && d'[k] == d[k].(used := false)))
    && (forall k :: 0 <= k < |d| && k != h && d'[k].used && !d[k].used ==>
          port.answered && port.attached && d'[k].parent == h && d'[k].route == p)
  }

  /** What a newly attached port's turn brings: a device if and only if nothing was in the way. */
  ghost predicate Arrives(d: seq<Dev>, d': seq<Dev>, h: nat, p: nat, port: Port, en: set<nat>, slots: nat)
    requires h < |d|
  {
    port.answered && port.attached && p !in d[h].conn ==>
      && (Below(d', h, p) <==> port.Ready(slots) && port.finding.grant.value !in en)
      && (Below(d', h, p) ==> BelowAs(d', h, p, port.finding))
  }

  /** A later port's turn takes no earlier port's device away, and brings it none. */
  lemma FilledStill(d: seq<Dev>, was: seq<Dev>, now: seq<Dev>, h: nat, ports: seq<Port>, q: nat, p: nat,
                    en: set<nat>, slots: nat)
    requires h < |d| == |was| == |now| && d[h].parent == -1 && Stays(d, was, h)
    requires 1 <= q < p && PortStep(was, now, h, p, At(ports, p))
    requires FilledAt(d, was, h, ports, q, en, slots)
    ensures FilledAt(d, now, h, ports, q, en, slots)
  {
    var f := At(ports, q).finding;
    if Below(was, h, q) {
      var k :| 0 <= k < |was| && was[k].used && was[k].parent == h && was[k].route == q;
      assert now[k] == was[k];
    }
    if Below(now, h, q) {
      var k :| 0 <= k < |now| && now[k].used && now[k].parent == h && now[k].route == q;
      assert was[k].used;
      assert Below(was, h, q);
    }
    if BelowAs(was, h, q, f) {
      var k :| 0 <= k < |was| && was[k] == Record(f, was[h].rootport, q, h);
      assert now[k] == was[k];
    }
  }

  lemma NotedMore(d: seq<Dev>, was: seq<Dev>, now: seq<Dev>, h: nat, ports: seq<Port>, p: nat)
    requires |d| == |was| == |now| && h < |d| && d[h].parent != h && 1 <= p && PortStep(was, now, h, p, At(ports, p))
    requires KeepsAway(d, was, h) && Stays(d, was, h) && OnlyBelow(d, was, h)
    requires Noted(d, was, h, ports, p - 1) && KeepsAttached(d, was, h, ports, p - 1)
    ensures KeepsAway(d, now, h) && Stays(d, now, h) && OnlyBelow(d, now, h)
    ensures var upto := if At(ports, p).answered then p else p - 1;
            Noted(d, now, h, ports, upto) && KeepsAttached(d, now, h, ports, upto)
  {
  }

  lemma MoreFields(d: seq<Dev>, dc: seq<nat>, enabled: set<nat>, h: nat, n: Dev)
    requires TableOk(d, dc, enabled) && h < MAX_DEVS && d[h].used
    requires n == d[h].(isHub := n.isHub, nports := n.nports, conn := n.conn, isKbd := n.isKbd)
    requires (d[h].isHub ==> n.isHub) && (n.isHub ==> d[h].isHub || d[h].parent == -1) && d[h].conn <= n.conn
    ensures TableOk(d[h := n], dc, enabled)
  {
    var d' := d[h := n];
    forall k | 0 <= k < MAX_DEVS ensures OwnsSlot(d', dc, enabled, k) && Placed(d', k) {
      assert OwnsSlot(d, dc, enabled, k) && Placed(d, k);
    }
    forall k, l | 0 <= k < MAX_DEVS && 0 <= l < MAX_DEVS ensures Distinct(d', k, l) {
      assert Distinct(d, k, l);
    }
    forall s | 0 <= s < |dc| ensures Claimed(d', dc, s) {
      assert Claimed(d, dc, s);
      if 1 <= s && dc[s] != 0 {
        var k :| 0 <= k < |d| && d[k].used && d[k].slot == s;
        assert d'[k].used && d'[k].slot == s;
      }
    }
  }

  /** A device sits on the root port itself. */
  ghost predicate OnRoot(d: seq<Dev>, port: nat) {
    exists i :: 0 <= i < |d| && d[i].used && d[i].rootport == port && d[i].route == 0
  }

  function Unplugged(r: Dev, port: nat): Dev {
    if r.used && r.rootport == port then r.(used := false) else r
  }

  /** What a scan of a root port comes to: disconnected, it loses its device and everything
      below it; one that has its device, or is not ready, is left alone; an empty one gets its
      device if nothing is in the way. */
  ghost predicate PortDone(d: seq<Dev>, d': seq<Dev>, en: set<nat>, slots: nat,
                           port: nat, connected: bool, ready: bool, f: Finding)
  {
    if !connected then |d'| == |d| && forall i :: 0 <= i < |d| ==> d'[i] == Unplugged(d[i], port)
    else if !ready || OnRoot(d, port) then d' == d
    else if f.Complete(slots) && f.grant.value !in en
    then && Keeps(d, d', -1)
         && exists i :: CameUp(d, d', i, Record(f, port, 0, -1), f.ports, en, slots) && OnlyBelow(d, d', i)
    else SameUse(d, d')
  }

  // --------------------------------------------------------------- whole runs

  /** A scan the driver may be asked for: of a root port, or of record h if that is a hub. */
  datatype Scan =
    | RootPort(port: nat, connected: bool, ready: bool, f: Finding)
    | Hub(h: nat, ports: seq<Port>)

  datatype Moment = Moment(d: seq<Dev>, en: set<nat>)

  ghost predicate Did(op: Scan, a: Moment, b: Moment, slots: nat) {
    match op
    case RootPort(port, connected, ready, f) => PortDone(a.d, b.d, a.en, slots, port, connected, ready, f)
    case Hub(h, ports) =>
      if h < |a.d| && a.d[h].used && a.d[h].isHub
      then KeepsAway(a.d, b.d, h) && OnlyBelow(a.d, b.d, h) && Scanned(a.d, b.d, h, ports, a.en, slots)
      else b == a
  }

  /** Each scan in turn, from one moment to the next. */
  ghost predicate AllDone(ops: seq<Scan>, log: seq<Moment>, slots: nat) {
    |log| == |ops| + 1 && forall i :: 0 <= i < |ops| ==> Did(ops[i], log[i], log[i + 1], slots)
  }

  // ------------------------------------------------------------- the driver

  class Xhci {
    var dev: array<Dev>
    var dcbaa: array<nat>
    /** Slots the controller has enabled; at least those the driver uses. */
    var enabled: set<nat>

    ghost predicate Valid()
      reads this, dev, dcbaa
    {
      dev.Length == MAX_DEVS && TableOk(dev[..], dcbaa[..], enabled)
    }

    /** xhci_init_one's part: an empty table for 1 to 15 slots. */
    constructor (slots: nat)
      requires 1 <= slots < MAX_DEVS
      ensures Valid() && fresh(dev) && fresh(dcbaa) && dcbaa.Length == slots + 1
      ensures forall i :: 0 <= i < MAX_DEVS ==> !dev[i].used
    {
      dev := new Dev[MAX_DEVS](_ => FREE);
      dcbaa := new nat[slots + 1](_ => 0);
      enabled := {};
      new;
      assert forall i :: 0 <= i < MAX_DEVS ==> dev[..][i] == FREE;
      assert forall s :: 0 <= s <= slots ==> dcbaa[..][s] == 0;
    }

    /** dev_alloc: always finds a record. */
    method DevAlloc() returns (i: nat)
      requires Valid()
      ensures i < MAX_DEVS && !dev[i].used && forall k :: 0 <= k < i ==> dev[k].used
    {
      SomeFree(dev[..], dcbaa[..], enabled);
      i := 0;
      while dev[i].used
        invariant i < MAX_DEVS && forall k :: 0 <= k < i ==> dev[k].used
        decreases MAX_DEVS - i
      {
        assert dev[..][i] == dev[i];
        i := i + 1;
      }
    }

    /** The Enable Slot command: it may fail, and may fail to be heard; what it grants
        was not enabled before, or nothing was granted. */
    method EnableSlot(grant: Option<nat>, heard: bool) returns (ok: bool, slot: nat)
      modifies this`enabled
      ensures enabled == old(enabled) + if grant.Some? then {grant.value} else {}
      ensures ok <==> grant.Some? && heard && grant.value !in old(enabled)
      ensures ok ==> slot == grant.value
    {
      ok, slot := false, 0;
      if grant.Some? {
        ok, slot := heard && grant.value !in enabled, grant.value;
        enabled := enabled + {slot};
      }
    }

    /** dev_drop: Disable Slot, which may fail; the slot's entry; the record. */
    method DevDrop(i: nat)
      requires i < dev.Length && dev[i].slot < dcbaa.Length
      modifies this`enabled, dev, dcbaa
      ensures old(enabled) - {old(dev[i]).slot} <= enabled <= old(enabled)
      ensures dcbaa[..] == if old(dev[i]).slot != 0 then old(dcbaa[..])[old(dev[i]).slot := 0] else old(dcbaa[..])
      ensures dev[..] == old(dev[..])[i := old(dev[i]).(used := false)]
    {
      var slot := dev[i].slot;
      if slot != 0 {
        if * { enabled := enabled - {slot}; }
        dcbaa[slot] := 0;
      }
      dev[i] := dev[i].(used := false);
    }

    /** dev_drop on a doomed record of an otherwise right table. */
    method DropDoomed(i: nat, ghost doomed: set<nat>)
      requires dev.Length == MAX_DEVS && TableBut(dev[..], dcbaa[..], enabled, doomed)
      requires i in doomed && i < MAX_DEVS && dev[i].used
      modifies this`enabled, dev, dcbaa
      ensures enabled <= old(enabled)
      ensures TableBut(dev[..], dcbaa[..], enabled, doomed)
      ensures dev[..] == old(dev[..])[i := old(dev[i]).(used := false)]
    {
      ghost var d, dc, was := dev[..], dcbaa[..], enabled;
      assert OwnsSlot(d, dc, enabled, i);
      DevDrop(i);
      Drop(d, dc, was, enabled, doomed, i);
    }

    /** What the caller of enum_device knows about the place it enumerates: it is empty,
        and it is a root port or a port a used hub has just marked attached. */
    ghost predicate Open(rootport: nat, route: nat, parent: int)
      reads this, dev
    {
      && dev.Length == MAX_DEVS && Vacant(dev[..], rootport, route)
      && if parent == -1 then route == 0
         else && 0 <= parent < MAX_DEVS && 1 <= route
              && dev[parent].used && dev[parent].isHub && dev[parent].parent == -1
              && dev[parent].rootport == rootport && route in dev[parent].conn
    }

    /** enum_device. Any of its commands and transfers may fail, and then the record is
        dropped again and the records in use are those that were; it succeeds if and only if a
        new slot was granted, the memory was there, and the device described itself. Then the
        first free record is the device's and, of a hub, the ports have been scanned. */
    method EnumDevice(rootport: nat, route: nat, parent: int, f: Finding) returns (ok: bool)
      requires Valid() && Open(rootport, route, parent)
      modifies this`enabled, dev, dcbaa
      ensures Valid() && Keeps(old(dev[..]), dev[..], -1)
      ensures ok <==> f.Complete(dcbaa.Length) && f.grant.value !in old(enabled)
      ensures !ok ==> SameUse(old(dev[..]), dev[..])
      ensures ok ==> exists i ::
                && CameUp(old(dev[..]), dev[..], i, Record(f, rootport, route, parent), f.ports, old(enabled),
                          dcbaa.Length)
                && OnlyBelow(old(dev[..]), dev[..], i)
      ensures parent != -1 ==> enabled <= old(enabled) + f.Granted()
      decreases if parent == -1 then 1 else 0, 5
    {
      ghost var d0, en0 := dev[..], enabled;
      var taken, i := TakeSlot(rootport, route, parent, f);
      if !taken { return false; }
      ghost var d1, n := dev[..], Record(f, rootport, route, parent);
      ok := Identify(i, f);
      if ok {
        assert d1[i := n] == d0[i := n];
        assert CameUp(d0, dev[..], i, n, f.ports, en0, dcbaa.Length) && OnlyBelow(d0, dev[..], i);
      }
    }

    /** The first half of enum_device: a record, a slot, and the slot's entry. */
    method TakeSlot(rootport: nat, route: nat, parent: int, f: Finding) returns (ok: bool, i: nat)
      requires Valid() && Open(rootport, route, parent)
      modifies this`enabled, dev, dcbaa
      ensures Valid() && enabled <= old(enabled) + f.Granted() && (ok ==> enabled == old(enabled) + f.Granted())
      ensures ok <==> f.grant.Some? && f.heard && f.grant.value !in old(enabled)
                      && 1 <= f.grant.value < dcbaa.Length && f.octx != 0
      ensures !ok ==> SameUse(old(dev[..]), dev[..])
      ensures ok ==> i < MAX_DEVS && !old(dev[i].used) && forall k :: 0 <= k < i ==> old(dev[k].used)
      ensures ok ==> dev[..] == old(dev[..])[i := FREE.(used := true, slot := f.grant.value, rootport := rootport,
                                                        route := route, parent := parent)]
      ensures ok ==> dcbaa[..] == old(dcbaa[..])[f.grant.value := f.octx]
      ensures ok ==> forall k :: 0 <= k < MAX_DEVS && dev[k].used ==> dev[k].parent != i
    {
      ghost var d0, dc0, en0 := dev[..], dcbaa[..], enabled;
      i := DevAlloc();
      dev[i] := FREE.(used := true, rootport := rootport, route := route, parent := parent);
      var granted, slot := EnableSlot(f.grant, f.heard);
      if !granted || slot == 0 || slot >= dcbaa.Length {
        dev[i] := dev[i].(used := false);
        assert dev[..] == d0[i := dev[i]];
        Untouched(d0, dc0, en0, enabled, i, dev[i]);
        return false, i;
      }
      dev[i] := dev[i].(slot := slot);
      Unowned(d0, dc0, en0, slot);
      if f.octx == 0 {
        DevDrop(i);
        assert dev[..] == d0[i := dev[i]];
        assert dcbaa[..] == dc0;
        Untouched(d0, dc0, en0, enabled, i, dev[i]);
        return false, i;
      }
      dcbaa[slot] := f.octx;
      assert dev[..] == d0[i := dev[i]] && dcbaa[..] == dc0[slot := f.octx];
      Adopt(d0, dc0, en0, i, dev[i], f.octx);
      ok := true;
    }

    /** enum_device after the slot is set up: addressing, descriptors, and what the device
        turns out to be. */
    method Identify(i: nat, f: Finding) returns (ok: bool)
      requires Valid() && i < MAX_DEVS && f.grant.Some?
      requires dev[i] == FREE.(used := true, slot := f.grant.value, rootport := dev[i].rootport,
                               route := dev[i].route, parent := dev[i].parent)
      requires forall k :: 0 <= k < MAX_DEVS && dev[k].used ==> dev[k].parent != i
      modifies this`enabled, dev, dcbaa
      ensures Valid() && Keeps(old(dev[..]), dev[..], i)
      ensures ok <==> f.described
      ensures !ok ==> dev[..] == old(dev[..])[i := old(dev[i]).(used := false)]
      ensures ok ==> Stays(old(dev[..]), dev[..], i) && OnlyBelow(old(dev[..]), dev[..], i)
      ensures ok ==> Known(old(dev[..]), dev[..], i, f, old(enabled), dcbaa.Length)
      ensures old(dev[i].parent) != -1 ==> enabled <= old(enabled)
      decreases if dev[i].parent == -1 then 1 else 0, 4
    {
      if !f.described {
        DoomOne(dev[..], dcbaa[..], enabled, i);
        DropDoomed(i, {i});
        DropDone(dev[..], dcbaa[..], enabled, {i});
        return false;
      }
      ghost var d := dev[..];
      ok := true;
      if f.devclass == 9 {
        if dev[i].parent == -1 { HubSetup(i, f); }
      } else if f.hasKbd && f.configured {
        SetFields(i, dev[i].(isKbd := true));
      } else {
        assert d[i := d[i]] == d;
      }
    }

    /** The record of a device that described itself, and its ports if it is a hub. */
    ghost static predicate Known(d: seq<Dev>, d': seq<Dev>, i: nat, f: Finding, en: set<nat>, slots: nat)
      requires i < |d| && f.grant.Some?
    {
      var n := Record(f, d[i].rootport, d[i].route, d[i].parent);
      if n.isHub then Scanned(d[i := n], d', i, f.ports, en, slots) else d' == d[i := n]
    }

    /** Writing the keyboard or hub fields of a record, forgetting no port. */
    method SetFields(h: nat, n: Dev)
      requires Valid() && h < MAX_DEVS && dev[h].used
      requires n == dev[h].(isHub := n.isHub, nports := n.nports, conn := n.conn, isKbd := n.isKbd)
      requires (dev[h].isHub ==> n.isHub) && (n.isHub ==> dev[h].isHub || dev[h].parent == -1) && dev[h].conn <= n.conn
      modifies dev
      ensures Valid() && dev[..] == old(dev[..])[h := n]
    {
      ghost var d := dev[..];
      dev[h] := n;
      assert dev[..] == d[h := n];
      MoreFields(d, dcbaa[..], enabled, h, n);
    }

    /** hub_setup: the descriptor and the slot update may fail; then the ports. */
    method HubSetup(i: nat, f: Finding)
      requires Valid() && i < MAX_DEVS && f.grant.Some? && f.Hub()
      requires dev[i] == FREE.(used := true, slot := f.grant.value, rootport := dev[i].rootport, route := dev[i].route)
      modifies this`enabled, dev, dcbaa
      ensures Valid() && KeepsAway(old(dev[..]), dev[..], i)
      ensures Stays(old(dev[..]), dev[..], i) && OnlyBelow(old(dev[..]), dev[..], i)
      ensures Known(old(dev[..]), dev[..], i, f, old(enabled), dcbaa.Length)
      decreases 1, 3
    {
      ghost var d, n := dev[..], Record(f, dev[i].rootport, dev[i].route, -1);
      if !f.hubSeen {
        assert d[i := n] == d;
        return;
      }
      SetFields(i, dev[i].(nports := if f.nports > 15 then 15 else f.nports));
      if !f.marked { return; }
      SetFields(i, dev[i].(isHub := true));
      assert dev[..] == d[i := n];
      ghost var upto := HubScan(i, f.ports);
    }

    /** hub_scan: newly attached ports are enumerated once, detached ones give up their
        devices, the rest stay; the scan covers all ports, or ends at one whose transfers
        fail. Afterwards the hub's attached bits are what the scanned ports reported, and a
        newly attached port has the device that answered there, if it could be set up. */
    method HubScan(h: nat, ports: seq<Port>) returns (ghost upto: nat)
      requires Valid() && IsRootHub(h)
      modifies this`enabled, dev, dcbaa
      ensures Valid() && IsRootHub(h) && KeepsAway(old(dev[..]), dev[..], h)
      ensures Stays(old(dev[..]), dev[..], h) && OnlyBelow(old(dev[..]), dev[..], h)
      ensures ScanDone(old(dev[..]), dev[..], h, ports, upto, old(enabled), dcbaa.Length)
      decreases 1, 2
    {
      var p := 1;
      ghost var d, en := dev[..], enabled;
      while p <= dev[h].nports
        invariant Valid() && IsRootHub(h) && 1 <= p <= d[h].nports + 1 && KeepsAway(d, dev[..], h)
        invariant dev[h] == d[h].(conn := dev[h].conn) && OnlyBelow(d, dev[..], h)
        invariant Noted(d, dev[..], h, ports, p - 1) && KeepsAttached(d, dev[..], h, ports, p - 1)
        invariant forall q :: 1 <= q < p ==> FilledAt(d, dev[..], h, ports, q, en, dcbaa.Length)
        invariant forall s :: s in enabled ==> s in en || exists q :: 1 <= q < p && s in At(ports, q).finding.Granted()
        decreases d[h].nports + 1 - p
      {
        ghost var was := dev[..];
        var port := At(ports, p);
        var stop := ScanPort(h, p, port);
        NotedMore(d, was, dev[..], h, ports, p);
        forall q | 1 <= q < p ensures FilledAt(d, dev[..], h, ports, q, en, dcbaa.Length) {
          FilledStill(d, was, dev[..], h, ports, q, p, en, dcbaa.Length);
        }
        if stop { return if port.answered then p else p - 1; }
        p := p + 1;
      }
      upto := p - 1;
    }

    ghost predicate IsRootHub(h: nat)
      reads this, dev
    {
      h < dev.Length && dev[h].used && dev[h].isHub && dev[h].parent == -1
    }

    /** One port of hub_scan: nothing, a device more at most, or the port's device gone. */
    method ScanPort(h: nat, p: nat, port: Port) returns (stop: bool)
      requires Valid() && IsRootHub(h) && 1 <= p
      modifies this`enabled, dev, dcbaa
      ensures Valid() && IsRootHub(h) && PortStep(old(dev[..]), dev[..], h, p, port)
      ensures Arrives(old(dev[..]), dev[..], h, p, port, old(enabled), dcbaa.Length)
      ensures enabled <= old(enabled) + port.finding.Granted()
      ensures stop <==> !port.answered || (port.attached && p !in old(dev[h].conn) && port.lost)
      decreases 1, 1
    {
      if !port.answered { return true; }
      var was := p in dev[h].conn;
      if port.attached && !was {
        ghost var d := dev[..];
        VacantBelow(d, dcbaa[..], enabled, h, p);
        SetFields(h, dev[h].(conn := dev[h].conn + {p}));
        assert !Below(dev[..], h, p) by { NoMoreBelow(d, dev[..], h, p); }
        if port.lost { return true; }
        if !port.enabled { return false; }
        assert Vacant(dev[..], dev[h].rootport, p);
        ghost var d1 := dev[..];
        var ok := EnumDevice(dev[h].rootport, p, h, port.finding);
      } else if !port.attached && was {
        DropBelow(h, p);
      }
      stop := false;
    }

    /** The detached branch of hub_scan: the port's bit and its device go, nothing else. */
    method DropBelow(h: nat, p: nat)
      requires Valid() && IsRootHub(h) && 1 <= p
      modifies this`enabled, dev, dcbaa
      ensures Valid() && IsRootHub(h)
      ensures enabled <= old(enabled)
      ensures dev[h] == old(dev[h].(conn := dev[h].conn - {p}))
      ensures forall k :: 0 <= k < MAX_DEVS && k != h ==>
                dev[k] ==
                old(if dev[k].used && dev[k].parent == h && dev[k].route == p then dev[k].(used := false) else dev[k])
    {
      hide TableOk, TableBut;
      ghost var d := dev[..];
      ghost var doomed := set i | 0 <= i < MAX_DEVS && d[i].used && d[i].parent == h && d[i].route == p;
      DoomChild(d, dcbaa[..], enabled, h, p);
      dev[h] := dev[h].(conn := dev[h].conn - {p});
      ghost var d1 := d[h := d[h].(conn := d[h].conn - {p})];
      assert dev[..] == d1 && Without(d1, doomed, 0) == d1 && h !in doomed;
      for i := 0 to MAX_DEVS
        invariant dev.Length == MAX_DEVS && TableBut(dev[..], dcbaa[..], enabled, doomed)
        invariant dev[..] == Without(d1, doomed, i) && enabled <= old(enabled)
      {
        OneLess(d1, doomed, i);
        assert dev[i] == d1[i];
        if dev[i].used && dev[i].parent == h && dev[i].route == p {
          DropDoomed(i, doomed);
        }
      }
      DropDone(dev[..], dcbaa[..], enabled, doomed);
    }

    method DevOnRoot(port: nat) returns (found: bool)
      requires Valid()
      ensures found <==> OnRoot(dev[..], port)
    {
      for i := 0 to MAX_DEVS
        invariant forall k :: 0 <= k < i ==> !(dev[k].used && dev[k].rootport == port && dev[k].route == 0)
      {
        if dev[i].used && dev[i].rootport == port && dev[i].route == 0 { return true; }
      }
      found := false;
    }

    /** port_scan: a disconnected root port loses its device and everything below it, and
        nothing else goes; a connected one that has its device is left alone; an empty one is
        enumerated once it is ready. */
    method PortScan(port: nat, connected: bool, ready: bool, f: Finding)
      requires Valid()
      modifies this`enabled, dev, dcbaa
      ensures Valid()
      ensures PortDone(old(dev[..]), dev[..], old(enabled), dcbaa.Length, port, connected, ready, f)
      ensures connected && (!ready || OnRoot(old(dev[..]), port)) ==> dcbaa[..] == old(dcbaa[..])
    {
      if !connected {
        ghost var d := dev[..];
        DropPort(port);
        forall i | 0 <= i < MAX_DEVS ensures dev[..][i] == Unplugged(d[i], port) {
          assert dev[..][i] == dev[i];
        }
        return;
      }
      var found := DevOnRoot(port);
      if found || !ready { return; }
      assert Vacant(dev[..], port, 0);
      var ok := EnumDevice(port, 0, -1, f);
    }

    method DropPort(port: nat)
      requires Valid()
      modifies this`enabled, dev, dcbaa
      ensures Valid()
      ensures forall i :: 0 <= i < MAX_DEVS ==>
                dev[i] == old(if dev[i].used && dev[i].rootport == port then dev[i].(used := false) else dev[i])
    {
      ghost var d := dev[..];
      ghost var doomed := set i | 0 <= i < MAX_DEVS && d[i].used && d[i].rootport == port;
      DoomPort(d, dcbaa[..], enabled, port);
      for i := 0 to MAX_DEVS
        invariant dev.Length == MAX_DEVS && TableBut(dev[..], dcbaa[..], enabled, doomed)
        invariant forall k :: 0 <= k < MAX_DEVS ==>
                  dev[k] == if k in doomed && k < i then d[k].(used := false) else d[k]
      {
        if dev[i].used && dev[i].rootport == port {
          DropDoomed(i, doomed);
        }
      }
      DropDone(dev[..], dcbaa[..], enabled, doomed);
    }

    ghost function Now(): Moment
      reads this, dev
    {
      Moment(dev[..], enabled)
    }

    /** Over any run of port scans and hub rescans, whatever the controller answers: each scan
        does what it is for, and each entry of the slot array belongs to exactly one used
        record, and conversely. */
    method Run(ops: seq<Scan>) returns (ghost log: seq<Moment>)
      requires Valid()
      modifies this`enabled, dev, dcbaa
      ensures Valid()
      ensures AllDone(ops, log, dcbaa.Length) && log[0] == old(Now()) && log[|ops|] == Now()
      ensures forall s :: 1 <= s < dcbaa.Length ==>
                (dcbaa[s] != 0 <==> exists i :: 0 <= i < MAX_DEVS && dev[i].used && dev[i].slot == s)
      ensures forall i, j :: 0 <= i < j < MAX_DEVS && dev[i].used && dev[j].used ==> dev[i].slot != dev[j].slot
    {
      hide Did, Now, Valid;
      log := [Now()];
      for i := 0 to |ops|
        invariant Valid() && |log| == i + 1 && log[0] == old(Now()) && log[i] == Now()
        invariant forall j :: 0 <= j < i ==> Did(ops[j], log[j], log[j + 1], dcbaa.Length)
      {
        Step(ops[i]);
        log := log + [Now()];
      }
      ReadOff();
    }

    method Step(op: Scan)
      requires Valid()
      modifies this`enabled, dev, dcbaa
      ensures Valid() && Did(op, old(Now()), Now(), dcbaa.Length)
    {
      hide PortDone, ScanDone, TableOk;
      match op {
        case RootPort(port, connected, ready, f) => PortScan(port, connected, ready, f);
        case Hub(h, ports) =>
          if h < MAX_DEVS && dev[h].used && dev[h].isHub {
            HubOnRoot(h);
            ghost var upto := HubScan(h, ports);
          }
      }
    }

    lemma HubOnRoot(h: nat)
      requires Valid() && h < MAX_DEVS && dev[h].used && dev[h].isHub
      ensures IsRootHub(h)
    {
      assert Placed(dev[..], h);
    }

    lemma ReadOff()
      requires Valid()
      ensures forall s :: 1 <= s < dcbaa.Length ==>
                (dcbaa[s] != 0 <==> exists i :: 0 <= i < MAX_DEVS && dev[i].used && dev[i].slot == s)
      ensures forall i, j :: 0 <= i < j < MAX_DEVS && dev[i].used && dev[j].used ==> dev[i].slot != dev[j].slot
    {
      var d, dc := dev[..], dcbaa[..];
      forall s | 1 <= s < dcbaa.Length
        ensures dcbaa[s] != 0 <==> exists i :: 0 <= i < MAX_DEVS && dev[i].used && dev[i].slot == s
      {
        assert Claimed(d, dc, s);
        if dc[s] != 0 {
          var i :| 0 <= i < |d| && d[i].used && d[i].slot == s;
          assert dev[i].used && dev[i].slot == s;
        }
        forall i | 0 <= i < MAX_DEVS && dev[i].used && dev[i].slot == s ensures dcbaa[s] != 0 {
          assert OwnsSlot(d, dc, enabled, i);
        }
      }
      forall i, j | 0 <= i < j < MAX_DEVS && dev[i].used && dev[j].used ensures dev[i].slot != dev[j].slot {
        assert Distinct(d, i, j);
      }
    }
  }
}
