/** Whole runs of the ARP cache: any sequence of its operations, from enabling it on. */
module ArpRuns {
  import opened Rings
  import opened ArpLists
  import opened ArpEntries
  import opened ArpCache
  import opened ArpTimers

  datatype Operation =
    | DynamicSet(ip: Ulong, msw: Ulong, lsw: Ulong, route: Pointer)
    | StaticCreate(ip: Ulong, msw: Ulong, lsw: Ulong, route: Pointer)
    | StaticDelete(ip: Ulong, msw: Ulong, lsw: Ulong)
    | StaticDeleteAll
    | Delete(ip: Ulong)
    | Invalidate
    | InterfaceDelete(index: nat)
    | Update
    | Receive(senderIp: Ulong, msw: Ulong, lsw: Ulong, interface: nat, ownIp: Ulong, probeIp: Ulong)
    | Send(destination: Ulong, packet: Packet, interface: nat, fragmentOkay: bool)
    | Find(ip: Ulong)

  /** What the callers of the operations have to see to. */
  predicate Allowed(op: Operation, interfaces: nat) {
    match op
    case DynamicSet(_, _, _, route) => route.To? ==> route.node < interfaces
    case StaticCreate(_, msw, lsw, route) => (route.To? ==> route.node < interfaces) && HasAddress(msw, lsw)
    case Receive(_, _, _, interface, _, _) => interface < interfaces
    case Send(_, _, interface, _) => interface < interfaces
    case _ => true
  }

  /** The operations that may leave an inactive entry before active ones. */
  predicate Disorders(op: Operation) {
    op.Delete? || op.InterfaceDelete?
  }

  /** Not a message without a hardware address. */
  predicate GivesAddress(op: Operation) {
    op.Receive? ==> HasAddress(op.msw, op.lsw)
  }

  /** Every packet is handed over once. */
  ghost predicate PacketsDiffer(ops: seq<Operation>) {
    forall i, j :: 0 <= i < j < |ops| && ops[i].Send? && ops[j].Send? ==> ops[i].packet != ops[j].packet
  }

  datatype Snapshot = Snapshot(fates: map<Packet, Fate>, info: seq<Mapping>)

  ghost predicate Follows(a: Snapshot, b: Snapshot) {
    Kept(a.fates, a.info, b.fates, b.info)
  }

  /** Later snapshots keep what earlier ones have. */
  ghost predicate Steady(history: seq<Snapshot>) {
    forall i, j :: 0 <= i <= j < |history| ==> Follows(history[i], history[j])
  }

  lemma SteadyMore(history: seq<Snapshot>, s: Snapshot)
    requires Steady(history) && history != [] && Follows(history[|history| - 1], s)
    ensures Steady(history + [s])
  {
    var last := history[|history| - 1];
    KeptSame(s.fates, s.info);
    forall i | 0 <= i < |history|
      ensures Follows(history[i], s)
    {
      assert Follows(history[i], last);
      KeptTwice(history[i].fates, history[i].info, last.fates, last.info, s.fates, s.info);
    }
  }

  /** Carries out one operation. */
  method Step(cache: ArpCache, op: Operation)
    requires cache.Valid() && Allowed(op, |cache.mtu|) && (op.Send? ==> op.packet !in cache.handedOver)
    modifies cache, cache.lists
    ensures cache.Valid() && Kept(old(cache.fates), old(cache.info), cache.fates, cache.info)
    ensures !Disorders(op) && old(cache.lists.MostRecentFirst()) ==> cache.lists.MostRecentFirst()
    ensures GivesAddress(op) && old(cache.NoneStopped()) ==> cache.NoneStopped()
    ensures cache.handedOver <= old(cache.handedOver) + (if op.Send? then {op.packet} else {})
  {
    hide ArpCache.Valid, Kept, ArpLists.MostRecentFirst;
    KeptSame(cache.fates, cache.info);
    match op {
      case DynamicSet(ip, msw, lsw, route) =>
        var status, x := cache.DynamicEntrySet(ip, msw, lsw, route);
      case StaticCreate(ip, msw, lsw, route) =>
        var status, x := cache.StaticEntryCreate(ip, msw, lsw, route);
      case StaticDelete(ip, msw, lsw) =>
        var status, x := cache.StaticEntryDelete(ip, msw, lsw);
      case StaticDeleteAll =>
        cache.StaticEntriesDelete();
      case Delete(ip) =>
        var status, x := cache.EntryDelete(ip);
      case Invalidate =>
        cache.DynamicEntriesInvalidate();
      case InterfaceDelete(index) =>
        cache.InterfaceEntriesDelete(index);
      case Update =>
        cache.PeriodicUpdate();
        ClocksRun(old(cache.clocks), cache.visited[|old(cache.visited)|..]);
      case Receive(ip, msw, lsw, interface, ownIp, probeIp) =>
        ghost var x := cache.PacketReceive(ip, msw, lsw, interface, ownIp, probeIp);
      case Send(destination, packet, interface, fragmentOkay) =>
        var r, x := cache.PacketSend(destination, packet, interface, fragmentOkay);
      case Find(ip) =>
        var status, msw, lsw := cache.HardwareAddressFind(ip);
    }
  }

  ghost function SentIn(ops: seq<Operation>): set<Packet> {
    set i | 0 <= i < |ops| && ops[i].Send? :: ops[i].packet
  }

  lemma ClocksRun(clocks: seq<Clock>, visits: seq<nat>)
    ensures (forall x :: 0 <= x < |clocks| ==> clocks[x].Running?) ==>
              forall x :: 0 <= x < |clocks| ==> AgedBy(clocks, visits)[x].Running?
  {
    if forall x :: 0 <= x < |clocks| ==> clocks[x].Running? {
      AgedRun(clocks, visits);
    }
  }

  /** An active dynamic entry without an address has a running timer, which gives it no more than a
      request's life. */
  ghost predicate AllTimed(cache: ArpCache)
    reads cache, cache.lists
  {
    forall x :: 0 <= x < |cache.info| && x < |cache.lists.activeListHead|
                && Unresolved(cache.info[x], cache.lists.activeListHead[x], x in cache.lists.statics) ==>
      1 <= cache.info[x].nextUpdate <= UPDATE_RATE && VisitsLeft(cache.info[x]) <= LIFETIME
  }

  lemma TimersRun(cache: ArpCache)
    requires cache.Valid()
    ensures cache.NoneStopped() ==> AllTimed(cache)
  {
    hide ArpCache.Accounted, ArpLists.Valid;
  }

  /** Runs a cache from the moment it is enabled. After any run the lists, the buckets and the counters
      are right, no two active entries have the same address, and every packet that was not sent at once
      is in exactly one place; from each moment of the run to any later one no packet is lost, disposed
      of twice or left waiting for another address. Unless entries were deleted one by one or by
      interface, the active entries of the dynamic list come first. */
  method Execute(arpEntries: nat, mtu: seq<nat>, canFragment: bool, ops: seq<Operation>)
    returns (cache: ArpCache, ghost history: seq<Snapshot>)
    requires arpEntries >= 1 && PacketsDiffer(ops)
    requires forall i :: 0 <= i < |ops| ==> Allowed(ops[i], |mtu|)
    ensures fresh(cache) && fresh(cache.lists) && cache.Valid()
    ensures |history| == |ops| + 1 && Steady(history) && history[|ops|] == Snapshot(cache.fates, cache.info)
    ensures cache.handedOver <= SentIn(ops)
    ensures (forall i :: 0 <= i < |ops| ==> !Disorders(ops[i])) ==> cache.lists.MostRecentFirst()
    ensures (forall i :: 0 <= i < |ops| ==> GivesAddress(ops[i])) ==> cache.NoneStopped() && AllTimed(cache)
  {
    hide ArpCache.Valid, ArpCache.NoneStopped, Kept, ArpLists.MostRecentFirst, Steady, Follows, AllTimed;
    cache := new ArpCache(arpEntries, mtu, canFragment);
    history := [Snapshot(cache.fates, cache.info)];
    SteadyOne(cache.fates, cache.info);
    for i := 0 to |ops|
      invariant fresh(cache) && fresh(cache.lists) && cache.Valid() && cache.mtu == mtu
      invariant |history| == i + 1 && Steady(history) && history[i] == Snapshot(cache.fates, cache.info)
      invariant cache.handedOver <= SentIn(ops[..i])
      invariant (forall j :: 0 <= j < i ==> !Disorders(ops[j])) ==> cache.lists.MostRecentFirst()
      invariant (forall j :: 0 <= j < i ==> GivesAddress(ops[j])) ==> cache.NoneStopped()
    {
      SentMore(ops, i);
      label before:
      Step(cache, ops[i]);
      StepFollows(old@before(cache.fates), old@before(cache.info), cache.fates, cache.info);
      SteadyMore(history, Snapshot(cache.fates, cache.info));
      history := history + [Snapshot(cache.fates, cache.info)];
    }
    assert ops[..|ops|] == ops;
    TimersRun(cache);
  }

  lemma SteadyOne(fates: map<Packet, Fate>, info: seq<Mapping>)
    ensures Steady([Snapshot(fates, info)])
  {
    KeptSame(fates, info);
  }

  lemma StepFollows(fates: map<Packet, Fate>, info: seq<Mapping>, fates': map<Packet, Fate>, info': seq<Mapping>)
    requires Kept(fates, info, fates', info')
    ensures Follows(Snapshot(fates, info), Snapshot(fates', info'))
  {
  }

  lemma SentMore(ops: seq<Operation>, i: nat)
    requires i < |ops| && PacketsDiffer(ops)
    ensures ops[i].Send? ==> ops[i].packet !in SentIn(ops[..i])
    ensures SentIn(ops[..i + 1]) == SentIn(ops[..i]) + if ops[i].Send? then {ops[i].packet} else {}
  {
    var before, after := ops[..i], ops[..i + 1];
    assert after == before + [ops[i]];
    forall p
      ensures p in SentIn(after) <==> p in SentIn(before) || (ops[i].Send? && p == ops[i].packet)
    {
      if p in SentIn(before) {
        var j :| 0 <= j < |before| && before[j].Send? && before[j].packet == p;
        assert after[j] == before[j];
      }
      if ops[i].Send? && p == ops[i].packet {
        assert after[i] == ops[i];
      }
    }
  }

  // ---------------------------------------------------------------- what can happen

  /** A single deletion leaves the entry's mapping in place, where a lookup still finds it. */
  method FindAfterDelete(ip: Ulong, msw: Ulong, lsw: Ulong) returns (status: Status, cache: ArpCache)
    requires HasAddress(msw, lsw)
    ensures cache.Valid() && status.Success? && !cache.HasEntry(ip) && cache.IsStale(ip)
  {
    hide ArpCache.Valid, ArpLists.Valid, Kept, ArpLists.MostRecentFirst, EntriesAgree;
    cache := new ArpCache(1, [1500], true);
    ghost var x, y;
    OnlyEntry(cache);
    status, x := cache.DynamicEntrySet(ip, msw, lsw, To(0));
    OnlyEntry(cache);
    assert x == 0 && cache.IsActive(0);
    status, y := cache.EntryDelete(ip);
    assert y == 0 && !cache.IsActive(0);
    OnlyEntry(cache);
    assert cache.DynamicMatches(0, ip);
    var foundMsw, foundLsw;
    status, foundMsw, foundLsw := cache.HardwareAddressFind(ip);
    assert cache.Reach() > 0 && cache.DynamicMatches(0, ip);
  }

  lemma OnlyEntry(cache: ArpCache)
    requires cache.Valid()
    ensures |cache.info| == |cache.lists.activeListHead| == cache.lists.Size() == |cache.packetsWaiting|
    ensures cache.lists.Size() == 1 && !cache.IsActive(0) ==> |cache.lists.dynamics| > 0 && cache.lists.dynamics[0] == 0
  {
    if cache.lists.Size() == 1 {
      cache.FlagIsRight(0);
      cache.DynamicWalk(0);
    }
  }

  /** What is active, and where the entries lie. */
  lemma WhatIsActive(cache: ArpCache)
    requires cache.Valid()
    ensures cache.lists.Valid() && |cache.info| == |cache.lists.activeListHead| == |cache.clocks| == cache.lists.Size()
    ensures forall i :: 0 <= i < |cache.info| ==>
              (cache.IsActive(i) <==> i in cache.lists.active || i in cache.lists.statics)
  {
    forall i | 0 <= i < |cache.info|
      ensures cache.IsActive(i) <==> i in cache.lists.active || i in cache.lists.statics
    {
      cache.lists.EntryMarked(i);
    }
  }

  /** The two entries of a cache, set one after the other for different addresses. */
  method SetTwo(ip: Ulong, other: Ulong, msw: Ulong, lsw: Ulong) returns (cache: ArpCache, ghost x: nat, ghost y: nat)
    requires ip != other
    ensures fresh(cache) && fresh(cache.lists) && cache.Valid() && cache.lists.MostRecentFirst()
    ensures |cache.info| == |cache.clocks| == |cache.lists.activeListHead| == 2 && x < 2 && y < 2 && x != y
    ensures cache.lists.dynamics == [y, x] && cache.lists.statics == [] && cache.lists.active == {x, y}
    ensures cache.info[x].ip == ip && cache.info[y].ip == other
    ensures forall i :: 0 <= i < 2 ==>
              cache.IsActive(i) && cache.clocks[i] == Running(0) && cache.info[i].msw == msw && cache.info[i].lsw == lsw
  {
    hide ArpCache.Valid, ArpLists.Valid, ArpLists.MostRecentFirst, Kept;
    cache := new ArpCache(2, [1500], true);
    WhatIsActive(cache);
    var status;
    status, x := cache.DynamicEntrySet(ip, msw, lsw, To(0));
    WhatIsActive(cache);
    assert cache.lists.dynamics[..1] == [x];
    status, y := cache.DynamicEntrySet(other, msw, lsw, To(0));
    WhatIsActive(cache);
    assert cache.lists.dynamics == [y, x];
    cache.ActiveIsCounted();
    assert cache.lists.dynamics[0] == y && cache.lists.dynamics[1] == x;
    cache.ActiveOnList();
    cache.DynamicWalk(0);
    cache.DynamicWalk(1);
    assert cache.lists.active == {x, y};
  }

  /** A deletion of the more recent of two entries makes a lookup of the other fail, which is still active. */
  method NotFoundAfterDelete(ip: Ulong, other: Ulong, msw: Ulong, lsw: Ulong) returns (status: Status, cache: ArpCache)
    requires ip != other && HasAddress(msw, lsw)
    ensures cache.Valid() && status.EntryNotFound? && cache.Resolves(ip) && cache.IsOverlooked(ip)
  {
    hide ArpCache.Valid, ArpLists.Valid, Kept, ArpLists.MostRecentFirst;
    ghost var x, y, z;
    cache, x, y := SetTwo(ip, other, msw, lsw);
    status, z := cache.EntryDelete(other);
    assert z == y;
    WhatIsActive(cache);
    cache.ActiveIsCounted();
    cache.ActiveOnList();
    assert cache.lists.active == {x};
    assert cache.IsMapping(x, ip) && cache.Reach() == 1;
    var foundMsw, foundLsw;
    status, foundMsw, foundLsw := cache.HardwareAddressFind(ip);
  }

  /** An entry that a message without a hardware address sets is active and never expires. */
  method NeverExpires(ip: Ulong) returns (cache: ArpCache, ghost x: nat)
    requires ip != 0
    ensures cache.Valid() && x < |cache.info| == |cache.lists.activeListHead| && cache.info[x].ip == ip
    ensures Unresolved(cache.info[x], cache.lists.activeListHead[x], x in cache.lists.statics)
    ensures forall visits :: !ExpiresWithin(cache.info[x], visits)
  {
    hide ArpLists.Valid, Kept, ArpLists.MostRecentFirst;
    cache := new ArpCache(1, [1500], true);
    x := cache.PacketReceive(ip, 0, 0, 0, 0, 0);
    cache.FlagIsRight(x);
    forall visits
      ensures !ExpiresWithin(cache.info[x], visits)
    {
      cache.UnresolvedExpires(x, visits);
    }
  }

  /** All the entries, two at least, were asked for at the same time, "visits" updates ago. */
  ghost predicate AskedTogether(cache: ArpCache, visits: nat)
    reads cache, cache.lists
  {
    && cache.Valid() && cache.lists.MostRecentFirst() && cache.lists.statics == []
    && |cache.lists.dynamics| == |cache.lists.active| >= 2
    && forall i :: 0 <= i < |cache.info| && i < |cache.clocks| && i < |cache.lists.activeListHead| ==>
         Unresolved(cache.info[i], cache.lists.activeListHead[i], false) && cache.clocks[i] == Running(visits)
  }

  /** The lists and the walk over them, if so. */
  lemma WalkTogether(cache: ArpCache, visits: nat)
    requires AskedTogether(cache, visits)
    ensures Known(cache.lists.dynamics, cache.info) && |cache.lists.dynamics| == |cache.lists.active|
    ensures |cache.info| == |cache.lists.activeListHead| == |cache.clocks| == cache.lists.Size()
    ensures FirstAre(cache.lists.dynamics, cache.lists.active, |cache.lists.active|)
    ensures forall x :: x in cache.lists.active ==> x in cache.lists.dynamics
    ensures forall i :: 0 <= i < |cache.info| ==> i in cache.lists.dynamics
    ensures forall k :: 0 <= k < |cache.lists.dynamics| ==>
              (Expires(cache.lists.dynamics, cache.info, k) <==> visits == LIFETIME - 1)
  {
    cache.ActiveIsCounted();
    cache.ActiveOnList();
    forall i | 0 <= i < |cache.info|
      ensures i in cache.lists.dynamics
    {
      cache.FlagIsRight(i);
    }
    forall k | 0 <= k < |cache.lists.dynamics|
      ensures cache.lists.dynamics[k] < |cache.info|
      ensures Expires(cache.lists.dynamics, cache.info, k) <==> visits == LIFETIME - 1
    {
      cache.DynamicWalk(k);
      var x := cache.lists.dynamics[k];
      cache.EntryIs(x);
      VisitTimed(cache.info[x], cache.lists.activeListHead[x], false, cache.clocks[x]);
    }
  }

  /** They tick together. */
  method UpdateTogether(cache: ArpCache, ghost visits: nat)
    requires AskedTogether(cache, visits) && visits < LIFETIME - 1
    modifies cache, cache.lists
    ensures AskedTogether(cache, visits + 1)
  {
    hide ArpCache.Valid, ArpLists.MostRecentFirst, Kept, Tick, TickFrom, VisitsFrom, AgedBy, Distinct, FirstAre;
    WalkTogether(cache, visits);
    ghost var list, info, active, clocks := cache.lists.dynamics, cache.info, cache.lists.active, cache.clocks;
    NoneExpires(list, info, active, 0);
    EachOnceUnlessExpiry(list, info, active);
    cache.PeriodicUpdate();
    ghost var seen := VisitsFrom(list, info, active, 0, 0);
    ghost var counts: multiset<nat> := multiset(seen);
    WhatIsActive(cache);
    forall i: nat | i < |cache.info| && i < |cache.clocks| && i < |cache.lists.activeListHead|
      ensures Unresolved(cache.info[i], cache.lists.activeListHead[i], false) && cache.clocks[i] == Running(visits + 1)
    {
      var k := Place(list, i);
      ClockCounts(clocks, seen, i);
      assert counts[i] == 1;
      TickKeeps(info[i]);
      cache.FlagIsRight(i);
    }
  }

  lemma TickKeeps(m: Mapping)
    ensures Tick(m).0.msw == m.msw && Tick(m).0.lsw == m.lsw && Tick(m).0.ip == m.ip
  {
  }

  /** And the update at which the first of them expires misses the last. */
  method UpdateMisses(cache: ArpCache) returns (ghost missed: nat)
    requires AskedTogether(cache, LIFETIME - 1)
    modifies cache, cache.lists
    ensures cache.Valid() && cache.lists.MostRecentFirst()
    ensures missed in cache.lists.active && missed < |cache.clocks| && cache.clocks[missed] == Running(LIFETIME - 1)
    ensures |cache.visited| >= |old(cache.visited)| && missed !in cache.visited[|old(cache.visited)|..]
  {
    hide ArpCache.Valid, ArpLists.MostRecentFirst, Kept, Tick, TickFrom, VisitsFrom, AskersFrom, RequestsTo, FreedIn;
    hide AgedBy, Distinct, FirstAre;
    WalkTogether(cache, LIFETIME - 1);
    ghost var list, info, active, clocks := cache.lists.dynamics, cache.info, cache.lists.active, cache.clocks;
    assert Expires(list, info, 0);
    EachOnceUnlessExpiry(list, info, active);
    missed := list[|active| - 1];
    ghost var visits := VisitsFrom(list, info, active, 0, 0);
    NotVisited(list, info, active, 0, 0, missed);
    ClockCounts(clocks, visits, missed);
    cache.PeriodicUpdate();
  }

  /** Two entries that are asked for at the same time get no reply: after as many updates as an entry lives
      visits the more recent one expires, and the update misses the other, although the active entries
      come first all the time. */
  method MissedVisit(ip: Ulong, other: Ulong) returns (cache: ArpCache, ghost updates: nat, ghost missed: nat)
    requires ip != other
    ensures cache.Valid() && cache.lists.MostRecentFirst() && updates == LIFETIME
    ensures missed in cache.lists.active && missed < |cache.clocks| && cache.clocks[missed] == Running(updates - 1)
  {
    hide ArpCache.Valid, ArpLists.MostRecentFirst;
    ghost var x, y;
    cache, x, y := SetTwo(ip, other, 0, 0);
    updates := 0;
    for i := 0 to LIFETIME - 1
      invariant fresh(cache) && fresh(cache.lists) && AskedTogether(cache, i) && updates == i
    {
      UpdateTogether(cache, i);
      updates := updates + 1;
    }
    missed := UpdateMisses(cache);
    updates := updates + 1;
  }
}
