/** The ARP cache: the mappings of its entries, and the packets that wait for an address to be resolved
    (nx_arp_*.c, and the part of nx_ip_driver_packet_send.c that uses the cache). */
module ArpCache {
  import opened Rings
  import opened ArpLists
  import opened ArpEntries

  class ArpCache {
    const lists: ArpLists
    /** The MTU of each interface, and whether there is a fragmentation routine. */
    const mtu: seq<nat>
    const canFragment: bool
    var info: seq<Mapping>
    var packetsWaiting: seq<seq<Packet>>
    var sendPacketsDropped: nat
    var totalPacketsSent: nat
    var transmitResourceErrors: nat
    /** The ARP requests sent, as pairs of address and interface. */
    var requestsSent: seq<(Ulong, Pointer)>

    /** Every packet ever handed over that was not sent at once, and where it is; the released ones in
        order, and what the drop counter was before the first. */
    ghost var handedOver: set<Packet>
    ghost var fates: map<Packet, Fate>
    ghost var released: seq<Packet>
    ghost const droppedBefore: nat
    /** How often each entry was visited since it was set, and all the visits in order. */
    ghost var clocks: seq<Clock>
    ghost var visited: seq<nat>

    predicate IsActive(i: nat)
      requires i < |lists.activeListHead|
      reads lists`activeListHead
    {
      lists.activeListHead[i].To?
    }

    /** Each packet is where its fate says: in exactly one queue, with the driver, with the fragmenter, or
        released and counted as dropped once. The queues include what was just detached from an entry. */
    ghost predicate Accounted(queues: seq<seq<Packet>>)
      reads this`handedOver, this`fates, this`released, this`sendPacketsDropped
    {
      && handedOver == fates.Keys && InQueues(queues, fates) && Logged(released, fates)
      && sendPacketsDropped == droppedBefore + |released|
    }

    ghost predicate Entries(except: set<nat>)
      reads this`info, this`packetsWaiting, this`clocks, lists`poolNext, lists`activeListHead, lists`statics
    {
      && |info| == |packetsWaiting| == |lists.activeListHead| == |clocks| == lists.Size()
      && EntriesAgree(info, packetsWaiting, lists.activeListHead, lists.statics, |mtu|, clocks, except)
    }

    ghost predicate Valid()
      reads this, lists
    {
      lists.Valid() && Entries({}) && Accounted(packetsWaiting)
    }

    /** No entry was last set by a message without a hardware address. */
    ghost predicate NoneStopped()
      reads this`clocks
    {
      forall i :: 0 <= i < |clocks| ==> clocks[i].Running?
    }

    /** _nx_arp_enable, which clears the cache memory. */
    constructor (arpEntries: nat, mtu: seq<nat>, canFragment: bool)
      requires arpEntries >= 1
      ensures Valid() && fresh(lists) && lists.MostRecentFirst() && lists.Size() == arpEntries
      ensures this.mtu == mtu && this.canFragment == canFragment && |lists.dynamics| == arpEntries
      ensures handedOver == {} && released == [] && lists.statics == [] && lists.active == {}
      ensures NoneStopped() && visited == []
    {
      this.mtu, this.canFragment := mtu, canFragment;
      lists := new ArpLists(arpEntries);
      info := seq(arpEntries, i => Mapping(0, 0, 0, Null, 0, 0));
      packetsWaiting := seq(arpEntries, i => []);
      sendPacketsDropped, totalPacketsSent, transmitResourceErrors := 0, 0, 0;
      requestsSent := [];
      handedOver, fates, released, droppedBefore := {}, map[], [], 0;
      clocks, visited := seq(arpEntries, i => Running(0)), [];
    }

    // -------------------------------------------------------------- packets

    /** _nx_packet_transmit_release of a packet taken from an entry's queue, which counts as a drop. */
    method Drop(packet: Packet, ghost x: nat, ghost queues: seq<seq<Packet>>)
      requires Accounted(queues) && x < |queues| && queues[x] != [] && queues[x][0] == packet
      modifies this`sendPacketsDropped, this`released, this`fates
      ensures Accounted(queues[x := queues[x][1..]]) && fates == old(fates)[packet := Released]
      ensures sendPacketsDropped == old(sendPacketsDropped) + 1
    {
      TakeFirst(queues, fates, x, Released);
      LogMore(released, fates, packet);
      sendPacketsDropped := sendPacketsDropped + 1;
      released := released + [packet];
      fates := fates[packet := Released];
    }

    /** The packets of entry x's queue were released, each counted as dropped once. */
    ghost predicate Dropped(before: map<Packet, Fate>, dropped: nat, x: nat, queue: seq<Packet>)
      reads this`fates, this`sendPacketsDropped
    {
      Freed(before, fates, x) && sendPacketsDropped == dropped + |queue|
    }

    /** The packets of entry x's queue were sent, as far as their lengths allow, and counted as sent or as
        dropped; fragments are not counted here. */
    ghost predicate Delivered(before: map<Packet, Fate>, sent: nat, dropped: nat, x: nat, queue: seq<Packet>,
                              interface: nat)
      requires interface < |mtu|
      reads this`fates, this`totalPacketsSent, this`sendPacketsDropped
    {
      && Sent(before, fates, x, mtu[interface], canFragment)
      && totalPacketsSent == sent + Fitting(queue, mtu[interface])
      && sendPacketsDropped == dropped + if canFragment then 0 else |queue| - Fitting(queue, mtu[interface])
    }

    /** Detaches the queue of an entry and releases its packets, as the loops of
        _nx_arp_dynamic_entry_delete and _nx_arp_periodic_update do. */
    method ReleaseQueue(x: nat)
      requires Accounted(packetsWaiting) && x < |packetsWaiting|
      modifies this`packetsWaiting, this`sendPacketsDropped, this`released, this`fates
      ensures packetsWaiting == old(packetsWaiting)[x := []] && Accounted(packetsWaiting)
      ensures Dropped(old(fates), old(sendPacketsDropped), x, old(packetsWaiting[x]))
    {
      hide InQueues, Logged, Disposed, Queued, Freed;
      var nextPacket := packetsWaiting[x];
      ghost var queues := packetsWaiting;
      NoneYet(fates, x, queues, Disposal.Drop);
      packetsWaiting := packetsWaiting[x := []];
      while nextPacket != []
        invariant packetsWaiting == old(packetsWaiting)[x := []]
        invariant queues == old(packetsWaiting)[x := nextPacket] && Accounted(queues)
        invariant Queued(x, nextPacket, old(fates)) && Disposed(old(fates), fates, x, nextPacket, Disposal.Drop)
        invariant sendPacketsDropped + |nextPacket| == old(sendPacketsDropped) + |old(packetsWaiting[x])|
        decreases |nextPacket|
      {
        var packet := nextPacket[0];
        OneMore(old(fates), fates, x, nextPacket, Disposal.Drop, Released);
        nextPacket := nextPacket[1..];
        Drop(packet, x, queues);
        queues := queues[x := nextPacket];
      }
      AllDisposed(old(fates), fates, x, Disposal.Drop);
    }

    /** _nx_arp_queue_send: detaches the queue of an entry and sends, fragments or drops its packets. */
    method QueueSend(x: nat)
      requires Accounted(packetsWaiting) && x < |packetsWaiting| == |info|
      requires info[x].interface.To? && info[x].interface.node < |mtu|
      modifies this`packetsWaiting, this`sendPacketsDropped, this`totalPacketsSent, this`released, this`fates
      ensures packetsWaiting == old(packetsWaiting)[x := []] && Accounted(packetsWaiting)
      ensures Delivered(old(fates), old(totalPacketsSent), old(sendPacketsDropped), x, old(packetsWaiting[x]),
                        info[x].interface.node)
    {
      hide InQueues, Logged, Disposed, Queued, Sent;
      var queued := packetsWaiting[x];
      ghost var queues := packetsWaiting;
      var mtuSize := mtu[info[x].interface.node];
      ghost var way := Transmit(mtuSize, canFragment);
      NoneYet(fates, x, queues, way);
      packetsWaiting := packetsWaiting[x := []];
      while queued != []
        invariant packetsWaiting == old(packetsWaiting)[x := []]
        invariant queues == old(packetsWaiting)[x := queued] && Accounted(queues)
        invariant Queued(x, queued, old(fates)) && Disposed(old(fates), fates, x, queued, way)
        invariant totalPacketsSent + Fitting(queued, mtuSize) ==
                  old(totalPacketsSent) + Fitting(old(packetsWaiting[x]), mtuSize)
        invariant sendPacketsDropped + (if canFragment then 0 else |queued| - Fitting(queued, mtuSize)) ==
                  old(sendPacketsDropped)
                  + if canFragment then 0 else |old(packetsWaiting[x])| - Fitting(old(packetsWaiting[x]), mtuSize)
        decreases |queued|
      {
        var packet := queued[0];
        ghost var rest := queued;
        queued := queued[1..];
        if packet.length > mtuSize {
          if canFragment {
            OneMore(old(fates), fates, x, rest, way, Fragmented);
            HandOver(packet, Fragmented, x, queues);
          } else {
            OneMore(old(fates), fates, x, rest, way, Released);
            Drop(packet, x, queues);
          }
        } else {
          totalPacketsSent := totalPacketsSent + 1;
          OneMore(old(fates), fates, x, rest, way, Driven);
          HandOver(packet, Driven, x, queues);
        }
        queues := queues[x := queued];
      }
      AllDisposed(old(fates), fates, x, way);
    }

    /** A packet from a queue goes to the driver or to the fragmentation routine. */
    ghost method HandOver(packet: Packet, fate: Fate, x: nat, queues: seq<seq<Packet>>)
      requires Accounted(queues) && x < |queues| && queues[x] != [] && queues[x][0] == packet
      requires fate.Driven? || fate.Fragmented?
      modifies this`fates
      ensures Accounted(queues[x := queues[x][1..]]) && fates == old(fates)[packet := fate]
    {
      TakeFirst(queues, fates, x, fate);
      LogSame(released, fates, packet, fate);
      fates := fates[packet := fate];
    }

    // -------------------------------------------------------------- finding and allocating entries

    /** The search of a bucket that _nx_arp_dynamic_entry_set, _nx_arp_static_entry_create,
        _nx_arp_entry_delete, _nx_arp_packet_receive and _nx_ip_driver_packet_send share. */
    method FindEntry(ip: Ulong) returns (arpPtr: Pointer)
      requires Valid()
      ensures arpPtr.To? ==> arpPtr.node < |info| && IsActive(arpPtr.node) && info[arpPtr.node].ip == ip
      ensures arpPtr.Null? ==> forall i :: 0 <= i < |info| && IsActive(i) ==> info[i].ip != ip
    {
      var index := Hash(ip);
      assert lists.Bucket(index);
      ghost var bucket := lists.buckets[index];
      var listHead := lists.table[index];
      arpPtr := listHead;
      ghost var k := 0;
      assert bucket != [] ==> LinkedAt(lists.activeNext, lists.activePrevious, bucket, 0);
      while arpPtr.To?
        invariant arpPtr.To? ==> k < |bucket| && arpPtr.node == bucket[k] < |info| && listHead == To(bucket[0])
        invariant arpPtr.Null? ==> k == |bucket|
        invariant forall j :: 0 <= j < k && j < |bucket| ==> bucket[j] < |info| && info[bucket[j]].ip != ip
        decreases |bucket| - k
      {
        assert LinkedAt(lists.activeNext, lists.activePrevious, bucket, k);
        assert bucket[k] in bucket;
        if info[arpPtr.node].ip == ip {
          return;
        }
        k := k + 1;
        arpPtr := To(lists.activeNext[arpPtr.node]);
        assert k < |bucket| ==> bucket[k] != bucket[0];
        if arpPtr == listHead {
          arpPtr := Null;
        }
      }
      forall i | 0 <= i < |info| && IsActive(i)
        ensures info[i].ip != ip
      {
        assert Mapped(info[i], lists.activeListHead[i], |mtu|);
        assert info[i].ip == ip ==> i in bucket;
      }
    }

    /** _nx_arp_dynamic_entry_delete: the entry becomes inactive and its packets are released, but it
        keeps its place on the dynamic list. */
    method DynamicEntryDelete(x: nat)
      requires Valid() && x < lists.Size() && x in lists.dynamics
      modifies lists`activeNext, lists`activePrevious, lists`activeListHead, lists`table, lists`buckets
      modifies lists`dynamicActiveCount, lists`active
      modifies this`packetsWaiting, this`sendPacketsDropped, this`released, this`fates
      ensures Valid() && packetsWaiting == old(packetsWaiting)[x := []]
      ensures lists.activeListHead == old(lists.activeListHead)[x := Null]
      ensures lists.active == old(lists.active) - {x}
      ensures Dropped(old(fates), old(sendPacketsDropped), x, old(packetsWaiting)[x])
      ensures old(lists.MostRecentFirst()) ==>
                (lists.MostRecentFirst() <==>
                 x !in old(lists.active) || x == lists.dynamics[old(lists.dynamicActiveCount) - 1])
    {
      hide InQueues, Logged, Freed, EntriesAgree, ArpLists.Valid, ArpLists.MostRecentFirst;
      EntryIs(x);
      FlagIsRight(x);
      EntryDeactivated(info, packetsWaiting, lists.activeListHead, lists.statics, |mtu|, clocks, x, {});
      var wasActive := lists.Deactivate(x);
      if wasActive {
        ReleaseQueue(x);
      } else {
        NoneFreed(packetsWaiting, fates, x);
        assert packetsWaiting == packetsWaiting[x := []];
      }
    }

    /** The entry before the head of the dynamic list is its last. */
    lemma LastDynamic()
      requires lists.Valid()
      ensures lists.dynamicList.Null? <==> lists.dynamics == []
      ensures lists.dynamics != [] ==>
                var x := lists.dynamics[|lists.dynamics| - 1];
                && lists.dynamicList.node < |lists.poolPrevious| && lists.poolPrevious[lists.dynamicList.node] == x
                && x < lists.Size() && x in lists.dynamics
                && (lists.MostRecentFirst() && x in lists.active ==>
                      lists.dynamicActiveCount > 0 && x == lists.dynamics[lists.dynamicActiveCount - 1])
    {
      if lists.dynamics != [] {
        RingLast(lists.poolNext, lists.poolPrevious, lists.dynamics);
      }
    }

    /** _nx_arp_entry_allocate: takes the last entry of the dynamic list, whatever it was used for, and
        puts it into the bucket. The caller still has to fill it in; it has no packets waiting, and the
        bucket's head points back to it. */
    method EntryAllocate(b: nat, isStatic: bool) returns (status: Status, ghost x: nat)
      requires Valid() && b < TABLE_SIZE
      modifies lists, this`packetsWaiting, this`sendPacketsDropped, this`released, this`fates
      ensures lists.Valid() && lists.Size() == old(lists.Size()) && Accounted(packetsWaiting)
      ensures status.Success? <==> old(lists.dynamics) != []
      ensures !status.Success? ==> status.NoMoreEntries? && unchanged(lists) && unchanged(this)
      ensures status.Success? ==>
                && x == old(lists.dynamics[|lists.dynamics| - 1]) && x < lists.Size() && Entries({x})
                && lists.activeListHead == old(lists.activeListHead)[x := To(b)]
                && lists.PointsBack(b, x)
                && x < |old(packetsWaiting)| && packetsWaiting == old(packetsWaiting)[x := []]
                && Dropped(old(fates), old(sendPacketsDropped), x, old(packetsWaiting)[x])
      ensures var rest := AllButLast(old(lists.dynamics));
              status.Success? ==>
                if isStatic then lists.dynamics == rest && lists.statics == old(lists.statics) + [x]
                else lists.dynamics == [x] + rest && lists.statics == old(lists.statics)
      ensures old(lists.MostRecentFirst()) ==> lists.MostRecentFirst()
    {
      LastDynamic();
      hide AllButLast;
      hide InQueues, Logged, Freed, EntriesAgree, ArpLists.Valid, ArpLists.MostRecentFirst;
      x := 0;
      if lists.dynamicList.Null? {
        return NoMoreEntries, x;
      }
      var arpEntry := lists.poolPrevious[lists.dynamicList.node];
      x := arpEntry;
      Reuse(arpEntry, b, isStatic);
      status := Success;
    }

    /** Takes the last entry of the dynamic list from what it was used for and puts it into the bucket. */
    method Reuse(x: nat, b: nat, isStatic: bool)
      requires Valid() && b < TABLE_SIZE && x < lists.Size() && x in lists.dynamics
      requires lists.dynamics != [] && x == lists.dynamics[|lists.dynamics| - 1]
      requires lists.MostRecentFirst() && x in lists.active ==>
                 lists.dynamicActiveCount > 0 && x == lists.dynamics[lists.dynamicActiveCount - 1]
      modifies lists, this`packetsWaiting, this`sendPacketsDropped, this`released, this`fates
      ensures lists.Valid() && lists.Size() == old(lists.Size()) && Accounted(packetsWaiting) && Entries({x})
      ensures lists.activeListHead == old(lists.activeListHead)[x := To(b)] && lists.PointsBack(b, x)
      ensures x < |old(packetsWaiting)| && packetsWaiting == old(packetsWaiting)[x := []]
      ensures Dropped(old(fates), old(sendPacketsDropped), x, old(packetsWaiting)[x])
      ensures var rest := AllButLast(old(lists.dynamics));
              if isStatic then lists.dynamics == rest && lists.statics == old(lists.statics) + [x]
              else lists.dynamics == [x] + rest && lists.statics == old(lists.statics)
      ensures old(lists.MostRecentFirst()) ==> lists.MostRecentFirst()
    {
      hide AllButLast;
      hide InQueues, Logged, Freed, EntriesAgree, ArpLists.Valid, ArpLists.MostRecentFirst;
      DynamicEntryDelete(x);
      ghost var heads, statics := lists.activeListHead, lists.statics;
      lists.Activate(x, b, isStatic);
      EntryAllocated(info, packetsWaiting, heads, statics, |mtu|, clocks, x, To(b), lists.statics);
    }

    /** Fills in an entry that was found or allocated for an address. */
    method SetEntry(x: nat, m: Mapping, ghost clock: Clock)
      requires lists.Valid() && Entries({x}) && Accounted(packetsWaiting) && x < |info|
      requires Mapped(m, lists.activeListHead[x], |mtu|)
      requires Bounded(m, packetsWaiting[x], lists.activeListHead[x], x in lists.statics)
      requires m.retries <= MAXIMUM_RETRIES
      requires Timed(m, lists.activeListHead[x], x in lists.statics, clock)
      requires forall i :: 0 <= i < |info| && i != x && IsActive(i) ==> info[i].ip != m.ip
      requires packetsWaiting[x] == [] || m.ip == info[x].ip
      modifies this`info, this`clocks
      ensures Valid() && info == old(info)[x := m] && Kept(fates, old(info), fates, info)
      ensures |clocks| == |old(clocks)| > x && clocks == old(clocks)[x := clock]
    {
      hide InQueues, Logged, EntriesAgree, Kept, Mapped, Bounded, Timed;
      EntryFilled(info, packetsWaiting, lists.activeListHead, lists.statics, |mtu|, clocks, x, m, packetsWaiting[x],
                  clock);
      KeptRefilled(fates, info, packetsWaiting, x, m);
      assert packetsWaiting[x := packetsWaiting[x]] == packetsWaiting;
      info := info[x := m];
      clocks := clocks[x := clock];
    }

    /** _nx_arp_queue_send where it is called: at an entry that is filled in. */
    method SendWaiting(x: nat)
      requires Valid() && x < |info| && IsActive(x)
      modifies this`packetsWaiting, this`sendPacketsDropped, this`totalPacketsSent, this`released, this`fates
      ensures Valid() && packetsWaiting == old(packetsWaiting)[x := []]
      ensures Kept(old(fates), info, fates, info)
      ensures info[x].interface.To? && info[x].interface.node < |mtu|
      ensures Delivered(old(fates), old(totalPacketsSent), old(sendPacketsDropped), x, old(packetsWaiting)[x],
                        info[x].interface.node)
    {
      assert Mapped(info[x], lists.activeListHead[x], |mtu|);
      hide InQueues, Logged, Sent, EntriesAgree, Kept, ArpLists.Valid;
      EntryEmptied(info, packetsWaiting, lists.activeListHead, lists.statics, |mtu|, clocks, x);
      QueueSend(x);
      KeptSent(old(fates), info, fates, x, mtu[info[x].interface.node], canFragment);
    }

    // -------------------------------------------------------------- setting entries

    /** Entry x now maps the address of m and is active in its bucket; the other entries say what they
        said, and are active or not as before. */
    ghost predicate Set(before: seq<Mapping>, heads: seq<Pointer>, x: nat, m: Mapping)
      reads this`info, lists`activeListHead
    {
      && x < |before| && info == before[x := m]
      && x < |heads| && lists.activeListHead == heads[x := To(Hash(m.ip))]
    }

    /** An active entry has this address. */
    ghost predicate HasEntry(ip: Ulong)
      reads this`info, lists`activeListHead
    {
      exists i :: 0 <= i < |info| && i < |lists.activeListHead| && IsActive(i) && info[i].ip == ip
    }

    /** _nx_arp_dynamic_entry_set. The route is the interface of a directly accessible address. */
    method DynamicEntrySet(ip: Ulong, msw: Ulong, lsw: Ulong, route: Pointer) returns (status: Status, ghost x: nat)
      requires Valid() && (route.To? ==> route.node < |mtu|)
      modifies lists, this`info, this`clocks, this`requestsSent
      modifies this`packetsWaiting, this`sendPacketsDropped, this`totalPacketsSent, this`released, this`fates
      ensures Valid() && Kept(old(fates), old(info), fates, info)
      ensures old(lists.MostRecentFirst()) ==> lists.MostRecentFirst()
      ensures route.Null? <==> status.AddressError?
      ensures status.Success? ==>
                var nextUpdate := if HasAddress(msw, lsw) then EXPIRATION_RATE else UPDATE_RATE;
                && Set(old(info), old(lists.activeListHead), x, Mapping(ip, msw, lsw, route, nextUpdate, 0))
                && x in lists.dynamics
      ensures lists.statics == old(lists.statics)
      ensures status.Success? ==>
                lists.dynamics == if old(HasEntry(ip)) then old(lists.dynamics)
                                  else [x] + AllButLast(old(lists.dynamics))
      ensures status.Success? ==>
                && x < |old(packetsWaiting)|
                && packetsWaiting == (if old(HasEntry(ip)) && !HasAddress(msw, lsw) then old(packetsWaiting)
                                      else old(packetsWaiting)[x := []])
      ensures status.Success? && old(HasEntry(ip)) && HasAddress(msw, lsw) ==>
                Delivered(old(fates), old(totalPacketsSent), old(sendPacketsDropped), x, old(packetsWaiting)[x],
                          route.node)
      ensures status.Success? && old(HasEntry(ip)) && !HasAddress(msw, lsw) ==>
                fates == old(fates) && totalPacketsSent == old(totalPacketsSent)
                && sendPacketsDropped == old(sendPacketsDropped)
      ensures status.Success? && !old(HasEntry(ip)) ==>
                && Dropped(old(fates), old(sendPacketsDropped), x, old(packetsWaiting)[x])
                && totalPacketsSent == old(totalPacketsSent)
      ensures |clocks| == |old(clocks)|
      ensures if status.Success? then x < |clocks| && clocks == old(clocks)[x := Running(0)] else clocks == old(clocks)
      ensures requestsSent ==
              old(requestsSent) + if status.Success? && !HasAddress(msw, lsw) then [(ip, route)] else []
      ensures status.Success? || status.AddressError? || status.DuplicatedEntry? || status.NoMoreEntries?
      ensures status.DuplicatedEntry? <==> route.To? && old(HasStatic(ip))
      ensures status.NoMoreEntries? <==> route.To? && old(lists.dynamics) == [] && !old(HasEntry(ip))
      ensures !status.Success? ==> unchanged(this) && unchanged(lists)
    {
      hide AllButLast;
      hide InQueues, Logged, Freed, Sent, Fitting, EntriesAgree, Kept, Unique, ArpLists.Valid, ArpLists.MostRecentFirst;
      x := 0;
      KeptSame(fates, info);
      if route.Null? {
        return AddressError, x;
      }
      var arpPtr := FindEntry(ip);
      var entry;
      WhereFound(ip, arpPtr);
      assert arpPtr.To? <==> HasEntry(ip);
      hide HasEntry, HasStatic;
      if arpPtr.To? {
        entry := arpPtr.node;
        if lists.routeStatic[entry] {
          return DuplicatedEntry, x;
        }
      } else {
        status, x := EntryAllocate(Hash(ip), false);
        if !status.Success? {
          return;
        }
        KeptFreed(old(fates), info, fates, x);
        entry := lists.activePrevious[lists.table[Hash(ip)].node];
      }
      x := entry;
      FlagIsRight(entry);
      var nextUpdate := if HasAddress(msw, lsw) then EXPIRATION_RATE else UPDATE_RATE;
      label prepared:
      FillDynamic(entry, Mapping(ip, msw, lsw, route, nextUpdate, 0));
      if arpPtr.Null? && HasAddress(msw, lsw) {
        NoneDelivered(old(fates), old@prepared(fates), old@prepared(totalPacketsSent), old@prepared(sendPacketsDropped),
                      entry, route.node);
      }
      KeptTwice(old(fates), old(info), old@prepared(fates), old@prepared(info), fates, info);
      status := Success;
    }

    /** The end of _nx_arp_dynamic_entry_set: fills in the entry, and asks for its address or sends what
        waited for it. */
    method FillDynamic(x: nat, m: Mapping)
      requires lists.Valid() && Entries({x}) && Accounted(packetsWaiting) && x < |info|
      requires IsActive(x) && Mapped(m, lists.activeListHead[x], |mtu|) && m.retries == 0
      requires m.nextUpdate == if HasAddress(m.msw, m.lsw) then EXPIRATION_RATE else UPDATE_RATE
      requires Bounded(m, packetsWaiting[x], lists.activeListHead[x], x in lists.statics)
      requires forall i :: 0 <= i < |info| && i != x && IsActive(i) ==> info[i].ip != m.ip
      requires packetsWaiting[x] == [] || m.ip == info[x].ip
      modifies this`info, this`clocks, this`requestsSent
      modifies this`packetsWaiting, this`sendPacketsDropped, this`totalPacketsSent, this`released, this`fates
      ensures Valid() && info == old(info)[x := m] && Kept(old(fates), old(info), fates, info)
      ensures |clocks| == |old(clocks)| > x && clocks == old(clocks)[x := Running(0)]
      ensures packetsWaiting == if HasAddress(m.msw, m.lsw) then old(packetsWaiting)[x := []] else old(packetsWaiting)
      ensures m.interface.To? && m.interface.node < |mtu|
      ensures if HasAddress(m.msw, m.lsw)
              then Delivered(old(fates), old(totalPacketsSent), old(sendPacketsDropped), x, old(packetsWaiting)[x],
                             m.interface.node)
              else fates == old(fates) && totalPacketsSent == old(totalPacketsSent)
                   && sendPacketsDropped == old(sendPacketsDropped)
      ensures requestsSent == old(requestsSent) + if HasAddress(m.msw, m.lsw) then [] else [(m.ip, m.interface)]
    {
      assert m.interface.To? && m.interface.node < |mtu|;
      hide InQueues, Logged, Sent, Fitting, EntriesAgree, Kept, Mapped, Bounded, ArpLists.Valid;
      SetEntry(x, m, Running(0));
      if !HasAddress(m.msw, m.lsw) {
        requestsSent := requestsSent + [(m.ip, m.interface)];
      } else {
        label filled:
        SendWaiting(x);
        KeptTwice(old(fates), old(info), old@filled(fates), old@filled(info), fates, info);
      }
    }

    /** Delivering an empty queue after releasing it changes nothing. */
    lemma NoneDelivered(a: map<Packet, Fate>, b: map<Packet, Fate>, sent: nat, dropped: nat, x: nat, interface: nat)
      requires interface < |mtu| && Freed(a, b, x) && Delivered(b, sent, dropped, x, [], interface)
      ensures fates == b && totalPacketsSent == sent && sendPacketsDropped == dropped
    {
      NoneSent(a, b, fates, x, mtu[interface], canFragment);
    }

    lemma EntryIs(x: nat)
      requires Entries({}) && x < |info|
      ensures Mapped(info[x], lists.activeListHead[x], |mtu|)
      ensures Bounded(info[x], packetsWaiting[x], lists.activeListHead[x], x in lists.statics)
      ensures Timed(info[x], lists.activeListHead[x], x in lists.statics, clocks[x])
      ensures info[x].retries <= MAXIMUM_RETRIES
    {
    }

    /** Whatever has happened to the cache: the timer of an active dynamic entry without an address runs
        if and only if it was not last set by a message without one, and then it expires at the last visit
        of its life. */
    lemma UnresolvedExpires(x: nat, visits: nat)
      requires Valid() && x < |info| && x < |clocks| && Unresolved(info[x], lists.activeListHead[x], x in lists.statics)
      ensures info[x].nextUpdate > 0 <==> clocks[x].Running?
      ensures clocks[x].Running? ==> 1 <= info[x].nextUpdate <= UPDATE_RATE && clocks[x].visits < LIFETIME
      ensures ExpiresWithin(info[x], visits) <==> clocks[x].Running? && clocks[x].visits + visits >= LIFETIME
    {
      EntryIs(x);
      ExpiresInTime(info[x], visits);
    }

    lemma RetriesAreBounded(x: nat)
      requires Entries({x}) && x < |info|
      ensures info[x].retries <= MAXIMUM_RETRIES
    {
    }

    lemma FlagIsRight(x: nat)
      requires lists.Valid() && x < lists.Size()
      ensures |lists.routeStatic| == |lists.activeListHead| == lists.Size()
      ensures lists.routeStatic[x] <==> x in lists.statics
      ensures (x in lists.dynamics <==> x !in lists.statics) && (x in lists.statics ==> IsActive(x))
      ensures IsActive(x) && x in lists.dynamics ==> x in lists.active
    {
      lists.EntryMarked(x);
    }

    /** The end of _nx_arp_static_entry_create: fills in the entry and sends what waited for it. */
    method FillStatic(x: nat, m: Mapping)
      requires lists.Valid() && Entries({x}) && Accounted(packetsWaiting) && x < |info|
      requires IsActive(x) && Mapped(m, lists.activeListHead[x], |mtu|)
      requires HasAddress(m.msw, m.lsw) && m.retries <= MAXIMUM_RETRIES
      requires forall i :: 0 <= i < |info| && i != x && IsActive(i) ==> info[i].ip != m.ip
      requires packetsWaiting[x] == [] || m.ip == info[x].ip
      modifies this`info, this`packetsWaiting, this`sendPacketsDropped, this`totalPacketsSent
      modifies this`released, this`fates
      ensures Valid() && info == old(info)[x := m] && packetsWaiting == old(packetsWaiting)[x := []]
      ensures Kept(old(fates), old(info), fates, info)
      ensures m.interface.To? && m.interface.node < |mtu|
      ensures Delivered(old(fates), old(totalPacketsSent), old(sendPacketsDropped), x, old(packetsWaiting)[x],
                        m.interface.node)
    {
      assert m.interface.To? && m.interface.node < |mtu|;
      hide InQueues, Logged, Sent, Fitting, EntriesAgree, Kept, Mapped;
      EntryFilled(info, packetsWaiting, lists.activeListHead, lists.statics, |mtu|, clocks, x, m, [], clocks[x]);
      assert clocks[x := clocks[x]] == clocks;
      KeptRefilled(fates, info, packetsWaiting, x, m);
      info := info[x := m];
      label filled:
      QueueSend(x);
      KeptSent(old@filled(fates), info, fates, x, mtu[m.interface.node], canFragment);
      KeptTwice(old(fates), old(info), old@filled(fates), info, fates, info);
    }

    /** _nx_arp_static_entry_create, for an address that is not zero. */
    method StaticEntryCreate(ip: Ulong, msw: Ulong, lsw: Ulong, route: Pointer) returns (status: Status, ghost x: nat)
      requires Valid() && (route.To? ==> route.node < |mtu|) && HasAddress(msw, lsw)
      modifies lists, this`info
      modifies this`packetsWaiting, this`sendPacketsDropped, this`totalPacketsSent, this`released, this`fates
      ensures Valid() && Kept(old(fates), old(info), fates, info)
      ensures old(lists.MostRecentFirst()) ==> lists.MostRecentFirst()
      ensures route.Null? <==> status.AddressError?
      ensures status.Success? ==>
                && x < |old(info)|
                && Set(old(info), old(lists.activeListHead), x, Mapping(ip, msw, lsw, route, 0, old(info[x].retries)))
                && x in lists.statics
                && x < |old(packetsWaiting)| && packetsWaiting == old(packetsWaiting)[x := []]
      ensures status.Success? && old(HasEntry(ip)) ==>
                Delivered(old(fates), old(totalPacketsSent), old(sendPacketsDropped), x, old(packetsWaiting)[x],
                          route.node)
      ensures status.Success? && !old(HasEntry(ip)) ==>
                && Dropped(old(fates), old(sendPacketsDropped), x, old(packetsWaiting)[x])
                && totalPacketsSent == old(totalPacketsSent)
      ensures status.Success? || status.AddressError? || status.NoMoreEntries?
      ensures status.NoMoreEntries? <==> route.To? && old(lists.dynamics) == [] && !old(HasEntry(ip))
      ensures !status.Success? ==> unchanged(this) && unchanged(lists)
    {
      hide InQueues, Logged, Freed, Sent, Fitting, EntriesAgree, Kept, Unique, ArpLists.Valid, ArpLists.MostRecentFirst;
      x := 0;
      KeptSame(fates, info);
      if route.Null? {
        return AddressError, x;
      }
      var arpPtr := FindEntry(ip);
      var entry;
      WhereFound(ip, arpPtr);
      assert arpPtr.To? <==> HasEntry(ip);
      hide HasEntry, HasStatic;
      if arpPtr.To? {
        entry := arpPtr.node;
        FlagIsRight(entry);
        if !lists.routeStatic[entry] {
          EntryAllocated(info, packetsWaiting, lists.activeListHead, lists.statics, |mtu|, clocks, entry,
                         lists.activeListHead[entry], lists.statics + [entry]);
          assert lists.activeListHead[entry := lists.activeListHead[entry]] == lists.activeListHead;
          lists.MakeStatic(entry);
        }
      } else {
        status, x := EntryAllocate(Hash(ip), true);
        if !status.Success? {
          return;
        }
        KeptFreed(old(fates), info, fates, x);
        entry := lists.activePrevious[lists.table[Hash(ip)].node];
      }
      x := entry;
      label prepared:
      RetriesAreBounded(entry);
      FillStatic(entry, Mapping(ip, msw, lsw, route, 0, info[entry].retries));
      if arpPtr.Null? {
        NoneDelivered(old(fates), old@prepared(fates), old@prepared(totalPacketsSent), old@prepared(sendPacketsDropped),
                      entry, route.node);
      }
      KeptTwice(old(fates), old(info), old@prepared(fates), old@prepared(info), fates, info);
      status := Success;
    }

    // -------------------------------------------------------------- deleting entries

    /** _nx_arp_static_entry_delete_internal */
    method StaticEntryDeleteInternal(x: nat)
      requires Valid() && x < lists.Size() && x in lists.statics
      modifies lists
      ensures Valid() && lists.Size() == old(lists.Size())
      ensures lists.activeListHead == old(lists.activeListHead)[x := Null]
      ensures lists.statics == Without(old(lists.statics), Place(old(lists.statics), x))
      ensures lists.dynamics == old(lists.dynamics) + [x] && lists.active == old(lists.active)
      ensures old(lists.MostRecentFirst()) ==> lists.MostRecentFirst()
    {
      hide InQueues, Logged, EntriesAgree, ArpLists.MostRecentFirst;
      EntryUnfixed(info, packetsWaiting, lists.activeListHead, lists.statics, |mtu|, clocks, x);
      hide ArpLists.Valid;
      lists.DeleteStatic(x);
    }

    predicate IsMatch(i: nat, ip: Ulong, msw: Ulong, lsw: Ulong)
      requires i < |info|
      reads this`info
    {
      info[i].ip == ip && info[i].msw == msw && info[i].lsw == lsw
    }

    /** _nx_arp_static_entry_delete */
    method StaticEntryDelete(ip: Ulong, msw: Ulong, lsw: Ulong) returns (status: Status, ghost x: nat)
      requires Valid()
      modifies lists
      ensures Valid() && lists.Size() == old(lists.Size())
      ensures old(lists.MostRecentFirst()) ==> lists.MostRecentFirst()
      ensures status.Success? || status.EntryNotFound?
      ensures status.Success? ==>
                x < |info| && IsMatch(x, ip, msw, lsw) && x in old(lists.statics)
                && lists.activeListHead == old(lists.activeListHead)[x := Null]
      ensures status.EntryNotFound? ==> unchanged(lists)
      ensures status.EntryNotFound? <==>
                forall i :: 0 <= i < |info| && i in old(lists.statics) ==> !IsMatch(i, ip, msw, lsw)
    {
      var arpEntry := lists.staticList;
      ghost var k, statics := 0, lists.statics;
      x := 0;
      assert statics != [] ==> LinkedAt(lists.poolNext, lists.poolPrevious, statics, 0);
      while arpEntry.To?
        invariant arpEntry.To? ==> k < |statics| && arpEntry.node == statics[k] < |info|
        invariant arpEntry.Null? ==> k == |statics|
        invariant forall j :: 0 <= j < k && j < |statics| ==> statics[j] < |info| && !IsMatch(statics[j], ip, msw, lsw)
        decreases |statics| - k
      {
        assert LinkedAt(lists.poolNext, lists.poolPrevious, statics, k);
        if IsMatch(arpEntry.node, ip, msw, lsw) {
          break;
        }
        assert k + 1 < |statics| ==> statics[k + 1] != statics[0];
        if To(lists.poolNext[arpEntry.node]) == lists.staticList {
          arpEntry := Null;
        } else {
          arpEntry := To(lists.poolNext[arpEntry.node]);
        }
        k := k + 1;
      }
      if arpEntry.To? {
        x := arpEntry.node;
        StaticEntryDeleteInternal(arpEntry.node);
        status := Success;
      } else {
        status := EntryNotFound;
      }
    }

    /** _nx_arp_static_entries_delete */
    method StaticEntriesDelete()
      requires Valid()
      modifies lists
      ensures Valid() && lists.Size() == old(lists.Size())
      ensures lists.statics == [] && lists.active == old(lists.active)
      ensures old(lists.MostRecentFirst()) ==> lists.MostRecentFirst()
    {
      while lists.staticList.To?
        invariant Valid() && lists.Size() == old(lists.Size()) && lists.active == old(lists.active)
        invariant old(lists.MostRecentFirst()) ==> lists.MostRecentFirst()
        decreases |lists.statics|
      {
        var arpEntry := lists.staticList.node;
        assert LinkedAt(lists.poolNext, lists.poolPrevious, lists.statics, 0);
        StaticEntryDeleteInternal(arpEntry);
      }
    }

    /** _nx_arp_entry_delete */
    method EntryDelete(ip: Ulong) returns (status: Status, ghost x: nat)
      requires Valid()
      modifies lists, this`packetsWaiting, this`sendPacketsDropped, this`released, this`fates
      ensures Valid() && Kept(old(fates), info, fates, info)
      ensures status.Success? || status.EntryNotFound?
      ensures status.Success? ==>
                && x < |info| && info[x].ip == ip && old(IsActive(x))
                && lists.activeListHead == old(lists.activeListHead)[x := Null]
                && x < |old(packetsWaiting)| && packetsWaiting == old(packetsWaiting)[x := []]
                && Dropped(old(fates), old(sendPacketsDropped), x, old(packetsWaiting)[x])
      ensures status.EntryNotFound? ==> unchanged(this) && unchanged(lists)
      ensures status.Success? && x !in old(lists.statics) ==>
                lists.dynamics == old(lists.dynamics) && lists.statics == old(lists.statics)
      ensures status.EntryNotFound? <==> forall i :: 0 <= i < |info| && old(IsActive(i)) ==> info[i].ip != ip
    {
      hide InQueues, Logged, Freed, EntriesAgree, Kept, ArpLists.Valid, ArpLists.MostRecentFirst;
      x := 0;
      KeptSame(fates, info);
      var arpPtr := FindEntry(ip);
      if arpPtr.Null? {
        return EntryNotFound, x;
      }
      var entry := arpPtr.node;
      FlagIsRight(entry);
      EntryIs(entry);
      if lists.routeStatic[entry] {
        SameEntry(ip, info[entry].msw, info[entry].lsw, entry);
        assert packetsWaiting[entry := []] == packetsWaiting;
        NoneFreed(packetsWaiting, fates, entry);
        status, x := StaticEntryDelete(ip, info[entry].msw, info[entry].lsw);
      } else {
        DynamicEntryDelete(entry);
        KeptFreed(old(fates), info, fates, entry);
        status, x := Success, entry;
      }
    }

    /** Only the static entry of an address matches it. */
    lemma SameEntry(ip: Ulong, msw: Ulong, lsw: Ulong, x: nat)
      requires Valid() && x < |info| && x in lists.statics && IsMatch(x, ip, msw, lsw)
      ensures forall i :: 0 <= i < |info| && i in lists.statics && IsMatch(i, ip, msw, lsw) ==> i == x
      ensures packetsWaiting[x] == []
    {
      forall i | 0 <= i < |info| && i in lists.statics && IsMatch(i, ip, msw, lsw)
        ensures i == x
      {
        lists.EntryMarked(i);
        lists.EntryMarked(x);
      }
    }

    /** Clears the interface of an inactive entry. */
    method ClearInterface(x: nat)
      requires Valid() && x < |info| && x in lists.dynamics && !IsActive(x)
      modifies this`info
      ensures Valid() && info == old(info)[x := old(info[x]).(interface := Null)]
      ensures Kept(fates, old(info), fates, info)
    {
      hide InQueues, Logged, EntriesAgree, Kept, ArpLists.Valid;
      FlagIsRight(x);
      EntryRetries(x);
      var m := info[x].(interface := Null);
      InactiveRefilled(info, packetsWaiting, lists.activeListHead, lists.statics, |mtu|, clocks, x, m);
      KeptRefilled(fates, info, packetsWaiting, x, m);
      info := info[x := m];
    }

    lemma EntryRetries(x: nat)
      requires Entries({}) && x < |info|
      ensures info[x].retries <= MAXIMUM_RETRIES
    {
    }

    /** Deletes a dynamic entry and clears its interface. */
    method DeleteAndClear(x: nat)
      requires Valid() && x < |info| && x in lists.dynamics
      modifies lists`activeNext, lists`activePrevious, lists`activeListHead, lists`table, lists`buckets
      modifies lists`dynamicActiveCount, lists`active
      modifies this`info, this`packetsWaiting, this`sendPacketsDropped, this`released, this`fates
      ensures Valid() && Kept(old(fates), old(info), fates, info)
      ensures info == old(info)[x := old(info[x]).(interface := Null)]
      ensures lists.activeListHead == old(lists.activeListHead)[x := Null]
      ensures lists.active == old(lists.active) - {x}
      ensures x < |old(packetsWaiting)| && Dropped(old(fates), old(sendPacketsDropped), x, old(packetsWaiting)[x])
    {
      hide InQueues, Logged, Freed, EntriesAgree, Kept, ArpLists.Valid;
      DynamicEntryDelete(x);
      KeptFreed(old(fates), info, fates, x);
      label cleared:
      ClearInterface(x);
      KeptTwice(old(fates), old(info), fates, old@cleared(info), fates, info);
    }

    /** _nx_arp_dynamic_entries_invalidate */
    method DynamicEntriesInvalidate()
      requires Valid()
      modifies lists`activeNext, lists`activePrevious, lists`activeListHead, lists`table, lists`buckets
      modifies lists`dynamicActiveCount, lists`active
      modifies this`info, this`packetsWaiting, this`sendPacketsDropped, this`released, this`fates
      ensures Valid() && Kept(old(fates), old(info), fates, info)
      ensures lists.active == {} && lists.MostRecentFirst()
      ensures forall i :: 0 <= i < |packetsWaiting| ==> packetsWaiting[i] == []
      ensures |info| == |old(info)|
      ensures forall i :: 0 <= i < |info| && i in lists.statics ==> info[i] == old(info)[i]
      ensures forall i :: 0 <= i < |info| ==>
                info[i] == old(info)[i] || info[i] == old(info)[i].(interface := Null)
      ensures fates.Keys == old(fates).Keys
      ensures forall p :: p in old(fates) ==>
                if old(fates)[p].Waiting? then fates[p].Released? else fates[p] == old(fates)[p]
    {
      hide InQueues, Logged, Freed, FreedIn, EntriesAgree, Kept, ArpLists.Valid;
      var arpEntry := lists.dynamicList;
      ghost var k, dynamics := 0, lists.dynamics;
      ghost var done: set<nat> := {};
      DynamicWalk(0);
      KeptSame(fates, info);
      FreedNone(fates);
      while arpEntry.To? && lists.dynamicActiveCount != 0
        invariant Valid() && Kept(old(fates), old(info), fates, info)
        invariant arpEntry.To? ==> k < |dynamics| && arpEntry.node == dynamics[k] < |info|
        invariant arpEntry.Null? ==> k == |dynamics|
        invariant forall j :: 0 <= j < k && j < |dynamics| ==> dynamics[j] !in lists.active
        invariant |info| == |old(info)|
        invariant forall i :: 0 <= i < |info| && i in lists.statics ==> info[i] == old(info)[i]
        invariant forall i :: 0 <= i < |info| ==>
                    info[i] == old(info)[i] || info[i] == old(info)[i].(interface := Null)
        invariant FreedIn(old(fates), fates, done)
        decreases |dynamics| - k
      {
        var x := arpEntry.node;
        DynamicWalk(k);
        FlagIsRight(x);
        label visiting:
        DeleteAndClear(x);
        FreedMore(old(fates), old@visiting(fates), fates, done, x);
        done := done + {x};
        KeptTwice(old(fates), old(info), old@visiting(fates), old@visiting(info), fates, info);
        DynamicWalk(k);
        DynamicWalk(k + 1);
        if To(lists.poolNext[x]) != lists.dynamicList {
          arpEntry := To(lists.poolNext[x]);
        } else {
          arpEntry := Null;
        }
        k := k + 1;
      }
      NoneActive(k);
      NoneWait(old(fates), done);
    }

    /** If no packet waits any more, those that did were released. */
    lemma NoneWait(before: map<Packet, Fate>, done: set<nat>)
      requires Accounted(packetsWaiting) && FreedIn(before, fates, done)
      requires forall i :: 0 <= i < |packetsWaiting| ==> packetsWaiting[i] == []
      ensures before.Keys == fates.Keys
      ensures forall p :: p in before ==>
                if before[p].Waiting? then fates[p].Released? else fates[p] == before[p]
    {
    }

    /** One step along the dynamic list. */
    lemma DynamicWalk(k: nat)
      requires lists.Valid()
      ensures lists.dynamicList == HeadOf(lists.dynamics)
      ensures k < |lists.dynamics| ==>
                && lists.dynamics[k] < lists.Size() && lists.dynamics[k] in lists.dynamics
                && lists.poolNext[lists.dynamics[k]] == After(lists.dynamics, k)
                && (To(lists.poolNext[lists.dynamics[k]]) == lists.dynamicList <==> k + 1 == |lists.dynamics|)
                && (lists.dynamics[k] in lists.active <==> lists.activeListHead[lists.dynamics[k]].To?)
      ensures |lists.activeListHead| == lists.Size()
    {
      if k < |lists.dynamics| {
        assert LinkedAt(lists.poolNext, lists.poolPrevious, lists.dynamics, k);
        lists.EntryMarked(lists.dynamics[k]);
        assert k + 1 < |lists.dynamics| ==> lists.dynamics[k + 1] != lists.dynamics[0];
      }
    }

    lemma ActiveOnList()
      requires lists.Valid()
      ensures forall x :: x in lists.active ==> x in lists.dynamics
    {
      forall x | x in lists.active
        ensures x in lists.dynamics
      {
        lists.EntryMarked(x);
      }
    }

    lemma NoneActive(k: nat)
      requires Valid() && (lists.dynamicActiveCount == 0 || k >= |lists.dynamics|)
      requires forall j :: 0 <= j < k && j < |lists.dynamics| ==> lists.dynamics[j] !in lists.active
      ensures lists.active == {} && lists.MostRecentFirst()
      ensures forall i :: 0 <= i < |packetsWaiting| ==> packetsWaiting[i] == []
    {
      ActiveOnList();
      assert lists.active == {};
      forall i | 0 <= i < |packetsWaiting|
        ensures packetsWaiting[i] == []
      {
        lists.EntryMarked(i);
        EntryIs(i);
      }
    }

    /** What has happened so far: the entries "done" of the interface have lost it and their packets. */
    ghost predicate Done(fates0: map<Packet, Fate>, info0: seq<Mapping>, heads0: seq<Pointer>, index: nat,
                         done: set<nat>)
      reads this`info, this`fates, lists`activeListHead
    {
      && Kept(fates0, info0, fates, info) && OthersStay(info0, heads0, info, lists.activeListHead, index)
      && FreedIn(fates0, fates, done) && (forall i :: i in done ==> i < |info|)
      && forall i :: 0 <= i < |info| ==> if i in done then info0[i].interface == To(index) else info[i] == info0[i]
    }

    method DoOne(x: nat, index: nat, ghost fates0: map<Packet, Fate>, ghost info0: seq<Mapping>,
                 ghost heads0: seq<Pointer>, ghost done: set<nat>)
      requires Valid() && x < |info| && x in lists.dynamics && info[x].interface == To(index)
      requires Done(fates0, info0, heads0, index, done)
      modifies lists`activeNext, lists`activePrevious, lists`activeListHead, lists`table, lists`buckets
      modifies lists`dynamicActiveCount, lists`active
      modifies this`info, this`packetsWaiting, this`sendPacketsDropped, this`released, this`fates
      ensures Valid() && Done(fates0, info0, heads0, index, done + {x})
      ensures info == old(info)[x := old(info[x]).(interface := Null)]
      ensures lists.activeListHead == old(lists.activeListHead)[x := Null]
    {
      hide InQueues, Logged, Freed, FreedIn, EntriesAgree, Kept, ArpLists.Valid;
      DeleteAndClear(x);
      KeptTwice(fates0, info0, old(fates), old(info), fates, info);
      FreedMore(fates0, old(fates), fates, done, x);
    }

    /** The first half of _nx_arp_interface_entries_delete. */
    method InterfaceDynamicsDelete(index: nat)
      requires Valid()
      modifies lists`activeNext, lists`activePrevious, lists`activeListHead, lists`table, lists`buckets
      modifies lists`dynamicActiveCount, lists`active
      modifies this`info, this`packetsWaiting, this`sendPacketsDropped, this`released, this`fates
      ensures Valid() && Kept(old(fates), old(info), fates, info)
      ensures Cleared(lists.dynamics, info, lists.activeListHead, index)
      ensures OthersStay(old(info), old(lists.activeListHead), info, lists.activeListHead, index)
      ensures FreedOf(old(fates), old(info), fates, index)
    {
      hide InQueues, Logged, Freed, FreedIn, FreedOf, EntriesAgree, Kept, Accounted, ArpLists.Valid, Cleared;
      var arpEntry := lists.dynamicList;
      ghost var k, dynamics := 0, lists.dynamics;
      ghost var done: set<nat> := {};
      DynamicWalk(0);
      KeptSame(fates, info);
      FreedNone(fates);
      NoneCleared(dynamics, info, lists.activeListHead, index);
      assert Done(fates, info, lists.activeListHead, index, done);
      hide Done;
      while arpEntry.To? && lists.dynamicActiveCount != 0
        invariant Valid() && Done(old(fates), old(info), old(lists.activeListHead), index, done)
        invariant k <= |dynamics|
        invariant arpEntry.To? ==> k < |dynamics| && arpEntry.node == dynamics[k] < |info|
        invariant arpEntry.Null? ==> k == |dynamics|
        invariant Cleared(dynamics[..k], info, lists.activeListHead, index)
        decreases |dynamics| - k
      {
        var x := arpEntry.node;
        DynamicWalk(k);
        if info[x].interface == To(index) {
          label visiting:
          DoOne(x, index, old(fates), old(info), old(lists.activeListHead), done);
          done := done + {x};
          ClearedStays(dynamics[..k], old@visiting(info), old@visiting(lists.activeListHead), index, x);
        }
        ClearedMore(dynamics, info, lists.activeListHead, index, k);
        DynamicWalk(k);
        DynamicWalk(k + 1);
        if To(lists.poolNext[x]) != lists.dynamicList {
          arpEntry := To(lists.poolNext[x]);
        } else {
          arpEntry := Null;
        }
        k := k + 1;
      }
      AllCleared(k, index);
      WhatIsDone(old(fates), old(info), old(lists.activeListHead), index, done);
      AllFreed(old(fates), old(info), done, index);
    }

    lemma WhatIsDone(fates0: map<Packet, Fate>, info0: seq<Mapping>, heads0: seq<Pointer>, index: nat, done: set<nat>)
      requires Done(fates0, info0, heads0, index, done)
      ensures Kept(fates0, info0, fates, info) && OthersStay(info0, heads0, info, lists.activeListHead, index)
      ensures FreedIn(fates0, fates, done) && forall i :: i in done ==> i < |info|
      ensures forall i :: 0 <= i < |info| ==>
                if i in done then info0[i].interface == To(index) else info[i] == info0[i]
    {
    }

    /** After that no packet waits at an entry of the interface. */
    lemma WaitsElsewhere(x: nat, index: nat)
      requires Valid() && Cleared(lists.dynamics, info, lists.activeListHead, index)
      requires x < |info| && x < |packetsWaiting| && packetsWaiting[x] != []
      ensures info[x].interface != To(index)
    {
      EntryIs(x);
      FlagIsRight(x);
      var j := Place(lists.dynamics, x);
    }

    /** What waited at entries of the interface was released. */
    lemma AllFreed(before: map<Packet, Fate>, info0: seq<Mapping>, done: set<nat>, index: nat)
      requires Valid() && FreedIn(before, fates, done) && |info0| == |info| && forall i :: i in done ==> i < |info|
      requires forall i :: 0 <= i < |info| ==>
                 if i in done then info0[i].interface == To(index) else info[i] == info0[i]
      requires Cleared(lists.dynamics, info, lists.activeListHead, index)
      ensures FreedOf(before, info0, fates, index)
    {
      forall p | p in before && before[p].Waiting? && before[p].entry < |info0|
        ensures if info0[before[p].entry].interface == To(index) then fates[p].Released? else fates[p] == before[p]
      {
        var x := before[p].entry;
        if x !in done {
          assert p in packetsWaiting[x];
          WaitsElsewhere(x, index);
        }
      }
    }

    lemma AllCleared(k: nat, index: nat)
      requires Valid() && k <= |lists.dynamics|
      requires Cleared(lists.dynamics[..k], info, lists.activeListHead, index)
      requires lists.dynamicActiveCount == 0 || k == |lists.dynamics|
      ensures Cleared(lists.dynamics, info, lists.activeListHead, index)
    {
      if k == |lists.dynamics| {
        assert lists.dynamics[..k] == lists.dynamics;
      } else {
        NoneActive(0);
        forall j | 0 <= j < |lists.dynamics|
          ensures lists.dynamics[j] < |info| && !IsActive(lists.dynamics[j])
        {
          DynamicWalk(j);
        }
      }
    }

    /** The entry at place |kept| of the static list, and what follows it. */
    lemma StaticWalk(kept: seq<nat>, rest: seq<nat>)
      requires Valid() && lists.statics == kept + rest && rest != []
      ensures var x := rest[0];
              && x < lists.Size() && x in lists.statics && |lists.poolNext| == lists.Size()
              && (|rest| > 1 ==> lists.poolNext[x] == rest[1] && rest[1] != rest[0])
              && (|rest| > 1 ==> rest[0] != rest[|rest| - 1])
              && Without(lists.statics, Place(lists.statics, x)) == kept + rest[1..]
    {
      var k := |kept|;
      assert LinkedAt(lists.poolNext, lists.poolPrevious, lists.statics, k);
      PlaceIs(lists.statics, k);
      assert lists.statics[k] == rest[0] && (|rest| > 1 ==> lists.statics[k + 1] == rest[1]);
      assert lists.statics[|lists.statics| - 1] == rest[|rest| - 1];
    }

    /** The second half of _nx_arp_interface_entries_delete. */
    method InterfaceStaticsDelete(index: nat)
      requires Valid()
      modifies lists
      ensures Valid() && lists.Size() == old(lists.Size()) && |lists.activeListHead| == |old(lists.activeListHead)|
      ensures FewerActive(old(lists.activeListHead), lists.activeListHead)
      ensures Cleared(old(lists.statics), info, lists.activeListHead, index)
      ensures OthersStay(info, old(lists.activeListHead), info, lists.activeListHead, index)
    {
      hide Valid, ArpLists.Valid, Cleared, OthersStay, FewerActive, Without, Place;
      var nextArpEntry := lists.staticList;
      ghost var orig, kept, k := lists.statics, [], 0;
      HeadOfStatics();
      if nextArpEntry.To? {
        var lastArpEntry := lists.poolPrevious[nextArpEntry.node];
        NoneCleared(orig, info, lists.activeListHead, index);
        NoneStay(index);
        NoneFewer(lists.activeListHead);
        while nextArpEntry.To?
          invariant Valid() && lists.Size() == old(lists.Size())
          invariant lists.Size() == |lists.activeListHead| == |old(lists.activeListHead)|
          invariant k <= |orig| && lists.statics == kept + orig[k..] && lastArpEntry == orig[|orig| - 1]
          invariant if k < |orig| then nextArpEntry == To(orig[k]) else nextArpEntry.Null?
          invariant FewerActive(old(lists.activeListHead), lists.activeListHead)
          invariant Cleared(orig[..k], info, lists.activeListHead, index)
          invariant OthersStay(info, old(lists.activeListHead), info, lists.activeListHead, index)
          decreases |orig| - k
        {
          var arpEntry := nextArpEntry.node;
          StaticWalk(kept, orig[k..]);
          nextArpEntry := To(lists.poolNext[arpEntry]);
          kept := DeleteIfOf(arpEntry, index, orig, k, kept, old(lists.activeListHead));
          k := k + 1;
          if arpEntry == lastArpEntry {
            nextArpEntry := Null;
          }
        }
        assert orig[..k] == orig;
      } else {
        NoneCleared(orig, info, lists.activeListHead, index);
        NoneStay(index);
        NoneFewer(lists.activeListHead);
        assert orig[..0] == orig;
      }
    }

    /** The next entry is deleted if it is of the interface, and kept on the list otherwise. */
    method DeleteIfOf(arpEntry: nat, index: nat, ghost orig: seq<nat>, ghost k: nat, ghost kept: seq<nat>,
                      ghost heads: seq<Pointer>)
      returns (ghost kept': seq<nat>)
      requires Valid() && k < |orig| && arpEntry == orig[k] && lists.statics == kept + orig[k..]
      requires FewerActive(heads, lists.activeListHead) && Cleared(orig[..k], info, lists.activeListHead, index)
      requires OthersStay(info, heads, info, lists.activeListHead, index)
      modifies lists
      ensures Valid() && lists.Size() == old(lists.Size()) == |lists.activeListHead|
      ensures lists.statics == kept' + orig[k + 1..]
      ensures FewerActive(heads, lists.activeListHead) && Cleared(orig[..k + 1], info, lists.activeListHead, index)
      ensures OthersStay(info, heads, info, lists.activeListHead, index)
    {
      hide Valid, ArpLists.Valid, Cleared, OthersStay, FewerActive, Without, Place;
      StaticWalk(kept, orig[k..]);
      NextOnList(orig, k, kept);
      SizesAgree();
      kept' := kept;
      if info[arpEntry].interface == To(index) {
        ClearedLess(orig[..k], info, lists.activeListHead, index, arpEntry);
        OthersStayed(info, heads, lists.activeListHead, index, arpEntry);
        FewerSizes(heads, lists.activeListHead);
        OneFewer(heads, lists.activeListHead, arpEntry);
        StaticEntryDeleteInternal(arpEntry);
      } else {
        kept' := kept + [arpEntry];
      }
      ClearedMore(orig, info, lists.activeListHead, index, k);
    }

    lemma SizesAgree()
      requires Valid()
      ensures |info| == |lists.activeListHead| == lists.Size()
    {
    }

    lemma NextOnList(list: seq<nat>, k: nat, kept: seq<nat>)
      requires k < |list|
      ensures list[k..][1..] == list[k + 1..] && kept + list[k..] == (kept + [list[k]]) + list[k + 1..]
    {
    }

    lemma NoneStay(index: nat)
      requires Valid()
      ensures OthersStay(info, lists.activeListHead, info, lists.activeListHead, index)
    {
    }

    lemma HeadOfStatics()
      requires Valid()
      ensures lists.staticList == HeadOf(lists.statics) && |lists.activeListHead| == |info| == lists.Size()
      ensures lists.statics != [] ==>
                lists.staticList.node < |lists.poolPrevious|
                && lists.poolPrevious[lists.staticList.node] == lists.statics[|lists.statics| - 1]
    {
      if lists.statics != [] {
        RingLast(lists.poolNext, lists.poolPrevious, lists.statics);
      }
    }

    /** _nx_arp_interface_entries_delete: afterwards no active entry is of the interface, and those of other
        interfaces are as they were. */
    method InterfaceEntriesDelete(index: nat)
      requires Valid()
      modifies lists, this`info, this`packetsWaiting, this`sendPacketsDropped, this`released, this`fates
      ensures Valid() && Kept(old(fates), old(info), fates, info)
      ensures forall i :: 0 <= i < |info| && IsActive(i) ==> info[i].interface != To(index)
      ensures OthersStay(old(info), old(lists.activeListHead), info, lists.activeListHead, index)
      ensures FreedOf(old(fates), old(info), fates, index)
    {
      hide InQueues, Logged, EntriesAgree, Kept, FreedOf;
      InterfaceDynamicsDelete(index);
      label halfway:
      ghost var dynamics, heads := lists.dynamics, lists.activeListHead;
      InterfaceStaticsDelete(index);
      forall i | 0 <= i < |info| && IsActive(i)
        ensures info[i].interface != To(index)
      {
        assert heads[i].To?;
        if i in old@halfway(lists.statics) {
          var j := Place(old@halfway(lists.statics), i);
        } else {
          var j := Place(dynamics, i);
        }
      }
    }

    // -------------------------------------------------------------- looking up, and the passing of time

    predicate IsMapping(i: nat, ip: Ulong)
      requires i < |info|
      reads this`info
    {
      info[i].ip == ip && HasAddress(info[i].msw, info[i].lsw)
    }

    /** Some active entry gives the address. */
    ghost predicate Resolves(ip: Ulong)
      reads this`info, lists`activeListHead
    {
      exists x :: 0 <= x < |info| && x < |lists.activeListHead| && IsActive(x) && IsMapping(x, ip)
    }

    /** How many entries of the dynamic list a lookup goes through: the active ones, but at least one. */
    ghost function Reach(): nat
      reads lists`dynamics, lists`dynamicActiveCount
    {
      if lists.dynamics == [] then 0 else if lists.dynamicActiveCount == 0 then 1 else lists.dynamicActiveCount
    }

    /** A visit of _nx_arp_periodic_update to an entry of the dynamic list. An active entry without an
        address whose timer runs expires at the last visit of its life, and not before. */
    method VisitEntry(x: nat) returns (ghost expired: bool)
      requires Valid() && x < |info| && x in lists.dynamics
      modifies lists, this`info, this`packetsWaiting, this`requestsSent, this`clocks, this`visited
      modifies this`sendPacketsDropped, this`released, this`fates
      ensures Valid() && info == old(info)[x := Tick(old(info[x])).0] && Kept(old(fates), old(info), fates, info)
      ensures x < |old(clocks)| && clocks == old(clocks)[x := Aged(old(clocks[x]))] && visited == old(visited) + [x]
      ensures old(lists.MostRecentFirst()) ==> lists.MostRecentFirst()
      ensures expired <==> Tick(old(info[x])).1.Expire?
      ensures old(Unresolved(info[x], lists.activeListHead[x], false)) ==>
                (expired <==> old(clocks[x]) == Running(LIFETIME - 1))
      ensures requestsSent == old(requestsSent) +
                if old(info[x]).nextUpdate == 1 && old(info[x]).retries < MAXIMUM_RETRIES
                then [(old(info[x]).ip, old(info[x]).interface)] else []
      ensures |requestsSent| - |old(requestsSent)| == info[x].retries - old(info[x]).retries
      ensures old(Unresolved(info[x], lists.activeListHead[x], false)) ==>
                (|requestsSent| > |old(requestsSent)| <==>
                 && old(clocks[x]).Running? && (old(clocks[x]).visits + 1) % UPDATE_RATE == 0
                 && old(clocks[x]).visits + 1 < LIFETIME)
      ensures && lists.active == (if expired then old(lists.active) - {x} else old(lists.active))
              && lists.dynamics == (if expired then Without(old(lists.dynamics), Place(old(lists.dynamics), x)) + [x]
                                    else old(lists.dynamics))
      ensures lists.statics == old(lists.statics)
      ensures lists.activeListHead ==
              if expired then old(lists.activeListHead)[x := Null] else old(lists.activeListHead)
      ensures packetsWaiting == if expired then old(packetsWaiting)[x := []] else old(packetsWaiting)
      ensures x < |old(packetsWaiting)|
      ensures if expired then Dropped(old(fates), old(sendPacketsDropped), x, old(packetsWaiting)[x])
              else fates == old(fates) && sendPacketsDropped == old(sendPacketsDropped)
    {
      hide InQueues, Logged, Freed, EntriesAgree, Kept, Mapped, Bounded, Timed;
      hide ArpLists.Valid, ArpLists.MostRecentFirst;
      EntryIs(x);
      FlagIsRight(x);
      VisitTimed(info[x], lists.activeListHead[x], x in lists.statics, clocks[x]);
      RetriesCount(info[x]);
      ghost var clock := Aged(clocks[x]);
      expired := Tick(info[x]).1.Expire?;
      if info[x].nextUpdate != 0 {
        info := info[x := info[x].(nextUpdate := info[x].nextUpdate - 1)];
        if info[x].nextUpdate == 0 {
          if info[x].retries == MAXIMUM_RETRIES {
            ExpireEntry(x, old(info), clock);
          } else {
            info := info[x := info[x].(retries := info[x].retries + 1, nextUpdate := UPDATE_RATE)];
            requestsSent := requestsSent + [(info[x].ip, info[x].interface)];
          }
        }
      }
      if !expired {
        VisitKeeps(x, old(info), clock);
      }
      clocks := clocks[x := clock];
      visited := visited + [x];
    }

    /** A visit that does not expire the entry changes no more than its timers. */
    lemma VisitKeeps(x: nat, before: seq<Mapping>, clock: Clock)
      requires x < |before| == |info| == |packetsWaiting| == |lists.activeListHead| == |clocks|
      requires info == before[x := info[x]]
      requires EntriesAgree(before, packetsWaiting, lists.activeListHead, lists.statics, |mtu|, clocks, {})
      requires info[x] == before[x].(nextUpdate := info[x].nextUpdate, retries := info[x].retries)
      requires info[x].retries <= MAXIMUM_RETRIES && InQueues(packetsWaiting, fates)
      requires Timed(info[x], lists.activeListHead[x], x in lists.statics, clock)
      ensures EntriesAgree(info, packetsWaiting, lists.activeListHead, lists.statics, |mtu|, clocks[x := clock], {})
      ensures Kept(fates, before, fates, info)
    {
      hide InQueues, Kept;
      assert Mapped(before[x], lists.activeListHead[x], |mtu|);
      assert Bounded(before[x], packetsWaiting[x], lists.activeListHead[x], x in lists.statics);
      assert Mapped(info[x], lists.activeListHead[x], |mtu|);
      assert Bounded(info[x], packetsWaiting[x], lists.activeListHead[x], x in lists.statics);
      hide EntriesAgree, Mapped, Bounded, Timed;
      AgreeExcept(before, packetsWaiting, lists.activeListHead, lists.statics, |mtu|, clocks, x);
      EntryFilled(before, packetsWaiting, lists.activeListHead, lists.statics, |mtu|, clocks, x, info[x],
                  packetsWaiting[x], clock);
      KeptRefilled(fates, before, packetsWaiting, x, info[x]);
      assert packetsWaiting[x := packetsWaiting[x]] == packetsWaiting;
    }

    /** The branch of an expiry: the entry leaves its bucket and its packets are released. */
    method ExpireEntry(x: nat, ghost before: seq<Mapping>, ghost clock: Clock)
      requires lists.Valid() && Accounted(packetsWaiting) && x < |info| == lists.Size() && x in lists.dynamics
      requires |info| == |before| == |packetsWaiting| == |lists.activeListHead| == |clocks|
      requires info == before[x := info[x]]
      requires EntriesAgree(before, packetsWaiting, lists.activeListHead, lists.statics, |mtu|, clocks, {})
      requires info[x].ip == before[x].ip && info[x].retries <= MAXIMUM_RETRIES
      modifies lists, this`packetsWaiting, this`sendPacketsDropped, this`released, this`fates
      ensures lists.Valid() && Accounted(packetsWaiting) && lists.Size() == old(lists.Size())
      ensures EntriesAgree(info, packetsWaiting, lists.activeListHead, lists.statics, |mtu|, clocks[x := clock], {})
      ensures packetsWaiting == old(packetsWaiting)[x := []] && Kept(old(fates), before, fates, info)
      ensures lists.activeListHead == old(lists.activeListHead)[x := Null]
      ensures lists.dynamics == Without(old(lists.dynamics), Place(old(lists.dynamics), x)) + [x]
      ensures lists.statics == old(lists.statics) && lists.active == old(lists.active) - {x}
      ensures Dropped(old(fates), old(sendPacketsDropped), x, old(packetsWaiting)[x])
      ensures old(lists.MostRecentFirst()) ==> lists.MostRecentFirst()
    {
      hide InQueues, Logged, Freed, EntriesAgree, Kept, ArpLists.Valid, ArpLists.MostRecentFirst;
      FlagIsRight(x);
      AgreeExcept(before, packetsWaiting, lists.activeListHead, lists.statics, |mtu|, clocks, x);
      EntryVisited(before, packetsWaiting, lists.activeListHead, lists.statics, |mtu|, clocks, x, info[x], clock);
      EntryDeactivated(info, packetsWaiting, lists.activeListHead, lists.statics, |mtu|, clocks[x := clock], x, {x});
      KeptRefilled(fates, before, packetsWaiting, x, info[x]);
      lists.Expire(x);
      ReleaseQueue(x);
      KeptFreed(old(fates), info, fates, x);
      KeptTwice(old(fates), before, old(fates), info, fates, info);
    }

    /** _nx_arp_periodic_update, but for the interfaces' defend timeouts. */
    method PeriodicUpdate()
      requires Valid()
      modifies lists, this`info, this`packetsWaiting, this`requestsSent, this`clocks, this`visited
      modifies this`sendPacketsDropped, this`released, this`fates
      ensures Valid() && Kept(old(fates), old(info), fates, info)
      ensures old(lists.MostRecentFirst()) ==> lists.MostRecentFirst()
      ensures (lists.dynamics, info, lists.active) == TickFrom(old(lists.dynamics), old(info), old(lists.active), 0, 0)
      ensures var visits := VisitsFrom(old(lists.dynamics), old(info), old(lists.active), 0, 0);
              visited == old(visited) + visits && clocks == AgedBy(old(clocks), visits)
      ensures requestsSent == old(requestsSent) +
                RequestsTo(AskersFrom(old(lists.dynamics), old(info), old(lists.active), 0, 0), old(info))
      ensures lists.statics == old(lists.statics) && lists.active <= old(lists.active)
      ensures FreedIn(old(fates), fates, old(lists.active) - lists.active)
    {
      hide InQueues, Logged, Freed, FreedIn, EntriesAgree, Kept, ArpLists.Valid, ArpLists.MostRecentFirst;
      hide Tick, TickFrom, VisitsFrom, AskersFrom, RequestsTo, AgedBy, Distinct;
      var arpEntry := lists.dynamicList;
      var i: nat := 0;
      ghost var pos: nat := 0;
      KeptSame(fates, info);
      DynamicWalk(0);
      ActiveIsCounted();
      FreedNone(fates);
      assert lists.active - lists.active == {};
      while i < lists.dynamicActiveCount
        invariant Valid() && Kept(old(fates), old(info), fates, info) && lists.statics == old(lists.statics)
        invariant old(lists.MostRecentFirst()) ==> lists.MostRecentFirst()
        invariant TickFrom(old(lists.dynamics), old(info), old(lists.active), 0, 0) ==
                  TickFrom(lists.dynamics, info, lists.active, i, pos)
        invariant visited + VisitsFrom(lists.dynamics, info, lists.active, i, pos) ==
                  old(visited) + VisitsFrom(old(lists.dynamics), old(info), old(lists.active), 0, 0)
        invariant AgedBy(clocks, VisitsFrom(lists.dynamics, info, lists.active, i, pos)) ==
                  AgedBy(old(clocks), VisitsFrom(old(lists.dynamics), old(info), old(lists.active), 0, 0))
        invariant requestsSent + RequestsTo(AskersFrom(lists.dynamics, info, lists.active, i, pos), info) ==
                  old(requestsSent)
                  + RequestsTo(AskersFrom(old(lists.dynamics), old(info), old(lists.active), 0, 0), old(info))
        invariant lists.active <= old(lists.active)
        invariant FreedIn(old(fates), fates, old(lists.active) - lists.active)
        invariant lists.dynamicActiveCount == |lists.active|
        invariant if lists.dynamics == [] then lists.dynamicActiveCount == 0
                  else pos < |lists.dynamics| && arpEntry == To(lists.dynamics[pos])
        decreases lists.dynamicActiveCount - i
      {
        var x := arpEntry.node;
        DynamicWalk(pos);
        ActiveIsCounted();
        PlaceIs(lists.dynamics, pos);
        TickStep(lists.dynamics, info, lists.active, i, pos);
        ghost var next := VisitsFrom(lists.dynamics, info, lists.active, i, pos)[1..];
        AgedStep(clocks, x, next);
        JoinOne(visited, x, next);
        ghost var askers := AskersFrom(lists.dynamics, info, lists.active, i, pos);
        ghost var m := Tick(info[x]).0;
        ghost var rest :=
          if Tick(info[x]).1.Expire?
          then AskersFrom(Without(lists.dynamics, pos) + [x], info[x := m], lists.active - {x}, i + 1, 0)
          else AskersFrom(lists.dynamics, info[x := m], lists.active, i + 1,
                          if pos + 1 < |lists.dynamics| then pos + 1 else 0);
        EntryRetries(x);
        RequestsStep(askers, rest, info, x);
        JoinRequests(requestsSent, [(info[x].ip, info[x].interface)], RequestsTo(rest, info[x := m]));
        IdleIsEmpty(x);
        label visiting:
        var expired := VisitEntry(x);
        FreedAtVisit(old(fates), old@visiting(fates), old(lists.active), old@visiting(lists.active),
                     old@visiting(packetsWaiting), x, expired);
        KeptTwice(old(fates), old(info), old@visiting(fates), old@visiting(info), fates, info);
        ActiveIsCounted();
        if expired {
          pos := |lists.dynamics| - 1;
        }
        DynamicWalk(pos);
        arpEntry := To(lists.poolNext[x]);
        pos := if pos + 1 < |lists.dynamics| then pos + 1 else 0;
        i := i + 1;
      }
      TickEnd(lists.dynamics, info, lists.active, i, pos);
      AgedNone(clocks);
      RequestsNone(info);
    }

    lemma JoinRequests(requests: seq<(Ulong, Pointer)>, more: seq<(Ulong, Pointer)>, rest: seq<(Ulong, Pointer)>)
      ensures (requests + more) + rest == requests + (more + rest)
      ensures requests + [] == requests && [] + rest == rest
    {
    }

    /** No packet waits at an inactive entry. */
    lemma IdleIsEmpty(x: nat)
      requires Valid() && x < |info| && x in lists.dynamics
      ensures |packetsWaiting| == |info| && (x !in lists.active ==> packetsWaiting[x] == [])
    {
      EntryIs(x);
      FlagIsRight(x);
    }

    /** The entries whose packets were released after one more visit. */
    lemma FreedAtVisit(before: map<Packet, Fate>, now: map<Packet, Fate>, active: set<nat>, active0: set<nat>,
                       queues: seq<seq<Packet>>, x: nat, expired: bool)
      requires FreedIn(before, now, active - active0) && active0 <= active
      requires InQueues(queues, now) && x < |queues| && (x !in active0 ==> queues[x] == [])
      requires if expired then Freed(now, fates, x) else fates == now
      requires lists.active == if expired then active0 - {x} else active0
      ensures FreedIn(before, fates, active - lists.active)
    {
      if expired && x in active0 {
        FreedMore(before, now, fates, active - active0, x);
        assert active - lists.active == (active - active0) + {x};
      } else if expired {
        FreedEmpty(queues, now, fates, x);
        assert active0 - {x} == active0;
      }
    }

    lemma JoinOne(visits: seq<nat>, x: nat, rest: seq<nat>)
      ensures (visits + [x]) + rest == visits + ([x] + rest)
    {
    }

    lemma ActiveIsCounted()
      requires Valid()
      ensures lists.dynamicActiveCount == |lists.active| && Distinct(lists.dynamics)
      ensures lists.dynamics == [] ==> lists.dynamicActiveCount == 0
    {
      if lists.dynamics == [] {
        NoneActive(0);
      }
    }

    /** A static entry gives the address. */
    ghost predicate StaticMaps(ip: Ulong)
      reads this`info, lists`statics
    {
      exists i :: 0 <= i < |info| && i in lists.statics && IsMapping(i, ip)
    }

    /** One of the entries that a lookup goes through on the dynamic list gives the address. */
    ghost predicate WithinReach(ip: Ulong)
      reads this`info, lists`dynamics, lists`dynamicActiveCount
    {
      exists k :: 0 <= k < Reach() && DynamicMatches(k, ip)
    }

    /** A lookup goes through an inactive entry of the address, which no active entry has. */
    ghost predicate IsStale(ip: Ulong)
      reads this`info, lists`dynamics, lists`dynamicActiveCount, lists`activeListHead, lists`active
    {
      && (exists k :: 0 <= k < Reach() && DynamicMatches(k, ip) && lists.dynamics[k] !in lists.active)
      && !Resolves(ip)
    }

    /** Only an active entry that a lookup does not get to gives the address. */
    ghost predicate IsOverlooked(ip: Ulong)
      reads this`info, lists`dynamics, lists`statics, lists`dynamicActiveCount, lists`active
    {
      && (exists k :: Reach() <= k && DynamicMatches(k, ip) && lists.dynamics[k] in lists.active)
      && !StaticMaps(ip) && !WithinReach(ip)
    }

    ghost predicate Gives(i: nat, msw: Ulong, lsw: Ulong)
      reads this`info
    {
      i < |info| && info[i].msw == msw && info[i].lsw == lsw
    }

    /** _nx_arp_hardware_address_find: looks through the static list, and then through the first entries
        of the dynamic one, which are the active ones if those come first. It answers as the active
        entries do exactly if the address is neither stale nor overlooked. */
    method HardwareAddressFind(ip: Ulong) returns (status: Status, physicalMsw: Ulong, physicalLsw: Ulong)
      requires Valid()
      ensures status.Success? || status.EntryNotFound?
      ensures status.Success? <==> StaticMaps(ip) || WithinReach(ip)
      ensures StaticMaps(ip) ==>
                exists i :: 0 <= i < |info| && i in lists.statics && IsMapping(i, ip)
                  && Gives(i, physicalMsw, physicalLsw)
      ensures !StaticMaps(ip) && WithinReach(ip) ==>
                exists k :: 0 <= k < Reach() && DynamicMatches(k, ip)
                  && Gives(lists.dynamics[k], physicalMsw, physicalLsw)
                  && forall j :: 0 <= j < k ==> !DynamicMatches(j, ip)
      ensures (status.Success? <==> Resolves(ip)) <==> !IsStale(ip) && !IsOverlooked(ip)
      ensures lists.MostRecentFirst() && lists.dynamicActiveCount > 0 ==>
                (status.Success? <==> Resolves(ip))
      ensures lists.MostRecentFirst() && lists.dynamicActiveCount > 0 && status.Success? ==>
                exists i :: 0 <= i < |info| && IsActive(i) && IsMapping(i, ip) && Gives(i, physicalMsw, physicalLsw)
    {
      hide InQueues, Logged, EntriesAgree;
      status, physicalMsw, physicalLsw := EntryNotFound, 0, 0;
      FindIsExact(ip);
      NoneIsMissed(ip);
      var arpEntry := FindStatic(ip);
      if arpEntry.To? {
        FlagIsRight(arpEntry.node);
        return Success, info[arpEntry.node].msw, info[arpEntry.node].lsw;
      }
      ghost var k;
      arpEntry, k := FindDynamic(ip);
      if arpEntry.To? {
        return Success, info[arpEntry.node].msw, info[arpEntry.node].lsw;
      }
    }

    /** The search of the static list. */
    method FindStatic(ip: Ulong) returns (arpEntry: Pointer)
      requires Valid()
      ensures arpEntry.To? ==> arpEntry.node < |info| && arpEntry.node in lists.statics && IsMapping(arpEntry.node, ip)
      ensures arpEntry.Null? ==> forall i :: 0 <= i < |info| && i in lists.statics ==> !IsMapping(i, ip)
    {
      arpEntry := lists.staticList;
      ghost var k, statics := 0, lists.statics;
      assert statics != [] ==> LinkedAt(lists.poolNext, lists.poolPrevious, statics, 0);
      while arpEntry.To?
        invariant arpEntry.To? ==> k < |statics| && arpEntry.node == statics[k] < |info|
        invariant arpEntry.Null? ==> k == |statics|
        invariant forall j :: 0 <= j < k && j < |statics| ==> statics[j] < |info| && !IsMapping(statics[j], ip)
        decreases |statics| - k
      {
        assert LinkedAt(lists.poolNext, lists.poolPrevious, statics, k);
        if IsMapping(arpEntry.node, ip) {
          return;
        }
        assert k + 1 < |statics| ==> statics[k + 1] != statics[0];
        if To(lists.poolNext[arpEntry.node]) == lists.staticList {
          arpEntry := Null;
        } else {
          arpEntry := To(lists.poolNext[arpEntry.node]);
        }
        k := k + 1;
      }
    }

    /** The counted search of the dynamic list. */
    method FindDynamic(ip: Ulong) returns (arpEntry: Pointer, ghost found: nat)
      requires Valid()
      ensures arpEntry.To? <==> WithinReach(ip)
      ensures arpEntry.To? ==>
                && found < Reach() && DynamicMatches(found, ip) && arpEntry.node == lists.dynamics[found]
                && forall k :: 0 <= k < found ==> !DynamicMatches(k, ip)
      ensures arpEntry.To? && lists.MostRecentFirst() && lists.dynamicActiveCount > 0 ==>
                |info| == |lists.activeListHead| && IsActive(arpEntry.node)
    {
      hide ArpLists.Valid;
      arpEntry := lists.dynamicList;
      found := 0;
      var count := 1;
      DynamicWalk(0);
      ReachIsOnList();
      while arpEntry.To?
        invariant arpEntry.To? ==>
                    1 <= count <= Reach() && arpEntry.node == lists.dynamics[count - 1] < |info|
        invariant arpEntry.Null? ==> count > Reach()
        invariant forall k :: 0 <= k < count - 1 ==> !DynamicMatches(k, ip)
        decreases Reach() - count
      {
        DynamicWalk(count - 1);
        DynamicWalk(count);
        if IsMapping(arpEntry.node, ip) {
          found := count - 1;
          assert DynamicMatches(found, ip);
          return;
        }
        if count >= lists.dynamicActiveCount {
          arpEntry := Null;
        } else {
          arpEntry := To(lists.poolNext[arpEntry.node]);
        }
        count := count + 1;
      }
    }

    ghost predicate DynamicMatches(k: nat, ip: Ulong)
      reads this`info, lists`dynamics
    {
      k < |lists.dynamics| && lists.dynamics[k] < |info| && IsMapping(lists.dynamics[k], ip)
    }

    lemma ReachIsOnList()
      requires Valid()
      ensures Reach() <= |lists.dynamics|
    {
      ActiveIsCounted();
      ActiveOnList();
      ActiveFits(lists.active, lists.dynamics);
    }

    /** When a lookup answers as the active entries do. */
    lemma FindIsExact(ip: Ulong)
      requires Valid()
      ensures (StaticMaps(ip) || WithinReach(ip) <==> Resolves(ip)) <==> !IsStale(ip) && !IsOverlooked(ip)
    {
      hide InQueues, Logged, EntriesAgree, ArpLists.Valid, ArpLists.MostRecentFirst;
      if Resolves(ip) {
        var i :| 0 <= i < |info| && i < |lists.activeListHead| && IsActive(i) && IsMapping(i, ip);
        FlagIsRight(i);
        if i !in lists.statics {
          var k := Place(lists.dynamics, i);
          assert DynamicMatches(k, ip);
        }
      }
      if i :| 0 <= i < |info| && i in lists.statics && IsMapping(i, ip) {
        FlagIsRight(i);
      }
      if k :| 0 <= k < Reach() && DynamicMatches(k, ip) {
        DynamicWalk(k);
      }
      if k :| Reach() <= k && DynamicMatches(k, ip) && lists.dynamics[k] in lists.active {
        DynamicWalk(k);
      }
    }

    /** If the active entries come first and there are any, nothing is stale or overlooked. */
    lemma NoneIsMissed(ip: Ulong)
      requires lists.Valid()
      ensures lists.MostRecentFirst() && lists.dynamicActiveCount > 0 ==> !IsStale(ip) && !IsOverlooked(ip)
    {
    }

    // -------------------------------------------------------------- messages and packets

    /** Messages without a sender, or whose sender has the address that the interface has or probes for,
        do not get to the cache. */
    predicate Ignores(senderIp: Ulong, ownIp: Ulong, probeIp: Ulong) {
      senderIp == 0 || senderIp == ownIp || (ownIp == 0 && senderIp == probeIp)
    }

    ghost predicate HasStatic(ip: Ulong)
      reads this`info, lists`statics
    {
      exists i :: 0 <= i < |info| && i in lists.statics && info[i].ip == ip
    }

    /** The cache's part of _nx_arp_packet_receive, for a message with this sender. The packets that waited
        for it are sent. An entry that a message without a hardware address sets has no address and no timer. */
    method PacketReceive(senderIp: Ulong, msw: Ulong, lsw: Ulong, interface: nat, ownIp: Ulong, probeIp: Ulong)
      returns (ghost x: nat)
      requires Valid() && interface < |mtu|
      modifies lists, this`info, this`clocks
      modifies this`packetsWaiting, this`sendPacketsDropped, this`totalPacketsSent, this`released, this`fates
      ensures lists.statics == old(lists.statics)
      ensures Valid() && Kept(old(fates), old(info), fates, info)
      ensures old(lists.MostRecentFirst()) ==> lists.MostRecentFirst()
      ensures Ignores(senderIp, ownIp, probeIp) || old(HasStatic(senderIp)) || old(lists.dynamics) == [] ==>
                unchanged(this) && unchanged(lists)
      ensures !(Ignores(senderIp, ownIp, probeIp) || old(HasStatic(senderIp)) || old(lists.dynamics) == []) ==>
                && Set(old(info), old(lists.activeListHead), x,
                       Mapping(senderIp, msw, lsw, To(interface), EXPIRATION_RATE, 0))
                && x < |packetsWaiting| && x in lists.dynamics && packetsWaiting == old(packetsWaiting)[x := []]
                && x < |old(clocks)|
                && clocks == old(clocks)[x := if HasAddress(msw, lsw) then Running(0) else Stopped]
                && x < |old(packetsWaiting)|
                && if old(HasEntry(senderIp))
                   then Delivered(old(fates), old(totalPacketsSent), old(sendPacketsDropped), x,
                                  old(packetsWaiting)[x], interface)
                   else Dropped(old(fates), old(sendPacketsDropped), x, old(packetsWaiting)[x])
                        && totalPacketsSent == old(totalPacketsSent)
    {
      hide InQueues, Logged, Freed, Sent, Fitting, EntriesAgree, Kept, Unique, ArpLists.Valid, ArpLists.MostRecentFirst;
      KeptSame(fates, info);
      x := 0;
      if Ignores(senderIp, ownIp, probeIp) {
        return;
      }
      var arpPtr := FindEntry(senderIp);
      var m := Mapping(senderIp, msw, lsw, To(interface), EXPIRATION_RATE, 0);
      ghost var clock := if HasAddress(msw, lsw) then Running(0) else Stopped;
      WhereFound(senderIp, arpPtr);
      assert arpPtr.To? <==> HasEntry(senderIp);
      hide HasEntry;
      if arpPtr.To? {
        x := arpPtr.node;
        if lists.routeStatic[arpPtr.node] {
          return;
        }
        SetEntry(arpPtr.node, m, clock);
        label filled:
        SendWaiting(arpPtr.node);
        KeptTwice(old(fates), old(info), old@filled(fates), old@filled(info), fates, info);
      } else {
        var status;
        status, x := EntryAllocate(Hash(senderIp), false);
        if status.Success? {
          KeptFreed(old(fates), info, fates, x);
          label prepared:
          var entry := lists.activePrevious[lists.table[Hash(senderIp)].node];
          FlagIsRight(entry);
          SetEntry(entry, m, clock);
          KeptTwice(old(fates), old(info), old@prepared(fates), old@prepared(info), fates, info);
        }
      }
    }

    /** What is known of the entry that a search found, or did not find. */
    lemma WhereFound(ip: Ulong, arpPtr: Pointer)
      requires Valid()
      requires arpPtr.To? ==> arpPtr.node < |info| && IsActive(arpPtr.node) && info[arpPtr.node].ip == ip
      requires arpPtr.Null? ==> forall i :: 0 <= i < |info| && IsActive(i) ==> info[i].ip != ip
      ensures arpPtr.To? ==>
                var x := arpPtr.node;
                && |lists.routeStatic| == |lists.activeListHead| == |info|
                && (lists.routeStatic[x] <==> x in lists.statics) && (lists.routeStatic[x] <==> HasStatic(ip))
                && (x in lists.dynamics <==> x !in lists.statics) && Entries({x})
                && lists.activeListHead[x] == To(Hash(ip))
                && Bounded(info[x], packetsWaiting[x], lists.activeListHead[x], x in lists.statics)
                && forall i :: 0 <= i < |info| && i != x && IsActive(i) ==> info[i].ip != ip
      ensures arpPtr.Null? ==> !HasStatic(ip)
    {
      hide InQueues, Logged, ArpLists.Valid;
      if i :| 0 <= i < |info| && i in lists.statics && info[i].ip == ip {
        FlagIsRight(i);
      }
      if arpPtr.To? {
        EntryIs(arpPtr.node);
        FlagIsRight(arpPtr.node);
      }
    }

    /** Drops a packet that was handed over for sending but never waited. */
    method DropNew(packet: Packet)
      requires Accounted(packetsWaiting) && packet !in handedOver
      modifies this`sendPacketsDropped, this`released, this`fates, this`handedOver
      ensures Accounted(packetsWaiting) && fates == old(fates)[packet := Released]
      ensures handedOver == old(handedOver) + {packet} && sendPacketsDropped == old(sendPacketsDropped) + 1
    {
      handedOver := handedOver + {packet};
      LogMore(released, fates, packet);
      sendPacketsDropped := sendPacketsDropped + 1;
      released := released + [packet];
      fates := fates[packet := Released];
    }

    /** Puts a packet at the end of an entry's queue. */
    method JoinQueue(x: nat, packet: Packet)
      requires Accounted(packetsWaiting) && x < |packetsWaiting| && packet !in handedOver
      modifies this`packetsWaiting, this`fates, this`handedOver
      ensures Accounted(packetsWaiting) && handedOver == old(handedOver) + {packet}
      ensures packetsWaiting == old(packetsWaiting)[x := old(packetsWaiting[x]) + [packet]]
      ensures fates == old(fates)[packet := Waiting(x)] && Kept(old(fates), info, fates, info)
    {
      hide InQueues, Logged, Kept;
      AddLast(packetsWaiting, fates, x, packet);
      LogSame(released, fates, packet, Waiting(x));
      KeptNew(fates, info, packet, Waiting(x));
      packetsWaiting := packetsWaiting[x := packetsWaiting[x] + [packet]];
      fates := fates[packet := Waiting(x)];
      handedOver := handedOver + {packet};
    }

    /** Removes the first packet of an entry's queue and drops it. */
    method DropOldest(x: nat)
      requires Accounted(packetsWaiting) && x < |packetsWaiting| && |packetsWaiting[x]| > 1
      modifies this`packetsWaiting, this`sendPacketsDropped, this`released, this`fates
      ensures Accounted(packetsWaiting) && packetsWaiting == old(packetsWaiting)[x := old(packetsWaiting[x])[1..]]
      ensures Kept(old(fates), info, fates, info)
      ensures fates == old(fates)[old(packetsWaiting[x])[0] := Released]
      ensures sendPacketsDropped == old(sendPacketsDropped) + 1
      ensures old(packetsWaiting[x])[0] != old(packetsWaiting[x])[|old(packetsWaiting[x])| - 1]
    {
      hide InQueues, Logged, Kept;
      var removePacket := packetsWaiting[x][0];
      ghost var queues := packetsWaiting;
      OldestDiffers(packetsWaiting[x], x, queues);
      KeptOne(fates, info, removePacket, x);
      packetsWaiting := packetsWaiting[x := packetsWaiting[x][1..]];
      Drop(removePacket, x, queues);
    }

    /** Puts a packet at the end of an entry's queue, and drops the oldest if the queue was full. */
    method Enqueue(x: nat, packet: Packet)
      requires Valid() && x < |info| && IsActive(x) && x in lists.dynamics && packet !in handedOver
      modifies this`packetsWaiting, this`sendPacketsDropped, this`transmitResourceErrors
      modifies this`released, this`fates, this`handedOver
      ensures handedOver == old(handedOver) + {packet}
      ensures Valid() && Kept(old(fates), info, fates, info)
      ensures x < |old(packetsWaiting)| && Joined(old(packetsWaiting), old(fates), x, packet)
      ensures var lost := if |old(packetsWaiting)[x]| == MAX_QUEUE_DEPTH then 1 else 0;
              && sendPacketsDropped == old(sendPacketsDropped) + lost
              && transmitResourceErrors == old(transmitResourceErrors) + lost
    {
      EntryIs(x);
      assert |packetsWaiting[x]| <= MAX_QUEUE_DEPTH;
      hide Accounted, EntriesAgree, Kept, ArpLists.Valid;
      FlagIsRight(x);
      ghost var queue := packetsWaiting[x];
      EntryQueued(info, packetsWaiting, lists.activeListHead, lists.statics, |mtu|, clocks, x,
                  (if |queue| == MAX_QUEUE_DEPTH then queue[1..] else queue) + [packet]);
      AddToQueue(x, packet);
    }

    method AddToQueue(x: nat, packet: Packet)
      requires Accounted(packetsWaiting) && x < |packetsWaiting| && |packetsWaiting[x]| <= MAX_QUEUE_DEPTH
      requires packet !in handedOver
      modifies this`packetsWaiting, this`sendPacketsDropped, this`transmitResourceErrors
      modifies this`released, this`fates, this`handedOver
      ensures handedOver == old(handedOver) + {packet}
      ensures Accounted(packetsWaiting) && Kept(old(fates), info, fates, info)
      ensures Joined(old(packetsWaiting), old(fates), x, packet)
      ensures var lost := if |old(packetsWaiting)[x]| == MAX_QUEUE_DEPTH then 1 else 0;
              && sendPacketsDropped == old(sendPacketsDropped) + lost
              && transmitResourceErrors == old(transmitResourceErrors) + lost
    {
      hide Accounted, Kept;
      ghost var queue := packetsWaiting[x];
      var queuedCount := |packetsWaiting[x]|;
      JoinQueue(x, packet);
      if queuedCount >= MAX_QUEUE_DEPTH {
        transmitResourceErrors := transmitResourceErrors + 1;
        label removing:
        DropOldest(x);
        KeptTwice(old(fates), info, old@removing(fates), info, fates, info);
        assert (queue + [packet])[1..] == queue[1..] + [packet] && (queue + [packet])[0] == queue[0];
      }
    }

    /** The packet has become the last of entry x's queue. If the queue was full, its first packet is not
        there any more and was released. */
    ghost predicate Joined(before: seq<seq<Packet>>, fates0: map<Packet, Fate>, x: nat, packet: Packet)
      requires x < |before|
      reads this`packetsWaiting, this`fates
    {
      var queue := before[x];
      if |queue| == MAX_QUEUE_DEPTH then
        && packetsWaiting == before[x := queue[1..] + [packet]]
        && fates == fates0[packet := Waiting(x)][queue[0] := Released] && packet != queue[0]
      else
        packetsWaiting == before[x := queue + [packet]] && fates == fates0[packet := Waiting(x)]
    }

    lemma OldestDiffers(queue: seq<Packet>, x: nat, queues: seq<seq<Packet>>)
      requires Accounted(queues) && x < |queues| && queues[x] == queue && |queue| > 1
      ensures queue[0] != queue[|queue| - 1] && queue[0] in fates && fates[queue[0]] == Waiting(x)
      ensures queue[|queue| - 1] in fates
    {
      assert Queued(x, queues[x], fates);
    }

    lemma KeptOne(before: map<Packet, Fate>, info: seq<Mapping>, packet: Packet, x: nat)
      requires packet in before && before[packet] == Waiting(x)
      ensures Kept(before, info, before[packet := Released], info)
    {
    }

    /** The packet cannot be sent in one piece, and it may not be fragmented or nothing would do it. */
    predicate IsTooLong(packet: Packet, interface: nat, fragmentOkay: bool)
      requires interface < |mtu|
    {
      packet.length > mtu[interface] && (!canFragment || !fragmentOkay)
    }

    /** The part of _nx_ip_driver_packet_send that looks up the destination of a unicast packet. The packet
        is dropped exactly if the address is unknown and the packet is too long or has no entry to wait at. */
    method PacketSend(destination: Ulong, packet: Packet, interface: nat, fragmentOkay: bool)
      returns (r: Sending, ghost x: nat)
      requires Valid() && interface < |mtu| && packet !in handedOver
      modifies lists, this`info, this`clocks, this`requestsSent, this`handedOver, this`transmitResourceErrors
      modifies this`packetsWaiting, this`sendPacketsDropped, this`released, this`fates
      ensures handedOver == if r.Resolved? then old(handedOver) else old(handedOver) + {packet}
      ensures Valid() && Kept(old(fates), old(info), fates, info)
      ensures old(lists.MostRecentFirst()) ==> lists.MostRecentFirst()
      ensures r.Resolved? <==> old(Resolves(destination))
      ensures r.Resolved? ==>
                && info == old(info) && fates == old(fates) && packetsWaiting == old(packetsWaiting)
                && sendPacketsDropped == old(sendPacketsDropped)
                && transmitResourceErrors == old(transmitResourceErrors)
                && x < |info| == |lists.activeListHead| && IsActive(x) && IsMapping(x, destination)
                && r == Resolved(info[x].msw, info[x].lsw)
      ensures r.Discarded? <==>
                && !old(Resolves(destination))
                && (IsTooLong(packet, interface, fragmentOkay)
                    || (!old(HasEntry(destination)) && old(lists.dynamics) == []))
      ensures r.Discarded? ==>
                && fates == old(fates)[packet := Released] && info == old(info)
                && packetsWaiting == old(packetsWaiting) && sendPacketsDropped == old(sendPacketsDropped) + 1
                && transmitResourceErrors ==
                   old(transmitResourceErrors) + if IsTooLong(packet, interface, fragmentOkay) then 0 else 1
      ensures r.Held? ==>
                && x < |old(info)| == |old(packetsWaiting)|
                && Set(old(info), old(lists.activeListHead), x,
                       if old(HasEntry(destination)) then old(info)[x]
                       else Mapping(destination, 0, 0, To(interface), UPDATE_RATE, 0))
                && info[x].ip == destination
      ensures r.Held? && old(HasEntry(destination)) ==>
                var lost := if |old(packetsWaiting)[x]| == MAX_QUEUE_DEPTH then 1 else 0;
                && Joined(old(packetsWaiting), old(fates), x, packet)
                && sendPacketsDropped == old(sendPacketsDropped) + lost
                && transmitResourceErrors == old(transmitResourceErrors) + lost
      ensures r.Held? && !old(HasEntry(destination)) ==>
                && packetsWaiting == old(packetsWaiting)[x := [packet]]
                && packet in fates && fates[packet] == Waiting(x) && Freed(old(fates), fates - {packet}, x)
                && sendPacketsDropped == old(sendPacketsDropped) + |old(packetsWaiting)[x]|
                && transmitResourceErrors == old(transmitResourceErrors)
      ensures clocks == old(clocks) || (x < |old(clocks)| && clocks == old(clocks)[x := Running(0)])
      ensures requestsSent == old(requestsSent) +
                if r.Held? && !old(HasEntry(destination)) then [(destination, To(interface))] else []
    {
      hide InQueues, Logged, Freed, EntriesAgree, Kept, Unique, ArpLists.Valid, ArpLists.MostRecentFirst;
      x := 0;
      KeptSame(fates, info);
      var index := Hash(destination);
      var arpPtr := FindEntry(destination);
      WhereFound(destination, arpPtr);
      if arpPtr.To? && HasAddress(info[arpPtr.node].msw, info[arpPtr.node].lsw) {
        x := arpPtr.node;
        assert Resolves(destination);
        lists.MoveToHead(arpPtr.node, index);
        return Resolved(info[arpPtr.node].msw, info[arpPtr.node].lsw), x;
      }
      OnlyOne(destination, arpPtr);
      hide Resolves;
      if IsTooLong(packet, interface, fragmentOkay) {
        KeptNew(fates, info, packet, Released);
        DropNew(packet);
        return Discarded, x;
      }
      if arpPtr.To? {
        x := arpPtr.node;
        assert info[x := info[x]] == info && lists.activeListHead[x := To(index)] == lists.activeListHead;
        Enqueue(arpPtr.node, packet);
        return Held, x;
      }
      assert !HasEntry(destination);
      hide HasEntry;
      r, x := HoldAtNewEntry(destination, packet, interface);
    }

    /** No entry was found: the packet is the first to wait at a new one, if there is any to be had. */
    method HoldAtNewEntry(destination: Ulong, packet: Packet, interface: nat) returns (r: Sending, ghost x: nat)
      requires Valid() && interface < |mtu| && packet !in handedOver
      requires forall i :: 0 <= i < |info| && IsActive(i) ==> info[i].ip != destination
      modifies lists, this`info, this`clocks, this`requestsSent, this`handedOver, this`transmitResourceErrors
      modifies this`packetsWaiting, this`sendPacketsDropped, this`released, this`fates
      ensures handedOver == old(handedOver) + {packet}
      ensures Valid() && Kept(old(fates), old(info), fates, info)
      ensures old(lists.MostRecentFirst()) ==> lists.MostRecentFirst()
      ensures r == if old(lists.dynamics) == [] then Discarded else Held
      ensures r.Discarded? ==>
                && fates == old(fates)[packet := Released] && info == old(info)
                && packetsWaiting == old(packetsWaiting) && sendPacketsDropped == old(sendPacketsDropped) + 1
                && transmitResourceErrors == old(transmitResourceErrors) + 1
                && clocks == old(clocks) && requestsSent == old(requestsSent)
      ensures r.Held? ==>
                && packet in fates && fates[packet] == Waiting(x) && Freed(old(fates), fates - {packet}, x)
                && x < |old(packetsWaiting)| == |old(clocks)|
                && sendPacketsDropped == old(sendPacketsDropped) + |old(packetsWaiting)[x]|
                && transmitResourceErrors == old(transmitResourceErrors)
                && Set(old(info), old(lists.activeListHead), x,
                       Mapping(destination, 0, 0, To(interface), UPDATE_RATE, 0))
                && packetsWaiting == old(packetsWaiting)[x := [packet]] && clocks == old(clocks)[x := Running(0)]
                && requestsSent == old(requestsSent) + [(destination, To(interface))]
    {
      hide InQueues, Logged, Freed, EntriesAgree, Kept, Unique, ArpLists.Valid, ArpLists.MostRecentFirst;
      var status;
      status, x := EntryAllocate(Hash(destination), false);
      if !status.Success? {
        transmitResourceErrors := transmitResourceErrors + 1;
        KeptNew(fates, info, packet, Released);
        DropNew(packet);
        return Discarded, x;
      }
      KeptFreed(old(fates), info, fates, x);
      label prepared:
      var entry := lists.activePrevious[lists.table[Hash(destination)].node];
      FlagIsRight(entry);
      SetEntry(entry, Mapping(destination, 0, 0, To(interface), UPDATE_RATE, 0), Running(0));
      KeptTwice(old(fates), old(info), old@prepared(fates), old@prepared(info), fates, info);
      label filled:
      Enqueue(entry, packet);
      KeptTwice(old(fates), old(info), old@filled(fates), old@filled(info), fates, info);
      requestsSent := requestsSent + [(destination, To(interface))];
      assert fates - {packet} == old@filled(fates) && [] + [packet] == [packet];
      r := Held;
    }

    /** If the entry found has no address, no entry gives the address. */
    lemma OnlyOne(ip: Ulong, arpPtr: Pointer)
      requires Valid()
      requires if arpPtr.To? then arpPtr.node < |info| && IsActive(arpPtr.node) && info[arpPtr.node].ip == ip
                                  && !IsMapping(arpPtr.node, ip)
               else forall i :: 0 <= i < |info| && IsActive(i) ==> info[i].ip != ip
      ensures !Resolves(ip)
    {
    }
  }
}
