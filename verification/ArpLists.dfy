/** The lists of the ARP cache: every entry is on the dynamic or on the static list, and every active
    entry is in one of the buckets of the hash table (nx_arp_*.c). A pointer to an entry is the
    entry's place in the cache memory, and each link member of NX_ARP is a sequence over the entries. */
module ArpLists {
  import opened Rings

  const TABLE_SIZE: nat := 32

  /** Exactly the first "count" nodes of the list are in the set. */
  ghost predicate FirstAre(list: seq<nat>, active: set<nat>, count: nat) {
    count <= |list| && forall k :: 0 <= k < |list| ==> (list[k] in active <==> k < count)
  }

  lemma LastToFront(list: seq<nat>, active: set<nat>, count: nat)
    requires Distinct(list) && list != [] && list[|list| - 1] !in active
    ensures FirstAre(list, active, count) ==>
              var x, rest := list[|list| - 1], list[..|list| - 1];
              FirstAre([x] + rest, active + {x}, count + 1) && FirstAre(rest, active, count)
  {
  }

  /** The list without its last node. */
  function AllButLast(list: seq<nat>): seq<nat> {
    if list == [] then [] else list[..|list| - 1]
  }

  /** The list with its last node moved to the front. */
  function LastFirst(list: seq<nat>): seq<nat>
    requires list != []
  {
    [list[|list| - 1]] + list[..|list| - 1]
  }

  lemma MovedToFront(list: seq<nat>, active: set<nat>, count: nat, x: nat)
    requires Distinct(list) && list != [] && x == list[|list| - 1] && x !in active
    ensures FirstAre(list, active, count) ==> FirstAre(LastFirst(list), active + {x}, count + 1)
  {
    LastToFront(list, active, count);
  }

  lemma InactiveAtEnd(list: seq<nat>, active: set<nat>, count: nat, x: nat)
    requires FirstAre(list, active, count) && x !in active
    ensures FirstAre(list + [x], active, count)
  {
  }

  lemma ActiveRemoved(list: seq<nat>, active: set<nat>, count: nat, k: nat)
    requires FirstAre(list, active, count) && Distinct(list) && k < |list| && k < count
    ensures FirstAre(Without(list, k), active - {list[k]}, count - 1)
  {
    var rest := Without(list, k);
    forall i | 0 <= i < |rest|
      ensures rest[i] in active - {list[k]} <==> i < count - 1
    {
      assert rest[i] == list[if i < k then i else i + 1];
    }
  }

  lemma InactiveRemoved(list: seq<nat>, active: set<nat>, count: nat, k: nat)
    requires FirstAre(list, active, count) && k < |list| && k >= count
    ensures FirstAre(Without(list, k), active, count)
  {
  }

  /** The flags say which list each entry is on; static entries are active. */
  ghost predicate Marks(flags: seq<bool>, heads: seq<Pointer>, dynamics: seq<nat>, statics: seq<nat>,
                        active: set<nat>)
  {
    && |flags| == |heads|
    && (forall i :: i in active ==> i < |flags|)
    && forall i :: 0 <= i < |flags| ==>
         && (flags[i] <==> i in statics) && (i in statics ==> heads[i].To?)
         && (i in active <==> i in dynamics && heads[i].To?)
  }

  lemma MarksInactive(flags: seq<bool>, heads: seq<Pointer>, dynamics: seq<nat>, statics: seq<nat>, active: set<nat>,
                      x: nat)
    requires Marks(flags, heads, dynamics, statics, active) && x < |flags| && x !in statics
    ensures Marks(flags, heads[x := Null], dynamics, statics, active - {x})
  {
  }

  lemma MarksStatic(flags: seq<bool>, heads: seq<Pointer>, dynamics: seq<nat>, statics: seq<nat>, active: set<nat>,
                    x: nat, head: Pointer, dynamics': seq<nat>, active': set<nat>)
    requires Marks(flags, heads, dynamics, statics, active) && x < |flags| && head.To?
    requires NodesBut(dynamics', dynamics, x) && active' == (if x in active then active - {x} else active)
    ensures Marks(flags[x := true], heads[x := head], dynamics', statics + [x], active')
  {
  }

  lemma MarksDynamic(flags: seq<bool>, heads: seq<Pointer>, dynamics: seq<nat>, statics: seq<nat>, active: set<nat>,
                     x: nat, head: Pointer, dynamics': seq<nat>)
    requires Marks(flags, heads, dynamics, statics, active) && x < |flags| && head.To?
    requires x in dynamics && x !in statics
    requires SameNodes(dynamics', dynamics)
    ensures Marks(flags[x := false], heads[x := head], dynamics', statics, active + {x})
  {
  }

  lemma MarksReturned(flags: seq<bool>, heads: seq<Pointer>, dynamics: seq<nat>, statics: seq<nat>, active: set<nat>,
                      x: nat, statics': seq<nat>)
    requires Marks(flags, heads, dynamics, statics, active) && x < |flags| && x !in active
    requires NodesBut(statics', statics, x)
    ensures Marks(flags[x := false], heads[x := Null], dynamics + [x], statics', active)
  {
  }

  lemma MarksReordered(flags: seq<bool>, heads: seq<Pointer>, dynamics: seq<nat>, statics: seq<nat>, active: set<nat>,
                       dynamics': seq<nat>)
    requires Marks(flags, heads, dynamics, statics, active)
    requires SameNodes(dynamics', dynamics)
    ensures Marks(flags, heads, dynamics', statics, active)
  {
  }

  class ArpLists {
    var poolNext: seq<nat>
    var poolPrevious: seq<nat>
    var activeNext: seq<nat>
    var activePrevious: seq<nat>
    /** The bucket that an active entry is in. */
    var activeListHead: seq<Pointer>
    var routeStatic: seq<bool>
    var table: seq<Pointer>
    var dynamicList: Pointer
    var staticList: Pointer
    var dynamicActiveCount: nat
    var staticEntries: nat

    /** The lists from their heads on, and the active entries of the dynamic one. */
    ghost var dynamics: seq<nat>
    ghost var statics: seq<nat>
    ghost var buckets: seq<seq<nat>>
    ghost var active: set<nat>

    function Size(): nat
      reads this`poolNext
    {
      |poolNext|
    }

    /** The two pool lists are rings; together they hold every entry once, except the loose ones. */
    ghost predicate Pools(loose: set<nat>)
      reads this`poolNext, this`poolPrevious, this`dynamicList, this`staticList, this`dynamics, this`statics
    {
      && Ring(poolNext, poolPrevious, dynamics) && dynamicList == HeadOf(dynamics)
      && Ring(poolNext, poolPrevious, statics) && staticList == HeadOf(statics)
      && forall i :: 0 <= i < Size() ==>
           (i in dynamics ==> i !in statics && i !in loose) && (i in dynamics || i in statics || i in loose)
           && (i in statics ==> i !in loose)
    }

    /** A bucket is a ring of exactly the entries that say they are in it. */
    ghost predicate Bucket(b: nat)
      requires b < |table| && b < |buckets|
      reads this`activeNext, this`activePrevious, this`activeListHead, this`table, this`buckets
    {
      && Ring(activeNext, activePrevious, buckets[b]) && table[b] == HeadOf(buckets[b])
      && forall i :: 0 <= i < |activeListHead| ==> (i in buckets[b] <==> activeListHead[i] == To(b))
    }

    ghost predicate Table()
      reads this`activeNext, this`activePrevious, this`activeListHead, this`table, this`buckets
    {
      && |table| == |buckets| == TABLE_SIZE && |activeNext| == |activePrevious| == |activeListHead|
      && (forall b :: 0 <= b < TABLE_SIZE ==> Bucket(b))
      && forall i :: 0 <= i < |activeListHead| && activeListHead[i].To? ==> activeListHead[i].node < TABLE_SIZE
    }

    /** The counters are the true counts. */
    ghost predicate Counted()
      reads this
    {
      && |routeStatic| == Size() && Marks(routeStatic, activeListHead, dynamics, statics, active)
      && dynamicActiveCount == |active| && staticEntries == |statics|
    }

    /** What the flags say of an entry. */
    lemma EntryMarked(i: nat)
      requires Valid() && i < Size()
      ensures |routeStatic| == |activeListHead| == Size()
      ensures (routeStatic[i] <==> i in statics) && (i in statics ==> activeListHead[i].To?)
      ensures i in active <==> i in dynamics && activeListHead[i].To?
      ensures i in dynamics <==> i !in statics
    {
    }

    ghost predicate Valid()
      reads this
    {
      Pools({}) && Table() && Counted()
    }

    // -------------------------------------------------------------- buckets

    /** Takes an active entry out of its bucket and marks it inactive. */
    method UnlinkActive(x: nat)
      requires Table() && x < |activeListHead| && activeListHead[x].To?
      modifies this`activeNext, this`activePrevious, this`activeListHead, this`table, this`buckets
      ensures Table() && activeListHead == old(activeListHead)[x := Null]
    {
      var b := activeListHead[x].node;
      assert Bucket(b);
      ghost var k := Place(buckets[b], x);
      RingAlone(activeNext, activePrevious, buckets[b], k);
      if x == activeNext[x] {
        table := table[b := Null];
        buckets := buckets[b := []];
      } else {
        RingRemove(activeNext, activePrevious, buckets[b], k);
        HeadWithout(activeNext, activePrevious, buckets[b], k);
        if table[b] == To(x) {
          table := table[b := To(activeNext[x])];
        }
        var n, p := activeNext[x], activePrevious[x];
        activePrevious := activePrevious[n := p];
        activeNext := activeNext[p := n];
        buckets := buckets[b := Without(buckets[b], k)];
      }
      activeListHead := activeListHead[x := Null];
      forall c | 0 <= c < TABLE_SIZE
        ensures Bucket(c)
      {
        assert old(Bucket(c)) && old(Bucket(b));
        if c == b {
          forall i | 0 <= i < |activeListHead|
            ensures i in buckets[b] <==> i in old(buckets[b]) && i != x
          {
            InWithout(old(buckets[b]), k, i);
          }
        } else {
          RingStays(old(activeNext), old(activePrevious), activeNext, activePrevious, buckets[c]);
        }
      }
    }

    /** Puts an inactive entry into a bucket, before its first entry. */
    method LinkActive(x: nat, b: nat)
      requires Table() && x < |activeListHead| && activeListHead[x] == Null && b < TABLE_SIZE
      modifies this`activeNext, this`activePrevious, this`activeListHead, this`table, this`buckets
      ensures Table() && activeListHead == old(activeListHead)[x := To(b)]
      ensures PointsBack(b, x)
    {
      assert Bucket(b);
      if table[b].To? {
        var head := table[b].node;
        RingAdd(activeNext, activePrevious, buckets[b], x);
        activeListHead := activeListHead[x := To(b)];
        activeNext := activeNext[x := head];
        activePrevious := activePrevious[x := activePrevious[head]];
        activeNext := activeNext[activePrevious[x] := x];
        activePrevious := activePrevious[head := x];
      } else {
        RingOne(activeNext, activePrevious, x);
        activeListHead := activeListHead[x := To(b)];
        activeNext := activeNext[x := x];
        activePrevious := activePrevious[x := x];
        table := table[b := To(x)];
      }
      buckets := buckets[b := buckets[b] + [x]];
      forall c | 0 <= c < TABLE_SIZE
        ensures Bucket(c)
      {
        assert old(Bucket(c)) && old(Bucket(b));
        if c != b {
          RingStays(old(activeNext), old(activePrevious), activeNext, activePrevious, buckets[c]);
        }
      }
      RingLast(activeNext, activePrevious, buckets[b]);
    }

    // -------------------------------------------------------------- pool lists

    /** Takes an entry out of the dynamic list. */
    method RemoveDynamic(x: nat)
      requires Pools({}) && x in dynamics
      modifies this`poolNext, this`poolPrevious, this`dynamicList, this`dynamics
      ensures Pools({x}) && Size() == old(Size())
      ensures dynamics == Without(old(dynamics), Place(old(dynamics), x))
      ensures NodesBut(dynamics, old(dynamics), x)
    {
      ghost var k := Place(dynamics, x);
      RingAlone(poolNext, poolPrevious, dynamics, k);
      if x == poolNext[x] {
        dynamicList := Null;
        dynamics := Without(dynamics, k);
      } else {
        RingRemove(poolNext, poolPrevious, dynamics, k);
        HeadWithout(poolNext, poolPrevious, dynamics, k);
        var n, p := poolNext[x], poolPrevious[x];
        poolPrevious := poolPrevious[n := p];
        poolNext := poolNext[p := n];
        if dynamicList == To(x) {
          dynamicList := To(n);
        }
        dynamics := Without(dynamics, k);
        RingStays(old(poolNext), old(poolPrevious), poolNext, poolPrevious, statics);
      }
      forall i: nat
        ensures i in dynamics <==> i in old(dynamics) && i != x
      {
        InWithout(old(dynamics), k, i);
      }
    }

    /** Takes an entry out of the static list. */
    method RemoveStatic(x: nat)
      requires Pools({}) && x in statics
      modifies this`poolNext, this`poolPrevious, this`staticList, this`statics
      ensures Pools({x}) && Size() == old(Size())
      ensures statics == Without(old(statics), Place(old(statics), x))
      ensures NodesBut(statics, old(statics), x)
    {
      ghost var k := Place(statics, x);
      RingAlone(poolNext, poolPrevious, statics, k);
      if x == poolNext[x] {
        staticList := Null;
        statics := Without(statics, k);
      } else {
        RingRemove(poolNext, poolPrevious, statics, k);
        HeadWithout(poolNext, poolPrevious, statics, k);
        var n, p := poolNext[x], poolPrevious[x];
        poolPrevious := poolPrevious[n := p];
        poolNext := poolNext[p := n];
        if staticList == To(x) {
          staticList := To(n);
        }
        statics := Without(statics, k);
        RingStays(old(poolNext), old(poolPrevious), poolNext, poolPrevious, dynamics);
      }
      forall i: nat
        ensures i in statics <==> i in old(statics) && i != x
      {
        InWithout(old(statics), k, i);
      }
    }

    /** Puts a loose entry at the end of the dynamic list. */
    method AppendDynamic(x: nat)
      requires Pools({x}) && x < Size()
      modifies this`poolNext, this`poolPrevious, this`dynamicList, this`dynamics
      ensures Pools({}) && Size() == old(Size()) && dynamics == old(dynamics) + [x]
    {
      if dynamicList == Null {
        RingOne(poolNext, poolPrevious, x);
        poolNext := poolNext[x := x];
        poolPrevious := poolPrevious[x := x];
        dynamicList := To(x);
      } else {
        var head := dynamicList.node;
        RingAdd(poolNext, poolPrevious, dynamics, x);
        poolNext := poolNext[x := head];
        poolPrevious := poolPrevious[x := poolPrevious[head]];
        poolNext := poolNext[poolPrevious[x] := x];
        poolPrevious := poolPrevious[head := x];
      }
      dynamics := dynamics + [x];
      RingStays(old(poolNext), old(poolPrevious), poolNext, poolPrevious, statics);
    }

    /** Puts a loose entry at the end of the static list. */
    method AppendStatic(x: nat)
      requires Pools({x}) && x < Size()
      modifies this`poolNext, this`poolPrevious, this`staticList, this`statics
      ensures Pools({}) && Size() == old(Size()) && statics == old(statics) + [x]
    {
      if staticList == Null {
        RingOne(poolNext, poolPrevious, x);
        poolNext := poolNext[x := x];
        poolPrevious := poolPrevious[x := x];
        staticList := To(x);
      } else {
        var head := staticList.node;
        RingAdd(poolNext, poolPrevious, statics, x);
        poolNext := poolNext[x := head];
        poolPrevious := poolPrevious[x := poolPrevious[head]];
        poolNext := poolNext[poolPrevious[x] := x];
        poolPrevious := poolPrevious[head := x];
      }
      statics := statics + [x];
      RingStays(old(poolNext), old(poolPrevious), poolNext, poolPrevious, dynamics);
    }

    // -------------------------------------------------------------- operations

    /** The active entries of the dynamic list come first. */
    ghost predicate MostRecentFirst()
      reads this`dynamics, this`active, this`dynamicActiveCount
    {
      FirstAre(dynamics, active, dynamicActiveCount)
    }

    /** The lists' part of _nx_arp_dynamic_entry_delete. The entry stays where it is on the dynamic list,
        so the active entries still come first only if it was not among them or the last of them. */
    method Deactivate(x: nat) returns (wasActive: bool)
      requires Valid() && x < Size() && x in dynamics
      modifies this`activeNext, this`activePrevious, this`activeListHead, this`table, this`buckets
      modifies this`dynamicActiveCount, this`active
      ensures Valid() && wasActive == old(activeListHead[x].To?)
      ensures dynamicActiveCount == if x in old(active) then old(dynamicActiveCount) - 1 else old(dynamicActiveCount)
      ensures activeListHead == old(activeListHead)[x := Null] && active == old(active) - {x}
      ensures old(MostRecentFirst()) ==>
                (MostRecentFirst() <==> x !in old(active) || x == dynamics[old(dynamicActiveCount) - 1])
    {
      EntryMarked(x);
      MarksInactive(routeStatic, activeListHead, dynamics, statics, active, x);
      hide Marks;
      wasActive := activeListHead[x].To?;
      if wasActive {
        UnlinkActive(x);
        dynamicActiveCount := dynamicActiveCount - 1;
        active := active - {x};
      } else {
        assert activeListHead[x := Null] == activeListHead;
      }
    }

    lemma InRange(x: nat)
      requires Valid() && (x in dynamics || x in statics)
      ensures x < Size()
    {
      if x in dynamics {
        assert LinkedAt(poolNext, poolPrevious, dynamics, Place(dynamics, x));
      } else {
        assert LinkedAt(poolNext, poolPrevious, statics, Place(statics, x));
      }
    }

    /** _nx_arp_entry_allocate, once the last entry of the dynamic list is inactive: it goes into the
        bucket, and to the front of the dynamic list or the end of the static one. */
    method Activate(x: nat, b: nat, isStatic: bool)
      requires Valid() && b < TABLE_SIZE && dynamics != [] && x == dynamics[|dynamics| - 1] && x !in active
      modifies this
      ensures Valid() && Size() == old(Size())
      ensures x < Size() && activeListHead == old(activeListHead)[x := To(b)]
      ensures PointsBack(b, x)
      ensures var rest := AllButLast(old(dynamics));
              if isStatic then dynamics == rest && statics == old(statics) + [x] && active == old(active)
              else dynamics == [x] + rest && statics == old(statics) && active == old(active) + {x}
      ensures old(MostRecentFirst()) ==> MostRecentFirst()
    {
      InRange(x);
      PoolsDistinct();
      hide Pools, Table, Counted, FirstAre;
      if isStatic {
        ActivateStatic(x, b);
      } else {
        MovedToFront(dynamics, active, dynamicActiveCount, x);
        ActivateDynamic(x, b);
      }
    }

    /** The head of the bucket links back to x. */
    ghost predicate PointsBack(b: nat, x: nat)
      reads this`table, this`activePrevious
    {
      && b < |table| && table[b].To? && table[b].node < |activePrevious|
      && activePrevious[table[b].node] == x
    }

    /** The branch for a static entry. */
    method ActivateStatic(x: nat, b: nat)
      requires Valid() && b < TABLE_SIZE && dynamics != [] && x == dynamics[|dynamics| - 1] && x !in active
      requires x < Size()
      modifies this
      ensures Valid() && Size() == old(Size()) && activeListHead == old(activeListHead)[x := To(b)]
      ensures PointsBack(b, x)
      ensures dynamics == old(dynamics[..|dynamics| - 1]) && statics == old(statics) + [x] && active == old(active)
      ensures old(MostRecentFirst()) ==> MostRecentFirst()
    {
      PoolsDistinct();
      LastToFront(dynamics, active, dynamicActiveCount);
      LastPlace(dynamics);
      EntryMarked(x);
      hide Ring, Bucket, FirstAre, Pools, Table, Marks, Distinct, Without, Place, SameNodes, NodesBut;
      ghost var heads := activeListHead;
      LinkActive(x, b);
      MoveToStatic(x);
      MarksStatic(routeStatic, heads, old(dynamics), old(statics), active, x, To(b), dynamics, active);
      staticEntries := staticEntries + 1;
      routeStatic := routeStatic[x := true];
    }

    /** The branch for a dynamic entry. */
    method ActivateDynamic(x: nat, b: nat)
      requires Valid() && b < TABLE_SIZE && dynamics != [] && x == dynamics[|dynamics| - 1] && x !in active
      requires x < Size()
      modifies this
      ensures Valid() && Size() == old(Size()) && activeListHead == old(activeListHead)[x := To(b)]
      ensures PointsBack(b, x)
      ensures dynamics == LastFirst(old(dynamics)) && statics == old(statics)
      ensures active == old(active) + {x} && dynamicActiveCount == old(dynamicActiveCount) + 1
    {
      EntryMarked(x);
      PartsOf();
      hide Valid, Counted, Bucket, FirstAre, Pools, Table, Marks, Distinct, SameNodes, NodesBut, LastFirst;
      ghost var heads := activeListHead;
      LinkActive(x, b);
      MoveToFront(x);
      MarksDynamic(routeStatic, heads, old(dynamics), statics, active, x, To(b), dynamics);
      MarkDynamic(x);
    }

    /** What validity consists of. */
    lemma PartsOf()
      requires Valid()
      ensures Pools({}) && Table() && |routeStatic| == |activeListHead| == Size()
      ensures Marks(routeStatic, activeListHead, dynamics, statics, active)
      ensures dynamicActiveCount == |active| && staticEntries == |statics|
    {
    }

    /** Counts an entry that has just become an active dynamic one. */
    method MarkDynamic(x: nat)
      requires Pools({}) && Table() && x < |routeStatic| == Size() && x !in active
      requires Marks(routeStatic[x := false], activeListHead, dynamics, statics, active + {x})
      requires dynamicActiveCount == |active| && staticEntries == |statics|
      modifies this`dynamicActiveCount, this`active, this`routeStatic
      ensures Valid() && active == old(active) + {x} && dynamicActiveCount == old(dynamicActiveCount) + 1
    {
      hide Pools, Table, Marks;
      dynamicActiveCount := dynamicActiveCount + 1;
      active := active + {x};
      routeStatic := routeStatic[x := false];
    }

    lemma PoolsDistinct()
      requires Valid()
      ensures Distinct(dynamics) && Distinct(statics)
    {
    }

    /** Moves an entry of the dynamic list to the end of the static one. */
    method MoveToStatic(x: nat)
      requires Pools({}) && x in dynamics && x < Size()
      modifies this`poolNext, this`poolPrevious, this`dynamicList, this`dynamics, this`staticList, this`statics
      ensures Pools({}) && Size() == old(Size())
      ensures dynamics == Without(old(dynamics), Place(old(dynamics), x)) && statics == old(statics) + [x]
      ensures NodesBut(dynamics, old(dynamics), x)
    {
      RemoveDynamic(x);
      AppendStatic(x);
    }

    /** Moves the last entry of the dynamic list to its front. */
    method MoveToFront(x: nat)
      requires Pools({}) && dynamics != [] && x == dynamics[|dynamics| - 1] && x < Size()
      modifies this`poolNext, this`poolPrevious, this`dynamicList, this`dynamics
      ensures Pools({}) && Size() == old(Size()) && dynamics == LastFirst(old(dynamics))
      ensures SameNodes(dynamics, old(dynamics))
    {
      ghost var n := |dynamics| - 1;
      PlaceIs(dynamics, n);
      assert Without(dynamics, n) == dynamics[..n];
      if dynamicList != To(x) {
        RemoveDynamic(x);
        AppendDynamic(x);
        assert dynamics == old(dynamics);
        RingRotate(poolNext, poolPrevious, dynamics, n);
        dynamics := Rotate(dynamics, n);
        dynamicList := To(x);
      } else {
        assert n == 0 by { PlaceIs(dynamics, 0); }
        assert dynamics == [x];
      }
    }

    /** The lists' part of _nx_arp_static_entry_create for an entry found on the dynamic list. */
    method MakeStatic(x: nat)
      requires Valid() && x < Size() && x in dynamics && x in active
      modifies this
      ensures Valid() && Size() == old(Size()) && activeListHead == old(activeListHead)
      ensures dynamics == Without(old(dynamics), Place(old(dynamics), x)) && statics == old(statics) + [x]
      ensures active == old(active) - {x} && table == old(table)
      ensures forall i :: 0 <= i < Size() && i != x ==> routeStatic[i] == old(routeStatic[i])
      ensures old(MostRecentFirst()) ==> MostRecentFirst()
    {
      EntryMarked(x);
      PartsOf();
      if MostRecentFirst() {
        ActiveRemoved(dynamics, active, dynamicActiveCount, Place(dynamics, x));
      }
      hide Valid, Counted, FirstAre, Pools, Table, Marks, Without, Place, NodesBut;
      MoveToStatic(x);
      MarksStatic(routeStatic, activeListHead, old(dynamics), old(statics), active, x, activeListHead[x], dynamics,
                  active - {x});
      assert activeListHead[x := activeListHead[x]] == activeListHead;
      MarkStatic(x);
    }

    /** Counts an active entry that has just become a static one. */
    method MarkStatic(x: nat)
      requires Pools({}) && Table() && x < |routeStatic| == Size() && x in active
      requires Marks(routeStatic[x := true], activeListHead, dynamics, statics, active - {x})
      requires dynamicActiveCount == |active| && staticEntries + 1 == |statics|
      modifies this`dynamicActiveCount, this`active, this`staticEntries, this`routeStatic
      ensures Valid() && active == old(active) - {x} && dynamicActiveCount == old(dynamicActiveCount) - 1
      ensures routeStatic == old(routeStatic)[x := true]
    {
      hide Pools, Table, Marks;
      dynamicActiveCount := dynamicActiveCount - 1;
      active := active - {x};
      staticEntries := staticEntries + 1;
      routeStatic := routeStatic[x := true];
    }

    /** _nx_arp_static_entry_delete_internal: the entry goes to the end of the dynamic list, inactive. */
    method DeleteStatic(x: nat)
      requires Valid() && x < Size() && x in statics
      modifies this
      ensures Valid() && Size() == old(Size()) && activeListHead == old(activeListHead)[x := Null]
      ensures statics == Without(old(statics), Place(old(statics), x)) && dynamics == old(dynamics) + [x]
      ensures active == old(active)
      ensures old(MostRecentFirst()) ==> MostRecentFirst()
    {
      EntryMarked(x);
      if MostRecentFirst() {
        InactiveAtEnd(dynamics, active, dynamicActiveCount, x);
      }
      PartsOf();
      hide Valid, Counted, FirstAre, Pools, Table, Marks, Without, Place, NodesBut;
      ghost var heads := activeListHead;
      if activeListHead[x].To? {
        UnlinkActive(x);
      }
      MoveToDynamic(x);
      MarksReturned(routeStatic, heads, old(dynamics), old(statics), active, x, statics);
      UnmarkStatic(x);
    }

    /** Moves an entry of the static list to the end of the dynamic one. */
    method MoveToDynamic(x: nat)
      requires Pools({}) && x in statics && x < Size()
      modifies this`poolNext, this`poolPrevious, this`dynamicList, this`dynamics, this`staticList, this`statics
      ensures Pools({}) && Size() == old(Size())
      ensures statics == Without(old(statics), Place(old(statics), x)) && dynamics == old(dynamics) + [x]
      ensures NodesBut(statics, old(statics), x) && |statics| + 1 == |old(statics)|
    {
      RemoveStatic(x);
      AppendDynamic(x);
    }

    /** Counts an entry that is no longer static. */
    method UnmarkStatic(x: nat)
      requires Pools({}) && Table() && x < |routeStatic| == Size()
      requires Marks(routeStatic[x := false], activeListHead, dynamics, statics, active)
      requires dynamicActiveCount == |active| && staticEntries == |statics| + 1
      modifies this`staticEntries, this`routeStatic
      ensures Valid() && routeStatic == old(routeStatic)[x := false]
    {
      hide Pools, Table, Marks;
      staticEntries := staticEntries - 1;
      routeStatic := routeStatic[x := false];
    }

    /** The lists' part of an expiry in _nx_arp_periodic_update: the entry becomes inactive and goes to
        the end of the dynamic list. */
    method Expire(x: nat)
      requires Valid() && x < Size() && x in dynamics
      modifies this
      ensures Valid() && Size() == old(Size()) && activeListHead == old(activeListHead)[x := Null]
      ensures dynamics == Without(old(dynamics), Place(old(dynamics), x)) + [x] && statics == old(statics)
      ensures active == old(active) - {x}
      ensures old(MostRecentFirst()) ==> MostRecentFirst()
    {
      ExpiryKeepsOrder(Place(dynamics, x));
      EntryMarked(x);
      hide Ring, Bucket, FirstAre, Pools, Table, Marks, Distinct, Without, Place, SameNodes, NodesBut;
      var wasActive := Deactivate(x);
      hide Valid;
      MoveToEnd(x);
    }

    /** Moves an entry to the end of the dynamic list. */
    method MoveToEnd(x: nat)
      requires Valid() && x in dynamics && x < Size()
      modifies this`poolNext, this`poolPrevious, this`dynamicList, this`dynamics
      ensures Valid() && Size() == old(Size())
      ensures dynamics == Without(old(dynamics), Place(old(dynamics), x)) + [x]
    {
      PoolsDistinct();
      hide Ring, Bucket, Marks, SameNodes, NodesBut;
      RingAlone(poolNext, poolPrevious, dynamics, Place(dynamics, x));
      if x != poolNext[x] {
        hide Pools, Table, Distinct, Without, Place;
        RemoveDynamic(x);
        AppendDynamic(x);
        BackAtEnd(old(dynamics), x);
        MarksReordered(routeStatic, activeListHead, old(dynamics), statics, active, dynamics);
      } else {
        assert Without(dynamics, Place(dynamics, x)) + [x] == dynamics;
      }
    }

    lemma BackAtEnd(list: seq<nat>, x: nat)
      requires Distinct(list) && x in list
      ensures SameNodes(Without(list, Place(list, x)) + [x], list)
    {
      forall i: nat
        ensures i in Without(list, Place(list, x)) + [x] <==> i in list
      {
        InWithout(list, Place(list, x), i);
      }
    }

    lemma ExpiryKeepsOrder(k: nat)
      requires Valid() && k < |dynamics|
      ensures MostRecentFirst() ==>
                var x, rest := dynamics[k], Without(dynamics, k);
                FirstAre(rest + [x], active - {x}, if x in active then dynamicActiveCount - 1 else dynamicActiveCount)
    {
      var x, rest := dynamics[k], Without(dynamics, k);
      if !MostRecentFirst() {
      } else if x in active {
        ActiveRemoved(dynamics, active, dynamicActiveCount, k);
        InactiveAtEnd(rest, active - {x}, dynamicActiveCount - 1, x);
      } else {
        InactiveRemoved(dynamics, active, dynamicActiveCount, k);
        assert active - {x} == active;
        InactiveAtEnd(rest, active - {x}, dynamicActiveCount, x);
      }
    }

    /** A matching entry becomes the head of its bucket (_nx_ip_driver_packet_send). */
    method MoveToHead(x: nat, b: nat)
      requires Valid() && x < Size() && activeListHead[x] == To(b)
      modifies this`table, this`buckets
      ensures Valid() && Size() == old(Size()) && b < TABLE_SIZE && table == old(table)[b := To(x)]
    {
      assert Bucket(b);
      ghost var k := Place(buckets[b], x);
      RingRotate(activeNext, activePrevious, buckets[b], k);
      table := table[b := To(x)];
      ghost var turned := Rotate(buckets[b], k);
      forall i: nat
        ensures i in turned <==> i in buckets[b]
      {
        assert buckets[b] == buckets[b][..k] + buckets[b][k..];
      }
      buckets := buckets[b := turned];
      forall c | 0 <= c < TABLE_SIZE
        ensures Bucket(c)
      {
        assert old(Bucket(c));
      }
    }

    /** _nx_arp_enable: all the entries are on the dynamic list, inactive, in the order of the memory. */
    constructor (arpEntries: nat)
      requires arpEntries >= 1
      ensures Valid() && Size() == arpEntries && MostRecentFirst()
      ensures |dynamics| == arpEntries && (forall k :: 0 <= k < arpEntries ==> dynamics[k] == k)
      ensures statics == [] && active == {} && forall i :: 0 <= i < arpEntries ==> activeListHead[i] == Null
    {
      var next, previous := seq(arpEntries, i => 0), seq(arpEntries, i => 0);
      var entry := 0;
      for i := 0 to arpEntries - 1
        invariant entry == i && |next| == arpEntries
        invariant forall k :: 0 <= k < i ==> next[k] == k + 1
      {
        next := next[entry := entry + 1];
        entry := entry + 1;
      }
      next := next[entry := 0];
      for i := 0 to arpEntries - 1
        invariant entry == arpEntries - 1 - i && |previous| == arpEntries
        invariant forall k :: entry < k < arpEntries ==> previous[k] == k - 1
      {
        previous := previous[entry := entry - 1];
        entry := entry - 1;
      }
      previous := previous[entry := entry + (arpEntries - 1)];
      poolNext, poolPrevious := next, previous;
      activeNext, activePrevious := seq(arpEntries, i => 0), seq(arpEntries, i => 0);
      activeListHead := seq(arpEntries, i => Null);
      routeStatic := seq(arpEntries, i => false);
      table := seq(TABLE_SIZE, b => Null);
      staticList, dynamicList := Null, To(0);
      dynamicActiveCount, staticEntries := 0, 0;
      dynamics, statics := seq(arpEntries, i => i), [];
      buckets := seq(TABLE_SIZE, b => []);
      active := {};
      new;
      InOrder(poolNext, poolPrevious, dynamics);
      RingEmpty(poolNext, poolPrevious);
      RingEmpty(activeNext, activePrevious);
      hide Ring;
    }
  }
}
