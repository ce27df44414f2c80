/** What the entries of the ARP cache say, where the packets are that wait for an address, and how the
    timers of an entry run: the values behind the class of ArpCache, and what every change keeps. */
module ArpEntries {
  import opened Rings
  import opened ArpLists

  type Ulong = x: int | 0 <= x < 0x1_0000_0000 witness 0

  const UPDATE_RATE: nat := 10
  const EXPIRATION_RATE: nat := 0
  const MAXIMUM_RETRIES: nat := 18
  const MAX_QUEUE_DEPTH: nat := 4

  datatype Status = Success | AddressError | DuplicatedEntry | NoMoreEntries | EntryNotFound

  /** What an entry says besides its links. The interface is its number. */
  datatype Mapping = Mapping(
    ip: Ulong,
    msw: Ulong,
    lsw: Ulong,
    interface: Pointer,
    nextUpdate: nat,
    retries: nat)

  predicate HasAddress(msw: Ulong, lsw: Ulong) {
    msw != 0 || lsw != 0
  }

  /** The bucket of an IP address. */
  function Hash(ip: Ulong): (b: nat)
    ensures b < TABLE_SIZE
  {
    ((ip + ip / 0x100) % 0x1_0000_0000) % TABLE_SIZE
  }

  /** The bucket is that of the sum of the two lowest bytes, which the wrap-around does not change. */
  lemma HashOfBytes(ip: Ulong)
    ensures Hash(ip) == (ip % 0x100 + ip / 0x100 % 0x100) % TABLE_SIZE
  {
    var high := ip / 0x100;
    var sum := ip + high;
    var wrapped := if sum < 0x1_0000_0000 then sum else sum - 0x1_0000_0000;
    assert sum % 0x1_0000_0000 == wrapped;
    var low, next := ip % 0x100, high % 0x100;
    assert wrapped == low + next + 0x100 * (high + high / 0x100) - (sum - wrapped);
    assert wrapped == low + next + TABLE_SIZE * (8 * (high + high / 0x100) - (sum - wrapped) / TABLE_SIZE);
  }

  /** A packet handed over for sending; the number tells packets apart. */
  datatype Packet = Packet(number: nat, length: nat)

  /** Where such a packet is now. */
  datatype Fate = Waiting(entry: nat) | Driven | Fragmented | Released

  ghost predicate NoDuplicates(queue: seq<Packet>) {
    forall i, j :: 0 <= i < j < |queue| ==> queue[i] != queue[j]
  }

  /** The packets in the queue of entry i are different and known to wait there. */
  ghost predicate Queued(i: nat, queue: seq<Packet>, fates: map<Packet, Fate>) {
    && NoDuplicates(queue)
    && forall k :: 0 <= k < |queue| ==> queue[k] in fates && fates[queue[k]] == Waiting(i)
  }

  /** A packet waits at an entry exactly when it is in that entry's queue. */
  ghost predicate InQueues(queues: seq<seq<Packet>>, fates: map<Packet, Fate>) {
    && (forall i :: 0 <= i < |queues| ==> Queued(i, queues[i], fates))
    && forall p :: p in fates && fates[p].Waiting? ==> fates[p].entry < |queues| && p in queues[fates[p].entry]
  }

  /** The log holds exactly the released packets, each once. */
  ghost predicate Logged(log: seq<Packet>, fates: map<Packet, Fate>) {
    NoDuplicates(log) && forall p :: p in log <==> p in fates && fates[p].Released?
  }

  lemma TakeFirst(queues: seq<seq<Packet>>, fates: map<Packet, Fate>, x: nat, fate: Fate)
    requires InQueues(queues, fates) && x < |queues| && queues[x] != [] && !fate.Waiting?
    ensures queues[x][0] in fates && fates[queues[x][0]] == Waiting(x)
    ensures InQueues(queues[x := queues[x][1..]], fates[queues[x][0] := fate])
  {
    var queue := queues[x];
    var packet := queue[0];
    var queues', fates' := queues[x := queue[1..]], fates[packet := fate];
    assert Queued(x, queue, fates);
    forall i | 0 <= i < |queues|
      ensures Queued(i, queues'[i], fates')
    {
      assert Queued(i, queues[i], fates);
    }
    forall p | p in fates' && fates'[p].Waiting?
      ensures p in queues'[fates'[p].entry]
    {
      if fates[p].entry == x {
        assert queue == [packet] + queue[1..];
      }
    }
  }

  lemma AddLast(queues: seq<seq<Packet>>, fates: map<Packet, Fate>, x: nat, packet: Packet)
    requires InQueues(queues, fates) && x < |queues| && packet !in fates
    ensures InQueues(queues[x := queues[x] + [packet]], fates[packet := Waiting(x)])
  {
    var queues', fates' := queues[x := queues[x] + [packet]], fates[packet := Waiting(x)];
    forall i | 0 <= i < |queues|
      ensures Queued(i, queues'[i], fates')
    {
      assert Queued(i, queues[i], fates);
    }
  }

  lemma LogMore(log: seq<Packet>, fates: map<Packet, Fate>, packet: Packet)
    requires Logged(log, fates) && (packet in fates ==> !fates[packet].Released?)
    ensures Logged(log + [packet], fates[packet := Released])
  {
  }

  lemma LogSame(log: seq<Packet>, fates: map<Packet, Fate>, packet: Packet, fate: Fate)
    requires Logged(log, fates) && (packet in fates ==> !fates[packet].Released?) && !fate.Released?
    ensures Logged(log, fates[packet := fate])
  {
  }

  // ---------------------------------------------------------------- timers

  datatype Visit = Idle | Retry | Expire

  /** What one visit of the periodic update does to an entry. */
  function Tick(m: Mapping): (Mapping, Visit) {
    if m.nextUpdate == 0 then (m, Idle)
    else if m.nextUpdate > 1 then (m.(nextUpdate := m.nextUpdate - 1), Idle)
    else if m.retries == MAXIMUM_RETRIES then (m.(nextUpdate := 0), Visit.Expire)
    else (m.(retries := m.retries + 1, nextUpdate := UPDATE_RATE), Retry)
  }

  /** The visits left to an entry whose timer runs. */
  function VisitsLeft(m: Mapping): int {
    UPDATE_RATE * (MAXIMUM_RETRIES - m.retries) + m.nextUpdate
  }

  /** Each visit takes exactly one from the visits left, and the last one expires the entry. */
  lemma VisitCounts(m: Mapping)
    requires m.nextUpdate > 0 && m.retries <= MAXIMUM_RETRIES
    ensures var (m', visit) := Tick(m);
            VisitsLeft(m') == VisitsLeft(m) - 1 && m'.retries <= MAXIMUM_RETRIES
            && (visit.Expire? <==> VisitsLeft(m) == 1) && (!visit.Expire? ==> m'.nextUpdate > 0)
  {
  }

  /** After that many visits without a reply, has the entry expired? */
  predicate ExpiresWithin(m: Mapping, visits: nat)
    decreases visits
  {
    visits > 0 && (Tick(m).1.Expire? || ExpiresWithin(Tick(m).0, visits - 1))
  }

  /** An entry that nobody sets again expires exactly if its timer runs and its retries are not used up,
      and then at the visit that they say and not before. */
  lemma {:induction false} ExpiresInTime(m: Mapping, visits: nat)
    ensures ExpiresWithin(m, visits) <==>
              m.nextUpdate > 0 && m.retries <= MAXIMUM_RETRIES && visits >= VisitsLeft(m)
    decreases visits
  {
    if m.nextUpdate > 0 && m.retries <= MAXIMUM_RETRIES {
      VisitCounts(m);
    }
    if visits > 0 && !Tick(m).1.Expire? {
      ExpiresInTime(Tick(m).0, visits - 1);
    }
  }

  /** A visit to this entry sends a request: its timer runs out and it has a retry left. */
  predicate Asks(m: Mapping) {
    m.nextUpdate == 1 && m.retries < MAXIMUM_RETRIES
  }

  /** The retries count the requests. */
  lemma RetriesCount(m: Mapping)
    requires m.retries <= MAXIMUM_RETRIES
    ensures Tick(m).0.retries == m.retries + if Asks(m) then 1 else 0
    ensures Tick(m).0.ip == m.ip && Tick(m).0.interface == m.interface
    ensures Asks(m) <==> Tick(m).1.Retry?
  {
  }

  function TickedBy(m: Mapping, visits: nat): Mapping {
    if visits == 0 then m else Tick(TickedBy(m, visits - 1)).0
  }

  /** How many requests these visits send. */
  function RequestsIn(m: Mapping, visits: nat): nat
    decreases visits
  {
    if visits == 0 then 0 else (if Asks(m) then 1 else 0) + RequestsIn(Tick(m).0, visits - 1)
  }

  /** One for every UPDATE_RATE visits, until the retries are used up. */
  lemma {:induction false} RequestsCount(m: Mapping, visits: nat)
    requires 1 <= m.nextUpdate <= UPDATE_RATE && m.retries <= MAXIMUM_RETRIES && visits <= VisitsLeft(m)
    ensures var due := (visits + UPDATE_RATE - m.nextUpdate) / UPDATE_RATE;
            RequestsIn(m, visits) == if due <= MAXIMUM_RETRIES - m.retries then due else MAXIMUM_RETRIES - m.retries
    decreases visits
  {
    if visits > 0 {
      VisitCounts(m);
      if visits > 1 {
        RequestsCount(Tick(m).0, visits - 1);
      }
    }
  }

  lemma {:induction false} TicksCount(m: Mapping, visits: nat)
    requires m.retries == 0 && m.nextUpdate == UPDATE_RATE && visits < LIFETIME
    ensures var now := TickedBy(m, visits);
            VisitsLeft(now) == LIFETIME - visits && 1 <= now.nextUpdate <= UPDATE_RATE && now.retries <= MAXIMUM_RETRIES
  {
    if visits > 0 {
      TicksCount(m, visits - 1);
      VisitCounts(TickedBy(m, visits - 1));
    }
  }

  /** An entry that gets no reply is asked for again at every UPDATE_RATE-th visit of its life but the last,
      which expires it: MAXIMUM_RETRIES times in all. */
  lemma AsksInTime(m: Mapping, visits: nat)
    requires m.retries == 0 && m.nextUpdate == UPDATE_RATE && visits < LIFETIME
    ensures Asks(TickedBy(m, visits)) <==> (visits + 1) % UPDATE_RATE == 0 && visits + 1 < LIFETIME
    ensures Tick(TickedBy(m, visits)).1.Expire? <==> visits + 1 == LIFETIME
    ensures RequestsIn(m, LIFETIME) == MAXIMUM_RETRIES
  {
    TicksCount(m, visits);
    VisitCounts(TickedBy(m, visits));
    RequestsCount(m, LIFETIME);
  }

  /** What a request gives an entry: the visits until it is given up. */
  const LIFETIME: nat := (MAXIMUM_RETRIES + 1) * UPDATE_RATE

  /** How often the periodic update has visited an entry since it was set; stopped if that was by a
      message without a hardware address. */
  datatype Clock = Running(visits: nat) | Stopped

  function Aged(clock: Clock): Clock {
    match clock
    case Running(visits) => Running(visits + 1)
    case Stopped => Stopped
  }

  /** An active dynamic entry without a hardware address. */
  predicate Unresolved(m: Mapping, head: Pointer, isStatic: bool) {
    head.To? && !isStatic && !HasAddress(m.msw, m.lsw)
  }

  /** The timer of such an entry agrees with its clock; it stands still if the clock is stopped. */
  ghost predicate Timed(m: Mapping, head: Pointer, isStatic: bool, clock: Clock) {
    Unresolved(m, head, isStatic) ==>
      match clock
      case Running(visits) => 1 <= m.nextUpdate <= UPDATE_RATE && VisitsLeft(m) + visits == LIFETIME
      case Stopped => m.nextUpdate == 0
  }

  /** A visit keeps the timer in step, and it expires the entry exactly if it is the last of its life. */
  lemma VisitTimed(m: Mapping, head: Pointer, isStatic: bool, clock: Clock)
    requires Timed(m, head, isStatic, clock) && m.retries <= MAXIMUM_RETRIES
    ensures !Tick(m).1.Expire? ==> Timed(Tick(m).0, head, isStatic, Aged(clock))
    ensures Unresolved(m, head, isStatic) ==> (Tick(m).1.Expire? <==> clock == Running(LIFETIME - 1))
    ensures Unresolved(m, head, isStatic) ==>
              (Asks(m) <==> clock.Running? && (clock.visits + 1) % UPDATE_RATE == 0 && clock.visits + 1 < LIFETIME)
  {
  }

  /** An active entry lies in the bucket of its address and has an interface. */
  ghost predicate Mapped(m: Mapping, head: Pointer, interfaces: nat) {
    head.To? ==> head == To(Hash(m.ip)) && m.interface.To? && m.interface.node < interfaces
  }

  /** No packet waits at an inactive or a static entry, which has an address; the rest is bounded. */
  ghost predicate Bounded(m: Mapping, queue: seq<Packet>, head: Pointer, isStatic: bool) {
    && (head.Null? ==> queue == [])
    && (isStatic ==> queue == [] && HasAddress(m.msw, m.lsw))
    && |queue| <= MAX_QUEUE_DEPTH
  }

  /** No two active entries have the same address. */
  ghost predicate Unique(info: seq<Mapping>, heads: seq<Pointer>, except: set<nat>)
    requires |info| == |heads|
  {
    forall i, j :: 0 <= i < j < |info| && i !in except && j !in except && heads[i].To? && heads[j].To? ==>
      info[i].ip != info[j].ip
  }

  /** The entries' contents agree with the lists, except perhaps at an entry being set up. */
  ghost predicate EntriesAgree(info: seq<Mapping>, queues: seq<seq<Packet>>, heads: seq<Pointer>, statics: seq<nat>,
                               interfaces: nat, clocks: seq<Clock>, except: set<nat>)
  {
    && |info| == |queues| == |heads| == |clocks|
    && (forall i :: 0 <= i < |info| && i !in except ==>
          && Mapped(info[i], heads[i], interfaces) && Bounded(info[i], queues[i], heads[i], i in statics)
          && Timed(info[i], heads[i], i in statics, clocks[i]))
    && Unique(info, heads, except)
    && forall i :: 0 <= i < |info| ==> info[i].retries <= MAXIMUM_RETRIES
  }

  lemma EntryDeactivated(info: seq<Mapping>, queues: seq<seq<Packet>>, heads: seq<Pointer>, statics: seq<nat>,
                         interfaces: nat, clocks: seq<Clock>, x: nat, except: set<nat>)
    requires EntriesAgree(info, queues, heads, statics, interfaces, clocks, except) && except <= {x}
    requires x < |info| && x !in statics
    ensures EntriesAgree(info, queues[x := []], heads[x := Null], statics, interfaces, clocks, {})
  {
  }

  /** A new entry at x may still say anything. */
  lemma EntryAllocated(info: seq<Mapping>, queues: seq<seq<Packet>>, heads: seq<Pointer>, statics: seq<nat>,
                       interfaces: nat, clocks: seq<Clock>, x: nat, head: Pointer, statics': seq<nat>)
    requires EntriesAgree(info, queues, heads, statics, interfaces, clocks, {}) && x < |info|
    requires statics' == statics || statics' == statics + [x]
    ensures EntriesAgree(info, queues, heads[x := head], statics', interfaces, clocks, {x})
  {
  }

  /** An entry of an address that no other active entry has. */
  lemma EntryFilled(info: seq<Mapping>, queues: seq<seq<Packet>>, heads: seq<Pointer>, statics: seq<nat>,
                    interfaces: nat, clocks: seq<Clock>, x: nat, m: Mapping, queue: seq<Packet>, clock: Clock)
    requires EntriesAgree(info, queues, heads, statics, interfaces, clocks, {x}) && x < |info|
    requires Mapped(m, heads[x], interfaces) && Bounded(m, queue, heads[x], x in statics)
    requires m.retries <= MAXIMUM_RETRIES && Timed(m, heads[x], x in statics, clock)
    requires heads[x].To? ==> forall i :: 0 <= i < |info| && i != x && heads[i].To? ==> info[i].ip != m.ip
    ensures EntriesAgree(info[x := m], queues[x := queue], heads, statics, interfaces, clocks[x := clock], {})
  {
  }

  lemma EntryEmptied(info: seq<Mapping>, queues: seq<seq<Packet>>, heads: seq<Pointer>, statics: seq<nat>,
                     interfaces: nat, clocks: seq<Clock>, x: nat)
    requires EntriesAgree(info, queues, heads, statics, interfaces, clocks, {}) && x < |info|
    ensures EntriesAgree(info, queues[x := []], heads, statics, interfaces, clocks, {})
  {
  }

  lemma EntryUnfixed(info: seq<Mapping>, queues: seq<seq<Packet>>, heads: seq<Pointer>, statics: seq<nat>,
                     interfaces: nat, clocks: seq<Clock>, x: nat)
    requires EntriesAgree(info, queues, heads, statics, interfaces, clocks, {})
    requires Distinct(statics) && x in statics && x < |info|
    ensures EntriesAgree(info, queues, heads[x := Null], Without(statics, Place(statics, x)), interfaces, clocks, {})
  {
    forall i: nat
      ensures i in Without(statics, Place(statics, x)) <==> i in statics && i != x
    {
      InWithout(statics, Place(statics, x), i);
    }
  }

  lemma InactiveRefilled(info: seq<Mapping>, queues: seq<seq<Packet>>, heads: seq<Pointer>, statics: seq<nat>,
                         interfaces: nat, clocks: seq<Clock>, x: nat, m: Mapping)
    requires EntriesAgree(info, queues, heads, statics, interfaces, clocks, {}) && x < |info|
    requires heads[x].Null? && x !in statics && m.retries <= MAXIMUM_RETRIES
    ensures EntriesAgree(info[x := m], queues, heads, statics, interfaces, clocks, {}) && queues[x] == []
  {
    assert Bounded(info[x], queues[x], heads[x], false);
  }

  /** An entry that is being visited. */
  lemma EntryVisited(info: seq<Mapping>, queues: seq<seq<Packet>>, heads: seq<Pointer>, statics: seq<nat>,
                     interfaces: nat, clocks: seq<Clock>, x: nat, m: Mapping, clock: Clock)
    requires EntriesAgree(info, queues, heads, statics, interfaces, clocks, {x}) && x < |info|
    requires m.retries <= MAXIMUM_RETRIES
    ensures EntriesAgree(info[x := m], queues, heads, statics, interfaces, clocks[x := clock], {x})
  {
  }

  lemma EntryQueued(info: seq<Mapping>, queues: seq<seq<Packet>>, heads: seq<Pointer>, statics: seq<nat>,
                    interfaces: nat, clocks: seq<Clock>, x: nat, queue: seq<Packet>)
    requires EntriesAgree(info, queues, heads, statics, interfaces, clocks, {}) && x < |info|
    requires heads[x].To? && x !in statics && |queue| <= MAX_QUEUE_DEPTH
    ensures EntriesAgree(info, queues[x := queue], heads, statics, interfaces, clocks, {})
  {
  }

  lemma AgreeExcept(info: seq<Mapping>, queues: seq<seq<Packet>>, heads: seq<Pointer>, statics: seq<nat>,
                    interfaces: nat, clocks: seq<Clock>, x: nat)
    requires EntriesAgree(info, queues, heads, statics, interfaces, clocks, {}) && x < |info|
    ensures EntriesAgree(info, queues, heads, statics, interfaces, clocks, {x})
    ensures forall i :: 0 <= i < |info| && i != x && heads[i].To? && heads[x].To? ==> info[i].ip != info[x].ip
  {
  }

  /** What happens to a packet that is to be sent: its address is known, or it waits, or it is dropped. */
  datatype Sending = Resolved(msw: Ulong, lsw: Ulong) | Held | Discarded

  /** The packets that waited at entry x were released; the others are where they were. */
  ghost predicate Freed(before: map<Packet, Fate>, after: map<Packet, Fate>, x: nat) {
    && before.Keys == after.Keys
    && forall p :: p in before ==> if before[p] == Waiting(x) then after[p].Released? else after[p] == before[p]
  }

  /** The same for the packets that waited at any of these entries. */
  ghost predicate FreedIn(before: map<Packet, Fate>, after: map<Packet, Fate>, entries: set<nat>) {
    && before.Keys == after.Keys
    && forall p :: p in before ==>
         if before[p].Waiting? && before[p].entry in entries then after[p].Released? else after[p] == before[p]
  }

  lemma FreedNone(fates: map<Packet, Fate>)
    ensures FreedIn(fates, fates, {})
  {
  }

  lemma FreedMore(a: map<Packet, Fate>, b: map<Packet, Fate>, c: map<Packet, Fate>, entries: set<nat>, x: nat)
    requires FreedIn(a, b, entries) && Freed(b, c, x)
    ensures FreedIn(a, c, entries + {x})
  {
  }

  /** Releasing an empty queue changes nothing. */
  lemma FreedEmpty(queues: seq<seq<Packet>>, fates: map<Packet, Fate>, fates': map<Packet, Fate>, x: nat)
    requires InQueues(queues, fates) && x < |queues| && queues[x] == [] && Freed(fates, fates', x)
    ensures fates' == fates
  {
  }

  /** The packets that waited at entry x went to the driver if their length is within the MTU; the longer
      ones went to the fragmentation routine, or were released if there is none. */
  ghost predicate Sent(before: map<Packet, Fate>, after: map<Packet, Fate>, x: nat, mtu: nat, canFragment: bool) {
    && before.Keys == after.Keys
    && forall p :: p in before ==>
         if before[p] != Waiting(x) then after[p] == before[p]
         else if p.length <= mtu then after[p].Driven?
         else if canFragment then after[p].Fragmented?
         else after[p].Released?
  }

  /** How many packets of a queue have a length within the MTU. */
  ghost function Fitting(queue: seq<Packet>, mtu: nat): (count: nat)
    ensures count <= |queue|
  {
    if queue == [] then 0 else (if queue[0].length <= mtu then 1 else 0) + Fitting(queue[1..], mtu)
  }

  /** The two ways in which a queue is disposed of. */
  datatype Disposal = Drop | Transmit(mtu: nat, canFragment: bool)

  predicate Goes(p: Packet, way: Disposal, fate: Fate) {
    match way
    case Drop => fate.Released?
    case Transmit(mtu, canFragment) =>
      if p.length <= mtu then fate.Driven? else if canFragment then fate.Fragmented? else fate.Released?
  }

  /** The packets that waited at entry x, apart from those still to come, are disposed of. */
  ghost predicate Disposed(before: map<Packet, Fate>, after: map<Packet, Fate>, x: nat, rest: seq<Packet>,
                           way: Disposal)
  {
    && before.Keys == after.Keys
    && forall p :: p in before ==>
         if before[p] == Waiting(x) && p !in rest then Goes(p, way, after[p]) else after[p] == before[p]
  }

  lemma NoneYet(before: map<Packet, Fate>, x: nat, queues: seq<seq<Packet>>, way: Disposal)
    requires InQueues(queues, before) && x < |queues|
    ensures Queued(x, queues[x], before) && Disposed(before, before, x, queues[x], way)
  {
  }

  lemma OneMore(before: map<Packet, Fate>, now: map<Packet, Fate>, x: nat, rest: seq<Packet>, way: Disposal, fate: Fate)
    requires rest != [] && Queued(x, rest, before) && Disposed(before, now, x, rest, way) && Goes(rest[0], way, fate)
    ensures Disposed(before, now[rest[0] := fate], x, rest[1..], way) && Queued(x, rest[1..], before)
  {
    assert rest == [rest[0]] + rest[1..];
  }

  lemma AllDisposed(before: map<Packet, Fate>, after: map<Packet, Fate>, x: nat, way: Disposal)
    requires Disposed(before, after, x, [], way)
    ensures if way.Drop? then Freed(before, after, x) else Sent(before, after, x, way.mtu, way.canFragment)
  {
  }

  lemma NoneFreed(queues: seq<seq<Packet>>, fates: map<Packet, Fate>, x: nat)
    requires InQueues(queues, fates) && x < |queues| && queues[x] == []
    ensures Freed(fates, fates, x)
  {
  }

  /** Nothing is sent from a queue that was just released. */
  lemma NoneSent(a: map<Packet, Fate>, b: map<Packet, Fate>, c: map<Packet, Fate>, x: nat, mtu: nat, canFragment: bool)
    requires Freed(a, b, x) && Sent(b, c, x, mtu, canFragment)
    ensures c == b
  {
  }

  /** Every packet that was somewhere is still somewhere and is disposed of at most once; one that still
      waits, waits for the same address. */
  ghost predicate Kept(before: map<Packet, Fate>, info: seq<Mapping>, after: map<Packet, Fate>, info': seq<Mapping>) {
    && |info| == |info'|
    && forall p :: p in before ==>
         && p in after && (before[p] == after[p] || (before[p].Waiting? && !after[p].Waiting?))
         && (after[p].Waiting? && after[p].entry < |info| ==> info[after[p].entry].ip == info'[after[p].entry].ip)
  }

  lemma KeptTwice(a: map<Packet, Fate>, i: seq<Mapping>, b: map<Packet, Fate>, j: seq<Mapping>, c: map<Packet, Fate>,
                  k: seq<Mapping>)
    requires Kept(a, i, b, j) && Kept(b, j, c, k)
    ensures Kept(a, i, c, k)
  {
  }

  lemma KeptFreed(before: map<Packet, Fate>, info: seq<Mapping>, after: map<Packet, Fate>, x: nat)
    requires Freed(before, after, x)
    ensures Kept(before, info, after, info)
  {
  }

  lemma KeptSent(before: map<Packet, Fate>, info: seq<Mapping>, after: map<Packet, Fate>, x: nat, mtu: nat,
                 canFragment: bool)
    requires Sent(before, after, x, mtu, canFragment)
    ensures Kept(before, info, after, info)
  {
  }

  lemma KeptNew(fates: map<Packet, Fate>, info: seq<Mapping>, packet: Packet, fate: Fate)
    requires packet !in fates
    ensures Kept(fates, info, fates[packet := fate], info)
  {
  }

  lemma KeptSame(fates: map<Packet, Fate>, info: seq<Mapping>)
    ensures Kept(fates, info, fates, info)
  {
  }

  /** Other contents at an entry, which keeps its address or has no packets waiting. */
  lemma KeptRefilled(fates: map<Packet, Fate>, info: seq<Mapping>, queues: seq<seq<Packet>>, x: nat, m: Mapping)
    requires InQueues(queues, fates) && |queues| == |info| && x < |info|
    requires queues[x] == [] || m.ip == info[x].ip
    ensures Kept(fates, info, fates, info[x := m])
  {
  }

  /** No active entry of this list is of this interface. */
  ghost predicate Cleared(list: seq<nat>, info: seq<Mapping>, heads: seq<Pointer>, index: nat) {
    forall j :: 0 <= j < |list| && list[j] < |info| && list[j] < |heads| && heads[list[j]].To? ==>
      info[list[j]].interface != To(index)
  }

  /** The packets that waited at entries of this interface were released; the others are where they were. */
  ghost predicate FreedOf(before: map<Packet, Fate>, info: seq<Mapping>, after: map<Packet, Fate>, index: nat) {
    && before.Keys == after.Keys
    && forall p :: p in before ==>
         if before[p].Waiting? && before[p].entry < |info| && info[before[p].entry].interface == To(index)
         then after[p].Released? else after[p] == before[p]
  }

  /** Entries of other interfaces say what they said and are active or not as before. */
  ghost predicate OthersStay(info: seq<Mapping>, heads: seq<Pointer>, info': seq<Mapping>, heads': seq<Pointer>,
                             index: nat)
  {
    && |info| == |info'| == |heads| == |heads'|
    && forall i :: 0 <= i < |info| && info[i].interface != To(index) ==> info[i] == info'[i] && heads[i] == heads'[i]
  }

  /** So does deactivating one more entry of this interface. */
  lemma OthersStayed(info: seq<Mapping>, heads: seq<Pointer>, heads': seq<Pointer>, index: nat, x: nat)
    requires OthersStay(info, heads, info, heads', index) && x < |info| && info[x].interface == To(index)
    ensures OthersStay(info, heads, info, heads'[x := Null], index)
  {
  }

  /** Some entries may have become inactive. */
  ghost predicate FewerActive(heads: seq<Pointer>, heads': seq<Pointer>) {
    && |heads| == |heads'|
    && forall i :: 0 <= i < |heads| ==> heads'[i] == heads[i] || heads'[i] == Null
  }

  lemma OneFewer(heads: seq<Pointer>, heads': seq<Pointer>, x: nat)
    requires FewerActive(heads, heads') && x < |heads|
    ensures FewerActive(heads, heads'[x := Null])
  {
  }

  lemma FewerSizes(heads: seq<Pointer>, heads': seq<Pointer>)
    requires FewerActive(heads, heads')
    ensures |heads| == |heads'|
  {
  }

  lemma NoneFewer(heads: seq<Pointer>)
    ensures FewerActive(heads, heads)
  {
  }

  lemma NoneCleared(list: seq<nat>, info: seq<Mapping>, heads: seq<Pointer>, index: nat)
    ensures Cleared(list[..0], info, heads, index)
  {
  }

  lemma ClearedMore(list: seq<nat>, info: seq<Mapping>, heads: seq<Pointer>, index: nat, k: nat)
    requires k < |list| && Cleared(list[..k], info, heads, index) && list[k] < |info| && list[k] < |heads|
    requires heads[list[k]].To? ==> info[list[k]].interface != To(index)
    ensures Cleared(list[..k + 1], info, heads, index)
  {
    assert forall j :: 0 <= j < k ==> list[..k][j] == list[..k + 1][j];
  }

  /** Deactivating an entry and clearing its interface does not undo what was cleared. */
  lemma ClearedStays(list: seq<nat>, info: seq<Mapping>, heads: seq<Pointer>, index: nat, x: nat)
    requires Cleared(list, info, heads, index) && x < |info| && x < |heads|
    ensures Cleared(list, info[x := info[x].(interface := Null)], heads[x := Null], index)
  {
  }

  lemma ClearedLess(list: seq<nat>, info: seq<Mapping>, heads: seq<Pointer>, index: nat, x: nat)
    requires Cleared(list, info, heads, index) && x < |heads|
    ensures Cleared(list, info, heads[x := Null], index)
  {
  }

  /** The clocks after these visits. */
  function AgedBy(clocks: seq<Clock>, visits: seq<nat>): (r: seq<Clock>)
    ensures |r| == |clocks|
    decreases |visits|
  {
    if visits == [] then clocks
    else
      var x := visits[0];
      AgedBy(if x < |clocks| then clocks[x := Aged(clocks[x])] else clocks, visits[1..])
  }

  lemma AgedNone(clocks: seq<Clock>)
    ensures AgedBy(clocks, []) == clocks
  {
  }

  lemma AgedStep(clocks: seq<Clock>, x: nat, rest: seq<nat>)
    requires x < |clocks|
    ensures AgedBy(clocks, [x] + rest) == AgedBy(clocks[x := Aged(clocks[x])], rest)
  {
    assert ([x] + rest)[1..] == rest;
  }

  /** A clock counts how often its entry was visited. */
  lemma {:induction false} ClockCounts(clocks: seq<Clock>, visits: seq<nat>, x: nat)
    requires x < |clocks|
    ensures AgedBy(clocks, visits)[x] ==
              match clocks[x]
              case Running(n) => Running(n + multiset(visits)[x])
              case Stopped => Stopped
    decreases |visits|
  {
    if visits != [] {
      var y := visits[0];
      assert visits == [y] + visits[1..];
      ClockCounts(if y < |clocks| then clocks[y := Aged(clocks[y])] else clocks, visits[1..], x);
    }
  }

  /** Visits do not stop a clock. */
  lemma AgedRun(clocks: seq<Clock>, visits: seq<nat>)
    requires forall x :: 0 <= x < |clocks| ==> clocks[x].Running?
    ensures forall x :: 0 <= x < |clocks| ==> AgedBy(clocks, visits)[x].Running?
  {
    forall x | 0 <= x < |clocks|
      ensures AgedBy(clocks, visits)[x].Running?
    {
      ClockCounts(clocks, visits, x);
    }
  }

  /** The walk of the periodic update from place "pos" of the dynamic list, with i entries visited: it
      goes along the list, but starts again from the head when an entry expires. */
  ghost function TickFrom(list: seq<nat>, info: seq<Mapping>, active: set<nat>, i: nat, pos: nat)
    : (seq<nat>, seq<Mapping>, set<nat>)
    decreases |active| - i
  {
    if i >= |active| || pos >= |list| || list[pos] >= |info| then (list, info, active)
    else
      var x := list[pos];
      var (m, visit) := Tick(info[x]);
      if visit.Expire? then
        TickFrom(Without(list, pos) + [x], info[x := m], active - {x}, i + 1, 0)
      else
        TickFrom(list, info[x := m], active, i + 1, if pos + 1 < |list| then pos + 1 else 0)
  }

  /** The entries that this walk visits, in order. */
  ghost function VisitsFrom(list: seq<nat>, info: seq<Mapping>, active: set<nat>, i: nat, pos: nat): seq<nat>
    decreases |active| - i
  {
    if i >= |active| || pos >= |list| || list[pos] >= |info| then []
    else
      var x := list[pos];
      var (m, visit) := Tick(info[x]);
      [x] +
      if visit.Expire? then
        VisitsFrom(Without(list, pos) + [x], info[x := m], active - {x}, i + 1, 0)
      else
        VisitsFrom(list, info[x := m], active, i + 1, if pos + 1 < |list| then pos + 1 else 0)
  }

  /** Those of them that are asked for again, in the order of the visits. */
  ghost function AskersFrom(list: seq<nat>, info: seq<Mapping>, active: set<nat>, i: nat, pos: nat): seq<nat>
    decreases |active| - i
  {
    if i >= |active| || pos >= |list| || list[pos] >= |info| then []
    else
      var x := list[pos];
      var (m, visit) := Tick(info[x]);
      (if Asks(info[x]) then [x] else []) +
      if visit.Expire? then
        AskersFrom(Without(list, pos) + [x], info[x := m], active - {x}, i + 1, 0)
      else
        AskersFrom(list, info[x := m], active, i + 1, if pos + 1 < |list| then pos + 1 else 0)
  }

  /** The requests for these entries. */
  ghost function RequestsTo(askers: seq<nat>, info: seq<Mapping>): seq<(Ulong, Pointer)> {
    if askers == [] then []
    else
      var x, rest := askers[0], RequestsTo(askers[1..], info);
      (if x < |info| then [(info[x].ip, info[x].interface)] else []) + rest
  }

  /** They do not depend on the timers. */
  lemma {:induction false} RequestsStay(askers: seq<nat>, info: seq<Mapping>, info': seq<Mapping>)
    requires |info| == |info'|
    requires forall x :: 0 <= x < |info| ==> info[x].ip == info'[x].ip && info[x].interface == info'[x].interface
    ensures RequestsTo(askers, info) == RequestsTo(askers, info')
  {
    if askers != [] {
      RequestsStay(askers[1..], info, info');
    }
  }

  lemma RequestsNone(info: seq<Mapping>)
    ensures RequestsTo([], info) == []
  {
  }

  lemma RequestsStep(askers: seq<nat>, rest: seq<nat>, info: seq<Mapping>, x: nat)
    requires x < |info| && askers == (if Asks(info[x]) then [x] else []) + rest
    requires info[x].retries <= MAXIMUM_RETRIES
    ensures RequestsTo(askers, info) ==
            (if Asks(info[x]) then [(info[x].ip, info[x].interface)] else [])
            + RequestsTo(rest, info[x := Tick(info[x]).0])
  {
    RetriesCount(info[x]);
    RequestsStay(rest, info, info[x := Tick(info[x]).0]);
    if Asks(info[x]) {
      assert askers[1..] == rest;
    } else {
      assert askers == rest;
    }
  }

  lemma TickStep(list: seq<nat>, info: seq<Mapping>, active: set<nat>, i: nat, pos: nat)
    requires i < |active| && pos < |list| && list[pos] < |info|
    ensures var x := list[pos];
            var (m, visit) := Tick(info[x]);
            TickFrom(list, info, active, i, pos) ==
            if visit.Expire? then TickFrom(Without(list, pos) + [x], info[x := m], active - {x}, i + 1, 0)
            else TickFrom(list, info[x := m], active, i + 1, if pos + 1 < |list| then pos + 1 else 0)
    ensures var x := list[pos];
            var (m, visit) := Tick(info[x]);
            VisitsFrom(list, info, active, i, pos) ==
            [x] + if visit.Expire? then VisitsFrom(Without(list, pos) + [x], info[x := m], active - {x}, i + 1, 0)
                  else VisitsFrom(list, info[x := m], active, i + 1, if pos + 1 < |list| then pos + 1 else 0)
    ensures var x := list[pos];
            var (m, visit) := Tick(info[x]);
            AskersFrom(list, info, active, i, pos) ==
            (if Asks(info[x]) then [x] else []) +
            if visit.Expire? then AskersFrom(Without(list, pos) + [x], info[x := m], active - {x}, i + 1, 0)
            else AskersFrom(list, info[x := m], active, i + 1, if pos + 1 < |list| then pos + 1 else 0)
  {
    hide Tick;
  }

  lemma TickEnd(list: seq<nat>, info: seq<Mapping>, active: set<nat>, i: nat, pos: nat)
    requires i >= |active|
    ensures TickFrom(list, info, active, i, pos) == (list, info, active)
    ensures VisitsFrom(list, info, active, i, pos) == AskersFrom(list, info, active, i, pos) == []
  {
  }
}
