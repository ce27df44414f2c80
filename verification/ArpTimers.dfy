/** Which entries one run of the periodic update visits. */
module ArpTimers {
  import opened Rings
  import opened ArpLists
  import opened ArpEntries

  /** The nodes of a list, all different, have mappings. */
  ghost predicate Known(list: seq<nat>, info: seq<Mapping>) {
    Distinct(list) && forall k :: 0 <= k < |list| ==> list[k] < |info|
  }

  predicate Expires(list: seq<nat>, info: seq<Mapping>, k: nat) {
    k < |list| && list[k] < |info| && Tick(info[list[k]]).1.Expire?
  }

  lemma Smaller(active: set<nat>, x: nat)
    ensures |active - {x}| <= |active| && (x in active ==> |active - {x}| == |active| - 1)
  {
    if x in active {
      assert active == (active - {x}) + {x};
    } else {
      assert active == active - {x};
    }
  }

  lemma ExpiredKnown(list: seq<nat>, info: seq<Mapping>, pos: nat)
    requires Known(list, info) && pos < |list|
    ensures Known(Without(list, pos) + [list[pos]], info)
    ensures |Without(list, pos) + [list[pos]]| == |list|
    ensures forall q :: pos < q < |list| ==> (Without(list, pos) + [list[pos]])[q - 1] == list[q]
  {
    var list' := Without(list, pos) + [list[pos]];
    forall i, j | 0 <= i < j < |list'|
      ensures list'[i] != list'[j]
    {
      assert list'[i] == list[if i < pos then i else i + 1];
      assert list'[j] == list[if j < pos then j else if j + 1 < |list| then j + 1 else pos];
    }
  }

  /** Where the walk goes on after a visit. */
  ghost function NextStop(list: seq<nat>, info: seq<Mapping>, active: set<nat>, pos: nat): (seq<nat>, set<nat>, nat)
    requires pos < |list| && list[pos] < |info|
  {
    if Tick(info[list[pos]]).1.Expire? then (Without(list, pos) + [list[pos]], active - {list[pos]}, 0)
    else (list, active, if pos + 1 < |list| then pos + 1 else 0)
  }

  lemma NextSteps(list: seq<nat>, info: seq<Mapping>, active: set<nat>, i: nat, pos: nat)
    requires i < |active| && pos < |list| && list[pos] < |info|
    ensures var (list', active', pos') := NextStop(list, info, active, pos);
            var y := list[pos];
            var info' := info[y := Tick(info[y]).0];
            && |active'| <= |active|
            && TickFrom(list, info, active, i, pos) == TickFrom(list', info', active', i + 1, pos')
            && VisitsFrom(list, info, active, i, pos) == [y] + VisitsFrom(list', info', active', i + 1, pos')
            && AskersFrom(list, info, active, i, pos) ==
               (if Asks(info[y]) then [y] else []) + AskersFrom(list', info', active', i + 1, pos')
  {
    TickStep(list, info, active, i, pos);
    Smaller(active, list[pos]);
  }

  lemma NoSteps(list: seq<nat>, info: seq<Mapping>, active: set<nat>, i: nat, pos: nat)
    requires i >= |active| || pos >= |list| || list[pos] >= |info|
    ensures TickFrom(list, info, active, i, pos) == (list, info, active)
    ensures VisitsFrom(list, info, active, i, pos) == AskersFrom(list, info, active, i, pos) == []
  {
  }

  /** The walk does not get to the places behind those that are still to be visited. */
  lemma {:induction false} NotReached(list: seq<nat>, info: seq<Mapping>, active: set<nat>, i: nat, pos: nat, q: nat)
    requires Known(list, info) && pos <= q < |list| && i + q >= pos + |active|
    ensures list[q] !in VisitsFrom(list, info, active, i, pos)
    decreases |active| - i
  {
    hide Tick, TickFrom, VisitsFrom, AskersFrom, Without;
    if i < |active| && pos < q {
      TickStep(list, info, active, i, pos);
      var x := list[pos];
      var (m, visit) := Tick(info[x]);
      if visit.Expire? {
        ExpiredKnown(list, info, pos);
        var list' := Without(list, pos) + [x];
        assert Known(list', info[x := m]);
        Smaller(active, x);
        NotReached(list', info[x := m], active - {x}, i + 1, 0, q - 1);
      } else {
        NotReached(list, info[x := m], active, i + 1, pos + 1, q);
      }
    } else {
      assert i >= |active|;
      TickEnd(list, info, active, i, pos);
    }
  }

  /** The walk from place i on, if none of the entries expires but perhaps the last. */
  lemma {:induction false} EachOnce(list: seq<nat>, info: seq<Mapping>, active: set<nat>, i: nat)
    requires Known(list, info) && i <= |active| <= |list|
    requires forall k :: i <= k < |active| - 1 ==> !Expires(list, info, k)
    ensures VisitsFrom(list, info, active, i, i) == list[i..|active|]
    decreases |active| - i
  {
    hide Tick;
    if i == |active| {
      TickEnd(list, info, active, i, i);
    } else {
      TickStep(list, info, active, i, i);
      var x := list[i];
      var (m, visit) := Tick(info[x]);
      if i + 1 == |active| {
        Smaller(active, x);
        TickEnd(Without(list, i) + [x], info[x := m], active - {x}, i + 1, 0);
        TickEnd(list, info[x := m], active, i + 1, if i + 1 < |list| then i + 1 else 0);
      } else {
        assert !Expires(list, info, i);
        StillNone(list, info, |active| - 1, i, info[x := m]);
        EachOnce(list, info[x := m], active, i + 1);
      }
    }
  }

  /** What has happened to an earlier entry does not make later ones expire. */
  lemma StillNone(list: seq<nat>, info: seq<Mapping>, count: int, i: nat, info': seq<Mapping>)
    requires Known(list, info) && i < |list| && count <= |list|
    requires |info'| == |info| && info' == info[list[i] := info'[list[i]]]
    requires forall k :: i <= k < count ==> !Expires(list, info, k)
    ensures forall k :: i < k < count ==> !Expires(list, info', k)
  {
    hide Tick;
    forall k | i < k < count
      ensures !Expires(list, info', k)
    {
      assert !Expires(list, info, k);
    }
  }

  /** If no entry expires at all, the list stays, and each of the entries has ticked once. */
  lemma {:induction false} NoneExpires(list: seq<nat>, info: seq<Mapping>, active: set<nat>, i: nat)
    requires Known(list, info) && i <= |active| <= |list|
    requires forall k :: i <= k < |active| ==> !Expires(list, info, k)
    ensures var (list', info', active') := TickFrom(list, info, active, i, i);
            list' == list && active' == active && |info'| == |info|
            && forall k :: 0 <= k < |active| ==>
                 info'[list[k]] == if k < i then info[list[k]] else Tick(info[list[k]]).0
    decreases |active| - i
  {
    hide Tick, TickFrom, VisitsFrom, AskersFrom;
    if i == |active| {
      TickEnd(list, info, active, i, i);
    } else {
      TickStep(list, info, active, i, i);
      assert !Expires(list, info, i);
      var x := list[i];
      var (m, visit) := Tick(info[x]);
      StillNone(list, info, |active|, i, info[x := m]);
      if i + 1 == |list| {
        TickEnd(list, info[x := m], active, i + 1, 0);
        TickEnd(list, info[x := m], active, i + 1, i + 1);
      }
      NoneExpires(list, info[x := m], active, i + 1);
    }
  }

  /** If an entry before the last expires, the walk from place i on misses the last. */
  lemma {:induction false} LastMissed(list: seq<nat>, info: seq<Mapping>, active: set<nat>, i: nat, j: nat)
    requires Known(list, info) && i <= j < |active| - 1 && |active| <= |list|
    requires Expires(list, info, j)
    requires forall k :: i <= k < |active| ==> list[k] in active
    ensures list[|active| - 1] !in VisitsFrom(list, info, active, i, i)
    decreases |active| - i
  {
    hide Tick, TickFrom, VisitsFrom, AskersFrom, Without;
    TickStep(list, info, active, i, i);
    var x, last := list[i], |active| - 1;
    var (m, visit) := Tick(info[x]);
    if visit.Expire? {
      var list' := Without(list, i) + [x];
      ExpiredKnown(list, info, i);
      assert Known(list', info[x := m]);
      Smaller(active, x);
      NotReached(list', info[x := m], active - {x}, i + 1, 0, last - 1);
    } else {
      assert i < j;
      LastMissed(list, info[x := m], active, i + 1, j);
    }
  }

  /** The walk leaves an entry alone that it does not visit. */
  lemma {:induction false} NotVisited(list: seq<nat>, info: seq<Mapping>, active: set<nat>, i: nat, pos: nat, x: nat)
    requires x !in VisitsFrom(list, info, active, i, pos) && x < |info|
    ensures var (_, info', active') := TickFrom(list, info, active, i, pos);
            |info'| == |info| && info'[x] == info[x] && (x in active' <==> x in active)
    decreases |active| - i
  {
    hide Tick, Without;
    if i < |active| && pos < |list| && list[pos] < |info| {
      TickStep(list, info, active, i, pos);
      var y := list[pos];
      var (m, visit) := Tick(info[y]);
      var rest := VisitsFrom(list, info, active, i, pos)[1..];
      assert VisitsFrom(list, info, active, i, pos)[0] == y;
      assert x !in rest;
      hide TickFrom, VisitsFrom;
      if visit.Expire? {
        Smaller(active, y);
        NotVisited(Without(list, pos) + [y], info[y := m], active - {y}, i + 1, 0, x);
      } else {
        NotVisited(list, info[y := m], active, i + 1, if pos + 1 < |list| then pos + 1 else 0, x);
      }
    }
  }

  ghost predicate IsSubsequence(a: seq<nat>, b: seq<nat>)
    decreases |b|
  {
    a == [] || (b != [] && ((a[0] == b[0] && IsSubsequence(a[1..], b[1..])) || IsSubsequence(a, b[1..])))
  }

  lemma SubsequenceStep(x: nat, asks: bool, a: seq<nat>, b: seq<nat>)
    requires IsSubsequence(a, b)
    ensures IsSubsequence((if asks then [x] else []) + a, [x] + b)
  {
    assert ([x] + b)[1..] == b && ([x] + a)[1..] == a && [] + a == a;
  }

  /** A run of the update asks again only for entries that it visits, in that order. */
  lemma {:induction false} AskersInOrder(list: seq<nat>, info: seq<Mapping>, active: set<nat>, i: nat, pos: nat)
    ensures IsSubsequence(AskersFrom(list, info, active, i, pos), VisitsFrom(list, info, active, i, pos))
    decreases |active| - i
  {
    hide Tick, Asks, TickFrom, VisitsFrom, AskersFrom, NextStop;
    if i < |active| && pos < |list| && list[pos] < |info| {
      NextSteps(list, info, active, i, pos);
      var y := list[pos];
      var (list', active', pos') := NextStop(list, info, active, pos);
      var info' := info[y := Tick(info[y]).0];
      AskersInOrder(list', info', active', i + 1, pos');
      SubsequenceStep(y, Asks(info[y]), AskersFrom(list', info', active', i + 1, pos'),
                      VisitsFrom(list', info', active', i + 1, pos'));
    } else {
      NoSteps(list, info, active, i, pos);
    }
  }

  /** It asks for each entry as often as its retries rise. */
  lemma {:induction false} AskersRise(list: seq<nat>, info: seq<Mapping>, active: set<nat>, i: nat, pos: nat, x: nat)
    requires x < |info| && forall y :: 0 <= y < |info| ==> info[y].retries <= MAXIMUM_RETRIES
    ensures var after := TickFrom(list, info, active, i, pos).1;
            && |after| == |info|
            && after[x].retries == info[x].retries + multiset(AskersFrom(list, info, active, i, pos))[x]
    decreases |active| - i
  {
    hide Tick, Asks, TickFrom, VisitsFrom, AskersFrom, NextStop;
    if i < |active| && pos < |list| && list[pos] < |info| {
      NextSteps(list, info, active, i, pos);
      var y := list[pos];
      var (list', active', pos') := NextStop(list, info, active, pos);
      RetriesCount(info[y]);
      VisitBounded(info[y]);
      AskersRise(list', info[y := Tick(info[y]).0], active', i + 1, pos', x);
    } else {
      NoSteps(list, info, active, i, pos);
    }
  }

  lemma VisitBounded(m: Mapping)
    requires m.retries <= MAXIMUM_RETRIES
    ensures Tick(m).0.retries <= MAXIMUM_RETRIES
  {
  }

  /** The first entries of a list, each once, are these. */
  lemma OnceEach(list: seq<nat>, active: set<nat>)
    requires Distinct(list) && FirstAre(list, active, |active|) && forall x :: x in active ==> x in list
    ensures multiset(list[..|active|]) == multiset(active)
  {
    var first := list[..|active|];
    forall x
      ensures multiset(first)[x] == multiset(active)[x]
    {
      if x in active {
        var k := Place(list, x);
        assert first == first[..k] + [x] + first[k + 1..];
        assert x !in first[..k] && x !in first[k + 1..];
      } else {
        assert x !in first;
      }
    }
  }

  /** While the active entries come first, a run of the periodic update visits each of them exactly once
      if and only if none but perhaps the last expires: after an expiry the walk starts again from the
      head of the list, and then it misses the last. */
  lemma EachOnceUnlessExpiry(list: seq<nat>, info: seq<Mapping>, active: set<nat>)
    requires Known(list, info) && FirstAre(list, active, |active|) && forall x :: x in active ==> x in list
    ensures var visits := VisitsFrom(list, info, active, 0, 0);
            var expiry := exists k :: 0 <= k < |active| - 1 && Expires(list, info, k);
            && (multiset(visits) == multiset(active) <==> !expiry)
            && (if expiry then list[|active| - 1] !in visits else visits == list[..|active|])
  {
    var last := |active| - 1;
    if j :| 0 <= j < last && Expires(list, info, j) {
      LastMissed(list, info, active, 0, j);
      assert list[last] in multiset(active);
    } else {
      EachOnce(list, info, active, 0);
      OnceEach(list, active);
    }
  }
}
