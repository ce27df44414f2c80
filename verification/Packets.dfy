/** Packet chains: nx_azure_iot_mqtt_packet_adjust (nx_azure_iot.c) and the packets that the JSON
    writer fills one after the other (nx_azure_iot_json_writer.c). */
module Packets {
  import opened Bytes

  /** NX_PACKET. The pointers into the packet's data area are offsets from nx_packet_data_start. */
  class Packet {
    const data: array<Byte>
    var prependPtr: nat
    var appendPtr: nat
    var next: Packet?
    var last: Packet?
    var length: nat

    constructor (size: nat)
      ensures fresh(data) && data.Length == size
      ensures prependPtr == appendPtr == length == 0 && next == last == null
    {
      data := new Byte[size];
      prependPtr, appendPtr, length := 0, 0, 0;
      next, last := null, null;
    }

    ghost predicate InBounds()
      reads this`prependPtr, this`appendPtr
    {
      prependPtr <= appendPtr <= data.Length
    }

    ghost function Content(): Text
      reads this`prependPtr, this`appendPtr, data
    {
      if InBounds() then data[prependPtr..appendPtr] else []
    }
  }

  /** The pool: what nx_packet_allocate will answer, and which packets were released. */
  class PacketPool {
    var answers: seq<Option<nat>>
    ghost var released: seq<Packet>

    /** nx_packet_allocate: fails, or hands out an unused packet, as the next answer says. */
    method Allocate() returns (packet: Packet?)
      modifies this`answers
      ensures answers == if old(answers) == [] then [] else old(answers)[1..]
      ensures packet == null <==> old(answers) == [] || old(answers)[0].None?
      ensures packet != null ==> fresh(packet) && fresh(packet.data) && packet.data.Length == old(answers)[0].value
      ensures packet != null ==> packet.prependPtr == packet.appendPtr == 0 && packet.next == packet.last == null
    {
      packet := null;
      if answers != [] {
        if answers[0].Some? {
          packet := new Packet(answers[0].value);
        }
        answers := answers[1..];
      }
    }

    /** nx_packet_release */
    method Release(packet: Packet)
      modifies this`released
      ensures released == old(released) + [packet]
    {
      released := released + [packet];
    }
  }

  ghost function Areas(packets: seq<Packet>): set<object> {
    set p | p in packets :: p.data
  }

  /** What a chain of packets carries. */
  ghost function Payload(packets: seq<Packet>): Text
    reads packets`prependPtr, packets`appendPtr, Areas(packets)
  {
    if packets == [] then [] else Payload(packets[..|packets| - 1]) + packets[|packets| - 1].Content()
  }

  ghost predicate Distinct(packets: seq<Packet>) {
    forall i, j :: 0 <= i < j < |packets| ==> packets[i] != packets[j] && packets[i].data != packets[j].data
  }

  function NextOf(packets: seq<Packet>, i: nat): Packet? {
    if i + 1 < |packets| then packets[i + 1] else null
  }

  /** The packets are linked in this order, and the last link is null. */
  ghost predicate Linked(packets: seq<Packet>)
    reads packets`next
  {
    forall i :: 0 <= i < |packets| ==> packets[i].next == NextOf(packets, i)
  }

  ghost predicate AllInBounds(packets: seq<Packet>)
    reads packets`prependPtr, packets`appendPtr
  {
    forall i :: 0 <= i < |packets| ==> packets[i].InBounds()
  }

  lemma {:induction false} PayloadJoin(front: seq<Packet>, back: seq<Packet>)
    ensures Payload(front + back) == Payload(front) + Payload(back)
    decreases |back|
  {
    hide Payload, Packet.Content;
    if back == [] {
      assert front + back == front;
      PayloadNone();
    } else {
      var n := |back| - 1;
      PayloadJoin(front, back[..n]);
      PayloadLast(front + back[..n], back[n]);
      PayloadLast(back[..n], back[n]);
      assert front + back == (front + back[..n]) + [back[n]] && back == back[..n] + [back[n]];
      JoinThree(Payload(front), Payload(back[..n]), back[n].Content());
    }
  }

  lemma PayloadNone()
    ensures Payload([]) == []
  {
  }

  lemma JoinThree(a: Text, b: Text, c: Text)
    ensures (a + b) + c == a + (b + c)
  {
  }

  lemma PayloadLast(front: seq<Packet>, packet: Packet)
    ensures Payload(front + [packet]) == Payload(front) + packet.Content()
  {
    assert (front + [packet])[..|front|] == front;
  }

  lemma PayloadOne(packet: Packet)
    ensures Payload([packet]) == packet.Content()
  {
    assert [packet][..0] == [];
  }

  lemma PayloadFirst(packet: Packet, rest: seq<Packet>)
    ensures Payload([packet] + rest) == packet.Content() + Payload(rest)
  {
    PayloadJoin([packet], rest);
    PayloadOne(packet);
  }

  // ---------------------------------------------------------------- compacting a chain

  /** memmove and memcpy between data areas. */
  method Move(destination: array<Byte>, to: nat, source: array<Byte>, from: nat, count: nat)
    requires to + count <= destination.Length && from + count <= source.Length
    modifies destination
    ensures destination[..to] == old(destination[..to])
    ensures destination[to..to + count] == old(source[from..from + count])
  {
    forall i | 0 <= i < count {
      destination[to + i] := source[from + i];
    }
  }

  /** Moves the packet's content to the start of its data area, from "skipped" bytes on. */
  method MoveToStart(packet: Packet, skipped: nat)
    requires packet.InBounds() && skipped <= |packet.Content()|
    modifies packet`prependPtr, packet`appendPtr, packet.data
    ensures packet.InBounds() && packet.prependPtr == 0
    ensures packet.Content() == old(packet.Content())[skipped..]
  {
    var size := packet.appendPtr - packet.prependPtr - skipped;
    Move(packet.data, 0, packet.data, packet.prependPtr + skipped, size);
    packet.prependPtr := 0;
    packet.appendPtr := size;
  }

  /** Copies bytes behind those that stand from "begin" to "end". */
  method MoveBehind(area: array<Byte>, begin: nat, end: nat, source: array<Byte>, from: nat, count: nat)
    requires area != source && begin <= end && end + count <= area.Length && from + count <= source.Length
    modifies area
    ensures area[begin..end + count] == old(area[begin..end]) + source[from..from + count]
  {
    ghost var before := area[..];
    Move(area, end, source, from, count);
    Extended(before, area[..], begin, end, end + count);
  }

  /** Copies the first "count" bytes of another packet behind the content of this one. */
  method CopyBehind(packet: Packet, current: Packet, count: nat)
    requires packet != current && packet.data != current.data
    requires packet.InBounds() && current.InBounds()
    requires count <= |current.Content()| && packet.appendPtr + count <= packet.data.Length
    modifies packet`appendPtr, packet.data
    ensures packet.InBounds() && packet.appendPtr == old(packet.appendPtr) + count
    ensures packet.Content() == old(packet.Content()) + current.Content()[..count]
  {
    var end := packet.appendPtr;
    MoveBehind(packet.data, packet.prependPtr, end, current.data, current.prependPtr, count);
    packet.appendPtr := end + count;
    var from := current.prependPtr;
    assert current.Content()[..count] == current.data[from..from + count];
  }

  /** A stretch of an area that was written on behind b. */
  lemma Extended(before: Text, after: Text, a: nat, b: nat, c: nat)
    requires a <= b <= c <= |after| && b <= |before| && after[..b] == before[..b]
    ensures after[a..c] == before[a..b] + after[b..c]
  {
    assert after[..b][a..] == after[a..b] && before[..b][a..] == before[a..b];
  }

  /** The chain's first packet takes over what the second one carries, as far as there is room. */
  method Absorb(packet: Packet, current: Packet) returns (whole: bool)
    requires packet != current && packet.data != current.data
    requires packet.InBounds() && current.InBounds()
    modifies packet`appendPtr, packet.data, current`prependPtr, current`appendPtr, current.data
    ensures packet.InBounds() && current.InBounds()
    ensures whole ==> packet.Content() == old(packet.Content() + current.Content())
    ensures !whole ==> packet.appendPtr == packet.data.Length
    ensures !whole ==> packet.Content() + current.Content() == old(packet.Content() + current.Content())
  {
    var size := packet.data.Length - packet.appendPtr;
    var copySize := current.appendPtr - current.prependPtr;
    ghost var content := current.Content();
    if size >= copySize {
      CopyBehind(packet, current, copySize);
      assert content[..copySize] == content;
      whole := true;
    } else {
      CopyBehind(packet, current, size);
      MoveToStart(current, size);
      assert content == content[..size] + content[size..];
      JoinThree(old(packet.Content()), content[..size], content[size..]);
      whole := false;
    }
  }

  /** The chain without its second packet. */
  ghost function Shorter(chain: seq<Packet>): seq<Packet>
    requires |chain| >= 2
  {
    [chain[0]] + chain[2..]
  }

  lemma PayloadTwo(chain: seq<Packet>)
    requires |chain| >= 2
    ensures Payload(chain) == (chain[0].Content() + chain[1].Content()) + Payload(chain[2..])
    ensures Payload(Shorter(chain)) == chain[0].Content() + Payload(chain[2..])
  {
    hide Payload, Packet.Content;
    assert chain == [chain[0]] + ([chain[1]] + chain[2..]);
    PayloadFirst(chain[0], [chain[1]] + chain[2..]);
    PayloadFirst(chain[1], chain[2..]);
    PayloadFirst(chain[0], chain[2..]);
    JoinThree(chain[0].Content(), chain[1].Content(), Payload(chain[2..]));
  }

  /** One round of the compaction, with the packets behind the second one left alone. */
  method AbsorbNext(packet: Packet, current: Packet, ghost chain: seq<Packet>) returns (whole: bool)
    requires |chain| >= 2 && chain[0] == packet && chain[1] == current
    requires Distinct(chain) && AllInBounds(chain)
    modifies packet`appendPtr, packet.data, current`prependPtr, current`appendPtr, current.data
    ensures AllInBounds(chain) && AllInBounds(Shorter(chain)) && packet.prependPtr == old(packet.prependPtr)
    ensures !whole ==> packet.appendPtr == packet.data.Length
    ensures Payload(if whole then Shorter(chain) else chain) == old(Payload(chain))
  {
    hide Payload, Packet.Content;
    assert packet.InBounds() && current.InBounds();
    assert forall p | p in chain[2..] :: p != packet && p != current && p.data != packet.data && p.data != current.data;
    assert forall o | o in Areas(chain[2..]) :: o != packet.data && o != current.data;
    PayloadTwo(chain);
    whole := Absorb(packet, current);
    assert Payload(chain[2..]) == old(Payload(chain[2..]));
    PayloadTwo(chain);
  }

  lemma ShorterDistinct(chain: seq<Packet>)
    requires |chain| >= 2 && Distinct(chain)
    ensures Distinct(Shorter(chain))
    ensures forall p | p in chain[2..] :: p != chain[0] && p != chain[1]
  {
    var shorter := Shorter(chain);
    assert forall i :: 0 < i < |shorter| ==> shorter[i] == chain[i + 1];
  }

  /** Takes the second packet out of the chain and releases it. */
  method Unlink(packet: Packet, current: Packet, pool: PacketPool, ghost chain: seq<Packet>)
    requires |chain| >= 2 && chain[0] == packet && chain[1] == current
    requires Distinct(chain) && Linked(chain)
    modifies packet`next, current`next, pool
    ensures Distinct(Shorter(chain)) && Linked(Shorter(chain))
    ensures pool.released == old(pool.released) + [current]
  {
    hide Distinct;
    ShorterDistinct(chain);
    packet.next := current.next;
    current.next := null;
    pool.Release(current);
    ghost var shorter := Shorter(chain);
    forall i | 0 <= i < |shorter|
      ensures shorter[i].next == NextOf(shorter, i)
    {
      assert old(chain[i + 1].next) == NextOf(chain, i + 1) == NextOf(shorter, i);
      assert i > 0 ==> shorter[i] == chain[i + 1] && chain[i + 1] in chain[2..];
    }
  }

  /** One turn of the loop. */
  method Round(packet: Packet, current: Packet, pool: PacketPool, ghost chain: seq<Packet>) returns (whole: bool)
    requires |chain| >= 2 && chain[0] == packet && chain[1] == current
    requires Distinct(chain) && Linked(chain) && AllInBounds(chain)
    modifies pool, packet`next, packet`appendPtr, packet.data
    modifies current`next, current`prependPtr, current`appendPtr, current.data
    ensures var left := if whole then Shorter(chain) else chain;
            Distinct(left) && Linked(left) && AllInBounds(left) && Payload(left) == old(Payload(chain))
    ensures packet.prependPtr == old(packet.prependPtr)
    ensures !whole ==> packet.appendPtr == packet.data.Length
    ensures pool.released == old(pool.released) + if whole then [current] else []
  {
    hide Payload, Packet.Content, Linked, AllInBounds, Distinct;
    whole := AbsorbNext(packet, current, chain);
    if whole {
      assert forall o | o in Areas(Shorter(chain)) :: o is array<Byte>;
      Unlink(packet, current, pool, chain);
    }
  }

  /** nx_azure_iot_mqtt_packet_adjust: "chain" is the chain that starts at the packet, of which the
      packets behind the first are absorbed up to some point. */
  method MqttPacketAdjust(packet: Packet, pool: PacketPool, ghost chain: seq<Packet>)
    returns (ghost absorbed: nat, ghost adjusted: seq<Packet>)
    requires chain != [] && chain[0] == packet && Distinct(chain) && Linked(chain) && AllInBounds(chain)
    modifies pool, chain, Areas(chain)
    ensures absorbed < |chain| && adjusted == [packet] + chain[absorbed + 1..]
    ensures Linked(adjusted) && AllInBounds(adjusted)
    ensures Payload(adjusted) == old(Payload(chain))
    ensures packet.prependPtr == 0
    ensures adjusted == [packet] || packet.appendPtr == packet.data.Length
    ensures pool.released == old(pool.released) + chain[1..absorbed + 1]
  {
    hide Payload, Packet.Content, Linked, AllInBounds, Distinct;
    adjusted, absorbed := chain, 0;
    if packet.prependPtr != 0 {
      AdjustFirst(packet, chain);
    }
    NextInChain(adjusted);
    if packet.next == null {
      return;
    }
    while packet.next != null
      invariant absorbed < |chain| && adjusted == [packet] + chain[absorbed + 1..]
      invariant Distinct(adjusted) && Linked(adjusted) && AllInBounds(adjusted)
      invariant packet.prependPtr == 0
      invariant Payload(adjusted) == old(Payload(chain))
      invariant pool.released == old(pool.released) + chain[1..absorbed + 1]
      decreases |adjusted|
    {
      var current := packet.next;
      NextInChain(adjusted);
      assert current == chain[absorbed + 1];
      var whole := Round(packet, current, pool, adjusted);
      if !whole {
        break;
      }
      assert Shorter(adjusted) == [packet] + chain[absorbed + 2..];
      OneMoreAbsorbed(chain, absorbed + 1);
      adjusted, absorbed := Shorter(adjusted), absorbed + 1;
    }
    NextInChain(adjusted);
  }

  lemma OneMoreAbsorbed(chain: seq<Packet>, k: nat)
    requires 1 <= k < |chain|
    ensures chain[1..k + 1] == chain[1..k] + [chain[k]]
  {
  }

  lemma NextInChain(chain: seq<Packet>)
    requires chain != [] && Linked(chain)
    ensures chain[0].next == null ==> |chain| == 1
    ensures chain[0].next != null ==> |chain| > 1 && chain[0].next == chain[1]
  {
    assert chain[0].next == NextOf(chain, 0);
  }

  /** The first packet and its area are not among the others. */
  lemma FirstDiffers(chain: seq<Packet>)
    requires chain != [] && Distinct(chain)
    ensures forall p | p in chain[1..] :: p != chain[0] && p.data != chain[0].data
    ensures chain[0].data !in Areas(chain[1..])
  {
  }

  /** The first step: the first packet's content moves to the start of its data area. */
  method AdjustFirst(packet: Packet, ghost chain: seq<Packet>)
    requires chain != [] && chain[0] == packet && Distinct(chain) && Linked(chain) && AllInBounds(chain)
    modifies packet`prependPtr, packet`appendPtr, packet.data
    ensures Linked(chain) && AllInBounds(chain) && packet.prependPtr == 0
    ensures Payload(chain) == old(Payload(chain))
  {
    hide Payload, Packet.Content;
    assert packet.InBounds() && chain == [packet] + chain[1..];
    FirstDiffers(chain);
    hide Distinct, Areas;
    PayloadFirst(packet, chain[1..]);
    ghost var content := packet.Content();
    MoveToStart(packet, 0);
    assert content[0..] == content;
    PayloadFirst(packet, chain[1..]);
  }
}
