/** The packets that hold the JSON writer's output (nx_azure_iot_json_writer.c). */
module WriterPackets {
  import opened Bytes
  import opened Packets
  import opened Segments
  import opened WriterRoom

  ghost function Before(packets: seq<Packet>): seq<Packet> {
    if packets == [] then [] else packets[..|packets| - 1]
  }

  /** A packet that carries this content and is followed by that packet. */
  ghost predicate Filled(packet: Packet, next: Packet, content: Text)
    reads packet, packet.data
  {
    packet.next == next && packet.InBounds() && packet.Content() == content
  }

  /** The packet part of NX_AZURE_IOT_JSON_WRITER, which is the allocator's user context. */
  class PacketSink {
    const pool: PacketPool
    const packetPtr: Packet
    var tailPacketOffset: nat
    const packetInitLength: nat
    /** The chain of packets from packetPtr on, and what all of them but the tail carry. */
    ghost var packets: seq<Packet>
    ghost var contents: seq<Text>

    ghost function Tail(): Packet
      requires packets != []
      reads this
    {
      packets[|packets| - 1]
    }

    ghost predicate Valid()
      reads this, packets, Areas(Before(packets))
    {
      && |packets| == |contents| + 1 && packets[0] == packetPtr
      && Distinct(packets)
      && packetPtr.last == (if |packets| == 1 then null else Tail())
      && Tail().InBounds() && Tail().next == null && Tail().prependPtr <= tailPacketOffset <= Tail().data.Length
      && forall i :: 0 <= i < |contents| ==> Filled(packets[i], packets[i + 1], contents[i])
    }

    /** What the chain carries if the first "bytesUsed" bytes of the writer's buffer count. */
    ghost function Carried(bytesUsed: nat): Text
      requires packets != [] && Tail().prependPtr <= tailPacketOffset + bytesUsed <= Tail().data.Length
      reads this, packets, Tail().data
    {
      Flatten(contents) + Tail().data[Tail().prependPtr..tailPacketOffset + bytesUsed]
    }

    /** nx_azure_iot_json_writer_init, for the packet chain that starts at the packet. */
    constructor (packetPtr: Packet, pool: PacketPool, ghost chain: seq<Packet>)
      requires chain != [] && chain[0] == packetPtr && Distinct(chain) && Linked(chain) && AllInBounds(chain)
      requires packetPtr.last == (if |chain| == 1 then null else chain[|chain| - 1])
      ensures Valid() && packets == chain && this.packetPtr == packetPtr && this.pool == pool
      ensures tailPacketOffset == Tail().appendPtr && packetInitLength == packetPtr.length
    {
      this.packetPtr := packetPtr;
      this.pool := pool;
      var tail := if packetPtr.last != null then packetPtr.last else packetPtr;
      assert tail == chain[|chain| - 1] && tail.InBounds();
      tailPacketOffset := tail.appendPtr;
      packetInitLength := packetPtr.length;
      packets := chain;
      contents := ContentsOf(chain)[..|chain| - 1];
    }

    /** nx_azure_iot_json_wirter_packet_allocator_cb: appends a packet of at least the required size,
        after the first "bytesUsed" bytes of the writer's buffer were counted to the tail. It fails exactly
        if the pool does, or if its packet is too small, which is then released. */
    method Allocate(bytesUsed: nat, minimumRequiredSize: nat) returns (buffer: array?<Byte>)
      requires Valid() && tailPacketOffset + bytesUsed <= Tail().data.Length
      modifies this, pool, packets
      ensures Valid()
      ensures buffer != null <==> Answers(old(pool.answers), minimumRequiredSize)
      ensures pool.answers == Later(old(pool.answers))
      ensures buffer != null ==> buffer.Length == old(pool.answers)[0].value && pool.released == old(pool.released)
      ensures buffer == null ==>
                |pool.released| ==
                |old(pool.released)| + if old(pool.answers) == [] || old(pool.answers)[0].None? then 0 else 1
      ensures buffer == null ==>
                && tailPacketOffset == old(tailPacketOffset) && packets == old(packets) && contents == old(contents)
                && Tail().prependPtr == old(Tail().prependPtr)
      ensures buffer != null ==>
                && packets == old(packets) + [Tail()] && fresh(Tail()) && fresh(Tail().data)
                && buffer == Tail().data && buffer.Length >= minimumRequiredSize
                && tailPacketOffset == Tail().prependPtr == 0
                && Flatten(contents) == old(Carried(bytesUsed))
    {
      hide Flatten, Distinct;
      buffer := null;
      var packet := pool.Allocate();
      if packet == null {
        return;
      }
      if minimumRequiredSize > packet.data.Length {
        pool.Release(packet);
        return;
      }
      LinkPacket(packet, bytesUsed);
      buffer := packet.data;
    }

    /** Counts the bytes used to the tail, and makes an empty packet the new tail. */
    method LinkPacket(packet: Packet, bytesUsed: nat)
      requires Valid() && tailPacketOffset + bytesUsed <= Tail().data.Length
      requires packet !in packets && packet.prependPtr == packet.appendPtr == 0 && packet.next == null
      requires forall i :: 0 <= i < |packets| ==> packets[i].data != packet.data
      modifies this`tailPacketOffset, this`packets, this`contents
      modifies Tail()`appendPtr, Tail()`next, packetPtr`length, packetPtr`last
      ensures Valid() && packets == old(packets) + [packet]
      ensures tailPacketOffset == packet.prependPtr == 0
      ensures Flatten(contents) == old(Carried(bytesUsed))
    {
      hide Flatten, Distinct;
      LastIsDistinct(packets);
      MoreDistinct(packets, packet);
      var tail := if packetPtr.last != null then packetPtr.last else packetPtr;
      tail.appendPtr := tailPacketOffset + bytesUsed;
      tail.next := packet;
      packetPtr.length := packetPtr.length + bytesUsed;
      packetPtr.last := packet;
      tailPacketOffset := 0;
      FlattenLast(contents, tail.Content());
      contents := contents + [tail.Content()];
      packets := packets + [packet];
      forall i | 0 <= i < |contents|
        ensures Filled(packets[i], packets[i + 1], contents[i])
      {
        assert i < |contents| - 1 ==> old(Filled(packets[i], packets[i + 1], contents[i]));
      }
    }

    /** nx_azure_iot_json_writer_packet_update */
    method Update(bytesWritten: nat, totalBytesWritten: nat)
      requires Valid() && tailPacketOffset + bytesWritten <= Tail().data.Length
      modifies packets
      ensures Valid()
      ensures Tail().prependPtr == old(Tail().prependPtr)
      ensures Payload(packets) == Carried(bytesWritten)
      ensures packetPtr.length == packetInitLength + totalBytesWritten
    {
      var tail := if packetPtr.last != null then packetPtr.last else packetPtr;
      tail.appendPtr := tailPacketOffset + bytesWritten;
      packetPtr.length := packetInitLength + totalBytesWritten;
      ChainCarries(this);
    }
  }

  ghost function ContentsOf(packets: seq<Packet>): (contents: seq<Text>)
    reads packets, Areas(packets)
    ensures |contents| == |packets| && forall i :: 0 <= i < |packets| ==> contents[i] == packets[i].Content()
  {
    if packets == [] then [] else [packets[0].Content()] + ContentsOf(packets[1..])
  }

  lemma LastIsDistinct(packets: seq<Packet>)
    requires Distinct(packets) && packets != []
    ensures var n := |packets| - 1;
            forall i :: 0 <= i < n ==> packets[i] != packets[n] && packets[i].data != packets[n].data
  {
  }

  lemma MoreDistinct(packets: seq<Packet>, packet: Packet)
    requires Distinct(packets)
    requires forall i :: 0 <= i < |packets| ==> packets[i] != packet && packets[i].data != packet.data
    ensures Distinct(packets + [packet])
  {
  }

  /** What a chain carries: its earlier packets' content and the tail's. */
  lemma ChainCarries(sink: PacketSink)
    requires sink.Valid()
    ensures Payload(sink.packets) == Flatten(sink.contents) + sink.Tail().Content()
  {
    hide Payload, Flatten;
    assert sink.packets == sink.packets[..|sink.contents|] + [sink.Tail()];
    PayloadLast(sink.packets[..|sink.contents|], sink.Tail());
    forall i | 0 <= i < |sink.contents|
      ensures sink.packets[i].Content() == sink.contents[i]
    {
      assert Filled(sink.packets[i], sink.packets[i + 1], sink.contents[i]);
    }
    PayloadIs(sink.packets[..|sink.contents|], sink.contents);
  }

  lemma ChainIsSound(sink: PacketSink)
    requires sink.Valid()
    ensures Linked(sink.packets) && AllInBounds(sink.packets)
  {
    hide Distinct, Packet.Content;
    forall i | 0 <= i < |sink.packets|
      ensures sink.packets[i].next == NextOf(sink.packets, i) && sink.packets[i].InBounds()
    {
      assert i < |sink.contents| ==> Filled(sink.packets[i], sink.packets[i + 1], sink.contents[i]);
    }
  }

  lemma {:induction false} PayloadIs(packets: seq<Packet>, contents: seq<Text>)
    requires |packets| == |contents| && forall i :: 0 <= i < |contents| ==> packets[i].Content() == contents[i]
    ensures Payload(packets) == Flatten(contents)
  {
    hide Packet.Content;
    if contents == [] {
      FlattenNone();
    } else {
      var n := |contents| - 1;
      PayloadIs(packets[..n], contents[..n]);
      FlattenLast(contents[..n], contents[n]);
      assert contents == contents[..n] + [contents[n]];
    }
  }
}
