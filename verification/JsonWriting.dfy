/** Whole runs of the writer: any sequence of appends, into one buffer or into a chain of packets. */
module JsonWriting {
  import opened Bytes
  import opened Packets
  import opened WriterPackets
  import opened WriterSpec
  import opened JsonWriter
  import opened WriterRoom

  /** The caller respects the preconditions of every append that the run comes to; the run ends at the
      first one that is nested too deeply. */
  ghost predicate AllowedRun(w: Progress, run: seq<Append>)
    decreases |run|
  {
    run == [] ||
    (CanAppend(w, run[0]) && (!Overflows(w, run[0]) ==> AllowedRun(Advance(w, run[0]), run[1..])))
  }

  lemma {:induction false} OverflowEndsRun(w: Progress, run: seq<Append>, i: nat)
    requires i < |run| && ValidRun(w, run[..i]) && Overflows(After(w, run[..i]), run[i])
    ensures !ValidRun(w, run)
    decreases i
  {
    if i > 0 {
      assert run[..i][1..] == run[1..][..i - 1];
      OverflowEndsRun(Advance(w, run[0]), run[1..], i - 1);
    }
  }

  /** Every append of the run finds the space that it needs in a single buffer. */
  ghost predicate Fits(left: int, w: Progress, run: seq<Append>)
    requires ValidRun(w, run)
    decreases |run|
  {
    run == [] || (SizeNeeded(w, run[0]) <= left && Fits(left - |Emit(w, run[0])|, Advance(w, run[0]), run[1..]))
  }

  /** The run from append i on, if the whole run is valid. */
  lemma RunStep(w: Progress, run: seq<Append>, i: nat, left: int)
    requires i < |run| && ValidRun(w, run[i..])
    ensures !Overflows(w, run[i]) && CanAppend(w, run[i]) && ValidRun(Advance(w, run[i]), run[i + 1..])
    ensures |Written(w, run[i..])| == |Emit(w, run[i])| + |Written(Advance(w, run[i]), run[i + 1..])|
    ensures Fits(left, w, run[i..]) <==>
              SizeNeeded(w, run[i]) <= left && Fits(left - |Emit(w, run[i])|, Advance(w, run[i]), run[i + 1..])
  {
    hide CanAppend, Overflows, Advance, Emit, SizeNeeded;
    assert run[i..][1..] == run[i + 1..];
  }

  lemma RunEnds(w: Progress, run: seq<Append>, i: nat, left: int)
    requires i == |run|
    ensures ValidRun(w, run[i..]) && Written(w, run[i..]) == [] && Fits(left, w, run[i..])
  {
  }

  /** One append of a run, and what it means for the rest of the run. */
  method AppendOne(writer: JsonWriter, e: Append, ghost rest: nat) returns (r: AzResult)
    requires writer.Valid() && writer.bitStack.Valid() && CanAppend(writer.State(), e) && SizeIsSupported(e)
    modifies writer, writer.bitStack, writer.destinationBuffer, writer.SinkObjects()
    ensures writer.Valid() && fresh(writer.SinkObjects() - old(writer.SinkObjects()))
    ensures writer.destinationBuffer == old(writer.destinationBuffer) || fresh(writer.destinationBuffer)
    ensures r.NestingOverflow? <==> Overflows(old(writer.State()), e)
    ensures r.Ok? || r.NotEnoughSpace? || r.NestingOverflow?
    ensures r.Ok? ==>
              && writer.bitStack.Valid() && writer.State() == Advance(old(writer.State()), e)
              && writer.Written() == old(writer.Written()) + Emit(old(writer.State()), e)
              && writer.totalBytesWritten == old(writer.totalBytesWritten) + |Emit(old(writer.State()), e)|
    ensures !r.NestingOverflow? && writer.allocator == null ==>
              (r.Ok? <==> old(writer.Space()).left >= SizeNeeded(old(writer.State()), e))
    ensures !r.NestingOverflow? && Suffices(old(writer.Space()), |Emit(old(writer.State()), e)| + rest) ==>
              r.Ok? && Suffices(writer.Space(), rest)
    ensures r.Ok? && writer.allocator != null ==>
              && Payload(writer.allocator.packets) == writer.initial + writer.Written()
              && writer.allocator.packetPtr.length == writer.allocator.packetInitLength + writer.totalBytesWritten
  {
    hide CanAppend, Overflows, Advance, Emit, SizeNeeded, SizeAsked, IsShort, Suffices, Ask;
    hide JsonWriter.Valid, JsonWriter.State, Payload;
    r := writer.AppendAndUpdate(e, rest);
  }

  /** Appends one after the other until one fails. If none does, the text is what the appends mean, its
      bytes are counted exactly, and it does not depend on the buffers that the allocator handed out. A
      valid run succeeds if there is room for its text; in a single buffer exactly if each append fits. */
  method WriteRun(writer: JsonWriter, run: seq<Append>) returns (r: AzResult)
    requires writer.Valid() && writer.bitStack.Valid() && writer.State() == BLANK
    requires writer.Written() == [] && writer.totalBytesWritten == 0
    requires AllowedRun(BLANK, run) && forall i :: 0 <= i < |run| ==> SizeIsSupported(run[i])
    modifies writer, writer.bitStack, writer.destinationBuffer, writer.SinkObjects()
    ensures writer.Valid()
    ensures r.Ok? || r.NotEnoughSpace? || r.NestingOverflow?
    ensures r.Ok? ==> ValidRun(BLANK, run) && writer.Written() == Written(BLANK, run)
    ensures r.Ok? ==> writer.totalBytesWritten == |Written(BLANK, run)|
    ensures r.NestingOverflow? ==> !ValidRun(BLANK, run)
    ensures ValidRun(BLANK, run) && Suffices(old(writer.Space()), |Written(BLANK, run)|) ==> r.Ok?
    ensures ValidRun(BLANK, run) && writer.allocator == null ==> (r.Ok? <==> Fits(old(writer.Space()).left, BLANK, run))
    ensures r.Ok? && run != [] && writer.allocator != null ==>
              && Payload(writer.allocator.packets) == writer.initial + Written(BLANK, run)
              && writer.allocator.packetPtr.length ==
                 writer.allocator.packetInitLength + |Written(BLANK, run)|
  {
    hide ValidRun, AllowedRun, Written, After, CanAppend, Overflows, Advance, Emit, Fits, Suffices;
    hide IsShort, SizeAsked, SizeNeeded, Ask;
    hide JsonWriter.Valid, JsonWriter.State, Payload;
    ghost var left := writer.Space().left;
    ghost var valid, enough := ValidRun(BLANK, run), false;
    if valid {
      enough := Suffices(writer.Space(), |Written(BLANK, run)|);
    }
    r := Ok;
    var i := 0;
    RunNone(run);
    LeftInBuffer(writer);
    while i < |run|
      invariant 0 <= i <= |run| && r.Ok?
      invariant writer.Valid() && writer.bitStack.Valid()
      invariant fresh(writer.SinkObjects() - old(writer.SinkObjects()))
      invariant writer.destinationBuffer == old(writer.destinationBuffer) || fresh(writer.destinationBuffer)
      invariant ValidRun(BLANK, run[..i]) && writer.State() == After(BLANK, run[..i])
      invariant AllowedRun(writer.State(), run[i..])
      invariant valid ==> ValidRun(writer.State(), run[i..])
      invariant enough ==> valid && Suffices(writer.Space(), |Written(writer.State(), run[i..])|)
      invariant writer.allocator == null ==> writer.Space().left == left - |Written(BLANK, run[..i])|
      invariant valid && writer.allocator == null ==>
                  (Fits(left, BLANK, run) <==> Fits(writer.Space().left, writer.State(), run[i..]))
      invariant writer.Written() == Written(BLANK, run[..i])
      invariant writer.totalBytesWritten == |Written(BLANK, run[..i])|
      invariant i > 0 && writer.allocator != null ==>
                  && Payload(writer.allocator.packets) == writer.initial + writer.Written()
                  && writer.allocator.packetPtr.length ==
                     writer.allocator.packetInitLength + writer.totalBytesWritten
    {
      ghost var w := writer.State();
      ghost var rest := 0;
      NextAllowed(w, run, i);
      if valid {
        RunStep(w, run, i, writer.Space().left);
        rest := |Written(Advance(w, run[i]), run[i + 1..])|;
      }
      LeftInBuffer(writer);
      r := AppendOne(writer, run[i], rest);
      if r.NestingOverflow? {
        OverflowEndsRun(BLANK, run, i);
      }
      if !r.Ok? {
        return;
      }
      assert run[..i + 1] == run[..i] + [run[i]];
      RunMore(BLANK, run[..i], run[i]);
      LeftInBuffer(writer);
      i := i + 1;
    }
    assert run[..i] == run;
    RunEnds(writer.State(), run, i, writer.Space().left);
  }

  lemma LeftInBuffer(writer: JsonWriter)
    requires writer.Valid()
    ensures writer.allocator == null ==>
              && |writer.Written()| <= writer.onlyBuffer.Length
              && writer.Space() == Room(writer.onlyBuffer.Length - |writer.Written()|, [])
  {
    if writer.allocator == null {
      writer.SingleSpace();
    }
  }

  /** The nx_azure_iot_json_writer functions over a packet chain: the chain ends up carrying what it
      carried before and then the JSON text, and its length field says so. A valid run succeeds if the pool
      has packets of at least one chunk, and enough of them. */
  method WriteToPackets(packetPtr: Packet, pool: PacketPool, ghost chain: seq<Packet>, run: seq<Append>)
    returns (r: AzResult, ghost packets: seq<Packet>)
    requires chain != [] && chain[0] == packetPtr && Distinct(chain) && Linked(chain) && AllInBounds(chain)
    requires packetPtr.last == (if |chain| == 1 then null else chain[|chain| - 1])
    requires packetPtr.length == |Payload(chain)|
    requires AllowedRun(BLANK, run) && forall i :: 0 <= i < |run| ==> SizeIsSupported(run[i])
    modifies pool, chain, Areas(chain)
    ensures ValidRun(BLANK, run) && AllChunks(old(pool.answers)) && |old(pool.answers)| > |Written(BLANK, run)| ==>
              r.Ok?
    ensures r.NestingOverflow? ==> !ValidRun(BLANK, run)
    ensures r.Ok? && run != [] ==>
              && ValidRun(BLANK, run)
              && packets != [] && packets[0] == packetPtr && Linked(packets) && AllInBounds(packets)
              && Payload(packets) == old(Payload(chain)) + Written(BLANK, run)
              && packetPtr.length == |Payload(packets)|
  {
    hide ValidRun, AllowedRun, Written, After, Payload, Distinct, Linked, AllInBounds;
    var sink := new PacketSink(packetPtr, pool, chain);
    var writer := new JsonWriter.OverPackets(sink);
    r := WriteRun(writer, run);
    packets := sink.packets;
    if r.Ok? && run != [] {
      ChainIsSound(sink);
    }
  }

  /** The same into a buffer of the caller's, where a valid run succeeds exactly if its appends fit, as they
      do if the buffer is a chunk larger than the text. */
  method WriteToBuffer(buffer: array<Byte>, run: seq<Append>) returns (r: AzResult, bytesUsed: nat)
    requires AllowedRun(BLANK, run) && forall i :: 0 <= i < |run| ==> SizeIsSupported(run[i])
    modifies buffer
    ensures r.Ok? ==> ValidRun(BLANK, run) && bytesUsed == |Written(BLANK, run)| <= buffer.Length
    ensures r.Ok? ==> buffer[..bytesUsed] == Written(BLANK, run)
    ensures ValidRun(BLANK, run) ==> (r.Ok? <==> Fits(buffer.Length, BLANK, run))
    ensures ValidRun(BLANK, run) && buffer.Length >= |Written(BLANK, run)| + MINIMUM_STRING_CHUNK_SIZE ==> r.Ok?
    ensures r.NestingOverflow? ==> !ValidRun(BLANK, run)
  {
    hide ValidRun, AllowedRun, Written, After, Fits, Suffices;
    var writer := new JsonWriter(buffer);
    LeftInBuffer(writer);
    if ValidRun(BLANK, run) {
      SingleSuffices(writer.Space(), |Written(BLANK, run)|, 0);
    }
    hide JsonWriter.Valid, JsonWriter.State;
    r := WriteRun(writer, run);
    writer.SingleText();
    bytesUsed := writer.totalBytesWritten;
  }

  lemma RunNone(run: seq<Append>)
    ensures ValidRun(BLANK, run[..0]) && Written(BLANK, run[..0]) == [] && After(BLANK, run[..0]) == BLANK
    ensures run[0..] == run
  {
  }

  lemma NextAllowed(w: Progress, run: seq<Append>, i: nat)
    requires i < |run| && AllowedRun(w, run[i..])
    ensures CanAppend(w, run[i]) && (!Overflows(w, run[i]) ==> AllowedRun(Advance(w, run[i]), run[i + 1..]))
  {
    assert run[i..][1..] == run[i + 1..];
  }
}
