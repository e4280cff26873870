/** Fragmentation against reassembly: the frames one handler sends, as they look on the wire, fed to
    the handler of a peer that acknowledges each of them. */
module TlsRoundTrip {
  import opened Options
  import opened Bytes
  import opened EapPacket
  import opened TlsHandler
  import opened TlsPacket

  const ACK := Input(0, 0, [])

  datatype Delivery = Delivered(message: seq<byte>, frames: nat) | Broken

  function OneMore(d: Delivery): Delivery {
    if d.Delivered? then Delivered(d.message, d.frames + 1) else Broken
  }

  /** One flight: the sender's frame goes over the wire to the receiver, which answers fragments with
      an acknowledgement; the sender answers that with its next frame. */
  function Transfer(host: Host, sender: Handler, receiver: Handler, reply: Reply, frag: nat): Delivery
    decreases |sender.out|
  {
    if !reply.Frame? then Broken
    else
      match Received(host, reply)
      case None => Broken
      case Some(i) =>
        var (r, answer, message) := Process(receiver, i, MoreData, [], frag);
        if message.Some? then
          if sender.out == [] then Delivered(message.value, 1) else Broken
        else if answer != Cont(Ack) then Broken
        else
          var (s, next, _) := Process(sender, ACK, MoreData, [], frag);
          if next.Cont? && |s.out| < |sender.out| then OneMore(Transfer(host, s, r, next.reply, frag))
          else Broken
  }

  /** Every frame that carries `size` octets in chunks of `frag` fits. */
  predicate AllFit(host: Host, startLen: byte, size: nat, frag: nat)
    decreases size
  {
    if size <= frag || frag == 0 then Fits(host, startLen, size)
    else Fits(host, startLen, frag) && AllFit(host, 0, size - frag, frag)
  }

  /** ceil(size / frag) */
  function Frames(size: nat, frag: nat): (n: nat)
    requires frag > 0
    ensures n * frag >= size && (n > 0 ==> (n - 1) * frag < size)
  {
    if size == 0 then 0
    else if size <= frag then 1 else 1 + Frames(size - frag, frag)
  }

  predicate Sendable(reply: Reply, frag: nat) {
    Proper(reply) && 0 < |reply.chunk| <= frag
  }

  /** A frame that fits is received as it was sent; of any other a proper part is received, or nothing. */
  lemma FrameReceived(host: Host, reply: Reply, frag: nat)
    requires Sendable(reply, frag)
    ensures Fits(host, reply.startLen, |reply.chunk|) ==>
      Received(host, reply) == Some(Input(reply.flags, reply.declared, reply.chunk))
    ensures !Fits(host, reply.startLen, |reply.chunk|) && Received(host, reply).Some? ==>
      && Received(host, reply).value.flags == reply.flags
      && Received(host, reply).value.declared == reply.declared
      && |Received(host, reply).value.payload| < |reply.chunk|
  {
    WireLengthExact(host, reply.startLen, |reply.chunk|);
    assert reply.chunk[..|reply.chunk|] == reply.chunk;
  }

  /** The frame a sender in mid-flight answers an acknowledgement with. */
  function NextFrame(sender: Handler, frag: nat): Reply {
    Frame(MoreFlag(Rest(sender.out, frag)), 0, 0, Chunk(sender.out, frag))
  }

  function AfterFrame(sender: Handler, frag: nat): Handler {
    sender.(phase := if Rest(sender.out, frag) == [] then Recv else FragSend, out := Rest(sender.out, frag))
  }

  /** What one frame does, by the part of it that was received. */
  lemma LastFrame(host: Host, sender: Handler, receiver: Handler, reply: Reply, frag: nat, i: Input)
    requires reply.Frame? && Received(host, reply) == Some(i)
    requires sender.out == [] && sender.phase == Recv
    requires receiver.phase == FragRecv && i.flags == 0 && |receiver.got| + |i.payload| <= receiver.announced
    ensures Transfer(host, sender, receiver, reply, frag) ==
      if i.payload == [] then Broken else Delivered(receiver.got + i.payload, 1)
  {
  }

  lemma MiddleFrame(host: Host, sender: Handler, receiver: Handler, reply: Reply, frag: nat, i: Input)
    requires reply.Frame? && Received(host, reply) == Some(i)
    requires sender.out != [] && sender.phase == FragSend && frag > 0
    requires receiver.phase == FragRecv && i.flags == MORE_FRAGS && |receiver.got| + |i.payload| <= receiver.announced
    ensures Transfer(host, sender, receiver, reply, frag) ==
      OneMore(Transfer(host, AfterFrame(sender, frag), receiver.(got := receiver.got + i.payload),
          NextFrame(sender, frag), frag))
  {
  }

  lemma FirstFrame(host: Host, sender: Handler, receiver: Handler, reply: Reply, frag: nat, i: Input)
    requires reply.Frame? && Received(host, reply) == Some(i)
    requires sender.out != [] && sender.phase == FragSend && frag > 0
    requires receiver.phase == Recv && i.flags == LENGTH_INCLUDED + MORE_FRAGS
    ensures Transfer(host, sender, receiver, reply, frag) ==
      OneMore(Transfer(host, AfterFrame(sender, frag),
                       receiver.(phase := FragRecv, got := i.payload, announced := i.declared),
                       NextFrame(sender, frag), frag))
  {
  }

  lemma OnlyFrame(host: Host, sender: Handler, receiver: Handler, reply: Reply, frag: nat, i: Input)
    requires reply.Frame? && Received(host, reply) == Some(i)
    requires sender.out == []
    requires receiver.phase == Recv && i.flags == LENGTH_INCLUDED
    ensures Transfer(host, sender, receiver, reply, frag) == Delivered(i.payload, 1)
  {
  }

  /** What a receiver that holds `held` makes of `coming`: both, whole and in the least number of
      frames, if every frame fits; less than both otherwise. */
  predicate Outcome(host: Host, d: Delivery, startLen: byte, held: seq<byte>, coming: seq<byte>, frag: nat)
    requires frag > 0
  {
    && (AllFit(host, startLen, |coming|, frag) ==> d == Delivered(held + coming, Frames(|coming|, frag)))
    && (d.Delivered? ==> |d.message| <= |held| + |coming|)
    && (d.Delivered? && !AllFit(host, startLen, |coming|, frag) ==> |d.message| < |held| + |coming|)
  }

  /** The part of a chunk that was received. */
  predicate PartOf(host: Host, startLen: byte, part: seq<byte>, chunk: seq<byte>) {
    if Fits(host, startLen, |chunk|) then part == chunk else |part| < |chunk|
  }

  lemma OutcomeExtends(host: Host, d: Delivery, startLen: byte, held: seq<byte>, part: seq<byte>, chunk: seq<byte>,
        rest: seq<byte>, frag: nat)
    requires 0 < frag == |chunk| && rest != []
    requires PartOf(host, startLen, part, chunk)
    requires Outcome(host, d, 0, held + part, rest, frag)
    ensures Outcome(host, OneMore(d), startLen, held, chunk + rest, frag)
  {
    assert held + chunk + rest == held + (chunk + rest);
  }

  lemma ChunkAndRest(out: seq<byte>, frag: nat)
    requires frag > 0
    ensures Chunk(out, frag) + Rest(out, frag) == out
    ensures Rest(out, frag) != [] ==> |Chunk(out, frag)| == frag
    ensures out != [] ==> 0 < |Chunk(out, frag)| <= frag
  {
  }

  /** The frames after the first. */
  lemma {:induction false} RestDelivered(host: Host, sender: Handler, receiver: Handler, reply: Reply, frag: nat)
    requires sender.phase == if sender.out == [] then Recv else FragSend
    requires Sendable(reply, frag) && (sender.out != [] ==> |reply.chunk| == frag)
    requires receiver.phase == FragRecv && reply.flags == MoreFlag(sender.out)
    requires |receiver.got| + |reply.chunk| + |sender.out| <= receiver.announced
    ensures Outcome(host, Transfer(host, sender, receiver, reply, frag), 0, receiver.got, reply.chunk + sender.out,
        frag)
    decreases |sender.out|
  {
    FrameReceived(host, reply, frag);
    if Received(host, reply).Some? {
      var i := Received(host, reply).value;
      if sender.out == [] {
        LastFrame(host, sender, receiver, reply, frag, i);
        assert reply.chunk + sender.out == reply.chunk;
      } else {
        MiddleFrame(host, sender, receiver, reply, frag, i);
        var s, r, next := AfterFrame(sender, frag), receiver.(got := receiver.got + i.payload), NextFrame(sender, frag);
        ChunkAndRest(sender.out, frag);
        RestDelivered(host, s, r, next, frag);
        OutcomeExtends(host, Transfer(host, s, r, next, frag), 0, receiver.got, i.payload, reply.chunk, sender.out,
            frag);
      }
    }
  }

  /** A flight that TLS has produced arrives whole at a peer waiting for it, in ceil(size / frag)
      frames, exactly if no frame overflows the low octet of its length field. */
  lemma {:induction false} FlightDelivered(host: Host, before: Handler, receiver: Handler, verdict: Verdict,
        message: seq<byte>, frag: nat)
    requires verdict == MoreData || (verdict == Failed && !before.failedOnce)
    requires message != [] && |message| < 0x1_0000_0000
    requires 0 < frag && |Chunk(message, frag)| + 10 < 65536
    requires receiver.phase == Recv
    ensures var (sender, first) := RunTls(before, verdict, message, frag);
      var d := Transfer(host, sender, receiver, first.reply, frag);
      && (AllFit(host, 4, |message|, frag) ==> d == Delivered(message, Frames(|message|, frag)))
      && (d.Delivered? && d.message == message ==> AllFit(host, 4, |message|, frag))
  {
    var (sender, first) := RunTls(before, verdict, message, frag);
    var reply := first.reply;
    ChunkAndRest(message, frag);
    FrameReceived(host, reply, frag);
    if Received(host, reply).Some? {
      FirstDelivered(host, sender, receiver, reply, frag, message, Received(host, reply).value);
    }
  }

  lemma FirstDelivered(host: Host, sender: Handler, receiver: Handler, reply: Reply, frag: nat, message: seq<byte>,
        i: Input)
    requires Sendable(reply, frag) && (sender.out != [] ==> |reply.chunk| == frag)
    requires sender.phase == if sender.out == [] then Recv else FragSend
    requires receiver.phase == Recv && reply.flags == LENGTH_INCLUDED + MoreFlag(sender.out)
    requires message == reply.chunk + sender.out && reply.declared == |message|
    requires Received(host, reply) == Some(i)
    ensures Outcome(host, Transfer(host, sender, receiver, reply, frag), 4, [], message, frag)
  {
    FrameReceived(host, reply, frag);
    if sender.out == [] {
      OnlyFrame(host, sender, receiver, reply, frag, i);
    } else {
      FirstFrame(host, sender, receiver, reply, frag, i);
      var s, next := AfterFrame(sender, frag), NextFrame(sender, frag);
      var r := receiver.(phase := FragRecv, got := i.payload, announced := i.declared);
      ChunkAndRest(sender.out, frag);
      RestDelivered(host, s, r, next, frag);
      assert [] + i.payload == i.payload;
      OutcomeExtends(host, Transfer(host, s, r, next, frag), 4, [], i.payload, reply.chunk, sender.out, frag);
    }
  }

  /** Chunks of at most 245 octets always fit. */
  lemma {:induction false} SmallChunksFit(host: Host, startLen: byte, size: nat, frag: nat)
    requires startLen <= 4 && 0 < frag <= 245
    ensures AllFit(host, startLen, size, frag)
    decreases size
  {
    if size > frag {
      SmallChunksFit(host, 0, size - frag, frag);
    }
  }
}
