/** Which packets the EAP-TLS handler accepts, what it then does, and when a conversation may start. */
module TlsConversation {
  import opened Options
  import opened Bytes
  import opened EapPacket
  import opened TlsHandler
  import opened TlsPacket

  /** The start flag alone, and no payload. */
  predicate IsStart(i: Input) {
    i.flags == 0x20 && i.payload == []
  }

  /** Payload without a flag that says more will come. */
  predicate IsLast(i: Input) {
    i.flags == 0x80 || (i.flags == 0 && i.payload != [])
  }

  predicate IsFragment(i: Input) {
    i.flags in {0x40, 0xc0}
  }

  /** What the handler accepts in each phase, and what TLS is asked about. */
  lemma AcceptsExact(h: Handler, i: Input, verdict: Verdict, output: seq<byte>, frag: nat)
    ensures var (g, r, asked) := Process(h, i, verdict, output, frag);
      match h.phase
      case Start => (r != Inv <==> IsStart(i)) && asked == if IsStart(i) then Some([]) else None
      case FragSend =>
        && (r != Inv <==> i.flags == 0 && i.payload == []) && asked == None
        && (r != Inv && |h.out| <= frag ==>
              g == h.(phase := Recv, out := []) && r == Cont(Frame(0, 0, 0, h.out)))
        && (r != Inv && |h.out| > frag ==>
              g == h.(phase := FragSend, out := h.out[frag..]) && r == Cont(Frame(0x40, 0, 0, h.out[..frag])))
      case FragRecv =>
        && (r != Inv <==> (IsLast(i) || IsFragment(i)) && |h.got| + |i.payload| <= h.announced)
        && asked == (if r != Inv && IsLast(i) then Some(h.got + i.payload) else None)
        && (r != Inv && IsFragment(i) ==> r == Cont(Ack) && g == h.(got := h.got + i.payload))
      case Recv =>
        && (r != Inv <==> IsLast(i) || i.flags == 0xc0)
        && asked == (if IsLast(i) then Some(i.payload) else None)
        && (i.flags == 0xc0 ==> r == Cont(Ack) && g == Handler(FragRecv, i.payload, i.declared, h.out, h.failedOnce))
  {
  }

  /** What TLS has answered decides the reply, and which packet comes next. */
  lemma RepliesExact(h: Handler, i: Input, verdict: Verdict, output: seq<byte>, frag: nat)
    requires Process(h, i, verdict, output, frag).2.Some?
    ensures var (g, r, _) := Process(h, i, verdict, output, frag);
      && (r == Cont(Ack) ==> g.phase == Start)
      && (r == Cont(Silence) ==> g.phase == Recv)
      && (r.Cont? && r.reply.Frame? && |output| <= frag ==>
            g.phase == Recv && g.out == [] && r.reply == Frame(0x80, |output|, 4, output))
      && (r.Cont? && r.reply.Frame? && |output| > frag ==>
            g.phase == FragSend && g.out == output[frag..] && r.reply == Frame(0xc0, |output|, 4, output[..frag]))
      && (r == Cont(Ack) <==> verdict == Success)
      && (r == Abort <==> verdict == Failed && h.phase != Start && h.failedOnce)
      && (r == Cont(Silence) <==> r != Abort && verdict != Success && output == [])
      && (r.Cont? && r.reply.Frame? <==> r != Abort && verdict != Success && output != [])
  {
  }

  /** After a packet on which TLS reports success the next start packet is answered, in every phase. */
  lemma SuccessThenStart(h: Handler, i: Input, output: seq<byte>, j: Input, verdict: Verdict, next: seq<byte>,
        frag: nat)
    requires Process(h, i, Success, output, frag).2.Some? && IsStart(j)
    ensures Process(Process(h, i, Success, output, frag).0, j, verdict, next, frag).1.Cont?
  {
  }

  // ---- over runs ----

  /** A start packet that was answered. */
  predicate Starts(h: Handler, e: Event, frag: nat) {
    e.Packet? && IsStart(e.i) && Process(h, e.i, e.verdict, e.output, frag).1.Cont?
  }

  /** TLS reports success, or the conversation is aborted. */
  predicate Finishes(h: Handler, e: Event, frag: nat) {
    e.AbortCalled? || (e.verdict == Success && Process(h, e.i, e.verdict, e.output, frag).2.Some?)
  }

  /** Start packet i was answered, and neither it nor a later event ended the conversation. */
  ghost predicate OpenSince(events: seq<Event>, frag: nat, i: int) {
    && 0 <= i < |events| && Starts(Run(NEW_HANDLER, events[..i], frag), events[i], frag)
    && forall k :: i <= k < |events| ==> !Finishes(Run(NEW_HANDLER, events[..k], frag), events[k], frag)
  }

  ghost predicate Open(events: seq<Event>, frag: nat) {
    exists i :: OpenSince(events, frag, i)
  }

  lemma EventPhase(h: Handler, e: Event, frag: nat)
    ensures After(h, e, frag).phase != Start <==> !Finishes(h, e, frag) && (h.phase != Start || Starts(h, e, frag))
    ensures Starts(h, e, frag) ==> h.phase == Start
  {
  }

  lemma SamePrefix(events: seq<Event>, k: nat)
    requires k < |events|
    ensures events[..|events| - 1][..k] == events[..k]
  {
  }

  lemma OpenGrows(events: seq<Event>, frag: nat, i: int)
    requires |events| > 0 && OpenSince(events[..|events| - 1], frag, i)
    requires !Finishes(Run(NEW_HANDLER, events[..|events| - 1], frag), events[|events| - 1], frag)
    ensures OpenSince(events, frag, i)
  {
    forall k: nat | k < |events| ensures events[..|events| - 1][..k] == events[..k] {
      SamePrefix(events, k);
    }
  }

  lemma OpenShrinks(events: seq<Event>, frag: nat, i: int)
    requires |events| > 0 && OpenSince(events, frag, i) && i < |events| - 1
    ensures OpenSince(events[..|events| - 1], frag, i)
  {
    forall k: nat | k < |events| ensures events[..|events| - 1][..k] == events[..k] {
      SamePrefix(events, k);
    }
  }

  lemma {:induction false} PhaseExact(events: seq<Event>, frag: nat)
    ensures Run(NEW_HANDLER, events, frag).phase != Start <==> Open(events, frag)
  {
    if events != [] {
      var n := |events| - 1;
      var h, e := Run(NEW_HANDLER, events[..n], frag), events[n];
      PhaseExact(events[..n], frag);
      EventPhase(h, e, frag);
      if After(h, e, frag).phase != Start {
        if h.phase != Start {
          var i :| OpenSince(events[..n], frag, i);
          OpenGrows(events, frag, i);
        } else {
          assert OpenSince(events, frag, n);
        }
      } else if i :| OpenSince(events, frag, i) {
        assert !Finishes(Run(NEW_HANDLER, events[..n], frag), events[n], frag);
        if i < n {
          OpenShrinks(events, frag, i);
        }
        assert false;
      }
    }
  }

  /** Main result: in every run a start packet is answered if and only if none was answered since the last
      success of TLS or abort. */
  lemma StartExact(events: seq<Event>, e: Event, frag: nat)
    requires e.Packet? && IsStart(e.i)
    ensures Process(Run(NEW_HANDLER, events, frag), e.i, e.verdict, e.output, frag).1.Cont? <==> !Open(events, frag)
  {
    PhaseExact(events, frag);
    StartAccepted(Run(NEW_HANDLER, events, frag), e.i, e.verdict, e.output, frag);
  }

  // ---- on the wire ----

  lemma AckLength(host: Host)
    ensures AddTo16(host, 0, 1, HEADER_LEN) == (0, 6)
  {
  }

  /** An acknowledgement: six octets, no flags, and the peer reads it as one. */
  lemma AckOnWire(host: Host, p: seq<byte>, eapType: byte, id: byte)
    requires |p| > 5
    ensures var w := Finish(host, Write(host, p, Ack), eapType, id);
      && w[..6] == [p[0], id, 0, 6, eapType, 0] && Readable(w) && Read(w) == Input(0, 0, [])
  {
    var q := FrameOctets(p, (0, 1), 0, [], []);
    assert q[0] == p[0] && q[2] == 0 && q[3] == 1 && q[5] == 0;
    AckLength(host);
    var w := Finish(host, q, eapType, id);
    assert w[..6] == [p[0], id, 0, 6, eapType, 0];
  }

  /** A response: code, identifier, length, type, flags, the length of the message if it is flagged, most
      significant octet first, and the chunk. */
  predicate OnWire(w: seq<byte>, code: byte, id: byte, eapType: byte, flags: byte, declared: nat, chunk: seq<byte>) {
    var at := if flags >= 0x80 then 10 else 6;
    && |w| >= at + |chunk|
    && w[0] == code && w[1] == id && 256 * (w[2] as int) + w[3] as int == at + |chunk| && w[4] == eapType
    && w[5] == flags && w[at..at + |chunk|] == chunk
    && (at == 10 ==>
          0x100_0000 * (w[6] as int) + 0x1_0000 * (w[7] as int) + 0x100 * (w[8] as int) + w[9] as int == declared)
  }

  lemma ShownOnWire(w: seq<byte>, size: nat, flags: byte, declared: nat, field: seq<byte>, chunk: seq<byte>)
    requires Shows(w, size, flags, field, chunk) && size == 6 + |field| + |chunk|
    requires if flags >= 0x80 then declared < 0x1_0000_0000 && field == BigEndian32(declared) else field == []
    ensures OnWire(w, w[0], w[1], w[4], flags, declared, chunk)
  {
    if flags >= 0x80 {
      Value32Of(declared);
      assert field == w[6..10];
      assert field[0] == w[6] && field[1] == w[7] && field[2] == w[8] && field[3] == w[9];
    }
  }

  lemma FrameOnWire(host: Host, p: seq<byte>, reply: Reply, eapType: byte, id: byte)
    requires Proper(reply) && RoomFor(p, reply) && Fits(host, reply.startLen, |reply.chunk|)
    ensures OnWire(Finish(host, Write(host, p, reply), eapType, id), p[0], id, eapType, reply.flags, reply.declared,
                   reply.chunk)
  {
    WrittenShows(host, p, reply, eapType, id);
    WireLengthExact(host, reply.startLen, |reply.chunk|);
    HeadKept(host, p, reply, eapType, id);
    ShownOnWire(Finish(host, Write(host, p, reply), eapType, id), WireLength(host, reply.startLen, |reply.chunk|),
                reply.flags, reply.declared, Field(reply), reply.chunk);
  }

  lemma HeadKept(host: Host, p: seq<byte>, reply: Reply, eapType: byte, id: byte)
    requires RoomFor(p, reply)
    ensures var w := Finish(host, Write(host, p, reply), eapType, id);
      w[0] == p[0] && w[1] == id && w[4] == eapType
  {
  }
}
