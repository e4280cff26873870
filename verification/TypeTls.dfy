/** The EAP-TLS handler object: a receive buffer, two cursors and the copy loops. */
module TypeTls {
  import opened Options
  import opened Bytes
  import opened EapPacket
  import opened TlsHandler
  import opened TlsPacket

  function SetMore(flags: byte): byte {
    if MoreFragments(flags) then flags else flags + MORE_FRAGS
  }

  class TypeTls {
    const host: Host
    const fragmentSize: nat
    var recvBuffer: array<byte>
    var sendData: seq<byte>
    var cur: nat
    var end: nat
    var phase: Phase
    var failedOnce: bool

    ghost predicate Valid()
      reads this
    {
      && fragmentSize > 0 && recvBuffer.Length > 0
      && (phase == FragRecv ==> cur <= end <= recvBuffer.Length)
      && (phase == FragSend ==> cur < end <= |sendData|)
    }

    ghost function View(): Handler
      requires Valid()
      reads this, recvBuffer
    {
      Handler(phase,
              if phase == FragRecv then recvBuffer[..cur] else [],
              if phase == FragRecv then end else 0,
              if phase == FragSend then sendData[cur..end] else [],
              failedOnce)
    }

    constructor (host: Host, fragmentSize: nat)
      requires fragmentSize > 0
      ensures Valid() && View() == NEW_HANDLER && fresh(recvBuffer)
      ensures this.host == host && this.fragmentSize == fragmentSize
    {
      this.host, this.fragmentSize := host, fragmentSize;
      recvBuffer := new byte[1024](_ => 0);
      sendData, cur, end, phase, failedOnce := [], 0, 0, Start, false;
    }

    /** The copy loop of frame_next; it copies at least one octet. */
    method CopyOut(out: array<byte>, at: nat, cend: nat)
      requires cur < cend <= |sendData| && out != recvBuffer && at + (cend - cur) <= out.Length
      modifies this`cur, out
      ensures cur == cend
      ensures out[..] == Overwrite(old(out[..]), at, sendData[old(cur)..cend])
    {
      var dst := at;
      while true
        invariant old(cur) <= cur < cend && dst == at + (cur - old(cur))
        invariant forall k :: 0 <= k < out.Length && !(at <= k < dst) ==> out[k] == old(out[k])
        invariant forall k :: at <= k < dst ==> out[k] == sendData[old(cur) + (k - at)]
        decreases cend - cur
      {
        out[dst] := sendData[cur];
        cur := cur + 1;
        if cur == cend { break; }
        dst := dst + 1;
      }
      ghost var p, w := old(out[..]), sendData[old(cur)..cend];
      assert out[..] == Overwrite(p, at, w) by {
        forall k | 0 <= k < out.Length ensures out[k] == Overwrite(p, at, w)[k] {
        }
      }
    }

    /** The end of frame_next: the flag and the length. */
    method CountChunk(out: array<byte>, chunk: nat, more: bool)
      requires out.Length > HEADER_LEN
      modifies out
      ensures out[..] == Counted(host, old(out[..]), chunk, more)
    {
      if more {
        out[5] := SetMore(out[5]);
      }
      var len := AddTo16(host, out[2], out[3], chunk + 1);
      out[2], out[3] := len.0, len.1;
    }

    /** frame_next: copies the next chunk behind the fields already in the packet, flags it if more
        is to come, and adds it to the length. */
    method FrameNext(out: array<byte>)
      requires fragmentSize > 0 && cur < end <= |sendData|
      requires out != recvBuffer && out.Length > HEADER_LEN
      requires DATA_AT + LengthField(out[5]) + |Chunk(sendData[cur..end], fragmentSize)| <= out.Length
      modifies this`cur, out
      ensures cur == old(cur) + |Chunk(sendData[old(cur)..end], fragmentSize)| <= end
      ensures out[..] == Framed(host, old(out[..]), Chunk(sendData[old(cur)..end], fragmentSize), cur < end)
    {
      var at := DATA_AT + LengthField(out[5]);
      var cend := if end - cur <= fragmentSize then end else cur + fragmentSize;
      var ccur := cur;
      ghost var p, chunk := out[..], Chunk(sendData[cur..end], fragmentSize);
      assert sendData[ccur..cend] == chunk;
      CopyOut(out, at, cend);
      CountChunk(out, cur - ccur, cur != end);
      FramedIs(host, p, chunk, cur < end);
    }

    /** Assigns the flags and the length of a packet. */
    method SetHead(out: array<byte>, len: byte, flags: byte)
      requires out.Length > HEADER_LEN
      modifies out
      ensures out[..] == FrameOctets(old(out[..]), (0, len), flags, [], [])
    {
      out[5] := flags;
      out[2], out[3] := 0, len;
    }

    method SetTlsLen(out: array<byte>, declared: nat)
      requires out.Length >= DATA_AT + 4
      modifies out
      ensures out[..] == Overwrite(old(out[..]), DATA_AT, BigEndian32(declared))
    {
      var field := BigEndian32(declared);
      out[6], out[7], out[8], out[9] := field[0], field[1], field[2], field[3];
    }

    method MakeAck(out: array<byte>)
      requires out.Length > HEADER_LEN
      modifies out
      ensures out[..] == Write(host, old(out[..]), Ack)
    {
      SetHead(out, 1, 0);
    }

    /** recv_next: the caller has checked that the buffer takes the payload. */
    method RecvNext(payload: seq<byte>)
      requires cur + |payload| <= recvBuffer.Length
      modifies this`cur, recvBuffer
      ensures cur == old(cur) + |payload|
      ensures recvBuffer[..cur] == old(recvBuffer[..cur]) + payload
    {
      forall i | 0 <= i < |payload| {
        recvBuffer[cur + i] := payload[i];
      }
      cur := cur + |payload|;
    }

    /** recv_first: a buffer that is too small is replaced, not extended. */
    method RecvFirst(payload: seq<byte>, max: nat)
      requires |payload| <= max && recvBuffer.Length > 0
      modifies this`cur, this`end, this`recvBuffer, recvBuffer
      ensures cur == |payload| && end == max <= recvBuffer.Length && recvBuffer.Length > 0
      ensures recvBuffer[..cur] == payload
      ensures recvBuffer == old(recvBuffer) || fresh(recvBuffer)
    {
      if recvBuffer.Length < max {
        recvBuffer := new byte[max](_ => 0);
      }
      cur := 0;
      end := max;
      RecvNext(payload);
    }

    /** The output of TLS goes out, its first fragment at once. */
    method StartFlight(out: array<byte>, output: seq<byte>)
      requires fragmentSize > 0 && output != [] && phase == Recv
      requires out != recvBuffer && DATA_AT + 4 + fragmentSize <= out.Length
      modifies this`cur, this`end, this`sendData, this`phase, out
      ensures var rest := Rest(output, fragmentSize);
        && phase == (if rest == [] then Recv else FragSend)
        && cur <= end == |sendData| && sendData[cur..end] == rest
        && out[..] == Write(host, old(out[..]),
              Frame(LENGTH_INCLUDED + MoreFlag(rest), |output|, 4, Chunk(output, fragmentSize)))
    {
      ghost var p := out[..];
      sendData, cur, end := output, 0, |output|;
      assert sendData[cur..end] == output;
      SetTlsLen(out, |output|);
      SetHead(out, 4, LENGTH_INCLUDED);
      FieldBeforeHead(p, (0, 4), LENGTH_INCLUDED, BigEndian32(|output|));
      ghost var q := out[..];
      FrameParts(p, (0, 4), LENGTH_INCLUDED, BigEndian32(|output|), []);
      FrameNext(out);
      ghost var rest := Rest(output, fragmentSize);
      assert sendData[cur..end] == rest;
      FirstFrameOctets(host, p, q, |output|, Chunk(output, fragmentSize), rest != []);
      assert MoreFragments(out[5]) == (rest != []);
      if MoreFragments(out[5]) {
        phase := FragSend;
      }
    }

    /** frag_send: the acknowledged flight goes on. */
    method ContinueFlight(out: array<byte>)
      requires fragmentSize > 0 && phase == FragSend && cur < end <= |sendData|
      requires out != recvBuffer && DATA_AT + 4 + fragmentSize <= out.Length
      modifies this`cur, this`phase, out
      ensures var left := old(sendData[cur..end]);
        var rest := Rest(left, fragmentSize);
        && phase == (if rest == [] then Recv else FragSend)
        && cur <= end && sendData[cur..end] == rest
        && out[..] == Write(host, old(out[..]), Frame(MoreFlag(rest), 0, 0, Chunk(left, fragmentSize)))
    {
      ghost var p := out[..];
      SetHead(out, 0, 0);
      ghost var q, left := out[..], sendData[cur..end];
      assert q[5] == 0;
      FrameNext(out);
      ghost var rest := Rest(left, fragmentSize);
      assert sendData[cur..end] == rest;
      NextFrameOctets(host, p, q, Chunk(left, fragmentSize), rest != []);
      assert MoreFragments(out[5]) == (rest != []);
      if !MoreFragments(out[5]) {
        phase := Recv;
      }
    }

    /** The second half of process(): what TLS made of the message. */
    method TlsStep(out: array<byte>, verdict: Verdict, output: seq<byte>) returns (rc: Code)
      requires Valid() && out != recvBuffer && DATA_AT + 4 + fragmentSize <= out.Length
      modifies this`cur, this`end, this`sendData, this`phase, this`failedOnce, out
      ensures Valid()
      ensures var (h, r) := RunTls(old(View()), verdict, output, fragmentSize);
        && View() == h && rc == CodeOf(r)
        && out[..] == if r.Cont? then Write(host, old(out[..]), r.reply) else old(out[..])
    {
      match verdict {
        case Success =>
          MakeAck(out);
          phase := Start;
          return RetCont;
        case Failed =>
          if failedOnce {
            return RetAbort;
          }
          failedOnce := true;
        case MoreData =>
      }
      phase := Recv;
      if output != [] {
        StartFlight(out, output);
      }
      rc := RetCont;
    }

    /** The first half of process(): the packet is answered, or completes a message that now lies at
        the start of the receive buffer. */
    method Receive(i: Input, out: array<byte>) returns (rc: Code, complete: bool)
      requires Valid() && out != recvBuffer
      requires DATA_AT + 4 + fragmentSize <= out.Length && Conforming(View(), i)
      modifies this, recvBuffer, out
      ensures Valid() && (recvBuffer == old(recvBuffer) || fresh(recvBuffer))
      ensures var (h, intake) := TlsHandler.Receive(old(View()), i, fragmentSize);
        && View() == h && complete == intake.Complete?
        && (complete ==> cur <= recvBuffer.Length && recvBuffer[..cur] == intake.message && out[..] == old(out[..]))
        && (!complete ==> rc == CodeOf(intake.result))
        && (!complete ==> out[..] == if rc == RetInv then old(out[..])
              else Write(host, old(out[..]), intake.result.reply))
      ensures !complete && rc == RetInv ==> unchanged(this) && unchanged(recvBuffer) && unchanged(out)
    {
      var kind := Classify(i.flags, |i.payload|);
      if kind == TlsInvalid {
        return RetInv, false;
      }
      match phase {
        case Start =>
          if kind != TlsStart {
            return RetInv, false;
          }
          failedOnce := false;
          cur, end := 0, 0;
        case FragSend =>
          if kind != TlsAck {
            return RetInv, false;
          }
          ContinueFlight(out);
          return RetCont, false;
        case FragRecv =>
          if (kind != TlsFrag && kind != TlsData) || end - cur < |i.payload| {
            return RetInv, false;
          }
          RecvNext(i.payload);
          if kind == TlsFrag {
            MakeAck(out);
            return RetCont, false;
          }
        case Recv =>
          if kind == TlsFrag && HasLength(i.flags) {
            RecvFirst(i.payload, i.declared);
            MakeAck(out);
            phase := FragRecv;
            return RetCont, false;
          }
          if kind != TlsData {
            return RetInv, false;
          }
          RecvFirst(i.payload, |i.payload|);
      }
      rc, complete := RetCont, true;
    }

    /** process(); `verdict` and `output` are what process_msg answers if it is asked. */
    method Process(input: array<byte>, out: array<byte>, verdict: Verdict, output: seq<byte>)
      returns (rc: Code, asked: Option<seq<byte>>)
      requires Valid() && out != recvBuffer && input != recvBuffer && input != out
      requires DATA_AT + 4 + fragmentSize <= out.Length
      requires Readable(input[..]) && Conforming(View(), Read(input[..]))
      modifies this, recvBuffer, out
      ensures Valid() && (recvBuffer == old(recvBuffer) || fresh(recvBuffer))
      ensures var (h, r, m) := TlsHandler.Process(old(View()), Read(old(input[..])), verdict, output, fragmentSize);
        && View() == h && rc == CodeOf(r) && asked == m
        && out[..] == if r.Cont? then Write(host, old(out[..]), r.reply) else old(out[..])
      ensures rc == RetInv ==> unchanged(this) && unchanged(recvBuffer) && unchanged(out)
    {
      asked := None;
      var complete;
      rc, complete := Receive(Read(input[..]), out);
      if complete {
        asked := Some(recvBuffer[..cur]);
        if cur == 0 {
          recvBuffer[0] := 0;
        }
        rc := TlsStep(out, verdict, output);
      }
    }

    method Abort()
      requires Valid()
      modifies this`phase, this`failedOnce
      ensures Valid() && View() == NEW_HANDLER
    {
      phase, failedOnce := Start, false;
    }
  }

  function Counted(host: Host, p: seq<byte>, chunk: nat, more: bool): seq<byte>
    requires |p| > HEADER_LEN
  {
    var len := AddTo16(host, p[2], p[3], chunk + 1);
    p[5 := if more then SetMore(p[5]) else p[5]][2 := len.0][3 := len.1]
  }

  /** A packet whose fields are in place, with the next chunk behind them. */
  function Framed(host: Host, p: seq<byte>, chunk: seq<byte>, more: bool): seq<byte>
    requires |p| > HEADER_LEN && DATA_AT + LengthField(p[5]) + |chunk| <= |p|
  {
    FrameOctets(p, AddTo16(host, p[2], p[3], |chunk| + 1), if more then SetMore(p[5]) else p[5],
                p[DATA_AT..DATA_AT + LengthField(p[5])], chunk)
  }

  lemma FramedIs(host: Host, p: seq<byte>, chunk: seq<byte>, more: bool)
    requires |p| > HEADER_LEN && DATA_AT + LengthField(p[5]) + |chunk| <= |p|
    ensures Counted(host, Overwrite(p, DATA_AT + LengthField(p[5]), chunk), |chunk|, more)
        == Framed(host, p, chunk, more)
  {
    var at := DATA_AT + LengthField(p[5]);
    var o := Overwrite(p, at, chunk);
    assert o[2] == p[2] && o[3] == p[3] && o[5] == p[5];
    var len := AddTo16(host, p[2], p[3], |chunk| + 1);
    HeadReplaced(o, p, at, chunk, len, if more then SetMore(p[5]) else p[5]);
  }

  lemma HeadReplaced(o: seq<byte>, p: seq<byte>, at: nat, chunk: seq<byte>, len: (byte, byte), flags: byte)
    requires DATA_AT <= at && at + |chunk| <= |p| && o == Overwrite(p, at, chunk)
    ensures o[5 := flags][2 := len.0][3 := len.1] == FrameOctets(p, len, flags, p[DATA_AT..at], chunk)
  {
  }

  lemma FieldBeforeHead(p: seq<byte>, len: (byte, byte), flags: byte, field: seq<byte>)
    requires DATA_AT + |field| <= |p|
    ensures FrameOctets(Overwrite(p, DATA_AT, field), len, flags, [], []) == FrameOctets(p, len, flags, field, [])
  {
  }

  lemma FieldsThenChunk(p: seq<byte>, q: seq<byte>, len: (byte, byte), flags: byte, field: seq<byte>, chunk: seq<byte>)
    requires DATA_AT + |field| + |chunk| <= |p| == |q|
    requires q[..2] == p[..2] && q[4] == p[4] && q[DATA_AT + |field|..] == p[DATA_AT + |field|..]
    ensures FrameOctets(q, len, flags, field, chunk) == FrameOctets(p, len, flags, field, chunk)
  {
    var at := DATA_AT + |field|;
    assert q[at + |chunk|..] == q[at..][|chunk|..];
    assert p[at + |chunk|..] == p[at..][|chunk|..];
  }

  lemma FirstFrameOctets(host: Host, p: seq<byte>, q: seq<byte>, declared: nat, chunk: seq<byte>, more: bool)
    requires DATA_AT + 4 + |chunk| <= |p| && q == FrameOctets(p, (0, 4), LENGTH_INCLUDED, BigEndian32(declared), [])
    ensures |q| > HEADER_LEN && q[5] == LENGTH_INCLUDED
    ensures Framed(host, q, chunk, more) ==
      Write(host, p, Frame(LENGTH_INCLUDED + if more then MORE_FRAGS else 0, declared, 4, chunk))
    ensures Framed(host, q, chunk, more)[5] == LENGTH_INCLUDED + if more then MORE_FRAGS else 0
  {
    FrameParts(p, (0, 4), LENGTH_INCLUDED, BigEndian32(declared), []);
    FieldsThenChunk(p, q, AddTo16(host, 0, 4, |chunk| + 1), LENGTH_INCLUDED + if more then MORE_FRAGS else 0,
        BigEndian32(declared), chunk);
  }

  lemma NextFrameOctets(host: Host, p: seq<byte>, q: seq<byte>, chunk: seq<byte>, more: bool)
    requires DATA_AT + |chunk| <= |p| && q == FrameOctets(p, (0, 0), 0, [], [])
    ensures |q| > HEADER_LEN && q[5] == 0
    ensures Framed(host, q, chunk, more) == Write(host, p, Frame(if more then MORE_FRAGS else 0, 0, 0, chunk))
    ensures Framed(host, q, chunk, more)[5] == if more then MORE_FRAGS else 0
  {
    FrameParts(p, (0, 0), 0, [], []);
    FieldsThenChunk(p, q, AddTo16(host, 0, 0, |chunk| + 1), if more then MORE_FRAGS else 0, [], chunk);
  }
}
