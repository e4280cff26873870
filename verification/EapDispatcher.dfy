/** The EAP dispatcher object. */
module EapDispatcher {
  import opened Options
  import opened Bytes
  import opened EapPacket
  import opened TlsHandler
  import opened TlsPacket
  import opened TypeTls
  import opened DispatcherModel

  /** The output packet takes a fragment of full size and whatever a plain handler answers. */
  predicate RoomForAll(p: seq<byte>, data: seq<byte>, frag: nat) {
    DATA_AT + 4 + frag <= |p| && HEADER_LEN + |data| <= |p|
  }

  lemma RoomSuffices(d: Dispatcher, m: Message, a: Answers, frag: nat, p: seq<byte>)
    requires RoomForAll(p, a.data, frag)
    ensures Fitting(p, Dispatch(d, m, a, frag).1)
  {
  }

  class EapDispatcher {
    var handlers: seq<Service>
    var authHandler: Option<Service>
    var authType: byte
    var lastRequest: int
    var ninvalid: nat
    const tls: TypeTls

    ghost predicate Valid()
      reads this, tls
    {
      tls.Valid()
    }

    ghost function View(): Dispatcher
      requires Valid()
      reads this, tls, tls.recvBuffer
    {
      Dispatcher(handlers, authHandler, authType, lastRequest, ninvalid, tls.View())
    }

    constructor (tls: TypeTls)
      requires tls.Valid() && tls.View() == NEW_HANDLER
      ensures Valid() && View() == NewDispatcher([]) && this.tls == tls
    {
      handlers, authHandler, authType, lastRequest, ninvalid, this.tls := [], None, 0, 0, 0, tls;
    }

    method AddHandler(s: Service)
      requires Valid()
      modifies this`handlers
      ensures View() == old(View()).(services := [s] + old(handlers))
    {
      handlers := [s] + handlers;
    }

    method Abort()
      requires Valid()
      modifies this`authHandler, this`authType, this`lastRequest, tls`phase, tls`failedOnce
      ensures Valid() && View() == Aborted(old(View()))
    {
      if authHandler.Some? {
        if authHandler.value.Tls? {
          tls.Abort();
        }
        authHandler, authType := None, 0;
      }
      lastRequest := -1;
    }

    /** The search for a handler; one that authenticates becomes the current one. */
    method FindHandler(t: byte) returns (found: Option<Service>)
      requires Valid()
      modifies this`authHandler, this`authType, this`lastRequest, tls`phase, tls`failedOnce
      ensures Valid() && found == FirstWanting(handlers, t)
      ensures View() == if found.Some? then Selected(old(View()), found.value) else old(View())
      ensures tls.View() in {old(tls.View()), NEW_HANDLER}
    {
      FirstWantingType(handlers, t);
      var k := 0;
      while k < |handlers|
        invariant k <= |handlers| && Valid() && View() == old(View())
        invariant FirstWanting(handlers, t) == FirstWanting(handlers[k..], t)
      {
        var h := handlers[k];
        if EapType(h) == t {
          if IsAuth(h) {
            if authHandler.Some? && t != authType {
              Abort();
            }
            authType, authHandler := t, Some(h);
          }
          return Some(h);
        }
        k := k + 1;
      }
      return None;
    }

    /** The search for a handler that would rather have another type. */
    method FindNak() returns (found: Option<Service>)
      ensures found == FirstNaking(handlers)
    {
      var k := 0;
      while k < |handlers|
        invariant k <= |handlers| && FirstNaking(handlers) == FirstNaking(handlers[k..])
      {
        if Naks(handlers[k]) {
          return Some(handlers[k]);
        }
        k := k + 1;
      }
      return None;
    }

    /** A plain handler's answer, and the NAK: data, and a length assigned to. */
    method PutData(out: array<byte>, data: seq<byte>)
      requires HEADER_LEN + |data| <= out.Length
      modifies out
      ensures out[..] == DataOctets(old(out[..]), data)
    {
      forall i | 0 <= i < |data| {
        out[HEADER_LEN + i] := data[i];
      }
      var len := BigEndian16(|data|);
      out[2], out[3] := len[0], len[1];
    }

    /** straight_return */
    method Straight(out: array<byte>, t: byte, id: byte)
      requires out.Length > HEADER_LEN
      modifies this`ninvalid, this`lastRequest, out
      ensures ninvalid == 0 && lastRequest == id as int
      ensures out[..] == Finish(tls.host, old(out[..]), t, id)
    {
      out[4] := t;
      ninvalid := 0;
      lastRequest := id as int;
      out[1] := id;
      var len := AddTo16(tls.host, out[2], out[3], HEADER_LEN);
      out[2], out[3] := len.0, len.1;
    }

    /** A TLS packet for a handler that may be asked; other requests need nothing. */
    ghost predicate Acceptable(p: seq<byte>)
      requires Valid() && Parsable(p)
      reads this, tls, tls.recvBuffer
    {
      p[0] == REQUEST && p[4] == TLS_TYPE ==> Conforming(tls.View(), Read(p))
    }

    ghost predicate Apart(input: array<byte>, out: array<byte>)
      reads this, tls
    {
      input != out && input != tls.recvBuffer && out != tls.recvBuffer
    }

    /** The chosen handler runs on the request. */
    method RunHandler(s: Service, input: array<byte>, out: array<byte>, a: Answers) returns (rc: Code)
      requires Valid() && Apart(input, out) && RoomForAll(out[..], a.data, tls.fragmentSize)
      requires Parsable(input[..]) && Acceptable(input[..]) && input[0] == REQUEST && EapType(s) == input[4]
      modifies this`ninvalid, this`lastRequest, tls, tls.recvBuffer, out
      ensures Valid() && (tls.recvBuffer == old(tls.recvBuffer) || fresh(tls.recvBuffer))
      ensures var m := old(Parse(input[..]));
        var (e, o) := Serve(old(View()), s, m, a, tls.fragmentSize);
        && Fitting(old(out[..]), o)
        && View() == Settled(e, m.id, o).0 && rc == CodeFor(Settled(e, m.id, o).1)
        && out[..] == Output(tls.host, old(out[..]), o)
    {
      var id := input[1];
      if s.Tls? {
        var asked;
        rc, asked := tls.Process(input, out, a.verdict, a.output);
      } else {
        PutData(out, a.data);
        rc := RetCont;
      }
      if rc == RetCont {
        Straight(out, EapType(s), id);
      } else if rc == RetInv {
        ninvalid := ninvalid + 1;
        if ninvalid > NINVALID_MAX {
          rc := RetAbort;
          ninvalid := 0;
        }
      }
    }

    /** A request that is not old: a handler, else a NAK, else nothing. */
    method Request(input: array<byte>, out: array<byte>, a: Answers) returns (rc: Code)
      requires Valid() && Apart(input, out) && RoomForAll(out[..], a.data, tls.fragmentSize)
      requires Parsable(input[..]) && Acceptable(input[..])
      requires input[0] == REQUEST && input[1] as int != lastRequest
      modifies this, tls, tls.recvBuffer, out
      ensures Valid() && (tls.recvBuffer == old(tls.recvBuffer) || fresh(tls.recvBuffer))
      ensures var (d, o) := DispatcherModel.Request(old(View()), old(Parse(input[..])), a, tls.fragmentSize);
        && Fitting(old(out[..]), o)
        && View() == d && rc == CodeFor(o)
        && out[..] == Output(tls.host, old(out[..]), o)
    {
      FirstWantingType(handlers, input[4]);
      var h := FindHandler(input[4]);
      if h.Some? {
        rc := RunHandler(h.value, input, out, a);
      } else {
        var nak := FindNak();
        if nak.Some? {
          PutData(out, [EapType(nak.value)]);
          Straight(out, NAK, input[1]);
          rc := RetCont;
        } else {
          rc := RetInv;
        }
      }
    }

    /** process() */
    method Process(input: array<byte>, out: array<byte>, a: Answers) returns (rc: Code)
      requires Valid() && Apart(input, out) && RoomForAll(out[..], a.data, tls.fragmentSize)
      requires Parsable(input[..]) && Acceptable(input[..])
      modifies this, tls, tls.recvBuffer, out
      ensures Valid() && (tls.recvBuffer == old(tls.recvBuffer) || fresh(tls.recvBuffer))
      ensures var (d, o) := Dispatch(old(View()), old(Parse(input[..])), a, tls.fragmentSize);
        && Fitting(old(out[..]), o)
        && View() == d && rc == CodeFor(o)
        && out[..] == Output(tls.host, old(out[..]), o)
    {
      var code := input[0];
      if code == SUCCESS {
        authType, authHandler, lastRequest := 0, None, -1;
        rc := RetOk;
      } else if code == FAILURE {
        rc := RetFail;
      } else if code != REQUEST {
        rc := RetInv;
      } else if input[1] as int == lastRequest {
        rc := RetOld;
      } else {
        rc := Request(input, out, a);
      }
    }
  }
}
