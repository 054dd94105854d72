/** The application's side of the control channel, for one caller at a time: the request loop, the
    single retry and the wait for a booting guest (apps/desktop/src-tauri/src/agent.rs). */
module AgentClient {
  import opened Prelude
  import opened ControlChannel

  datatype ReadResult = Line(reply: Reply) | TimedOut | Closed | MalformedReply

  /** The frames of one connection are the last ones on the wire. */
  ghost predicate Suffix(sent: seq<Envelope>, wire: seq<Envelope>) {
    |sent| <= |wire| && sent == wire[|wire| - |sent|..]
  }

  lemma NothingIsASuffix(wire: seq<Envelope>)
    ensures Suffix([], wire)
  {
  }

  lemma SuffixMore(sent: seq<Envelope>, wire: seq<Envelope>, e: Envelope)
    requires Suffix(sent, wire)
    ensures Suffix(sent + [e], wire + [e])
  {
  }

  lemma SuffixLast(sent: seq<Envelope>, wire: seq<Envelope>)
    requires Suffix(sent, wire) && sent != []
    ensures wire != [] && wire[|wire| - 1] == sent[|sent| - 1]
  {
  }

  /** The id after `issued` of them. */
  function NextId(issued: nat): (id: nat)
    ensures issued + 1 < ID_SPACE ==> id == issued + 1
  {
    (1 + issued) % ID_SPACE
  }

  lemma NextIdAfter(issued: nat)
    ensures (NextId(issued) + 1) % ID_SPACE == NextId(issued + 1)
  {
  }

  /** The socket to the guest.  Frames arrive whole and are answered in order; replies to a socket
      that was replaced are discarded.  `peak` is the most frames that were ever unanswered on one
      socket, `wire` every frame ever put on any, and `failures` how often connecting, writing or
      reading failed. */
  class Socket {
    var sent: seq<Envelope>
    var got: nat
    ghost var answers: seq<Response>
    ghost var wire: seq<Envelope>
    ghost var peak: nat
    ghost var failures: nat

    ghost predicate Valid()
      reads this
    {
      got <= |sent| && |answers| == got && Suffix(sent, wire)
    }

    function Unanswered(): int
      reads this
    {
      |sent| - got
    }

    /** Every reply on this socket has been read, and the last answered the last frame on the wire. */
    ghost predicate AnsweredLast(response: Response)
      reads this
    {
      0 < got == |sent| == |answers| && wire != [] && answers[got - 1] == response && wire[|wire| - 1] == sent[got - 1]
    }

    constructor ()
      ensures Valid() && sent == [] && wire == [] && peak == 0 && failures == 0
    {
      NothingIsASuffix([]);
      sent, got, answers, wire, peak, failures := [], 0, [], [], 0, 0;
    }

    method Connect() returns (ok: bool)
      requires Valid()
      modifies this`sent, this`got, this`answers, this`failures
      ensures failures == old(failures) + if ok then 0 else 1
      ensures Valid() && (if ok then sent == [] else sent == old(sent) && got == old(got) && answers == old(answers))
    {
      ok := *;
      if ok {
        NothingIsASuffix(wire);
        sent, got, answers := [], 0, [];
      } else {
        failures := failures + 1;
      }
    }

    method Write(e: Envelope) returns (ok: bool)
      requires Valid()
      modifies this`sent, this`wire, this`peak, this`failures
      ensures Valid() && failures == old(failures) + if ok then 0 else 1
      ensures !ok ==> sent == old(sent) && wire == old(wire) && peak == old(peak)
      ensures ok ==> sent == old(sent) + [e] && wire == old(wire) + [e]
      ensures ok ==> peak == if Unanswered() > old(peak) then Unanswered() else old(peak)
    {
      ok := *;
      if ok {
        SuffixMore(sent, wire, e);
        sent, wire := sent + [e], wire + [e];
        peak := if Unanswered() > peak then Unanswered() else peak;
      } else {
        failures := failures + 1;
      }
    }

    method ReadLine() returns (r: ReadResult)
      requires Valid()
      modifies this`got, this`answers, this`failures
      ensures Valid() && failures == old(failures) + if r.Line? then 0 else 1
      ensures r.Line? ==>
                got == old(got) + 1 && r.reply.id == sent[old(got)].id && answers == old(answers) + [r.reply.response]
      ensures !r.Line? ==> got == old(got) && answers == old(answers)
    {
      var comes: bool, response: Response := *, *;
      if comes && got < |sent| {
        r := Line(Reply(sent[got].id, response));
        answers := answers + [response];
        got := got + 1;
      } else {
        r := *;
        if r.Line? {
          r := TimedOut;
        }
        failures := failures + 1;
      }
    }
  }

  /** Ids grow along the wire, from 1 to at most `top`. */
  ghost predicate Growing(wire: seq<Envelope>, top: nat) {
    && (forall k :: 0 <= k < |wire| ==> 1 <= wire[k].id <= top)
    && (forall i, j :: 0 <= i < j < |wire| ==> wire[i].id < wire[j].id)
  }

  lemma GrowingLonger(wire: seq<Envelope>, top: nat, more: nat)
    requires top <= more
    ensures Growing(wire, top) ==> Growing(wire, more)
  {
  }

  lemma GrowingMore(wire: seq<Envelope>, e: Envelope)
    requires e.id > 0 && Growing(wire, e.id - 1)
    ensures Growing(wire + [e], e.id)
  {
  }

  /** The last frame of a connection has a larger id than the ones before it. */
  lemma SmallerBefore(wire: seq<Envelope>, sent: seq<Envelope>, top: nat)
    requires Growing(wire, top) && Suffix(sent, wire) && sent != []
    ensures forall k :: 0 <= k < |sent| - 1 ==> 0 < sent[k].id < sent[|sent| - 1].id
  {
    forall k | 0 <= k < |sent| - 1
      ensures 0 < sent[k].id < sent[|sent| - 1].id
    {
      assert sent[k] == wire[|wire| - |sent| + k];
      assert sent[|sent| - 1] == wire[|wire| - 1];
    }
  }

  /** Between these two wires at most `most` frames were added, all for this request. */
  ghost predicate Sends(before: seq<Envelope>, after: seq<Envelope>, request: Request, token: Token, most: nat) {
    && before <= after
    && |after| <= |before| + most
    && forall k :: |before| <= k < |after| ==> after[k].request == request && after[k].token == token
  }

  lemma SendsNothing(wire: seq<Envelope>, request: Request, token: Token)
    ensures Sends(wire, wire, request, token, 1)
  {
  }

  lemma SendsOne(wire: seq<Envelope>, e: Envelope)
    ensures Sends(wire, wire + [e], e.request, e.token, 1)
  {
  }

  lemma SendsThenSends(a: seq<Envelope>, b: seq<Envelope>, c: seq<Envelope>, request: Request, token: Token, m: nat,
                       n: nat)
    requires Sends(a, b, request, token, m) && Sends(b, c, request, token, n)
    ensures Sends(a, c, request, token, m + n)
  {
    assert forall k :: 0 <= k < |b| ==> c[k] == b[k];
  }

  datatype ClientError = NotConnected | WriteFailed | NoReply | Uncorrelated

  class Client {
    const socket: Socket
    const token: Token
    var connected: bool
    var nextId: nat
    ghost var issued: nat

    /** Between requests at most one frame of this connection is unanswered, there were never more
        than two, and while ids have not wrapped, the frames carry growing ids below the next one. */
    ghost predicate Valid()
      reads this, socket
    {
      && socket.Valid()
      && (connected ==> socket.Unanswered() <= 1)
      && socket.peak <= 2
      && nextId == NextId(issued)
      && (issued < ID_SPACE ==> Growing(socket.wire, issued))
    }

    constructor (socket: Socket, token: Token)
      requires socket.Valid() && socket.wire == [] && socket.peak == 0
      ensures Valid() && this.socket == socket && this.token == token && !connected && issued == 0
    {
      this.socket, this.token := socket, token;
      connected, nextId, issued := false, 1, 0;
    }

    /** The connection slot is filled if it is empty. */
    method EnsureConnected() returns (ok: bool)
      requires Valid()
      modifies this`connected, socket`sent, socket`got, socket`answers, socket`failures
      ensures Valid() && connected == ok
      ensures socket.failures == old(socket.failures) + if ok then 0 else 1
      ensures ok ==> socket.Unanswered() == if old(connected) then old(socket.Unanswered()) else 0
    {
      hide Growing, Suffix, NextId;
      ok := true;
      if !connected {
        ok := socket.Connect();
        connected := ok;
      }
    }

    /** The read loop of `try_request`: with at most one stale reply ahead of its own, a request finds
        its reply within two of the eight reads. */
    method AwaitReply(id: nat) returns (r: Result<Response, ClientError>)
      requires socket.Valid() && 1 <= socket.Unanswered() <= 2 && socket.sent[|socket.sent| - 1].id == id
      modifies socket`got, socket`answers, socket`failures
      ensures socket.failures == old(socket.failures) + if r.Ok? then 0 else 1
      ensures socket.Valid() && socket.Unanswered() <= old(socket.Unanswered())
      ensures r.Ok? ==> socket.Unanswered() <= 1
      ensures r.Ok? && (forall k :: 0 <= k < |socket.sent| - 1 ==> 0 < socket.sent[k].id < id) ==>
                socket.AnsweredLast(r.value)
      ensures r.Err? ==> r.error == NoReply
      ensures r.Ok? ==> socket.got > old(socket.got) && socket.sent[socket.got - 1].id in {0, id}
      ensures forall k :: old(socket.got) <= k < socket.got - (if r.Ok? then 1 else 0) ==> socket.sent[k].id !in {0, id}
    {
      hide Suffix;
      ghost var stale := socket.got;
      SuffixLast(socket.sent, socket.wire);
      for turns := 0 to READ_BUDGET
        invariant socket.Valid() && socket.got == stale + turns < |socket.sent|
        invariant socket.failures == old(socket.failures)
        invariant forall k :: stale <= k < socket.got ==> socket.sent[k].id !in {0, id}
      {
        var line := socket.ReadLine();
        if !line.Line? {
          return Err(NoReply);
        }
        if line.reply.id == id || line.reply.id == 0 {
          return Ok(line.reply.response);
        }
      }
      r := Err(Uncorrelated);
    }

    /** `try_request`: eight reads are always enough, a response is the guest's answer to the frame
        this request put on the wire, and there is one unless the channel failed. */
    method TryRequest(request: Request) returns (r: Result<Response, ClientError>)
      requires Valid()
      modifies this`connected, this`nextId, this`issued, socket
      ensures socket.Valid() && socket.peak <= 2 && nextId == NextId(issued)
      ensures issued < ID_SPACE ==> Growing(socket.wire, issued)
      ensures old(issued) <= issued <= old(issued) + 1
      ensures connected ==> socket.Unanswered() <= (if old(connected) then old(socket.Unanswered()) else 0) + 1
      ensures Sends(old(socket.wire), socket.wire, request, token, 1)
      ensures r.Ok? ==> connected && socket.Unanswered() <= 1 && issued == old(issued) + 1
      ensures socket.failures == old(socket.failures) + if r.Ok? then 0 else 1
      ensures r.Ok? && issued < ID_SPACE ==> |socket.wire| > |old(socket.wire)| && socket.AnsweredLast(r.value)
      ensures r.Err? ==> r.error != Uncorrelated
    {
      hide Growing, Suffix, NextId, Sends;
      SendsNothing(socket.wire, request, token);
      var ready := EnsureConnected();
      if !ready {
        return Err(NotConnected);
      }
      ghost var wire := socket.wire;
      var id := nextId;
      nextId, issued := (nextId + 1) % ID_SPACE, issued + 1;
      NextIdAfter(issued - 1);
      var envelope := Envelope(id, token, request);
      if issued < ID_SPACE {
        GrowingLonger(wire, issued - 1, issued);
        GrowingMore(wire, envelope);
      }
      var written := socket.Write(envelope);
      if !written {
        return Err(WriteFailed);
      }
      SendsOne(wire, envelope);
      if issued < ID_SPACE {
        SmallerBefore(socket.wire, socket.sent, issued);
      }
      r := AwaitReply(id);
    }

    /** `request`: one retry on a fresh connection, so at most two frames, never a stale answer, and no
        error unless the channel failed twice. */
    method Request(request: Request) returns (r: Result<Response, ClientError>)
      requires Valid()
      modifies this`connected, this`nextId, this`issued, socket
      ensures Valid()
      ensures old(issued) <= issued <= old(issued) + 2
      ensures if r.Ok? then socket.failures <= old(socket.failures) + 1 else socket.failures == old(socket.failures) + 2
      ensures Sends(old(socket.wire), socket.wire, request, token, 2)
      ensures r.Ok? && issued < ID_SPACE ==> |socket.wire| > |old(socket.wire)| && socket.AnsweredLast(r.value)
      ensures r.Err? ==> r.error != Uncorrelated
    {
      hide Growing, Suffix, NextId;
      r := TryRequest(request);
      if r.Ok? {
        return;
      }
      ghost var wire := socket.wire;
      connected := false;
      r := TryRequest(request);
      SendsThenSends(old(socket.wire), wire, socket.wire, request, token, 1, 1);
    }

    /** `wait_until_ready`, for as many attempts as the deadline leaves room for: only a pong counts,
        a connection that failed once is never used again, and giving up takes that many attempts,
        each of which failed or was answered by something else. */
    method WaitUntilReady(attempts: nat) returns (r: Result<Response, ClientError>)
      requires Valid()
      modifies this`connected, this`nextId, this`issued, socket
      ensures Valid()
      ensures Sends(old(socket.wire), socket.wire, Ping, token, attempts)
      ensures r.Ok? ==> r.value == Pong && connected
      ensures r.Ok? && issued < ID_SPACE ==> socket.AnsweredLast(Pong)
      ensures r.Err? && attempts > 0 ==> !connected
      ensures r.Err? ==> socket.failures - old(socket.failures) + issued - old(issued) >= attempts
    {
      var left := attempts;
      while left > 0
        invariant 0 <= left <= attempts && Valid()
        invariant left < attempts ==> !connected
        invariant socket.failures - old(socket.failures) + issued - old(issued) >= attempts - left
        invariant Sends(old(socket.wire), socket.wire, Ping, token, attempts - left)
      {
        hide Growing, Suffix, NextId, Sends;
        ghost var wire := socket.wire;
        r := TryRequest(Ping);
        SendsThenSends(old(socket.wire), wire, socket.wire, Ping, token, attempts - left, 1);
        if r == Ok(Pong) {
          return;
        }
        connected := false;
        left := left - 1;
      }
      r := Err(NoReply);
    }
  }
}
