/** The control channel between the application and the guest agent, as a step relation: any number
    of callers, one mutex, sockets that drop, frames and replies that are lost or late
    (apps/desktop/src-tauri/src/agent.rs and guest/linuxlab-agent/src/main.rs). */
module ControlChannel {
  import opened Prelude

  /** `next_id` is an AtomicU64: it wraps. */
  const ID_SPACE: nat := 0x1_0000_0000_0000_0000

  /** `for _ in 0..8`. */
  const READ_BUDGET: nat := 8

  datatype Request = Ping | Command(payload: nat)

  datatype Response = Pong | Done(payload: nat) | Error(message: string)

  type Token = seq<bv8>

  datatype Envelope = Envelope(id: nat, token: Token, request: Request)

  datatype Reply = Reply(id: nat, response: Response)

  const MALFORMED := Error("malformed request")

  const REJECTED := Error("invalid control token")

  // ---------------------------------------------------------------- the guest's side

  /** What the guest reads as one line; a line no envelope can be parsed from is garbled. */
  datatype Frame = Whole(envelope: Envelope) | Garbled

  /** The reply to one frame; `computed` is what the handler would say. */
  function Answer(frame: Frame, token: Token, computed: Response): Reply {
    match frame
    case Whole(e) => Reply(e.id, if e.token == token then computed else REJECTED)
    case Garbled => Reply(0, MALFORMED)
  }

  /** `constant_time_eq`: every byte is compared, whatever the others said. */
  method ConstantTimeEq(a: seq<bv8>, b: seq<bv8>) returns (same: bool)
    ensures same <==> a == b
  {
    if |a| != |b| {
      return false;
    }
    var difference: bv8 := 0;
    for i := 0 to |a|
      invariant difference == 0 <==> a[..i] == b[..i]
    {
      NoDifference(difference, a[i], b[i]);
      assert a[..i + 1] == a[..i] + [a[i]] && b[..i + 1] == b[..i] + [b[i]];
      difference := difference | (a[i] ^ b[i]);
    }
    assert a[..|a|] == a && b[..|a|] == b;
    same := difference == 0;
  }

  lemma NoDifference(d: bv8, left: bv8, right: bv8)
    ensures d | (left ^ right) == 0 <==> d == 0 && left == right
  {
  }

  /** A line as the guest reads it: blank lines are skipped, and one that is not UTF-8 cannot be
      read. */
  datatype Line = Blank | Text(frame: Frame) | NotUtf8

  function Frames(lines: seq<Line>): seq<Frame> {
    if lines == [] then []
    else (if lines[0].Text? then [lines[0].frame] else []) + Frames(lines[1..])
  }

  /** The lines before the first that cannot be read. */
  function Readable(lines: seq<Line>): (r: seq<Line>)
    ensures r <= lines
    ensures |r| < |lines| ==> lines[|r|].NotUtf8?
    ensures forall line :: line in r ==> !line.NotUtf8?
  {
    if lines == [] || lines[0].NotUtf8? then [] else [lines[0]] + Readable(lines[1..])
  }

  lemma {:induction false} ReadableTo(lines: seq<Line>, n: nat)
    requires n < |lines| && lines[n].NotUtf8? && forall k :: 0 <= k < n ==> !lines[k].NotUtf8?
    ensures Readable(lines) == lines[..n]
  {
    if n == 0 {
    } else {
      ReadableTo(lines[1..], n - 1);
      assert lines[..n] == [lines[0]] + lines[1..][..n - 1];
    }
  }

  /** The requests a guest that has read `frames` has carried out: those with the right token. */
  function Executed(frames: seq<Frame>, token: Token): seq<Request> {
    if frames == [] then []
    else
      var last := frames[|frames| - 1];
      Executed(frames[..|frames| - 1], token)
      + (if last.Whole? && last.envelope.token == token then [last.envelope.request] else [])
  }

  /** `handle` answers the last request of everything carried out so far, so it may depend on all of it. */
  type Handler = seq<Request> -> Response

  lemma {:induction false} FramesAppend(lines: seq<Line>, line: Line)
    ensures Frames(lines + [line]) == Frames(lines) + (if line.Text? then [line.frame] else [])
  {
    if lines == [] {
      assert lines + [line] == [line];
      assert [line][1..] == [];
    } else {
      FramesAppend(lines[1..], line);
      assert (lines + [line])[1..] == lines[1..] + [line];
    }
  }

  ghost predicate AnswersInOrder(replies: seq<Reply>, frames: seq<Frame>, token: Token, handle: Handler) {
    && |replies| == |frames|
    && forall k :: 0 <= k < |frames| ==>
         replies[k] == match frames[k]
                       case Garbled => Reply(0, MALFORMED)
                       case Whole(e) => Reply(e.id, if e.token != token then REJECTED
                                                    else handle(Executed(frames[..k + 1], token)))
  }

  lemma OneMoreAnswer(replies: seq<Reply>, frames: seq<Frame>, frame: Frame, token: Token, handle: Handler)
    requires AnswersInOrder(replies, frames, token, handle)
    ensures AnswersInOrder(replies + [Answer(frame, token, handle(Executed(frames + [frame], token)))],
              frames + [frame], token, handle)
  {
    hide Executed;
    var all, more := frames + [frame], replies + [Answer(frame, token, handle(Executed(frames + [frame], token)))];
    forall k | 0 <= k < |all|
      ensures more[k] == Answer(all[k], token, handle(Executed(all[..k + 1], token)))
    {
      if k < |frames| {
        assert all[..k + 1] == frames[..k + 1];
        assert more[k] == replies[k];
      } else {
        assert all[..k + 1] == all;
      }
    }
  }

  lemma ExecutedAppend(frames: seq<Frame>, frame: Frame, token: Token)
    ensures Executed(frames + [frame], token)
            == Executed(frames, token)
               + (if frame.Whole? && frame.envelope.token == token then [frame.envelope.request] else [])
  {
    assert (frames + [frame])[..|frames|] == frames;
  }

  /** What the guest does with one frame. */
  method AnswerFrame(frame: Frame, token: Token, handle: Handler, executed: seq<Request>)
    returns (reply: Reply, after: seq<Request>)
    ensures after == executed + (if frame.Whole? && frame.envelope.token == token then [frame.envelope.request] else [])
    ensures reply == Answer(frame, token, handle(after))
  {
    after := executed;
    match frame {
      case Whole(e) =>
        var trusted := ConstantTimeEq(e.token, token);
        if trusted {
          after := executed + [e.request];
          return Reply(e.id, handle(after)), after;
        }
        reply := Reply(e.id, REJECTED);
      case Garbled =>
        reply := Reply(0, MALFORMED);
    }
  }

  function Min(a: nat, b: nat): nat {
    if a < b then a else b
  }

  /** `session`: one reply for each frame that is not blank, in order, with the frame's own id, or
      id 0 for one that cannot be parsed; only requests with the right token reach the handler.
      The session ends early exactly when a line cannot be read or a reply cannot be written: the
      port takes `writable`. */
  method Session(lines: seq<Line>, token: Token, handle: Handler, writable: nat)
    returns (replies: seq<Reply>, failed: bool)
    ensures failed <==> |Frames(Readable(lines))| > writable || Readable(lines) != lines
    ensures var frames := Frames(Readable(lines));
            AnswersInOrder(replies, frames[..Min(|frames|, writable)], token, handle)
  {
    hide Executed, AnswersInOrder, Frames, Readable;
    NoAnswers(token, handle);
    replies, failed := [], false;
    var executed: seq<Request> := [];
    for i := 0 to |lines|
      invariant forall k :: 0 <= k < i ==> !lines[k].NotUtf8?
      invariant executed == Executed(Frames(lines[..i]), token)
      invariant AnswersInOrder(replies, Frames(lines[..i]), token, handle)
      invariant |Frames(lines[..i])| <= writable && |replies| == |Frames(lines[..i])|
    {
      var line := lines[i];
      ghost var frames := Frames(lines[..i]);
      if line.NotUtf8? {
        ReadableTo(lines, i);
        assert frames[..|frames|] == frames;
        failed := true;
        return;
      }
      FramesAppend(lines[..i], line);
      assert lines[..i + 1] == lines[..i] + [line];
      assert line.Blank? ==> Frames(lines[..i + 1]) == frames;
      if line.Text? {
        ExecutedAppend(frames, line.frame, token);
        OneMoreAnswer(replies, frames, line.frame, token, handle);
        var reply;
        reply, executed := AnswerFrame(line.frame, token, handle, executed);
        if |replies| == writable {
          ReadableFrom(lines, i + 1);
          FramesOfPrefix(Readable(lines), i + 1);
          assert Frames(Readable(lines))[..writable] == frames;
          failed := true;
          return;
        }
        replies := replies + [reply];
      }
    }
    ReadableFrom(lines, |lines|);
    assert lines[..|lines|] == lines;
    assert Frames(lines)[..|Frames(lines)|] == Frames(lines);
  }

  lemma {:induction false} ReadableFrom(lines: seq<Line>, n: nat)
    requires n <= |lines| && forall k :: 0 <= k < n ==> !lines[k].NotUtf8?
    ensures lines[..n] <= Readable(lines) && (n == |lines| ==> Readable(lines) == lines)
    ensures n <= |Readable(lines)| && Readable(lines)[..n] == lines[..n]
  {
    if n == 0 {
    } else {
      ReadableFrom(lines[1..], n - 1);
      assert lines[..n] == [lines[0]] + lines[1..][..n - 1];
      assert lines == [lines[0]] + lines[1..];
    }
  }

  lemma NoAnswers(token: Token, handle: Handler)
    ensures AnswersInOrder([], Frames([]), token, handle) && Executed(Frames([]), token) == [] && Frames([]) == []
  {
  }

  lemma {:induction false} FramesOfPrefix(lines: seq<Line>, n: nat)
    requires n <= |lines|
    ensures Frames(lines[..n]) <= Frames(lines)
  {
    if n == 0 {
    } else {
      assert lines[..n][1..] == lines[1..][..n - 1];
      FramesOfPrefix(lines[1..], n - 1);
    }
  }

  // ---------------------------------------------------------------- all the parts together

  /** One issued envelope and who asked for it. */
  datatype Asked = Asked(caller: nat, envelope: Envelope)

  /** What the guest said to one envelope. */
  datatype Handled = Handled(envelope: Envelope, response: Response)

  /** What a caller got; `id` is the one its reply carried. */
  datatype Returned = Returned(asked: Asked, id: nat, response: Response)

  /** The request that holds the mutex, waiting for its reply. */
  datatype Waiting = Waiting(asked: Asked, turns: nat)

  datatype Tokens = Tokens(host: Token, guest: Token)

  /** `torn` says that the guest's line buffer ends in the beginning of a frame; `issued`, `handled`
      and `returned` record the whole run. */
  datatype World = World(
    nextId: nat,
    connected: bool,
    waiting: Option<Waiting>,
    torn: bool,
    inbox: seq<Frame>,
    outbox: seq<Reply>,
    issued: seq<Asked>,
    handled: seq<Handled>,
    returned: seq<Returned>)

  const START := World(1, false, None, false, [], [], [], [], [])

  /** What may happen next.  `Send` is the write of one request's frame, `SendTorn` one that breaks
      off inside the frame, `SendLost` one that fails before its first byte; `Serve` is the guest
      taking its next frame, `ServeTorn` its reading a torn line at the end of the port; `SplitFrame`
      is a guest session that ends with the beginning of a frame buffered, whose rest the next session
      reads as a line, and `ForgetTorn` one that ends with nothing but a torn frame buffered; `Read`
      takes the next reply, `ReadBroken` takes one that is cut off; `Fail` is a timeout, a closed
      socket or a cancelled caller; `Drop` clears the connection. */
  datatype Step = Connect | Drop | Send(caller: nat, request: Request) | SendTorn(caller: nat, request: Request)
    | SendLost(caller: nat, request: Request) | Serve(computed: Response) | ServeTorn
    | SplitFrame(at: nat) | ForgetTorn | LoseFrame(at: nat) | LoseReply(at: nat) | Read | ReadBroken | Fail

  /** The steps that make part of a frame a line of its own. */
  predicate Tears(step: Step) {
    step.SendTorn? || step.SplitFrame?
  }

  function Issue(w: World, tokens: Tokens, caller: nat, request: Request): (r: (World, Asked)) {
    var asked := Asked(caller, Envelope(w.nextId, tokens.host, request));
    (w.(nextId := (w.nextId + 1) % ID_SPACE, issued := w.issued + [asked]), asked)
  }

  function Without<T>(s: seq<T>, at: nat): seq<T>
    requires at < |s|
  {
    s[..at] + s[at + 1..]
  }

  /** The guest takes its first frame. */
  function ServeFirst(w: World, tokens: Tokens, computed: Response): World
    requires w.inbox != []
  {
    var reply := Answer(w.inbox[0], tokens.guest, computed);
    w.(inbox := w.inbox[1..],
       outbox := w.outbox + [reply],
       handled := if w.inbox[0].Whole? then w.handled + [Handled(w.inbox[0].envelope, reply.response)] else w.handled)
  }

  /** One turn of the read loop: the caller's own id, or id 0, ends the request. */
  function ReadFirst(w: World): World
    requires w.outbox != [] && w.waiting.Some?
  {
    var reply, waiting := w.outbox[0], w.waiting.value;
    var rest := w.(outbox := w.outbox[1..]);
    if reply.id == waiting.asked.envelope.id || reply.id == 0 then
      rest.(waiting := None, returned := w.returned + [Returned(waiting.asked, reply.id, reply.response)])
    else if waiting.turns + 1 < READ_BUDGET then
      rest.(waiting := Some(Waiting(waiting.asked, waiting.turns + 1)))
    else
      rest.(waiting := None)
  }

  function Next(w: World, tokens: Tokens, step: Step): Option<World> {
    var free := w.waiting.None?;
    match step
    case Connect => if free && !w.connected then Some(w.(connected := true)) else None
    case Drop => if free then Some(w.(connected := false)) else None
    case Send(caller, request) =>
      if !free || !w.connected then None
      else
        var (issued, asked) := Issue(w, tokens, caller, request);
        Some(issued.(waiting := Some(Waiting(asked, 0)),
                     inbox := w.inbox + [if w.torn then Garbled else Whole(asked.envelope)],
                     torn := false))
    case SendTorn(caller, request) =>
      if free && w.connected then Some(Issue(w, tokens, caller, request).0.(torn := true)) else None
    case SendLost(caller, request) =>
      if free && w.connected then Some(Issue(w, tokens, caller, request).0) else None
    case Serve(computed) => if w.inbox != [] then Some(ServeFirst(w, tokens, computed)) else None
    case ServeTorn =>
      if w.inbox == [] && w.torn then Some(w.(torn := false, outbox := w.outbox + [Reply(0, MALFORMED)])) else None
    case SplitFrame(at) => if at < |w.inbox| then Some(w.(inbox := w.inbox[at := Garbled])) else None
    case ForgetTorn => if w.torn then Some(w.(torn := false)) else None
    case LoseFrame(at) => if at < |w.inbox| then Some(w.(inbox := Without(w.inbox, at))) else None
    case LoseReply(at) => if at < |w.outbox| then Some(w.(outbox := Without(w.outbox, at))) else None
    case Read => if w.outbox != [] && w.waiting.Some? then Some(ReadFirst(w)) else None
    case ReadBroken =>
      if w.outbox != [] && w.waiting.Some? then Some(w.(outbox := w.outbox[1..], waiting := None)) else None
    case Fail => if w.waiting.Some? then Some(w.(waiting := None)) else None
  }

  /** The world that these steps lead to, if each is possible when it comes. */
  function Run(w: World, tokens: Tokens, steps: seq<Step>): Option<World>
    decreases |steps|
  {
    if steps == [] then Some(w)
    else
      match Next(w, tokens, steps[0])
      case Some(x) => Run(x, tokens, steps[1..])
      case None => None
  }

  // ---------------------------------------------------------------- what every step keeps

  /** The k-th id is k + 1, and carries the application's token. */
  ghost predicate Numbered(w: World, tokens: Tokens) {
    && w.nextId == (1 + |w.issued|) % ID_SPACE
    && forall k :: 0 <= k < |w.issued| && k + 1 < ID_SPACE ==>
         w.issued[k].envelope.id == k + 1 && w.issued[k].envelope.token == tokens.host
  }

  predicate IsIssued(w: World, e: Envelope) {
    1 <= e.id <= |w.issued| && w.issued[e.id - 1].envelope == e
  }

  /** Every frame still with the guest was issued, once, and has not been handled. */
  ghost predicate InboxOk(w: World) {
    && (forall k :: 0 <= k < |w.inbox| && w.inbox[k].Whole? ==> IsIssued(w, w.inbox[k].envelope))
    && (forall i, j :: 0 <= i < j < |w.inbox| && w.inbox[i].Whole? && w.inbox[j].Whole? ==>
          w.inbox[i].envelope.id != w.inbox[j].envelope.id)
    && (forall i, j :: 0 <= i < |w.inbox| && w.inbox[i].Whole? && 0 <= j < |w.handled| ==>
          w.inbox[i].envelope.id != w.handled[j].envelope.id)
  }

  /** Every handled envelope was issued and handled once; with the wrong token it was rejected. */
  ghost predicate HandledOk(w: World, tokens: Tokens) {
    && (forall k :: 0 <= k < |w.handled| ==> IsIssued(w, w.handled[k].envelope))
    && (forall i, j :: 0 <= i < j < |w.handled| ==> w.handled[i].envelope.id != w.handled[j].envelope.id)
    && (tokens.host != tokens.guest ==> forall k :: 0 <= k < |w.handled| ==> w.handled[k].response == REJECTED)
  }

  /** A response under id 0 is the one for a garbled frame; under any other id it is what the guest
      said to the envelope of that id. */
  ghost predicate Genuine(w: World, id: nat, response: Response) {
    if id == 0 then response == MALFORMED
    else id <= |w.issued| && Handled(w.issued[id - 1].envelope, response) in w.handled
  }

  ghost predicate OutboxOk(w: World) {
    forall k :: 0 <= k < |w.outbox| ==> Genuine(w, w.outbox[k].id, w.outbox[k].response)
  }

  ghost predicate IsAsked(w: World, asked: Asked) {
    1 <= asked.envelope.id <= |w.issued| && w.issued[asked.envelope.id - 1] == asked
  }

  ghost predicate ReturnedOk(w: World) {
    && (w.waiting.Some? ==> IsAsked(w, w.waiting.value.asked))
    && forall k :: 0 <= k < |w.returned| ==>
         && IsAsked(w, w.returned[k].asked)
         && Genuine(w, w.returned[k].id, w.returned[k].response)
         && (w.returned[k].id == w.returned[k].asked.envelope.id || w.returned[k].id == 0)
  }

  ghost predicate Inv(w: World, tokens: Tokens) {
    Numbered(w, tokens) && InboxOk(w) && HandledOk(w, tokens) && OutboxOk(w) && ReturnedOk(w)
  }

  /** More issued and more handled keeps everything genuine. */
  ghost predicate Extends(w: World, x: World) {
    w.issued <= x.issued && w.handled <= x.handled
  }

  lemma StillGenuine(w: World, x: World, id: nat, response: Response)
    requires Extends(w, x) && Genuine(w, id, response)
    ensures Genuine(x, id, response)
  {
    if id != 0 {
      assert x.issued[id - 1] == w.issued[id - 1];
      var k :| 0 <= k < |w.handled| && w.handled[k] == Handled(w.issued[id - 1].envelope, response);
      assert x.handled[k] == w.handled[k];
    }
  }

  lemma StillReturned(w: World, x: World)
    requires ReturnedOk(w) && Extends(w, x) && x.returned == w.returned
    requires x.waiting.Some? ==> IsAsked(x, x.waiting.value.asked)
    ensures ReturnedOk(x)
  {
    hide Genuine;
    forall k | 0 <= k < |x.returned|
      ensures IsAsked(x, x.returned[k].asked) && Genuine(x, x.returned[k].id, x.returned[k].response)
    {
      StillGenuine(w, x, w.returned[k].id, w.returned[k].response);
      assert IsAsked(w, w.returned[k].asked);
    }
  }

  lemma StillOutbox(w: World, x: World)
    requires OutboxOk(w) && Extends(w, x) && x.outbox == w.outbox
    ensures OutboxOk(x)
  {
    hide Genuine;
    forall k | 0 <= k < |x.outbox|
      ensures Genuine(x, x.outbox[k].id, x.outbox[k].response)
    {
      StillGenuine(w, x, w.outbox[k].id, w.outbox[k].response);
    }
  }

  lemma IssueKeeps(w: World, tokens: Tokens, caller: nat, request: Request)
    requires Numbered(w, tokens) && InboxOk(w) && HandledOk(w, tokens) && |w.issued| + 1 < ID_SPACE
    ensures var (x, asked) := Issue(w, tokens, caller, request);
            && Numbered(x, tokens) && InboxOk(x) && HandledOk(x, tokens) && Extends(w, x)
            && IsAsked(x, asked) && asked.envelope.id == |w.issued| + 1
  {
    var (x, asked) := Issue(w, tokens, caller, request);
    assert forall k :: 0 <= k < |w.issued| ==> x.issued[k] == w.issued[k];
    assert forall e :: IsIssued(w, e) ==> IsIssued(x, e);
  }

  /** A frame with the newest id can be put behind the others. */
  lemma SendKeepsInbox(w: World, x: World, frame: Frame)
    requires InboxOk(w) && x.inbox == w.inbox + [frame] && x.handled == w.handled && x.issued == w.issued
    requires frame.Whole? ==> IsIssued(w, frame.envelope)
    requires frame.Whole? ==> forall k :: 0 <= k < |w.inbox| && w.inbox[k].Whole? ==>
               w.inbox[k].envelope.id != frame.envelope.id
    requires frame.Whole? ==> forall k :: 0 <= k < |w.handled| ==> w.handled[k].envelope.id != frame.envelope.id
    ensures InboxOk(x)
  {
    hide IsIssued;
    forall k | 0 <= k < |x.inbox| && x.inbox[k].Whole?
      ensures IsIssued(x, x.inbox[k].envelope)
    {
      assert x.inbox[k] == if k < |w.inbox| then w.inbox[k] else frame;
      SameIssued(w, x, x.inbox[k].envelope);
    }
  }

  lemma SameIssued(w: World, x: World, e: Envelope)
    requires w.issued == x.issued
    ensures IsIssued(w, e) == IsIssued(x, e)
  {
  }

  lemma SendKeeps(w: World, tokens: Tokens, step: Step, x: World)
    requires Inv(w, tokens) && (step.Send? || step.SendTorn? || step.SendLost?)
    requires Next(w, tokens, step) == Some(x) && |x.issued| < ID_SPACE
    ensures Inv(x, tokens)
  {
    hide InboxOk, HandledOk, OutboxOk, ReturnedOk, Numbered;
    IssueKeeps(w, tokens, step.caller, step.request);
    var (y, asked) := Issue(w, tokens, step.caller, step.request);
    StillOutbox(w, x);
    StillReturned(w, x);
    NumberedDependsOnIssued(y, x, tokens);
    HandledDependsOnHandled(y, x, tokens);
    if step.Send? {
      OldIdsAreSmaller(w, tokens);
      SendKeepsInbox(y, x, if w.torn then Garbled else Whole(asked.envelope));
    } else {
      InboxDependsOnInbox(y, x);
    }
  }

  lemma NumberedDependsOnIssued(w: World, x: World, tokens: Tokens)
    requires Numbered(w, tokens) && x.issued == w.issued && x.nextId == w.nextId
    ensures Numbered(x, tokens)
  {
  }

  lemma HandledDependsOnHandled(w: World, x: World, tokens: Tokens)
    requires HandledOk(w, tokens) && x.issued == w.issued && x.handled == w.handled
    ensures HandledOk(x, tokens)
  {
    forall k | 0 <= k < |x.handled|
      ensures IsIssued(x, x.handled[k].envelope)
    {
      SameIssued(w, x, x.handled[k].envelope);
    }
  }

  lemma InboxDependsOnInbox(w: World, x: World)
    requires InboxOk(w) && x.issued == w.issued && x.handled == w.handled && x.inbox == w.inbox
    ensures InboxOk(x)
  {
    forall k | 0 <= k < |x.inbox| && x.inbox[k].Whole?
      ensures IsIssued(x, x.inbox[k].envelope)
    {
      SameIssued(w, x, x.inbox[k].envelope);
    }
  }

  lemma OldIdsAreSmaller(w: World, tokens: Tokens)
    requires InboxOk(w) && HandledOk(w, tokens)
    ensures forall k :: 0 <= k < |w.inbox| && w.inbox[k].Whole? ==> w.inbox[k].envelope.id <= |w.issued|
    ensures forall k :: 0 <= k < |w.handled| ==> w.handled[k].envelope.id <= |w.issued|
  {
  }

  lemma ServeKeeps(w: World, tokens: Tokens, computed: Response)
    requires Inv(w, tokens) && w.inbox != [] && |w.issued| < ID_SPACE
    ensures Inv(ServeFirst(w, tokens, computed), tokens)
  {
    hide OutboxOk, ReturnedOk, Genuine;
    var x := ServeFirst(w, tokens, computed);
    var reply := Answer(w.inbox[0], tokens.guest, computed);
    assert Extends(w, x);
    if w.waiting.Some? {
      WaitingIsAsked(w);
    }
    StillReturned(w, x);
    ServedIsGenuine(w, tokens, computed);
    OutboxGrows(w, x, reply);
    ServeKeepsHandled(w, tokens, computed);
  }

  lemma ServedIsGenuine(w: World, tokens: Tokens, computed: Response)
    requires InboxOk(w) && w.inbox != []
    ensures var reply := Answer(w.inbox[0], tokens.guest, computed);
            Genuine(ServeFirst(w, tokens, computed), reply.id, reply.response)
  {
    var x := ServeFirst(w, tokens, computed);
    if w.inbox[0].Whole? {
      assert IsIssued(w, w.inbox[0].envelope);
      assert x.handled[|w.handled|] in x.handled;
    }
  }

  lemma OutboxGrows(w: World, x: World, reply: Reply)
    requires OutboxOk(w) && Extends(w, x) && x.outbox == w.outbox + [reply] && Genuine(x, reply.id, reply.response)
    ensures OutboxOk(x)
  {
    hide Genuine;
    forall k | 0 <= k < |x.outbox|
      ensures Genuine(x, x.outbox[k].id, x.outbox[k].response)
    {
      if k < |w.outbox| {
        StillGenuine(w, x, w.outbox[k].id, w.outbox[k].response);
      }
    }
  }

  lemma ServeKeepsHandled(w: World, tokens: Tokens, computed: Response)
    requires Numbered(w, tokens) && InboxOk(w) && HandledOk(w, tokens) && w.inbox != [] && |w.issued| < ID_SPACE
    ensures var x := ServeFirst(w, tokens, computed);
            Numbered(x, tokens) && InboxOk(x) && HandledOk(x, tokens)
  {
    var x := ServeFirst(w, tokens, computed);
    assert forall e :: IsIssued(x, e) == IsIssued(w, e);
    assert forall k :: 0 <= k < |x.inbox| ==> x.inbox[k] == w.inbox[k + 1];
    assert forall k :: 0 <= k < |w.handled| ==> x.handled[k] == w.handled[k];
  }

  lemma ReadKeeps(w: World, tokens: Tokens)
    requires Inv(w, tokens) && w.outbox != [] && w.waiting.Some?
    ensures Inv(ReadFirst(w), tokens)
  {
    hide InboxOk, HandledOk, Numbered, OutboxOk, ReturnedOk;
    var x := ReadFirst(w);
    InboxDependsOnInbox(w, x);
    HandledDependsOnHandled(w, x, tokens);
    NumberedDependsOnIssued(w, x, tokens);
    OutboxShrinks(w, x, 0);
    ReadReturns(w);
  }

  lemma ReadReturns(w: World)
    requires OutboxOk(w) && ReturnedOk(w) && w.outbox != [] && w.waiting.Some?
    ensures ReturnedOk(ReadFirst(w))
  {
    hide Genuine;
    var x := ReadFirst(w);
    assert Extends(w, x);
    forall k | 0 <= k < |x.returned|
      ensures IsAsked(x, x.returned[k].asked) && Genuine(x, x.returned[k].id, x.returned[k].response)
      ensures x.returned[k].id == x.returned[k].asked.envelope.id || x.returned[k].id == 0
    {
      if k < |w.returned| {
        assert x.returned[k] == w.returned[k];
      }
      StillGenuine(w, x, x.returned[k].id, x.returned[k].response);
    }
  }

  lemma OutboxShrinks(w: World, x: World, at: nat)
    requires OutboxOk(w) && Extends(w, x) && at < |w.outbox| && x.outbox == Without(w.outbox, at)
    ensures OutboxOk(x)
  {
    hide Genuine;
    forall k | 0 <= k < |x.outbox|
      ensures Genuine(x, x.outbox[k].id, x.outbox[k].response)
    {
      assert x.outbox[k] == w.outbox[if k < at then k else k + 1];
      StillGenuine(w, x, x.outbox[k].id, x.outbox[k].response);
    }
  }

  lemma LosingAFrameKeepsInbox(w: World, x: World, at: nat)
    requires InboxOk(w) && at < |w.inbox| && x == w.(inbox := Without(w.inbox, at))
    ensures InboxOk(x)
  {
    forall k | 0 <= k < |x.inbox|
      ensures x.inbox[k] == w.inbox[if k < at then k else k + 1]
    {
    }
    assert forall e :: IsIssued(x, e) == IsIssued(w, e);
  }

  lemma SplittingAFrameKeepsInbox(w: World, x: World, at: nat)
    requires InboxOk(w) && at < |w.inbox| && x == w.(inbox := w.inbox[at := Garbled])
    ensures InboxOk(x)
  {
    assert forall e :: IsIssued(x, e) == IsIssued(w, e);
  }

  lemma MalformedIsGenuine(w: World)
    ensures Genuine(w, 0, MALFORMED)
  {
  }

  lemma WaitingIsAsked(w: World)
    requires ReturnedOk(w) && w.waiting.Some?
    ensures IsAsked(w, w.waiting.value.asked)
  {
  }

  /** Steps that issue nothing, handle nothing and return nothing. */
  lemma QuietStepKeeps(w: World, tokens: Tokens, step: Step, x: World)
    requires Inv(w, tokens) && Next(w, tokens, step) == Some(x)
    requires !step.Send? && !step.SendTorn? && !step.SendLost? && !step.Serve? && !step.Read?
    ensures Inv(x, tokens)
  {
    hide InboxOk, HandledOk, OutboxOk, ReturnedOk, Numbered, Genuine;
    NumberedDependsOnIssued(w, x, tokens);
    HandledDependsOnHandled(w, x, tokens);
    if w.waiting.Some? {
      WaitingIsAsked(w);
    }
    StillReturned(w, x);
    if step.LoseFrame? {
      LosingAFrameKeepsInbox(w, x, step.at);
    } else if step.SplitFrame? {
      SplittingAFrameKeepsInbox(w, x, step.at);
    } else {
      InboxDependsOnInbox(w, x);
    }
    if step.LoseReply? {
      OutboxShrinks(w, x, step.at);
    } else if step.ReadBroken? {
      OutboxShrinks(w, x, 0);
    } else if step.ServeTorn? {
      MalformedIsGenuine(x);
      OutboxGrows(w, x, Reply(0, MALFORMED));
    } else {
      StillOutbox(w, x);
    }
  }

  lemma StepKeeps(w: World, tokens: Tokens, step: Step, x: World)
    requires Inv(w, tokens) && Next(w, tokens, step) == Some(x) && |x.issued| < ID_SPACE
    ensures Inv(x, tokens)
  {
    hide Inv;
    if step.Send? || step.SendTorn? || step.SendLost? {
      SendKeeps(w, tokens, step, x);
    } else if step.Serve? {
      ServeKeeps(w, tokens, step.computed);
    } else if step.Read? {
      ReadKeeps(w, tokens);
    } else {
      QuietStepKeeps(w, tokens, step, x);
    }
  }

  lemma {:induction false} RunKeeps(w: World, tokens: Tokens, steps: seq<Step>)
    requires Inv(w, tokens)
    requires Run(w, tokens, steps).Some? && |Run(w, tokens, steps).value.issued| < ID_SPACE
    ensures Inv(Run(w, tokens, steps).value, tokens)
    decreases |steps|
  {
    hide Inv, Next;
    if steps != [] {
      var x := Next(w, tokens, steps[0]).value;
      RunIssues(x, tokens, steps[1..]);
      StepKeeps(w, tokens, steps[0], x);
      RunKeeps(x, tokens, steps[1..]);
    }
  }

  lemma StartIsFine(tokens: Tokens)
    ensures Inv(START, tokens)
  {
  }

  lemma StepIssues(w: World, tokens: Tokens, step: Step)
    ensures Next(w, tokens, step).Some? ==> |w.issued| <= |Next(w, tokens, step).value.issued|
  {
  }

  /** Envelopes are only ever added. */
  lemma {:induction false} RunIssues(w: World, tokens: Tokens, steps: seq<Step>)
    requires Run(w, tokens, steps).Some?
    ensures |w.issued| <= |Run(w, tokens, steps).value.issued|
    decreases |steps|
  {
    hide Next;
    if steps != [] {
      StepIssues(w, tokens, steps[0]);
      RunIssues(Next(w, tokens, steps[0]).value, tokens, steps[1..]);
    }
  }

  // ---------------------------------------------------------------- what callers may rely on

  /** `past` is a run of fewer than 2^64 requests, and leads to `w`. */
  ghost predicate Reached(tokens: Tokens, past: seq<Step>, w: World) {
    Run(START, tokens, past) == Some(w) && |w.issued| < ID_SPACE
  }

  lemma ReachedIsFine(tokens: Tokens, past: seq<Step>, w: World)
    requires Reached(tokens, past, w)
    ensures Inv(w, tokens)
  {
    hide Inv, Run;
    StartIsFine(tokens);
    RunKeeps(START, tokens, past);
  }

  /** In every run of fewer than 2^64 requests, whatever is lost, late, torn or reconnected: ids are
      1, 2, 3 and so on; the guest handles each envelope at most once, and only with its token; and
      a caller gets what the guest said to the very envelope it issued, unless the reply carried
      id 0, and then it is the error for a frame that could not be parsed. */
  lemma EveryRunCorrelates(tokens: Tokens, past: seq<Step>, w: World)
    requires Reached(tokens, past, w)
    ensures forall k :: 0 <= k < |w.issued| ==> w.issued[k].envelope.id == k + 1
    ensures forall i, j :: 0 <= i < j < |w.handled| ==> w.handled[i].envelope.id != w.handled[j].envelope.id
    ensures tokens.host != tokens.guest ==> forall k :: 0 <= k < |w.handled| ==> w.handled[k].response == REJECTED
    ensures forall r :: r in w.returned ==>
              && r.asked in w.issued
              && (if r.id == 0 then r.response == MALFORMED
                  else r.id == r.asked.envelope.id && Handled(r.asked.envelope, r.response) in w.handled)
  {
    hide Run;
    ReachedIsFine(tokens, past, w);
    forall r | r in w.returned
      ensures IsAsked(w, r.asked) && Genuine(w, r.id, r.response) && (r.id == r.asked.envelope.id || r.id == 0)
    {
    }
  }

  /** A part of a frame waits at the guest to be completed, a garbled frame waits to be read, or the
      error for one is on its way. */
  ghost predicate Tainted(w: World) {
    || w.torn
    || (exists k :: 0 <= k < |w.inbox| && w.inbox[k].Garbled?)
    || ErrorOnItsWay(w.outbox)
  }

  ghost predicate ErrorOnItsWay(outbox: seq<Reply>) {
    exists k :: 0 <= k < |outbox| && outbox[k].id == 0
  }

  /** Untainted, and since `since` requests have returned none returned under id 0. */
  ghost predicate Untainted(w: World, since: nat) {
    && !w.torn
    && (forall k :: 0 <= k < |w.inbox| ==> w.inbox[k].Whole?)
    && (forall k :: 0 <= k < |w.outbox| ==> w.outbox[k].id != 0)
    && (forall k :: since <= k < |w.returned| ==> w.returned[k].id != 0)
  }

  /** Without a further torn or split frame, these steps give some caller a reply under id 0. */
  ghost predicate Misleads(w: World, tokens: Tokens, steps: seq<Step>) {
    && (forall k :: 0 <= k < |steps| ==> !Tears(steps[k]))
    && Run(w, tokens, steps).Some?
    && var x := Run(w, tokens, steps).value;
      && |x.issued| < ID_SPACE
      && exists k :: |w.returned| <= k < |x.returned| && x.returned[k].id == 0
  }

  lemma StepKeepsUntainted(w: World, tokens: Tokens, step: Step, x: World, since: nat)
    requires Untainted(w, since) && Inv(w, tokens) && !Tears(step) && Next(w, tokens, step) == Some(x)
    ensures Untainted(x, since)
  {
    hide Numbered, HandledOk, OutboxOk, ReturnedOk, IsIssued;
    if step.Serve? {
      InboxIdsArePositive(w);
    }
  }

  lemma InboxIdsArePositive(w: World)
    requires InboxOk(w)
    ensures forall k :: 0 <= k < |w.inbox| && w.inbox[k].Whole? ==> w.inbox[k].envelope.id > 0
  {
  }

  lemma {:induction false} RunKeepsUntainted(w: World, tokens: Tokens, steps: seq<Step>, since: nat)
    requires Untainted(w, since) && Inv(w, tokens)
    requires forall k :: 0 <= k < |steps| ==> !Tears(steps[k])
    requires Run(w, tokens, steps).Some? && |Run(w, tokens, steps).value.issued| < ID_SPACE
    ensures Untainted(Run(w, tokens, steps).value, since)
    decreases |steps|
  {
    hide Inv, Next, Untainted;
    if steps != [] {
      var x := Next(w, tokens, steps[0]).value;
      RunIssues(x, tokens, steps[1..]);
      StepKeeps(w, tokens, steps[0], x);
      StepKeepsUntainted(w, tokens, steps[0], x, since);
      RunKeepsUntainted(x, tokens, steps[1..], since);
    }
  }

  /** A step that returns nothing, before steps that mislead. */
  lemma MisleadsLater(w: World, tokens: Tokens, step: Step, steps: seq<Step>)
    requires Next(w, tokens, step).Some? && !Tears(step)
    requires Next(w, tokens, step).value.returned == w.returned && Misleads(Next(w, tokens, step).value, tokens, steps)
    ensures Misleads(w, tokens, [step] + steps)
  {
    hide Next;
    assert ([step] + steps)[1..] == steps;
  }

  /** With the error at the front, the next caller gets it. */
  lemma MisleadsNow(w: World, tokens: Tokens)
    requires w.waiting.None? && w.connected && w.outbox != [] && w.outbox[0].id == 0 && |w.issued| + 1 < ID_SPACE
    ensures Misleads(w, tokens, [Send(0, Ping), Read])
  {
    var steps := [Send(0, Ping), Read];
    var x := Next(w, tokens, steps[0]).value;
    var y := ReadFirst(x);
    assert y.returned[|w.returned|].id == 0;
    assert Next(x, tokens, Read) == Some(y);
    assert steps[1..] == [Read] && [Read][1..] == [];
    hide Next;
    assert Run(x, tokens, [Read]) == Some(y);
  }

  /** How far the error is from a caller. */
  function Distance(w: World): nat {
    (if w.waiting.Some? then 1 else 0) + (if w.connected then 0 else 1) + (if w.torn then 2 else 0)
    + 2 * |w.inbox| + |w.outbox|
  }

  /** The step that brings the error nearer: the caller in the way fails, the connection is made, and
      whatever stands in front of the error is lost. */
  ghost function Approach(w: World): Step {
    if w.waiting.Some? then Fail
    else if !w.connected then Connect
    else if ErrorOnItsWay(w.outbox) then LoseReply(0)
    else if w.inbox == [] then ServeTorn
    else if w.inbox[0].Garbled? then Serve(Pong)
    else LoseFrame(0)
  }

  /** The step can be taken, keeps the taint, and returns and issues nothing. */
  ghost predicate GetsNearer(w: World, tokens: Tokens) {
    var x := Next(w, tokens, Approach(w));
    && x.Some? && Tainted(x.value) && Distance(x.value) < Distance(w)
    && x.value.returned == w.returned && x.value.issued == w.issued
  }

  lemma ApproachGetsNearer(w: World, tokens: Tokens)
    requires Tainted(w)
    requires w.waiting.Some? || !w.connected || w.outbox == [] || w.outbox[0].id != 0
    ensures GetsNearer(w, tokens)
  {
    hide ErrorOnItsWay;
    if w.waiting.None? && w.connected {
      if ErrorOnItsWay(w.outbox) {
        ErrorMovesUp(w.outbox);
        assert Without(w.outbox, 0) == w.outbox[1..];
      } else {
        FrontOfInboxGetsNearer(w, tokens);
      }
    }
  }

  lemma ErrorMovesUp(outbox: seq<Reply>)
    requires ErrorOnItsWay(outbox) && (outbox == [] || outbox[0].id != 0)
    ensures outbox != [] && ErrorOnItsWay(outbox[1..])
  {
    var k :| 0 <= k < |outbox| && outbox[k].id == 0;
    assert outbox[1..][k - 1].id == 0;
  }

  lemma FrontOfInboxGetsNearer(w: World, tokens: Tokens)
    requires w.waiting.None? && w.connected && Tainted(w) && !ErrorOnItsWay(w.outbox)
    ensures GetsNearer(w, tokens)
  {
    hide ErrorOnItsWay;
    var x := Next(w, tokens, Approach(w)).value;
    if w.inbox == [] || w.inbox[0].Garbled? {
      assert x.outbox == w.outbox + [Reply(0, MALFORMED)];
      ErrorIsLast(w.outbox);
    } else {
      assert x.inbox == w.inbox[1..];
      if !w.torn {
        var k :| 0 <= k < |w.inbox| && w.inbox[k].Garbled?;
        assert w.inbox[1..][k - 1].Garbled?;
      }
    }
  }

  lemma ErrorIsLast(outbox: seq<Reply>)
    ensures ErrorOnItsWay(outbox + [Reply(0, MALFORMED)])
  {
    assert (outbox + [Reply(0, MALFORMED)])[|outbox|].id == 0;
  }

  lemma {:induction false} TaintedMisleads(w: World, tokens: Tokens) returns (steps: seq<Step>)
    requires Tainted(w) && |w.issued| + 1 < ID_SPACE
    ensures Misleads(w, tokens, steps)
    decreases Distance(w)
  {
    hide Tainted, Misleads, Next, Approach, Distance;
    if w.waiting.None? && w.connected && w.outbox != [] && w.outbox[0].id == 0 {
      MisleadsNow(w, tokens);
      steps := [Send(0, Ping), Read];
    } else {
      ApproachGetsNearer(w, tokens);
      var rest := TaintedMisleads(Next(w, tokens, Approach(w)).value, tokens);
      ApproachIsWhole(w);
      MisleadsLater(w, tokens, Approach(w), rest);
      steps := [Approach(w)] + rest;
    }
  }

  lemma ApproachIsWhole(w: World)
    ensures !Tears(Approach(w))
  {
  }

  /** When a caller can be given an answer that is not its own.  From any world that a run reaches,
      with frames delivered whole from then on, some continuation returns a reply under id 0 if and
      only if the world is tainted: a torn frame is still at the guest, a garbled one is still to be
      read, or the error for one is still on its way. */
  lemma MisleadsExactlyWhenTainted(tokens: Tokens, past: seq<Step>, w: World)
    requires Reached(tokens, past, w) && |w.issued| + 1 < ID_SPACE
    ensures Tainted(w) <==> exists steps :: Misleads(w, tokens, steps)
  {
    hide Reached, Run, Inv;
    ReachedIsFine(tokens, past, w);
    if Tainted(w) {
      var steps := TaintedMisleads(w, tokens);
    } else {
      forall steps ensures !Misleads(w, tokens, steps) {
        if Misleads(w, tokens, steps) {
          RunKeepsUntainted(w, tokens, steps, |w.returned|);
        }
      }
    }
  }

  /** With frames delivered whole or not at all, every response is the guest's own answer to the
      caller's own envelope. */
  lemma WholeFramesGetTheirOwnAnswer(tokens: Tokens, past: seq<Step>, w: World)
    requires Reached(tokens, past, w) && forall k :: 0 <= k < |past| ==> !Tears(past[k])
    ensures forall r :: r in w.returned ==>
              r.id == r.asked.envelope.id && r.asked in w.issued && Handled(r.asked.envelope, r.response) in w.handled
  {
    hide Run, Inv;
    EveryRunCorrelates(tokens, past, w);
    StartIsFine(tokens);
    RunKeepsUntainted(START, tokens, past, 0);
  }

  function Reads(n: nat): seq<Step> {
    if n == 0 then [] else [Read] + Reads(n - 1)
  }

  predicate IsStale(w: World, reply: Reply) {
    w.waiting.Some? && reply.id != w.waiting.value.asked.envelope.id && reply.id != 0
  }

  /** A request that has its own reply, or one under id 0, behind fewer than eight stale ones finds it. */
  lemma {:induction false} OwnReplyIsFound(w: World, tokens: Tokens, k: nat)
    requires w.waiting.Some? && k < |w.outbox| && w.waiting.value.turns + k < 8
    requires (forall j :: 0 <= j < k ==> IsStale(w, w.outbox[j])) && !IsStale(w, w.outbox[k])
    ensures Run(w, tokens, Reads(k + 1))
         == Some(w.(outbox := w.outbox[k + 1..], waiting := None,
                    returned := w.returned + [Returned(w.waiting.value.asked, w.outbox[k].id, w.outbox[k].response)]))
    decreases k
  {
    OneRead(w, tokens, k);
    hide Run, Next;
    if k == 0 {
      RunsOut(ReadFirst(w), tokens);
    } else {
      assert forall j :: 0 <= j < k ==> w.outbox[1..][j] == w.outbox[j + 1];
      OwnReplyIsFound(ReadFirst(w), tokens, k - 1);
      assert w.outbox[1..][k..] == w.outbox[k + 1..];
    }
  }

  /** Behind eight of them it does not: the request fails, and its reply stays for the next one. */
  lemma {:induction false} EightStaleRepliesEndARequest(w: World, tokens: Tokens, k: nat)
    requires w.waiting.Some? && 0 < k <= |w.outbox| && w.waiting.value.turns + k == 8
    requires forall j :: 0 <= j < k ==> IsStale(w, w.outbox[j])
    ensures Run(w, tokens, Reads(k)) == Some(w.(outbox := w.outbox[k..], waiting := None))
    decreases k
  {
    OneRead(w, tokens, k - 1);
    hide Run, Next;
    if k == 1 {
      RunsOut(ReadFirst(w), tokens);
    } else {
      assert forall j :: 0 <= j < k - 1 ==> w.outbox[1..][j] == w.outbox[j + 1];
      EightStaleRepliesEndARequest(ReadFirst(w), tokens, k - 1);
      assert w.outbox[1..][k - 1..] == w.outbox[k..];
    }
  }

  lemma OneRead(w: World, tokens: Tokens, n: nat)
    requires w.waiting.Some? && w.outbox != []
    ensures Run(w, tokens, Reads(n + 1)) == Run(ReadFirst(w), tokens, Reads(n))
  {
    assert Reads(n + 1)[1..] == Reads(n);
    assert Next(w, tokens, Read) == Some(ReadFirst(w));
    hide Next;
  }

  lemma RunsOut(w: World, tokens: Tokens)
    ensures Run(w, tokens, Reads(0)) == Some(w)
  {
  }

  /** A run in which one frame breaks off: the first request dies inside its frame, the second
      completes that line with its own and times out, and the third, which the guest answered,
      is told that its frame was malformed. */
  const TORN_RUN: seq<Step> := [Connect, SendTorn(1, Ping), Drop, Connect, Send(2, Ping), Fail, Send(3, Ping),
                                Serve(Pong), Serve(Pong), Read]

  function Ask(n: nat, token: Token): Asked {
    Asked(n, Envelope(n, token, Ping))
  }

  /** After the second request has timed out. */
  function HalfTorn(token: Token): World {
    World(3, true, None, false, [Garbled], [], [Ask(1, token), Ask(2, token)], [], [])
  }

  lemma TornHalfway(token: Token)
    ensures Run(START, Tokens(token, token), TORN_RUN) == Run(HalfTorn(token), Tokens(token, token), TORN_RUN[6..])
  {
    hide Run;
    var t := Tokens(token, token);
    RunStep(START, t, TORN_RUN, 0);
    var w1 := START.(connected := true);
    RunStep(w1, t, TORN_RUN, 1);
    var w2 := w1.(nextId := 2, issued := [Ask(1, token)], torn := true);
    assert w1.issued + [Ask(1, token)] == w2.issued;
    RunStep(w2, t, TORN_RUN, 2);
    RunStep(w2.(connected := false), t, TORN_RUN, 3);
    RunStep(w2, t, TORN_RUN, 4);
    var w5 := HalfTorn(token).(waiting := Some(Waiting(Ask(2, token), 0)));
    assert w2.issued + [Ask(2, token)] == w5.issued && w2.inbox + [Garbled] == w5.inbox;
    RunStep(w5, t, TORN_RUN, 5);
  }

  lemma ATornFrameAnswersAnotherRequest(token: Token)
    ensures var w := Run(START, Tokens(token, token), TORN_RUN);
            && w.Some?
            && w.value.handled == [Handled(Ask(3, token).envelope, Pong)]
            && w.value.returned == [Returned(Ask(3, token), 0, MALFORMED)]
  {
    hide Run;
    var t, w6 := Tokens(token, token), HalfTorn(token);
    TornHalfway(token);
    RunStep(w6, t, TORN_RUN, 6);
    var w7 := Next(w6, t, TORN_RUN[6]).value;
    RunStep(w7, t, TORN_RUN, 7);
    var w8 := ServeFirst(w7, t, Pong);
    RunStep(w8, t, TORN_RUN, 8);
    var w9 := ServeFirst(w8, t, Pong);
    RunStep(w9, t, TORN_RUN, 9);
    RunEnds(ReadFirst(w9), t);
  }

  lemma RunStep(w: World, tokens: Tokens, steps: seq<Step>, k: nat)
    requires k < |steps|
    ensures Run(w, tokens, steps[k..])
         == match Next(w, tokens, steps[k]) case Some(x) => Run(x, tokens, steps[k + 1..]) case None => None
    ensures steps[0..] == steps
  {
    assert steps[k..][1..] == steps[k + 1..];
  }

  lemma RunEnds(w: World, tokens: Tokens)
    ensures Run(w, tokens, TORN_RUN[10..]) == Some(w)
  {
  }
}
