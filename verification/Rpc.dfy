/** RPC over a byte stream: length-prefixed frames, sent and received in pieces of any size. */
module Rpc {
  import opened Options
  import opened Bytes
  import opened Buffer

  const FRAME_LIMIT := 64 * 1024 * 1024

  type Request = (int, Bytes)

  // ---- Frames ---------------------------------------------------------------------------------------------

  /** What CallRaw sends. */
  function FrameBytes(r: Request): Bytes {
    IntBytes(|IntBytes(r.0) + r.1|) + (IntBytes(r.0) + r.1)
  }

  function Frames(requests: seq<Request>): Bytes {
    if requests == [] then [] else FrameBytes(requests[0]) + Frames(requests[1..])
  }

  /** The first request of a stream and what follows it, unless the connection ends there or is given up. */
  function NextRequest(stream: Bytes): Option<(Request, Bytes)> {
    if |stream| < 4 then None
    else
      var total := FromBigEndian(stream[..4]);
      if total < 4 || total > FRAME_LIMIT || |stream| - 4 < total then None
      else
        var msg := stream[4..4 + total];
        Some(((ToInt32(FromBigEndian(msg[..4])), msg[4..]), stream[4 + total..]))
  }

  /** The requests a server dispatches, in order. */
  function Dispatched(stream: Bytes): seq<Request>
    decreases |stream|
  {
    match NextRequest(stream)
    case None => []
    case Some((r, rest)) => [r] + Dispatched(rest)
  }

  predicate WithinLimit(r: Request) {
    4 + |r.1| <= FRAME_LIMIT
  }

  lemma FrameLength(r: Request)
    ensures |IntBytes(r.0) + r.1| == 4 + |r.1| && |FrameBytes(r)| == 8 + |r.1|
  {
  }

  lemma FrameHead(r: Request, rest: Bytes)
    ensures var stream := FrameBytes(r) + rest;
            FromBigEndian(stream[..4]) == (4 + |r.1|) % TWO32 && stream[4..] == IntBytes(r.0) + r.1 + rest
  {
    hide BigEndian, FromBigEndian;
    FrameLength(r);
    Widths();
    BigEndianRoundTrip((4 + |r.1|) % TWO32, 4);
    assert (FrameBytes(r) + rest)[..4] == IntBytes(4 + |r.1|);
    assert (FrameBytes(r) + rest)[4..] == IntBytes(r.0) + r.1 + rest;
  }

  lemma FrameRead(r: Request, rest: Bytes)
    requires WithinLimit(r)
    ensures NextRequest(FrameBytes(r) + rest) == Some(((ToInt32(r.0), r.1), rest))
  {
    hide BigEndian, FromBigEndian, ToInt32;
    FrameHead(r, rest);
    FrameLength(r);
    var stream, total := FrameBytes(r) + rest, 4 + |r.1|;
    var msg := stream[4..4 + total];
    assert msg == stream[4..][..total] == IntBytes(r.0) + r.1;
    assert msg[..4] == IntBytes(r.0) && msg[4..] == r.1;
    assert stream[4 + total..] == stream[4..][total..] == rest;
    IntRead(r.0, []);
    assert IntBytes(r.0) + [] == IntBytes(r.0) && (IntBytes(r.0) + [])[..4] == IntBytes(r.0);
  }

  /** A frame beyond the limit is never read as the request it carries. */
  lemma OversizedFrame(r: Request, rest: Bytes)
    requires !WithinLimit(r)
    ensures NextRequest(FrameBytes(r) + rest).None? || NextRequest(FrameBytes(r) + rest).value.0 != r
  {
    hide BigEndian, FromBigEndian, ToInt32;
    FrameHead(r, rest);
    FrameLength(r);
  }

  lemma DispatchFirst(r: Request, rest: Bytes)
    requires WithinLimit(r) && IsInt32(r.0)
    ensures Dispatched(FrameBytes(r) + rest) == [r] + Dispatched(rest)
  {
    hide NextRequest, FrameBytes, ToInt32;
    FrameRead(r, rest);
    CastsFit(r.0);
  }

  /** The server dispatches exactly the requests that were sent, in order, and then what the rest holds. */
  lemma {:induction false} StreamDispatches(requests: seq<Request>, rest: Bytes)
    requires forall i :: 0 <= i < |requests| ==> WithinLimit(requests[i]) && IsInt32(requests[i].0)
    ensures Dispatched(Frames(requests) + rest) == requests + Dispatched(rest)
  {
    hide FrameBytes, Dispatched, WithinLimit, IsInt32;
    if requests == [] {
      assert [] + rest == rest && [] + Dispatched(rest) == Dispatched(rest);
    } else {
      var r, more := requests[0], requests[1..];
      assert Frames(requests) + rest == FrameBytes(r) + (Frames(more) + rest);
      DispatchFirst(r, Frames(more) + rest);
      StreamDispatches(more, rest);
      assert [r] + (more + Dispatched(rest)) == ([r] + more) + Dispatched(rest) && [r] + more == requests;
    }
  }

  lemma DispatchOversized(r: Request, rest: Bytes)
    requires !WithinLimit(r)
    ensures Dispatched(FrameBytes(r) + rest) == [] || Dispatched(FrameBytes(r) + rest)[0] != r
  {
    hide NextRequest, FrameBytes;
    OversizedFrame(r, rest);
  }

  /** All requests of a stream arrive exactly when each is within the limit. */
  lemma {:induction false} AllDispatchedIff(requests: seq<Request>)
    requires forall i :: 0 <= i < |requests| ==> IsInt32(requests[i].0)
    ensures Dispatched(Frames(requests)) == requests <==> forall i :: 0 <= i < |requests| ==> WithinLimit(requests[i])
  {
    hide FrameBytes, Dispatched, WithinLimit, IsInt32;
    if requests == [] {
      StreamDispatches([], []);
      assert Frames([]) + [] == [] && Dispatched([]) == [] by { NothingSent(); }
    } else {
      var r, more := requests[0], requests[1..];
      AllDispatchedIff(more);
      assert requests == [r] + more;
      if WithinLimit(r) {
        DispatchFirst(r, Frames(more));
        assert ([r] + Dispatched(Frames(more)))[1..] == Dispatched(Frames(more));
        assert forall i :: 0 <= i < |more| ==> more[i] == requests[i + 1];
        assert forall i :: 0 < i < |requests| ==> requests[i] == more[i - 1];
      } else {
        DispatchOversized(r, Frames(more));
      }
    }
  }

  /** A request is dispatched exactly when its frame holds no more than 64 MB: 67108864 bytes with the method number.
      */
  lemma FrameLimitIs(r: Request, rest: Bytes)
    requires IsInt32(r.0)
    ensures Dispatched(FrameBytes(r) + rest) == [r] + Dispatched(rest) ||
            Dispatched(FrameBytes(r) + rest) == [] || Dispatched(FrameBytes(r) + rest)[0] != r
    ensures |r.1| + 4 <= 67108864 ==> Dispatched(FrameBytes(r) + rest) == [r] + Dispatched(rest)
    ensures |r.1| + 4 == 67108865 ==> Dispatched(FrameBytes(r) + rest) == []
  {
    hide FrameBytes, IsInt32;
    if WithinLimit(r) { DispatchFirst(r, rest); } else { DispatchOversized(r, rest); }
    if |r.1| + 4 == 67108865 { OneByteMore(r, rest); }
  }

  lemma OneByteMore(r: Request, rest: Bytes)
    requires |r.1| + 4 == 67108865
    ensures NextRequest(FrameBytes(r) + rest) == None
  {
    hide FrameBytes, BigEndian, FromBigEndian, ToInt32;
    FrameHead(r, rest);
  }

  lemma NothingSent()
    ensures Dispatched([]) == []
  {
  }

  // ---- Replies --------------------------------------------------------------------------------------------

  type Handlers<!S> = map<int, (S, Bytes) -> (S, Bytes)>

  const UNKNOWN_METHOD := "unknown method"

  function Respond<S>(handlers: Handlers<S>, s: S, r: Request): (S, Bytes) {
    if r.0 in handlers then handlers[r.0](s, r.1) else (s, IntBytes(-1) + StringBytes(UNKNOWN_METHOD))
  }

  function ReplyBytes(resp: Bytes): Bytes {
    IntBytes(|resp|) + resp
  }

  /** The handlers' state after the requests, and everything sent back. */
  function Serve<S>(handlers: Handlers<S>, s: S, requests: seq<Request>): (S, Bytes) {
    if requests == [] then (s, [])
    else
      var (s1, resp) := Respond(handlers, s, requests[0]);
      var (s2, more) := Serve(handlers, s1, requests[1..]);
      (s2, ReplyBytes(resp) + more)
  }

  /** What CallRaw reads: no limit here. */
  function NextReply(stream: Bytes): Option<(Bytes, Bytes)> {
    if |stream| < 4 then None
    else
      var len := FromBigEndian(stream[..4]);
      if |stream| - 4 < len then None else Some((stream[4..4 + len], stream[4 + len..]))
  }

  lemma ReplyRoundTripIff(resp: Bytes, rest: Bytes)
    ensures NextReply(ReplyBytes(resp) + rest) == Some((resp, rest)) <==> |resp| < TWO32
  {
    hide BigEndian, FromBigEndian;
    Widths();
    BigEndianRoundTrip(|resp| % TWO32, 4);
    var stream := ReplyBytes(resp) + rest;
    assert stream[..4] == IntBytes(|resp|);
    if |resp| < TWO32 {
      assert stream[4..4 + |resp|] == resp && stream[4 + |resp|..] == rest;
    }
  }

  // ---- The connection -------------------------------------------------------------------------------------

  /** What a peer that takes `room` more bytes receives of b. */
  function Taken(b: Bytes, room: nat): Bytes {
    b[..if |b| < room then |b| else room]
  }

  /** One end of a connection: the bytes that will still arrive before it ends, the bytes sent, and how many more
      the peer takes before sending fails. */
  class Socket {
    var incoming: Bytes
    var outgoing: Bytes
    var room: nat

    constructor (incoming: Bytes, room: nat)
      ensures this.incoming == incoming && outgoing == [] && this.room == room
    {
      this.incoming, outgoing, this.room := incoming, [], room;
    }

    /** A short receive of any size; nothing at the end of the connection. */
    method Recv(max: nat) returns (chunk: Bytes)
      requires max > 0
      modifies `incoming
      ensures |chunk| <= max && old(incoming) == chunk + incoming
      ensures chunk == [] <==> old(incoming) == []
    {
      if incoming == [] { return []; }
      var n: nat :| 1 <= n <= |incoming| && n <= max;
      chunk, incoming := incoming[..n], incoming[n..];
    }

    /** A short send of any size, or the error code once the peer takes no more. */
    method Send(data: Bytes) returns (n: int)
      requires data != []
      modifies `outgoing, `room
      ensures n == -1 <==> old(room) == 0
      ensures n == -1 ==> outgoing == old(outgoing) && room == old(room)
      ensures n != -1 ==> 1 <= n <= |data| && n <= old(room) && outgoing == old(outgoing) + data[..n] &&
                          room == old(room) - n
    {
      if room == 0 { return -1; }
      n :| 1 <= n <= |data| && n <= room;
      outgoing, room := outgoing + data[..n], room - n;
    }
  }

  method ReadFull(fd: Socket, len: nat) returns (ok: bool, buf: Bytes)
    modifies fd`incoming
    ensures ok <==> |old(fd.incoming)| >= len
    ensures ok ==> buf == old(fd.incoming)[..len] && fd.incoming == old(fd.incoming)[len..]
    ensures !ok ==> fd.incoming == []
  {
    buf := [];
    var total := 0;
    while total < len
      invariant 0 <= total <= len && |buf| == total
      invariant old(fd.incoming) == buf + fd.incoming
    {
      var chunk := fd.Recv(len - total);
      if chunk == [] { return false, buf; }
      ghost var before := buf;
      buf := buf + chunk;
      assert before + (chunk + fd.incoming) == buf + fd.incoming;
      total := total + |chunk|;
    }
    ok := true;
  }

  method WriteFull(fd: Socket, data: Bytes) returns (ok: bool)
    modifies fd`outgoing, fd`room
    ensures ok <==> |data| <= old(fd.room)
    ensures fd.outgoing == old(fd.outgoing) + Taken(data, old(fd.room))
    ensures fd.room == old(fd.room) - |Taken(data, old(fd.room))|
  {
    var total := 0;
    while total < |data|
      invariant 0 <= total <= |data| && total <= old(fd.room)
      invariant fd.outgoing == old(fd.outgoing) + data[..total] && fd.room == old(fd.room) - total
    {
      var n := fd.Send(data[total..]);
      if n <= 0 { return false; }
      assert data[..total] + data[total..][..n] == data[..total + n];
      total := total + n;
    }
    ok := true;
  }

  // ---- The server -----------------------------------------------------------------------------------------

  /** Serving the requests while the peer takes the replies: a reply that is not taken whole ends the connection,
      after its request was handled. */
  function ServeWhile<S>(handlers: Handlers<S>, s: S, requests: seq<Request>, room: nat): (S, Bytes) {
    if requests == [] then (s, [])
    else
      var (s1, resp) := Respond(handlers, s, requests[0]);
      var frame := ReplyBytes(resp);
      if |frame| > room then (s1, Taken(frame, room))
      else
        var (s2, more) := ServeWhile(handlers, s1, requests[1..], room - |frame|);
        (s2, frame + more)
  }

  /** The peer receives a prefix of the full answer, and all of it exactly when there is room; then every request
      was handled. */
  lemma {:induction false} ServeWhilePrefix<S>(handlers: Handlers<S>, s: S, requests: seq<Request>, room: nat)
    ensures ServeWhile(handlers, s, requests, room).1 == Taken(Serve(handlers, s, requests).1, room)
    ensures |Serve(handlers, s, requests).1| <= room ==>
              ServeWhile(handlers, s, requests, room) == Serve(handlers, s, requests)
  {
    hide Respond, ReplyBytes;
    if requests != [] {
      var (s1, resp) := Respond(handlers, s, requests[0]);
      var frame := ReplyBytes(resp);
      var more := Serve(handlers, s1, requests[1..]).1;
      assert Serve(handlers, s, requests).1 == frame + more;
      if |frame| > room {
        assert (frame + more)[..room] == frame[..room];
      } else {
        ServeWhilePrefix(handlers, s1, requests[1..], room - |frame|);
        assert frame + Taken(more, room - |frame|) == Taken(frame + more, room);
      }
    }
  }

  class RpcServer<!S> {
    const handlers: Handlers<S>
    var state: S

    constructor (handlers: Handlers<S>, state: S)
      ensures this.handlers == handlers && this.state == state
    {
      this.handlers, this.state := handlers, state;
    }

    /** The handler registered for the method answers, or -1 and "unknown method". */
    method Answer(r: Request) returns (resp: Bytes)
      modifies this
      ensures (state, resp) == Respond(handlers, old(state), r)
      ensures r.0 in handlers ==> (state, resp) == handlers[r.0](old(state), r.1)
      ensures r.0 !in handlers ==>
        state == old(state) && resp == [255, 255, 255, 255, 0, 0, 0, 14] + Raw("unknown method")
    {
      hide IntBytes, StringBytes;
      if r.0 in handlers {
        var (next, data) := handlers[r.0](state, r.1);
        state, resp := next, data;
      } else {
        var out := new OutputBuffer();
        out.WriteInt(-1);
        out.WriteString(UNKNOWN_METHOD);
        assert [] + IntBytes(-1) == IntBytes(-1);
        resp := out.buffer;
        UnknownReply();
      }
    }

    /** Reads frames until the stream ends, one is refused, a reply cannot be sent, or the server is stopped: the loop
        finds it running at most `checks` times. `states` and `replies` are what the handlers make of the requests one
        after the other; the peer gets the replies as far as it takes them, and the first `handled` requests had their
        effect: all of them, or up to the first whose reply was not taken whole. */
    method HandleConnection(fd: Socket, checks: nat)
      returns (ghost states: seq<S>, ghost replies: seq<Bytes>, ghost handled: nat)
      modifies this, fd
      ensures var requests := AtMost(Dispatched(old(fd.incoming)), checks);
              Answers(handlers, old(state), requests, states, replies) &&
              handled <= |requests| && state == states[handled] &&
              fd.outgoing == old(fd.outgoing) + Taken(ReplyFrames(replies), old(fd.room)) &&
              (|ReplyFrames(replies)| <= old(fd.room) ==> handled == |requests|) &&
              (handled < |requests| ==> |ReplyFrames(replies[..handled])| > old(fd.room)) &&
              (handled > 0 ==> |ReplyFrames(replies[..handled - 1])| <= old(fd.room))
      ensures var requests := AtMost(Dispatched(old(fd.incoming)), checks);
              var (s, sent) := ServeWhile(handlers, old(state), requests, old(fd.room));
              state == s && fd.outgoing == old(fd.outgoing) + sent
    {
      hide Respond, ToInt32, FromBigEndian, ReplyBytes, NextRequest, ServeWhile, Taken, AtMost, Dispatched;
      ghost var whole := ServeWhile(handlers, state, AtMost(Dispatched(fd.incoming), checks), fd.room);
      assert fd.outgoing + whole.1 == old(fd.outgoing) + whole.1;
      states, replies, handled := ServedByHandlers(handlers, state, AtMost(Dispatched(fd.incoming), checks), fd.room);
      var left := checks;
      while left > 0
        invariant 0 <= left
        invariant ServeWhile(handlers, state, AtMost(Dispatched(fd.incoming), left), fd.room).0 == whole.0
        invariant fd.outgoing + ServeWhile(handlers, state, AtMost(Dispatched(fd.incoming), left), fd.room).1
               == old(fd.outgoing) + whole.1
      {
        ghost var stream, sent, room := fd.incoming, fd.outgoing, fd.room;
        assert sent + [] == sent;
        ServeNext(handlers, state, stream, room, left);
        NextRequestIs(stream);
        left := left - 1;
        var ok, head := ReadFull(fd, 4);
        if !ok { return; }
        var total := FromBigEndian(head);
        if total < 4 || total > FRAME_LIMIT { return; }
        var got, msg := ReadFull(fd, total);
        if !got { return; }
        assert stream[4..][..total] == stream[4..4 + total] && stream[4..][total..] == stream[4 + total..];
        var resp := Answer((ToInt32(FromBigEndian(msg[..4])), msg[4..]));
        var frame := IntBytes(|resp|) + resp;
        assert frame == ReplyBytes(resp) by { FrameOf(resp); }
        ok := WriteFull(fd, frame);
        if !ok { return; }
        assert Taken(frame, room) == frame by { AllTaken(frame, room); }
        ghost var more := ServeWhile(handlers, state, AtMost(Dispatched(fd.incoming), left), fd.room).1;
        assert sent + (frame + more) == (sent + frame) + more;
      }
      ServeNone(handlers, state, Dispatched(fd.incoming), fd.room);
      assert fd.outgoing + [] == fd.outgoing;
    }
  }

  lemma UnknownReply()
    ensures IntBytes(-1) + StringBytes(UNKNOWN_METHOD) == [255, 255, 255, 255, 0, 0, 0, 14] + Raw("unknown method")
  {
    IntBytesAre(-1);
    IntBytesAre(14);
    var s := UNKNOWN_METHOD;
    assert |s| == 14;
    assert IntBytes(-1) == [255, 255, 255, 255] && IntBytes(14) == [0, 0, 0, 14];
    assert [255, 255, 255, 255] + ([0, 0, 0, 14] + Raw(s)) == [255, 255, 255, 255, 0, 0, 0, 14] + Raw(s);
  }

  /** The requests are answered one after the other from state s on: each by its registered handler, which makes the
      next state and the reply, or by -1 and "unknown method" in the same state. */
  ghost predicate Answers<S>(handlers: Handlers<S>, s: S, requests: seq<Request>, states: seq<S>, replies: seq<Bytes>) {
    && |states| == |requests| + 1 && |replies| == |requests| && states[0] == s
    && forall i :: 0 <= i < |requests| ==>
         if requests[i].0 in handlers then
           (states[i + 1], replies[i]) == handlers[requests[i].0](states[i], requests[i].1)
         else
           states[i + 1] == states[i] && replies[i] == [255, 255, 255, 255, 0, 0, 0, 14] + Raw("unknown method")
  }

  function ReplyFrames(replies: seq<Bytes>): Bytes {
    if replies == [] then [] else IntBytes(|replies[0]|) + replies[0] + ReplyFrames(replies[1..])
  }

  lemma FirstAnswer<S>(handlers: Handlers<S>, s: S, requests: seq<Request>, states: seq<S>, replies: seq<Bytes>)
    requires requests != [] && |states| == |requests| + 1 && |replies| == |requests|
    requires states[0] == s && (states[1], replies[0]) == Respond(handlers, s, requests[0])
    requires Answers(handlers, states[1], requests[1..], states[1..], replies[1..])
    ensures Answers(handlers, s, requests, states, replies)
  {
    hide IntBytes, StringBytes, Raw;
    UnknownReply();
    forall i | 0 <= i < |requests|
      ensures if requests[i].0 in handlers then
                (states[i + 1], replies[i]) == handlers[requests[i].0](states[i], requests[i].1)
              else
                states[i + 1] == states[i] && replies[i] == [255, 255, 255, 255, 0, 0, 0, 14] + Raw("unknown method")
    {
      if i > 0 {
        assert requests[1..][i - 1] == requests[i];
        assert states[1..][i - 1] == states[i] && states[1..][i] == states[i + 1];
      }
    }
  }

  /** What the loop serves is what the handlers answer. */
  lemma {:induction false} ServedByHandlers<S>(handlers: Handlers<S>, s: S, requests: seq<Request>, room: nat)
    returns (states: seq<S>, replies: seq<Bytes>, handled: nat)
    ensures Answers(handlers, s, requests, states, replies) && handled <= |requests|
    ensures ServeWhile(handlers, s, requests, room) == (states[handled], Taken(ReplyFrames(replies), room))
    ensures |ReplyFrames(replies)| <= room ==> handled == |requests|
    ensures handled < |requests| ==> |ReplyFrames(replies[..handled])| > room
    ensures handled > 0 ==> |ReplyFrames(replies[..handled - 1])| <= room
  {
    hide IntBytes, Respond, Answers, Taken;
    if requests == [] {
      states, replies, handled := [s], [], 0;
      NoAnswers(handlers, s);
      assert Taken([], room) == [] by { AllTaken([], room); }
    } else {
      var (s1, resp) := Respond(handlers, s, requests[0]);
      var frame := ReplyBytes(resp);
      var left := if |frame| > room then 0 else room - |frame|;
      var laterStates, laterReplies, laterHandled := ServedByHandlers(handlers, s1, requests[1..], left);
      states, replies := [s] + laterStates, [resp] + laterReplies;
      AnswersShape(handlers, s1, requests[1..], laterStates, laterReplies);
      assert states[1..] == laterStates && replies[1..] == laterReplies;
      FirstAnswer(handlers, s, requests, states, replies);
      assert ReplyFrames(replies) == frame + ReplyFrames(laterReplies);
      if |frame| > room {
        handled := 1;
        TakenFirst(frame, ReplyFrames(laterReplies), room);
        OneFrame(replies);
        assert replies[..0] == [];
      } else {
        handled := laterHandled + 1;
        TakenRest(frame, ReplyFrames(laterReplies), room);
        FramesPrefix(replies, handled);
        if laterHandled > 0 { FramesPrefix(replies, handled - 1); } else { assert replies[..0] == []; }
      }
    }
  }

  lemma NoAnswers<S>(handlers: Handlers<S>, s: S)
    ensures Answers(handlers, s, [], [s], [])
  {
  }

  lemma AnswersShape<S>(handlers: Handlers<S>, s: S, requests: seq<Request>, states: seq<S>, replies: seq<Bytes>)
    requires Answers(handlers, s, requests, states, replies)
    ensures |states| == |requests| + 1 && |replies| == |requests| && states[0] == s
  {
  }

  lemma TakenFirst(a: Bytes, b: Bytes, room: nat)
    requires |a| > room
    ensures Taken(a + b, room) == Taken(a, room)
  {
  }

  lemma TakenRest(a: Bytes, b: Bytes, room: nat)
    requires |a| <= room
    ensures Taken(a + b, room) == a + Taken(b, room - |a|)
  {
  }

  lemma OneFrame(replies: seq<Bytes>)
    requires replies != []
    ensures ReplyFrames(replies[..1]) == ReplyBytes(replies[0])
  {
    assert replies[..1][1..] == [];
  }

  lemma FramesPrefix(replies: seq<Bytes>, n: nat)
    requires 1 <= n <= |replies|
    ensures ReplyFrames(replies[..n]) == ReplyBytes(replies[0]) + ReplyFrames(replies[1..][..n - 1])
  {
    assert replies[..n][1..] == replies[1..][..n - 1];
  }

  function AtMost(requests: seq<Request>, n: nat): seq<Request> {
    requests[..if |requests| < n then |requests| else n]
  }

  lemma ServeNone<S>(handlers: Handlers<S>, s: S, requests: seq<Request>, room: nat)
    ensures ServeWhile(handlers, s, AtMost(requests, 0), room) == (s, [])
  {
  }

  lemma FrameOf(resp: Bytes)
    ensures IntBytes(|resp|) + resp == ReplyBytes(resp)
  {
  }

  lemma AllTaken(b: Bytes, room: nat)
    requires |b| <= room
    ensures Taken(b, room) == b
  {
  }

  lemma NextRequestIs(stream: Bytes)
    ensures NextRequest(stream)
         == if |stream| < 4 then None
            else
              var total := FromBigEndian(stream[..4]);
              if total < 4 || total > FRAME_LIMIT || |stream| - 4 < total then None
              else
                var msg := stream[4..4 + total];
                Some(((ToInt32(FromBigEndian(msg[..4])), msg[4..]), stream[4 + total..]))
  {
  }

  lemma ServeNext<S>(handlers: Handlers<S>, s: S, stream: Bytes, room: nat, left: nat)
    requires left > 0
    ensures NextRequest(stream).None? ==> ServeWhile(handlers, s, AtMost(Dispatched(stream), left), room) == (s, [])
    ensures NextRequest(stream).Some? ==>
              var (r, rest) := NextRequest(stream).value;
              var (s1, resp) := Respond(handlers, s, r);
              var frame := ReplyBytes(resp);
              var later := AtMost(Dispatched(rest), left - 1);
              ServeWhile(handlers, s, AtMost(Dispatched(stream), left), room)
              == if |frame| > room then (s1, Taken(frame, room))
                 else (ServeWhile(handlers, s1, later, room - |frame|).0,
                       frame + ServeWhile(handlers, s1, later, room - |frame|).1)
  {
    hide Respond, ReplyBytes, Taken;
    if NextRequest(stream).Some? {
      var (r, rest) := NextRequest(stream).value;
      var all := AtMost(Dispatched(stream), left);
      assert Dispatched(stream) == [r] + Dispatched(rest);
      assert all[0] == r && all[1..] == AtMost(Dispatched(rest), left - 1);
    }
  }

  datatype CallResult = Reply(data: Bytes) | SendFailed | RecvFailed

  /** The client call: one frame out, one reply in. */
  method CallRaw(fd: Socket, methodId: int, payload: Bytes) returns (result: CallResult)
    modifies fd
    ensures fd.outgoing == old(fd.outgoing) + Taken(FrameBytes((methodId, payload)), old(fd.room))
    ensures if |FrameBytes((methodId, payload))| > old(fd.room) then result == SendFailed
            else
              match NextReply(old(fd.incoming))
              case None => result == RecvFailed
              case Some((data, rest)) => result == Reply(data) && fd.incoming == rest
  {
    hide IntBytes, FromBigEndian, Taken;
    ghost var stream := fd.incoming;
    var frame := new OutputBuffer();
    frame.WriteInt(methodId);
    frame.WriteRawBytes(payload);
    var outer := new OutputBuffer();
    outer.WriteInt(|frame.buffer|);
    outer.WriteRawBytes(frame.buffer);
    assert frame.buffer == IntBytes(methodId) + payload by { assert [] + IntBytes(methodId) == IntBytes(methodId); }
    assert outer.buffer == FrameBytes((methodId, payload)) by {
      assert [] + IntBytes(|frame.buffer|) == IntBytes(|frame.buffer|);
    }
    var ok := WriteFull(fd, outer.buffer);
    if !ok { return SendFailed; }
    var head;
    ok, head := ReadFull(fd, 4);
    if !ok { return RecvFailed; }
    var len := FromBigEndian(head);
    var data;
    ok, data := ReadFull(fd, len);
    if !ok { return RecvFailed; }
    assert stream[4..][..len] == stream[4..4 + len] && stream[4..][len..] == stream[4 + len..];
    result := Reply(data);
  }

  function NextReplies(n: nat, stream: Bytes): Option<(seq<Bytes>, Bytes)> {
    if n == 0 then Some(([], stream))
    else
      match NextReply(stream)
      case None => None
      case Some((resp, rest)) =>
        match NextReplies(n - 1, rest)
        case None => None
        case Some((more, end)) => Some(([resp] + more, end))
  }

  /** Any list of requests within the limit, whatever follows, is answered in order: if the peer takes everything, it
      reads back exactly what the handlers answer. */
  lemma AnsweredInOrder<S>(handlers: Handlers<S>, s: S, requests: seq<Request>, states: seq<S>, replies: seq<Bytes>,
                           room: nat, rest: Bytes)
    requires forall i :: 0 <= i < |requests| ==> WithinLimit(requests[i]) && IsInt32(requests[i].0)
    requires Answers(handlers, s, requests, states, replies)
    requires |ReplyFrames(replies)| <= room && forall i :: 0 <= i < |replies| ==> |replies[i]| < TWO32
    ensures Dispatched(Frames(requests)) == requests
    ensures ServeWhile(handlers, s, Dispatched(Frames(requests)), room) == (states[|requests|], ReplyFrames(replies))
    ensures NextReplies(|requests|, ReplyFrames(replies) + rest) == Some((replies, rest))
  {
    hide FrameBytes, Dispatched, WithinLimit, IsInt32, Respond, ReplyBytes, NextReply, Frames, ServeWhile, Answers,
         NextReplies, Taken;
    AllDispatchedIff(requests);
    var states', replies', handled := ServedByHandlers(handlers, s, requests, room);
    SameAnswers(handlers, s, requests, states, replies, states', replies');
    AllTaken(ReplyFrames(replies), room);
    AnswersShape(handlers, s, requests, states, replies);
    FramesRead(replies, rest);
  }

  /** The answers are determined by the handlers, the first state and the requests. */
  lemma {:induction false} SameAnswers<S>(handlers: Handlers<S>, s: S, requests: seq<Request>, states: seq<S>,
                                          replies: seq<Bytes>, states': seq<S>, replies': seq<Bytes>)
    requires Answers(handlers, s, requests, states, replies) && Answers(handlers, s, requests, states', replies')
    ensures states == states' && replies == replies'
  {
    hide Raw;
    SameStates(handlers, s, requests, states, replies, states', replies', |requests|);
    forall i | 0 <= i < |states| ensures states[i] == states'[i] {
      SameStates(handlers, s, requests, states, replies, states', replies', i);
    }
  }

  lemma {:induction false} SameStates<S>(handlers: Handlers<S>, s: S, requests: seq<Request>, states: seq<S>,
                                         replies: seq<Bytes>, states': seq<S>, replies': seq<Bytes>, n: nat)
    requires Answers(handlers, s, requests, states, replies) && Answers(handlers, s, requests, states', replies')
    requires n <= |requests|
    ensures states[n] == states'[n] && replies[..n] == replies'[..n]
  {
    hide Raw;
    if n > 0 {
      SameStates(handlers, s, requests, states, replies, states', replies', n - 1);
      assert (states[n - 1 + 1], replies[n - 1]) == (states'[n - 1 + 1], replies'[n - 1]);
      assert replies[..n] == replies[..n - 1] + [replies[n - 1]];
      assert replies'[..n] == replies'[..n - 1] + [replies'[n - 1]];
    }
  }

  lemma {:induction false} FramesRead(replies: seq<Bytes>, rest: Bytes)
    requires forall i :: 0 <= i < |replies| ==> |replies[i]| < TWO32
    ensures NextReplies(|replies|, ReplyFrames(replies) + rest) == Some((replies, rest))
  {
    hide NextReply, IntBytes;
    if replies == [] {
      assert [] + rest == rest;
    } else {
      var resp, more := replies[0], replies[1..];
      assert ReplyFrames(replies) + rest == ReplyBytes(resp) + (ReplyFrames(more) + rest);
      ReplyRoundTripIff(resp, ReplyFrames(more) + rest);
      FramesRead(more, rest);
      assert [resp] + more == replies;
    }
  }
}
