/** One call of a client, all the way through: encode, frame, handle, frame
    (libs/planten_9p/src/lib.rs:70-85, libs/planten_fs_ramfs/src/server.rs:55-117). */
module Calls {
  import opened Bytes
  import opened Codec
  import opened Frames
  import opened Messages
  import opened Server
  import opened Systems
  import opened History
  import opened Clients

  /** A client on one connection: the tag it uses next, the bytes that arrived and were not read, and the bytes it sent
      of which the server waits for the rest. */
  datatype Client = Client(nextTag: U16, unread: seq<Byte>, unserved: seq<Byte>)

  /** What a call leaves: the server, the client, and the frame the call got. */
  datatype Called = Called(s: System, client: Client, answer: Answer<RawMessage>)

  /** The loop of `handle_client` on what has arrived: the frames are handled in order, a cut one is waited for, and
      what is no frame ends the connection. */
  function Feed(h: Hasher, s: System, c: nat, now: U32, b: seq<Byte>): System
    decreases |b|
  {
    match ReadFrame(b)
    case Ok(m, rest) =>
      ReadIsFrame(b);
      Feed(h, Next(h, s, Receive(c, m, now)), c, now, rest)
    case Err(e) => if e == UnexpectedEof then s else Next(h, s, Hangup(c))
  }

  /** `send_and_wait` against connection `c` of the server: the request goes out as bytes and is read from them, the
      reply comes back as bytes behind what is unread. */
  function Call(h: Hasher, s: System, c: nat, now: U32, client: Client, msgType: Byte, body: seq<Byte>): Called {
    var input := client.unserved + BuildFrame(msgType, client.nextTag, body);
    var s' := Feed(h, s, c, now, input);
    Back(s, s', c, client, if c in s'.conns then Remainder(input) else [])
  }

  /** The client's half: the next frame of what was unread and what came. */
  function Back(s: System, s': System, c: nat, client: Client, unserved: seq<Byte>): Called {
    var arrived := client.unread + NewBytes(s, s', c);
    var p := ReadFrame(arrived);
    Called(s', Client(NextTag(client.nextTag), Behind(arrived), unserved), Await(client.nextTag, p))
  }

  /** What was sent on connection `c` in between. */
  function NewBytes(s: System, s': System, c: nat): seq<Byte> {
    if |Sent(s, c)| <= |Sent(s', c)| then Sent(s', c)[|Sent(s, c)|..] else []
  }

  /** The request the server gets from a call. */
  function Request(msgType: Byte, tag: U16, body: seq<Byte>): RawMessage {
    RawMessage((7 + |body|) % 0x1_0000_0000, msgType, tag, body)
  }

  /** The reply of a call came back whole, under its tag, and nothing stayed unread. */
  predicate Delivered(r: Called, tag: U16, reply: Reply) {
    && r.client.unread == [] && r.answer.Fine?
    && r.answer.value.tag == tag && r.answer.value.msgType == reply.msgType && r.answer.value.body == reply.body
  }

  /** Nothing is unread and nothing is waited for. */
  predicate Idle(client: Client) {
    client.unread == [] && client.unserved == []
  }

  /** Connection `c` is open and the client has read all that came. */
  ghost predicate Ready(s: System, c: nat, client: Client) {
    Inv(s) && c in s.conns && c in s.out && Idle(client)
  }

  // ---------------------------------------------------------------- feeding the server

  lemma FeedOne(h: Hasher, s: System, c: nat, now: U32, m: RawMessage, more: seq<Byte>)
    requires WellFormed(m)
    ensures Feed(h, s, c, now, FrameOf(m) + more) == Feed(h, Next(h, s, Receive(c, m, now)), c, now, more)
    ensures Remainder(FrameOf(m) + more) == Remainder(more)
  {
    hide ReadFrame, BuildFrame, Next;
    FrameIsRead(m.msgType, m.tag, m.body, more);
  }

  lemma FeedNothing(h: Hasher, s: System, c: nat, now: U32)
    ensures Feed(h, s, c, now, []) == s && Remainder([]) == [] && ReadFrame([]) == Err(UnexpectedEof)
  {
    hide Next;
  }

  /** A closed connection takes nothing. */
  lemma {:induction false} FeedClosed(h: Hasher, s: System, c: nat, now: U32, b: seq<Byte>)
    requires c !in s.conns
    ensures Feed(h, s, c, now, b) == s
    decreases |b|
  {
    hide ReadFrame, BuildFrame, Dispatch;
    assert s.conns - {c} == s.conns;
    if ReadFrame(b).Ok? {
      ReadIsFrame(b);
      FeedClosed(h, s, c, now, ReadFrame(b).rest);
    }
  }

  /** The output only grows. */
  lemma SentGrows(h: Hasher, s: System, step: Step, c: nat)
    ensures Sent(s, c) <= Sent(Next(h, s, step), c)
    ensures c in s.out ==> c in Next(h, s, step).out
  {
    hide Dispatch, BuildFrame;
  }

  /** However much is fed, the invariant and the other connections stay, the output grows, and while the connection
      stays open each frame has brought one. */
  lemma {:induction false} FeedKeeps(h: Hasher, s: System, c: nat, now: U32, b: seq<Byte>)
    ensures var s' := Feed(h, s, c, now, b);
            && (Inv(s) ==> Inv(s')) && (c in s.out ==> c in s'.out) && Sent(s, c) <= Sent(s', c)
            && (c in s'.conns ==> c in s.conns && |Sent(s', c)| >= |Sent(s, c)| + 7 * |ReadAll(b).0|)
    decreases |b|
  {
    hide ReadFrame, Next, Inv, Sent, BuildFrame;
    if ReadFrame(b).Ok? {
      var m, rest := ReadFrame(b).value, ReadFrame(b).rest;
      var step := Receive(c, m, now);
      ReadIsFrame(b);
      FeedKeeps(h, Next(h, s, step), c, now, rest);
      if Inv(s) { NextKeepsInv(h, s, step); }
      SentGrows(h, s, step, c);
      AnswerIsSent(h, s, c, m, now);
      ReadOne(b, m, rest);
    } else {
      if Inv(s) { NextKeepsInv(h, s, Hangup(c)); }
      SentGrows(h, s, Hangup(c), c);
      HungUp(h, s, c);
    }
  }

  lemma HungUp(h: Hasher, s: System, c: nat)
    ensures var s' := Next(h, s, Hangup(c));
            c !in s'.conns && s'.tree == s.tree && s'.conns == s.conns - {c} && Sent(s', c) == Sent(s, c)
  {
  }

  lemma AnswerIsSent(h: Hasher, s: System, c: nat, m: RawMessage, now: U32)
    ensures var s' := Next(h, s, Receive(c, m, now));
            c in s'.conns ==> c in s.conns && |Sent(s', c)| >= |Sent(s, c)| + 7
  {
    hide Dispatch, BuildFrame;
  }

  // ---------------------------------------------------------------- a call is a dispatch

  /** A request that fits its frame is one step of the server. */
  lemma CallIsStep(h: Hasher, s: System, c: nat, now: U32, client: Client, msgType: Byte, body: seq<Byte>)
    requires client.unserved == [] && |body| <= MAX_BODY
    ensures Call(h, s, c, now, client, msgType, body) ==
            Back(s, Next(h, s, Receive(c, Request(msgType, client.nextTag, body), now)), c, client, [])
  {
    hide Next, BuildFrame, Back, Feed, Remainder, ReadFrame;
    var m := Request(msgType, client.nextTag, body);
    FeedOne(h, s, c, now, m, []);
    FeedNothing(h, Next(h, s, Receive(c, m, now)), c, now);
    assert FrameOf(m) == BuildFrame(msgType, client.nextTag, body);
    assert FrameOf(m) + [] == client.unserved + FrameOf(m);
  }

  /** A call is one dispatch. Its reply is delivered exactly when the reply body is at most 2^32 - 8 bytes, and
      otherwise something stays unread; a body the server cannot decode gets no reply and loses the connection. */
  lemma CallIsDispatch(h: Hasher, s: System, c: nat, now: U32, client: Client, msgType: Byte, body: seq<Byte>)
    requires c in s.conns && Idle(client) && |body| <= MAX_BODY
    ensures var e := Dispatch(h, now, Request(msgType, client.nextTag, body), s.conns[c], s.tree);
            var r := Call(h, s, c, now, client, msgType, body);
            && r.s.tree == e.tree && r.client.nextTag == NextTag(client.nextTag) && r.client.unserved == []
            && (e.reply.Some? ==>
                  && r.s.conns == s.conns[c := e.fids]
                  && (Delivered(r, client.nextTag, e.reply.value) <==> |e.reply.value.body| <= MAX_BODY)
                  && (r.client.unread == [] <==> |e.reply.value.body| <= MAX_BODY))
            && (e.reply.None? ==>
                  r.s.conns == s.conns - {c} && r.client.unread == [] && r.answer == Failure(Lost(UnexpectedEof)))
  {
    hide Dispatch, ReadFrame, BuildFrame, Call;
    CallIsStep(h, s, c, now, client, msgType, body);
    var m := Request(msgType, client.nextTag, body);
    var e := Dispatch(h, now, m, s.conns[c], s.tree);
    var s' := Next(h, s, Receive(c, m, now));
    if e.reply.Some? {
      ReplyArrives(Sent(s, c), e.reply.value, client.nextTag);
      assert NewBytes(s, s', c) == BuildFrame(e.reply.value.msgType, client.nextTag, e.reply.value.body) by {
        TakeFirst(Sent(s, c), BuildFrame(e.reply.value.msgType, client.nextTag, e.reply.value.body));
      }
    } else {
      FeedNothing(h, s, c, now);
    }
    assert client.unread + NewBytes(s, s', c) == NewBytes(s, s', c);
  }

  lemma ReplyArrives(sent: seq<Byte>, reply: Reply, tag: U16)
    ensures var out := BuildFrame(reply.msgType, tag, reply.body);
            var p := ReadFrame(out);
            && |out| >= 7
            && (|reply.body| <= MAX_BODY ==> p == Ok(Message(reply.msgType, tag, reply.body), []))
            && (|reply.body| > MAX_BODY ==> p.Ok? ==> |p.value.body| <= MAX_BODY && p.rest != [])
  {
    hide ReadFrame, BuildFrame;
    var out := BuildFrame(reply.msgType, tag, reply.body);
    assert out + [] == out;
    if |reply.body| <= MAX_BODY {
      FrameIsRead(reply.msgType, tag, reply.body, []);
    } else if ReadFrame(out).Ok? {
      ReadIsFrame(out);
    }
  }

  // ---------------------------------------------------------------- what leaves a connection ready

  /** The call asks with a body that fits a frame, and not for more than a frame can bring. */
  predicate FairRequest(h: Hasher, s: System, c: nat, tag: U16, msgType: Byte, body: seq<Byte>) {
    c in s.conns ==> |body| <= MAX_BODY && !LongRead(h, Request(msgType, tag, body), s.conns[c], s.tree)
  }

  /** The call is fair and its request is answered. */
  predicate IsAnswered(h: Hasher, s: System, c: nat, now: U32, tag: U16, msgType: Byte, body: seq<Byte>) {
    && c in s.conns && FairRequest(h, s, c, tag, msgType, body)
    && Dispatch(h, now, Request(msgType, tag, body), s.conns[c], s.tree).reply.Some?
  }

  /** A call leaves a connection open, with nothing unread and nothing waited for, exactly when its request fits a
      frame, is answered, and is not a read that brings more than a frame can carry. */
  lemma CallLeavesReady(h: Hasher, s: System, c: nat, now: U32, client: Client, msgType: Byte, body: seq<Byte>)
    requires Ready(s, c, client)
    ensures var r := Call(h, s, c, now, client, msgType, body);
            Ready(r.s, c, r.client) <==> IsAnswered(h, s, c, now, client.nextTag, msgType, body)
  {
    hide Dispatch, ReadFrame, BuildFrame, Inv, LongRead, Feed, Remainder, NewBytes;
    if |body| <= MAX_BODY {
      CallIsDispatch(h, s, c, now, client, msgType, body);
      ReplyIsShort(h, s, c, now, Request(msgType, client.nextTag, body));
    } else {
      LongRequestIsNotServed(h, s, c, now, client, msgType, body);
    }
    CallKeeps(h, s, c, now, client, msgType, body);
  }

  lemma ReplyIsShort(h: Hasher, s: System, c: nat, now: U32, m: RawMessage)
    requires Inv(s) && c in s.conns
    ensures var e := Dispatch(h, now, m, s.conns[c], s.tree);
            e.reply.Some? ==> (|e.reply.value.body| <= MAX_BODY <==> !LongRead(h, m, s.conns[c], s.tree))
  {
    hide Dispatch, LongRead, TreeLaws.TreeOk, Effects.FidsOk;
    ReplyFits(h, now, m, s.conns[c], s.tree);
  }

  lemma CallKeeps(h: Hasher, s: System, c: nat, now: U32, client: Client, msgType: Byte, body: seq<Byte>)
    requires Inv(s) && c in s.out
    ensures var r := Call(h, s, c, now, client, msgType, body); Inv(r.s) && c in r.s.out
  {
    hide Feed, Inv, BuildFrame, ReadFrame, Remainder, NewBytes;
    FeedKeeps(h, s, c, now, client.unserved + BuildFrame(msgType, client.nextTag, body));
  }

  /** A frame with something behind it is not read to the end, even when its size field wraps. */
  lemma FrameWithMore(msgType: Byte, tag: U16, body: seq<Byte>, more: seq<Byte>)
    ensures var p := ReadFrame(BuildFrame(msgType, tag, body) + more); p.Ok? ==> |p.rest| >= |more|
  {
    FramePrefix(msgType, tag, body, more);
    var size := FrameSize(body);
    if size >= 7 {
      ReadParts(size, msgType, tag, body + more);
    } else {
      ParseU32Le(size, [msgType] + (U16Le(tag) + (body + more)));
    }
    hide BuildFrame, ParseU32, U32Le, U16Le;
  }

  /** A request that does not fit a frame loses the connection, or leaves something unread or waited for. */
  lemma LongRequestIsNotServed(h: Hasher, s: System, c: nat, now: U32, client: Client, msgType: Byte, body: seq<Byte>)
    requires c in s.conns && Idle(client) && |body| > MAX_BODY
    ensures var r := Call(h, s, c, now, client, msgType, body); c in r.s.conns ==> !Idle(r.client)
  {
    hide Dispatch, ReadFrame, BuildFrame, Next, Sent;
    var frame := BuildFrame(msgType, client.nextTag, body);
    assert client.unserved + frame == frame;
    ReplyArrives([], Reply(msgType, body), client.nextTag);
    if ReadFrame(frame).Ok? {
      var m, rest := ReadFrame(frame).value, ReadFrame(frame).rest;
      ReadIsFrame(frame);
      var s1, s' := Next(h, s, Receive(c, m, now)), Feed(h, s, c, now, frame);
      FeedKeeps(h, s1, c, now, rest);
      if c in s'.conns && Remainder(frame) == [] {
        SwallowsFrames(h, s1, c, now, rest);
        ReadOne(rest, ReadFrame(rest).value, ReadFrame(rest).rest);
        var reply := AnswerIsFrame(h, s, c, m, now);
        var more := Sent(s', c)[|Sent(s1, c)|..];
        assert client.unread + NewBytes(s, s', c) == BuildFrame(reply.msgType, m.tag, reply.body) + more;
        FrameWithMore(reply.msgType, m.tag, reply.body, more);
      }
    } else {
      HungUp(h, s, c);
    }
  }

  /** Bytes that leave the connection open and nothing to wait for begin with a frame. */
  lemma SwallowsFrames(h: Hasher, s: System, c: nat, now: U32, b: seq<Byte>)
    requires b != [] && c in Feed(h, s, c, now, b).conns && Remainder(b) == []
    ensures ReadFrame(b).Ok?
  {
    hide ReadFrame, Next;
    HungUp(h, s, c);
  }

  lemma AnswerIsFrame(h: Hasher, s: System, c: nat, m: RawMessage, now: U32) returns (reply: Reply)
    requires var s' := Next(h, s, Receive(c, m, now)); c in s.conns && c in s'.conns
    ensures Sent(Next(h, s, Receive(c, m, now)), c) == Sent(s, c) + BuildFrame(reply.msgType, m.tag, reply.body)
  {
    hide Dispatch, BuildFrame;
    reply := Dispatch(h, now, m, s.conns[c], s.tree).reply.value;
  }

  /** One fair call in any state, open or closed: its own reply, or the connection is lost. */
  lemma FairCall(h: Hasher, s: System, c: nat, now: U32, client: Client, msgType: Byte, body: seq<Byte>)
    requires Inv(s) && c in s.out && Idle(client) && FairRequest(h, s, c, client.nextTag, msgType, body)
    ensures var r := Call(h, s, c, now, client, msgType, body);
            && Inv(r.s) && c in r.s.out && r.client == Client(NextTag(client.nextTag), [], [])
            && (r.answer.Fine? ==> r.answer.value.tag == client.nextTag)
            && (r.answer.Failure? ==> r.answer.error == Lost(UnexpectedEof))
  {
    hide Dispatch, ReadFrame, BuildFrame, Inv, LongRead, Feed, Remainder;
    CallKeeps(h, s, c, now, client, msgType, body);
    if c in s.conns {
      CallIsDispatch(h, s, c, now, client, msgType, body);
      ReplyIsShort(h, s, c, now, Request(msgType, client.nextTag, body));
    } else {
      FeedClosed(h, s, c, now, client.unserved + BuildFrame(msgType, client.nextTag, body));
      FeedNothing(h, s, c, now);
      assert client.unread + NewBytes(s, s, c) == [];
    }
  }

  /** A call answered by `reply` leaves everything ready for the next. */
  ghost predicate Answered(s: System, c: nat, client: Client, r: Called, e: Effect) {
    && Ready(r.s, c, r.client) && r.client.nextTag == NextTag(client.nextTag)
    && r.s.tree == e.tree && r.s.conns == s.conns[c := e.fids]
    && e.reply.Some? && |e.reply.value.body| <= MAX_BODY
    && r.answer == Fine(Message(e.reply.value.msgType, client.nextTag, e.reply.value.body))
  }

  lemma AnsweredCall(h: Hasher, s: System, c: nat, now: U32, client: Client, msgType: Byte, body: seq<Byte>)
    requires Ready(s, c, client) && FairRequest(h, s, c, client.nextTag, msgType, body)
    requires Dispatch(h, now, Request(msgType, client.nextTag, body), s.conns[c], s.tree).reply.Some?
    ensures Answered(s, c, client, Call(h, s, c, now, client, msgType, body),
                     Dispatch(h, now, Request(msgType, client.nextTag, body), s.conns[c], s.tree))
  {
    hide Dispatch, Inv, Call, LongRead;
    FairCall(h, s, c, now, client, msgType, body);
    CallIsDispatch(h, s, c, now, client, msgType, body);
    ReplyIsShort(h, s, c, now, Request(msgType, client.nextTag, body));
    AnswerIsFramed(h, s, c, now, client, msgType, body);
  }

  /** What a call gets was read from a frame. */
  lemma AnswerIsFramed(h: Hasher, s: System, c: nat, now: U32, client: Client, msgType: Byte, body: seq<Byte>)
    ensures var a := Call(h, s, c, now, client, msgType, body).answer;
            a.Fine? ==> |a.value.body| <= MAX_BODY && a.value == Message(a.value.msgType, a.value.tag, a.value.body)
  {
    hide Feed, ReadFrame, BuildFrame, NewBytes, Remainder;
    var s' := Feed(h, s, c, now, client.unserved + BuildFrame(msgType, client.nextTag, body));
    var arrived := client.unread + NewBytes(s, s', c);
    if ReadFrame(arrived).Ok? { ReadIsFrame(arrived); }
  }
}
