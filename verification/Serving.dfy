/** Both ends as objects: a client's call against a connection of the server, and the server with all its connections
    over one tree (libs/planten_9p/src/lib.rs:76-85, libs/planten_fs_ramfs/src/server.rs:33-117). */
module Serving {
  import opened Bytes
  import opened Codec
  import opened Frames
  import opened Server
  import opened Shapes
  import opened RamFiles
  import opened Systems
  import opened History
  import opened Connections
  import opened Clients
  import opened Calls

  // ---------------------------------------------------------------- one call

  /** The server's side of a call: bytes arrive behind what it waits for, its loop takes the frames one by one, and the
      new output is picked up. */
  method Deliver(server: Connection, bytes: seq<Byte>, now: U32, ghost s: System, ghost c: nat)
    returns (reply: seq<Byte>)
    requires server.ramfs.Valid() && Shows(s, c, server.ramfs.Tree(), server.fids, server.sent)
    modifies server, server.ramfs, Nodes(server.ramfs.shape)
    ensures server.ramfs.Valid() && fresh(Nodes(server.ramfs.shape) - old(Nodes(server.ramfs.shape)))
    ensures var input := old(server.incoming) + bytes;
            var s' := Feed(server.hash, s, c, now, input);
            && server.ramfs.Tree() == s'.tree && server.sent == Sent(s', c) && reply == NewBytes(s, s', c)
            && (c in s'.conns ==> server.fids == s'.conns[c] && server.incoming == Remainder(input))
  {
    hide Nodes, Separate, Linked, Wired, Abs, ReadFrame, Next, Shows, Sent, Feed, Remainder;
    var before := |server.sent|;
    ShownOpen(s, c, server.ramfs.Tree(), server.fids, server.sent);
    server.incoming := server.incoming + bytes;
    ghost var input, s1 := server.incoming, s;
    FeedKeeps(server.hash, s, c, now, input);
    while true
      invariant server.ramfs.Valid() && fresh(Nodes(server.ramfs.shape) - old(Nodes(server.ramfs.shape)))
      invariant Shows(s1, c, server.ramfs.Tree(), server.fids, server.sent)
      invariant Feed(server.hash, s1, c, now, server.incoming) == Feed(server.hash, s, c, now, input)
      invariant Remainder(server.incoming) == Remainder(input)
      decreases |server.incoming|
    {
      var arrived := server.incoming;
      FeedStep(server.hash, s1, c, now, arrived);
      ShownOpen(s1, c, server.ramfs.Tree(), server.fids, server.sent);
      var request := server.Receive();
      if request.Raised? {
        if request.error == UnexpectedEof { server.incoming := arrived; }
        break;
      }
      var handled := server.HandleNext(request.value, now, s1, c);
      s1 := Next(server.hash, s1, Receive(c, request.value, now));
      if handled.Raised? {
        FeedClosed(server.hash, s1, c, now, server.incoming);
        break;
      }
    }
    reply := server.sent[before..];
  }

  lemma FeedStep(h: Hasher, s: System, c: nat, now: U32, b: seq<Byte>)
    ensures var p, s' := ReadFrame(b), Feed(h, s, c, now, b);
            if p.Ok? then
              && s' == Feed(h, Next(h, s, Receive(c, p.value, now)), c, now, p.rest)
              && Remainder(b) == Remainder(p.rest) && |p.rest| < |b|
            else
              && Remainder(b) == b && s'.tree == s.tree && Sent(s', c) == Sent(s, c)
              && (if p.error == UnexpectedEof then s' == s else c !in s'.conns)
  {
    hide ReadFrame, Next, BuildFrame;
    HungUp(h, s, c);
    if ReadFrame(b).Ok? { ReadIsFrame(b); }
  }

  /** One `send_and_wait`, the bytes carried from the client object to the server object and back, is one call. */
  method Carry(client: P9Client, server: Connection, msgType: Byte, body: seq<Byte>, now: U32, ghost s: System,
      ghost c: nat) returns (answer: Answer<RawMessage>)
    requires server.ramfs.Valid() && Shows(s, c, server.ramfs.Tree(), server.fids, server.sent)
    modifies client, server, server.ramfs, Nodes(server.ramfs.shape)
    ensures server.ramfs.Valid() && fresh(Nodes(server.ramfs.shape) - old(Nodes(server.ramfs.shape)))
    ensures var before := Client(old(client.nextTag), old(client.incoming), old(server.incoming));
            var r := Call(server.hash, s, c, now, before, msgType, body);
            && answer == r.answer && client.nextTag == r.client.nextTag && client.incoming == r.client.unread
            && server.ramfs.Tree() == r.s.tree && server.sent == Sent(r.s, c)
            && (c in r.s.conns ==> server.fids == r.s.conns[c] && server.incoming == r.client.unserved)
  {
    hide Nodes, Separate, Linked, Wired, Abs, ReadFrame, BuildFrame, Next, Shows, Sent, NewBytes, Feed, Remainder;
    var before := |client.written|;
    var tag := client.Send(msgType, body);
    var frame := client.written[before..];
    assert frame == BuildFrame(msgType, tag, body);
    var reply := Deliver(server, frame, now, s, c);
    client.incoming := client.incoming + reply;
    answer := client.Wait(tag);
  }

  // ---------------------------------------------------------------- the whole server

  /** `run_server`: one tree, and a connection for every client accepted, numbered as they came; some are open. */
  class FileServer {
    const ramfs: RamFs
    const hash: Hasher
    var conns: seq<Connection>
    var open: set<nat>
    /** What the objects hold, and the state of the transition system that this is. */
    ghost var fidsOf: seq<FidTable>
    ghost var sentOf: seq<seq<Byte>>
    ghost var state: System

    constructor (ramfs: RamFs, hash: Hasher)
      requires ramfs.Valid()
      ensures Valid() && this.ramfs == ramfs && this.hash == hash
      ensures conns == [] && state == System(ramfs.Tree(), map[], map[])
    {
      hide Nodes, Separate, Linked, Wired, Abs;
      this.ramfs := ramfs;
      this.hash := hash;
      conns := [];
      open := {};
      fidsOf := [];
      sentOf := [];
      state := System(ramfs.Tree(), map[], map[]);
    }

    ghost predicate Valid()
      reads this, conns, ramfs, Nodes(ramfs.shape)
    {
      ramfs.Valid() && ramfs.Tree() == state.tree && Held() && Matching(state, open, fidsOf, sentOf)
    }

    ghost predicate Held()
      reads this, conns
    {
      && |fidsOf| == |conns| && |sentOf| == |conns|
      && (forall c :: 0 <= c < |conns| ==>
            && conns[c].fids == fidsOf[c] && conns[c].sent == sentOf[c]
            && conns[c].ramfs == ramfs && conns[c].hash == hash)
      && (forall c, d :: 0 <= c < |conns| && 0 <= d < |conns| && c != d ==> conns[c] != conns[d])
    }

    /** The next client is accepted, with all it will ever send. */
    method Accept(input: seq<Byte>)
      requires Valid()
      modifies this`conns, this`open, this`fidsOf, this`sentOf, this`state
      ensures Valid() && state == Next(hash, old(state), Connect(|old(conns)|))
      ensures |conns| == |old(conns)| + 1 && conns[..|old(conns)|] == old(conns)
      ensures fresh(conns[|old(conns)|]) && conns[|old(conns)|].incoming == input
      ensures open == old(open) + {|old(conns)|}
    {
      hide Nodes, Separate, Linked, Wired, Abs, Next, Matching;
      AcceptStep(hash, state, open, fidsOf, sentOf);
      var connection := new Connection(ramfs, hash, input);
      open := open + {|conns|};
      state := Next(hash, state, Connect(|conns|));
      fidsOf, sentOf := fidsOf + [map[]], sentOf + [[]];
      conns := conns + [connection];
    }

    /** The thread of an open connection goes once around its loop. */
    method Turn(c: nat, now: U32) returns (ghost step: Step)
      requires Valid() && c in open && c < |conns|
      modifies this`open, this`fidsOf, this`sentOf, this`state, conns[c], ramfs, Nodes(ramfs.shape)
      ensures Valid() && fresh(Nodes(ramfs.shape) - old(Nodes(ramfs.shape)))
      ensures state == Next(hash, old(state), step) && step.c == c && !step.Connect?
      ensures open == if c in open then old(open) else old(open) - {c}
      ensures TurnOf(c, now, old(conns[c].incoming), step, conns[c].incoming, c in open)
    {
      hide Nodes, Separate, Linked, Wired, Abs, Next, Matching, TurnOf, Sent;
      MatchingAt(state, open, fidsOf, sentOf, c);
      var connection := conns[c];
      var goesOn;
      goesOn, step := Around(connection, now, state, c);
      TurnStep(hash, state, step, c, open, fidsOf, sentOf, connection.fids, connection.sent, goesOn);
      if !goesOn {
        open := open - {c};
      }
      fidsOf, sentOf := fidsOf[c := connection.fids], sentOf[c := connection.sent];
      state := Next(hash, state, step);
      assert Held();
    }

    /** The books: what each connection's input gave so far, and what is still to come. */
    ghost predicate Accounts(steps: seq<Step>, inputs: seq<seq<Byte>>)
      reads this, conns
    {
      && |inputs| == |conns| && (forall c: nat :: c >= |conns| ==> Requests(steps, c) == [])
      && forall c :: 0 <= c < |conns| ==> Accounted(steps, c, inputs[c], conns[c].incoming, c in open)
    }

    method ServeComing(input: seq<Byte>, ghost steps: seq<Step>, ghost inputs: seq<seq<Byte>>)
      returns (ghost steps': seq<Step>)
      requires Valid() && Accounts(steps, inputs)
      modifies this
      ensures Valid() && steps' == steps + [Connect(|old(conns)|)] && Accounts(steps', inputs + [input])
      ensures state == Next(hash, old(state), Connect(|old(conns)|))
      ensures |conns| == |old(conns)| + 1 && conns[..|old(conns)|] == old(conns) && fresh(conns[|old(conns)|])
    {
      hide Nodes, Separate, Linked, Wired, Abs, Next, Matching, Accounted, Requests;
      ghost var n, step := |conns|, Connect(|conns|);
      steps' := steps + [step];
      forall c: nat | c >= n ensures Requests(steps', c) == [] { RequestsSnoc(steps, step, c); }
      forall c | 0 <= c < n ensures Accounted(steps', c, inputs[c], conns[c].incoming, c in open) {
        OtherAccounted(steps, step, c, inputs[c], conns[c].incoming, c in open);
      }
      NewAccounted(steps', n, input);
      Accept(input);
      assert forall c :: 0 <= c < n ==> conns[c] == old(conns)[c];
    }

    method ServeRunning(c: nat, now: U32, ghost steps: seq<Step>, ghost inputs: seq<seq<Byte>>)
      returns (ghost steps': seq<Step>)
      requires Valid() && c in open && c < |conns| && Accounts(steps, inputs)
      modifies this, conns[c], ramfs, Nodes(ramfs.shape)
      ensures Valid() && fresh(Nodes(ramfs.shape) - old(Nodes(ramfs.shape))) && conns == old(conns)
      ensures Accounts(steps', inputs)
      ensures exists step :: steps' == steps + [step] && state == Next(hash, old(state), step)
    {
      hide Nodes, Separate, Linked, Wired, Abs, Next, Matching, Accounted, Requests, TurnOf;
      ghost var before := conns[c].incoming;
      var step := Turn(c, now);
      steps' := steps + [step];
      TurnAccounted(steps, c, now, inputs[c], before, step, conns[c].incoming, c in open);
      forall d: nat | d != c ensures Requests(steps', d) == Requests(steps, d) { OtherRequests(steps, step, d); }
      forall d | 0 <= d < |conns| && d != c ensures Accounted(steps', d, inputs[d], conns[d].incoming, d in open) {
        OtherAccounted(steps, step, d, inputs[d], conns[d].incoming, d in open);
      }
    }

    /** Clients come and threads run in any order: the objects end in the state of a run of the transition system, in
        which the requests of each connection are the first frames of its input, in order. */
    method Serve(events: seq<Event>) returns (ghost steps: seq<Step>)
      requires Valid() && conns == []
      modifies this, ramfs, Nodes(ramfs.shape)
      ensures Valid() && fresh(Nodes(ramfs.shape) - old(Nodes(ramfs.shape)))
      ensures state == Systems.Run(hash, old(state), steps)
      ensures |conns| == |Inputs(events)|
      ensures forall c :: 0 <= c < |conns| ==> Requests(steps, c) <= ReadAll(Inputs(events)[c]).0
    {
      hide Nodes, Separate, Linked, Wired, Abs, Next, Matching, Requests, Systems.Run, ReadAll, Inputs;
      steps := [];
      NothingYet(hash, state, events);
      for i := 0 to |events|
        invariant Valid() && fresh(Nodes(ramfs.shape) - old(Nodes(ramfs.shape)))
        invariant forall c :: 0 <= c < |conns| ==> fresh(conns[c])
        invariant state == Systems.Run(hash, old(state), steps)
        invariant Accounts(steps, Inputs(events[..i]))
      {
        InputsSnoc(events, i);
        ghost var before, past, inputs := state, steps, Inputs(events[..i]);
        match events[i]
        case Comes(input) =>
          steps := ServeComing(input, past, inputs);
          RunSnoc(hash, old(state), past, Connect(|conns| - 1));
        case Runs(c, now) =>
          assert inputs + [] == inputs;
          if c in open && c < |conns| {
            steps := ServeRunning(c, now, past, inputs);
            ghost var step :| steps == past + [step] && state == Next(hash, before, step);
            RunSnoc(hash, old(state), past, step);
          }
      }
      assert events[..|events|] == events;
    }
  }

  // ---------------------------------------------------------------- any schedule

  /** What happens next: a client comes, with all it will ever send, or the thread of one runs once. */
  datatype Event = Comes(input: seq<Byte>) | Runs(c: nat, now: U32)

  /** The inputs of the clients that came, in order. */
  function Inputs(events: seq<Event>): seq<seq<Byte>>
    decreases events
  {
    if events == [] then []
    else
      var last := events[|events| - 1];
      Inputs(events[..|events| - 1]) + if last.Comes? then [last.input] else []
  }

  /** The requests of a connection so far are the first frames of its input; while it is open the rest is to come. */
  predicate Accounted(steps: seq<Step>, c: nat, input: seq<Byte>, incoming: seq<Byte>, goesOn: bool) {
    && Requests(steps, c) <= ReadAll(input).0
    && (goesOn ==> ReadAll(input).0 == Requests(steps, c) + ReadAll(incoming).0)
  }

  lemma RequestsSnoc(steps: seq<Step>, step: Step, c: nat)
    ensures Requests(steps + [step], c) ==
            Requests(steps, c) + (if step.Receive? && step.c == c then [step.m] else [])
  {
    assert (steps + [step])[..|steps + [step]| - 1] == steps;
  }

  lemma RunSnoc(h: Hasher, s: System, steps: seq<Step>, step: Step)
    ensures Systems.Run(h, s, steps + [step]) == Next(h, Systems.Run(h, s, steps), step)
  {
    hide Next;
    assert (steps + [step])[..|steps + [step]| - 1] == steps;
  }

  lemma TurnAccounted(steps: seq<Step>, c: nat, now: U32, input: seq<Byte>, before: seq<Byte>, step: Step,
      after: seq<Byte>, goesOn: bool)
    requires Accounted(steps, c, input, before, true) && TurnOf(c, now, before, step, after, goesOn)
    ensures Accounted(steps + [step], c, input, after, goesOn)
  {
    hide ReadFrame, ReadAll, Requests;
    RequestsSnoc(steps, step, c);
    var past := Requests(steps, c);
    if step.Receive? {
      ReadOne(before, step.m, after);
      Regroup(past, [step.m], ReadAll(after).0);
    } else {
      assert past + [] == past;
    }
  }

  lemma OtherAccounted(steps: seq<Step>, step: Step, d: nat, input: seq<Byte>, incoming: seq<Byte>, goesOn: bool)
    requires Accounted(steps, d, input, incoming, goesOn) && (step.Receive? ==> step.c != d)
    ensures Accounted(steps + [step], d, input, incoming, goesOn)
  {
    hide ReadAll, Requests;
    RequestsSnoc(steps, step, d);
    assert Requests(steps, d) + [] == Requests(steps, d);
  }

  lemma OtherRequests(steps: seq<Step>, step: Step, d: nat)
    requires step.Receive? ==> step.c != d
    ensures Requests(steps + [step], d) == Requests(steps, d)
  {
    hide Requests;
    RequestsSnoc(steps, step, d);
    assert Requests(steps, d) + [] == Requests(steps, d);
  }

  lemma NewAccounted(steps: seq<Step>, c: nat, input: seq<Byte>)
    requires Requests(steps, c) == []
    ensures Accounted(steps, c, input, input, true)
  {
    hide ReadAll, Requests;
    assert [] + ReadAll(input).0 == ReadAll(input).0;
  }

  lemma NothingYet(h: Hasher, s: System, events: seq<Event>)
    ensures Systems.Run(h, s, []) == s && Inputs(events[..0]) == [] && forall c: nat :: Requests([], c) == []
  {
  }

  lemma InputsSnoc(events: seq<Event>, i: nat)
    requires i < |events|
    ensures Inputs(events[..i + 1]) ==
            Inputs(events[..i]) + if events[i].Comes? then [events[i].input] else []
  {
    assert events[..i + 1][..i] == events[..i];
  }

  // ---------------------------------------------------------------- matching the state

  /** The fid tables and outputs of the connections are those of the state. */
  ghost predicate Matching(s: System, open: set<nat>, fidsOf: seq<FidTable>, sentOf: seq<seq<Byte>>) {
    && |fidsOf| == |sentOf| && (forall c: nat :: c in s.out <==> c < |sentOf|)
    && (forall c :: c in open <==> c in s.conns)
    && (forall c :: c in open ==> c < |fidsOf| && fidsOf[c] == s.conns[c])
    && (forall c :: 0 <= c < |sentOf| ==> sentOf[c] == Sent(s, c))
  }

  lemma MatchingAt(s: System, open: set<nat>, fidsOf: seq<FidTable>, sentOf: seq<seq<Byte>>, c: nat)
    requires Matching(s, open, fidsOf, sentOf) && c in open
    ensures c < |fidsOf| == |sentOf| && c in s.conns && fidsOf[c] == s.conns[c] && sentOf[c] == Sent(s, c)
  {
  }

  lemma AcceptStep(h: Hasher, s: System, open: set<nat>, fidsOf: seq<FidTable>, sentOf: seq<seq<Byte>>)
    requires Matching(s, open, fidsOf, sentOf)
    ensures var c := |sentOf|;
            && Next(h, s, Connect(c)).tree == s.tree
            && Matching(Next(h, s, Connect(c)), open + {c}, fidsOf + [map[]], sentOf + [[]])
  {
    hide Dispatch, BuildFrame;
  }

  lemma TurnStep(h: Hasher, s: System, step: Step, c: nat, open: set<nat>, fidsOf: seq<FidTable>,
      sentOf: seq<seq<Byte>>, fids: FidTable, sent: seq<Byte>, goesOn: bool)
    requires Matching(s, open, fidsOf, sentOf) && c in open && c < |fidsOf| == |sentOf|
    requires step.c == c && !step.Connect?
    requires var s' := Next(h, s, step);
             sent == Sent(s', c) && (goesOn <==> c in s'.conns) && (goesOn ==> fids == s'.conns[c])
    ensures Matching(Next(h, s, step), if goesOn then open else open - {c}, fidsOf[c := fids], sentOf[c := sent])
  {
    hide Dispatch, BuildFrame;
  }

  /** A turn takes the next frame, or hangs up when there is none. */
  predicate TurnOf(c: nat, now: U32, before: seq<Byte>, step: Step, after: seq<Byte>, goesOn: bool) {
    var p := ReadFrame(before);
    if p.Ok? then step == Receive(c, p.value, now) && after == p.rest else step == Hangup(c) && !goesOn
  }

  /** One turn of the loop of `handle_client`: read a frame, handle it; the loop ends when either fails. */
  method Around(server: Connection, now: U32, ghost s: System, ghost c: nat) returns (goesOn: bool, ghost step: Step)
    requires server.ramfs.Valid() && c in s.conns
    requires server.ramfs.Tree() == s.tree && server.fids == s.conns[c] && server.sent == Sent(s, c)
    modifies server, server.ramfs, Nodes(server.ramfs.shape)
    ensures server.ramfs.Valid() && fresh(Nodes(server.ramfs.shape) - old(Nodes(server.ramfs.shape)))
    ensures step.c == c && !step.Connect?
    ensures TurnOf(c, now, old(server.incoming), step, server.incoming, goesOn)
    ensures var s' := Next(server.hash, s, step);
            && server.ramfs.Tree() == s'.tree && server.sent == Sent(s', c) && (goesOn <==> c in s'.conns)
            && (goesOn ==> server.fids == s'.conns[c])
  {
    hide Nodes, Separate, Linked, Wired, Abs, ReadFrame, Next, Sent;
    var message := server.Receive();
    if message.Raised? {
      NextHangsUp(server.hash, s, c);
      return false, Hangup(c);
    }
    step := Receive(c, message.value, now);
    var handled := server.HandleNext(message.value, now, s, c);
    goesOn := handled.Got?;
    if goesOn { ShownOpen(Next(server.hash, s, step), c, server.ramfs.Tree(), server.fids, server.sent); }
  }

  lemma NextHangsUp(h: Hasher, s: System, c: nat)
    ensures Next(h, s, Hangup(c)) == System(s.tree, s.conns - {c}, s.out)
    ensures Sent(Next(h, s, Hangup(c)), c) == Sent(s, c)
  {
  }
}
