/** Sessions of any length: a client's calls, and steps of others between them
    (libs/planten_9p/src/lib.rs:70-85). */
module Sessions {
  import opened Bytes
  import opened Paths
  import opened Stats
  import opened Tree
  import opened Codec
  import opened Frames
  import opened Messages
  import opened Server
  import opened Systems
  import opened History
  import opened Listing
  import opened Clients
  import opened Calls
  import opened EndToEnd

  /** What happens while a client is connected: its own calls, and steps of others. */
  datatype Item = Mine(msgType: Byte, body: seq<Byte>, now: U32) | Other(step: Step)

  datatype Session = Session(s: System, client: Client, answers: seq<Answer<RawMessage>>)

  function PlayItem(h: Hasher, x: Session, c: nat, item: Item): Session {
    match item
    case Mine(msgType, body, now) =>
      var r := Call(h, x.s, c, now, x.client, msgType, body);
      Session(r.s, r.client, x.answers + [r.answer])
    case Other(step) => x.(s := Next(h, x.s, step))
  }

  function Play(h: Hasher, x: Session, c: nat, items: seq<Item>): Session
    decreases items
  {
    if items == [] then x else PlayItem(h, Play(h, x, c, items[..|items| - 1]), c, items[|items| - 1])
  }

  /** The steps of others are those of other connections. */
  predicate OthersApart(c: nat, items: seq<Item>) {
    forall i :: 0 <= i < |items| && items[i].Other? ==> items[i].step.c != c
  }

  // ---------------------------------------------------------------- sessions that never go wrong

  predicate FairItem(h: Hasher, x: Session, c: nat, item: Item) {
    item.Mine? ==> FairRequest(h, x.s, c, x.client.nextTag, item.msgType, item.body)
  }

  predicate Fair(h: Hasher, x: Session, c: nat, items: seq<Item>)
    decreases items
  {
    items == [] || (Fair(h, x, c, items[..|items| - 1])
                    && FairItem(h, Play(h, x, c, items[..|items| - 1]), c, items[|items| - 1]))
  }

  /** A client can keep to this by itself: by asking for at most 2^32 - 12 bytes at a time. */
  lemma {:induction false} ModestIsFair(h: Hasher, x: Session, c: nat, items: seq<Item>)
    requires forall i :: 0 <= i < |items| && items[i].Mine? ==>
               |items[i].body| <= MAX_BODY && ModestRead(Request(items[i].msgType, 0, items[i].body))
    ensures Fair(h, x, c, items)
    decreases items
  {
    hide Play, SourceOf;
    if items != [] { ModestIsFair(h, x, c, items[..|items| - 1]); }
  }

  function CountMine(items: seq<Item>): nat
    decreases items
  {
    if items == [] then 0
    else CountMine(items[..|items| - 1]) + if items[|items| - 1].Mine? then 1 else 0
  }

  /** In fair sessions of any length, past any number of tag wraps and whatever other clients do in between, every call
      gets the reply to its own request or loses the connection: no tag ever mismatches and nothing stays unread.
      After n calls the tag is n modulo 65536 on. */
  lemma {:induction false} TagsNeverMismatch(h: Hasher, x: Session, c: nat, items: seq<Item>)
    requires Inv(x.s) && c in x.s.out && Idle(x.client) && x.answers == []
    requires OthersApart(c, items) && Fair(h, x, c, items)
    ensures var y := Play(h, x, c, items);
            && Inv(y.s) && c in y.s.out && Idle(y.client)
            && y.client.nextTag == (x.client.nextTag + CountMine(items)) % 0x1_0000
            && |y.answers| == CountMine(items)
            && forall i :: 0 <= i < |y.answers| ==>
                 && (y.answers[i].Fine? ==> y.answers[i].value.tag == (x.client.nextTag + i) % 0x1_0000)
                 && (y.answers[i].Failure? ==> y.answers[i].error == Lost(UnexpectedEof))
    decreases items
  {
    hide Inv, Next, Call, FairRequest;
    if items != [] {
      var init, item := items[..|items| - 1], items[|items| - 1];
      TagsNeverMismatch(h, x, c, init);
      var y := Play(h, x, c, init);
      if item.Mine? {
        FairCall(h, y.s, c, item.now, y.client, item.msgType, item.body);
      } else {
        NextKeepsInv(h, y.s, item.step);
        SentGrows(h, y.s, item.step, c);
      }
    }
  }

  // ---------------------------------------------------------------- exactly which ones stay ready

  /** Every call is fair, and its request is answered. */
  predicate AllAnswered(h: Hasher, x: Session, c: nat, items: seq<Item>)
    decreases items
  {
    items == [] || (AllAnswered(h, x, c, items[..|items| - 1])
                    && AnsweredItem(h, Play(h, x, c, items[..|items| - 1]), c, items[|items| - 1]))
  }

  predicate AnsweredItem(h: Hasher, x: Session, c: nat, item: Item) {
    item.Mine? ==> IsAnswered(h, x.s, c, item.now, x.client.nextTag, item.msgType, item.body)
  }

  /** After every item the connection is open, with nothing unread and nothing waited for. */
  ghost predicate StaysReady(h: Hasher, x: Session, c: nat, items: seq<Item>)
    decreases items
  {
    var y := Play(h, x, c, items);
    Ready(y.s, c, y.client) && (items != [] ==> StaysReady(h, x, c, items[..|items| - 1]))
  }

  /** A session stays ready all the way exactly when each of its requests fits a frame, is answered, and is not a read
      that brings more than a frame can carry. */
  lemma {:induction false} ReadyExactly(h: Hasher, x: Session, c: nat, items: seq<Item>)
    requires Ready(x.s, c, x.client) && OthersApart(c, items)
    ensures StaysReady(h, x, c, items) <==> AllAnswered(h, x, c, items)
    decreases items
  {
    hide Ready, Next, Call, IsAnswered;
    if items != [] {
      var init, item := items[..|items| - 1], items[|items| - 1];
      ReadyExactly(h, x, c, init);
      var y := Play(h, x, c, init);
      if AllAnswered(h, x, c, init) {
        ReadyItself(h, x, c, init);
        ReadyAfter(h, y, c, item);
      }
    }
  }

  lemma ReadyItself(h: Hasher, x: Session, c: nat, items: seq<Item>)
    requires StaysReady(h, x, c, items)
    ensures var y := Play(h, x, c, items); Ready(y.s, c, y.client)
  {
  }

  lemma ReadyAfter(h: Hasher, x: Session, c: nat, item: Item)
    requires Ready(x.s, c, x.client) && (item.Other? ==> item.step.c != c)
    ensures var y := PlayItem(h, x, c, item); Ready(y.s, c, y.client) <==> AnsweredItem(h, x, c, item)
  {
    hide Inv, Next, Call, IsAnswered;
    if item.Mine? {
      CallLeavesReady(h, x.s, c, item.now, x.client, item.msgType, item.body);
    } else {
      NextKeepsInv(h, x.s, item.step);
      SentGrows(h, x.s, item.step, c);
      OthersUntouched(h, x.s, item.step, c);
    }
  }

  // ---------------------------------------------------------------- one that goes wrong

  /** A read of 2^32 - 4 bytes: with its length field the body is 2^32 bytes long, and the frame says 7. */
  const WRAPPING: U32 := 0xFFFF_FFFC

  lemma WrappedFrame(tag: U16, chunk: seq<Byte>)
    requires |chunk| == WRAPPING
    ensures var body := U32Le(WRAPPING) + chunk;
            ReadFrame(BuildFrame(RREAD, tag, body)) == Ok(Message(RREAD, tag, []), body)
  {
    var body := U32Le(WRAPPING) + chunk;
    hide ToLe, U32Le, U16Le;
    assert FrameSize(body) == 7;
    ReadParts(7, RREAD, tag, body);
  }

  /** A read that brings so many bytes comes back with an empty body, and its payload stays unread. */
  lemma WrappedReply(h: Hasher, s: System, c: nat, now: U32, client: Client, fid: U32, offset: U64)
    requires Ready(s, c, client) && Readable(s.conns[c], fid) && SourceOf(h, s.tree, s.conns[c][fid].path).Data?
    ensures var chunk := Chunk(SourceOf(h, s.tree, s.conns[c][fid].path).bytes, offset, WRAPPING);
            var r := Call(h, s, c, now, client, TREAD, ReadBody(fid, offset, WRAPPING));
            |chunk| == WRAPPING ==>
              && r.answer == Fine(Message(RREAD, client.nextTag, []))
              && r.client == Client(NextTag(client.nextTag), U32Le(WRAPPING) + chunk, [])
  {
    hide Dispatch, Call, ReadBody, Inv, Chunk, SourceOf, ModeAllowsRead, BuildFrame, ReadFrame, ParseRead, U32Le;
    var m := Request(TREAD, client.nextTag, ReadBody(fid, offset, WRAPPING));
    var chunk := Chunk(SourceOf(h, s.tree, s.conns[c][fid].path).bytes, offset, WRAPPING);
    var out := BuildFrame(RREAD, client.nextTag, U32Le(WRAPPING) + chunk);
    ReadSize(fid, offset, WRAPPING);
    CallIsStep(h, s, c, now, client, TREAD, m.body);
    DispatchBranches(h, now, m, s.conns[c], s.tree);
    TreadIsChunk(h, s.conns[c], s.tree, fid, offset, WRAPPING);
    TakeFirst(Sent(s, c), out);
    assert client.unread + out == out;
    if |chunk| == WRAPPING { WrappedFrame(client.nextTag, chunk); }
  }

  /** A payload that stays unread is what the next call finds, whatever it asks: the length stands for a frame size and
      the bytes for type, tag and body. */
  lemma PayloadIsTaken(h: Hasher, s: System, c: nat, now: U32, client: Client, chunk: seq<Byte>, msgType: Byte,
      body: seq<Byte>)
    requires |chunk| == WRAPPING && client.unread == U32Le(WRAPPING) + chunk
    ensures var tag := ParseU16(chunk[1..3]).value;
            Call(h, s, c, now, client, msgType, body).answer ==
            if tag != client.nextTag then Failure(MismatchedTag)
            else Fine(RawMessage(WRAPPING, chunk[0], tag, chunk[3..WRAPPING - 4]))
  {
    hide Feed, Remainder, NewBytes, BuildFrame;
    var s' := Feed(h, s, c, now, client.unserved + BuildFrame(msgType, client.nextTag, body));
    PayloadAsFrame(chunk, NewBytes(s, s', c));
    hide ReadFrame, ParseU16, U32Le;
  }

  lemma PayloadAsFrame(chunk: seq<Byte>, more: seq<Byte>)
    requires |chunk| == WRAPPING
    ensures var tag, p := ParseU16(chunk[1..3]).value, ReadFrame(U32Le(WRAPPING) + chunk + more);
            p.Ok? && p.value == RawMessage(WRAPPING, chunk[0], tag, chunk[3..WRAPPING - 4])
  {
    var tag := ParseU16(chunk[1..3]).value;
    ParsedU16(chunk[1..3]);
    hide ParseU16, U32Le, U16Le, FromLe, ToLe;
    assert ParseU16(chunk[1..3]).rest == [];
    HeadOfPayload(chunk, tag, more);
    ReadParts(WRAPPING, chunk[0], tag, chunk[3..] + more);
    assert (chunk[3..] + more)[..WRAPPING - 7] == chunk[3..WRAPPING - 4];
  }

  lemma HeadOfPayload(chunk: seq<Byte>, tag: U16, more: seq<Byte>)
    requires |chunk| >= 3 && chunk[1..3] == U16Le(tag) + []
    ensures U32Le(WRAPPING) + chunk + more == U32Le(WRAPPING) + ([chunk[0]] + (U16Le(tag) + (chunk[3..] + more)))
  {
    hide U32Le, U16Le;
    assert chunk == [chunk[0]] + (chunk[1..3] + chunk[3..]);
  }

  /** A stat that changes only the length. */
  function Grown(length: U64): Stat {
    Stat(0, 0, Qid(0, 0, 0), KEEP32, 0, KEEP32, length, [], [], [], [])
  }

  lemma GrownFile(h: Hasher, tree: Inode, path: Str, length: U64)
    requires PlainFile(tree, path) && Find(tree, path).value.attr.data == [] && length < KEEP64
    ensures var changed := Wstat(tree, Components(path), Grown(length));
            changed.Some? && SourceOf(h, changed.value, path) == Data(Zeros(length))
  {
    hide Components, DirBytes;
    var p, stat := Components(path), Grown(length);
    var node := Lookup(tree, p).value;
    var sub := node.(attr := EditAttr(node.attr, stat));
    LookupLast(tree, p);
    Flat.EditIsReplace(tree, p, sub);
    LookupReplaced(tree, p, sub, p);
    assert p[|p|..] == [];
    assert [] + Zeros(length) == Zeros(length);
  }

  /** A session of three calls that goes wrong: on an empty file, open for reading and writing, a client sets the length
      to 2^32 - 4, reads it all, and whatever it then asks is answered with a mismatched tag. */
  lemma MismatchExample(h: Hasher, x: Session, c: nat, now: U32, fid: U32, msgType: Byte, body: seq<Byte>)
    requires Ready(x.s, c, x.client) && Readable(x.s.conns[c], fid) && x.answers == []
    requires PlainFile(x.s.tree, x.s.conns[c][fid].path)
    requires Find(x.s.tree, x.s.conns[c][fid].path).value.attr.data == []
    requires (x.client.nextTag + 2) % 0x1_0000 != 0
    ensures var items := [Mine(TWSTAT, WstatBody(fid, Grown(WRAPPING)), now),
                          Mine(TREAD, ReadBody(fid, 0, WRAPPING), now), Mine(msgType, body, now)];
            var answers := Play(h, x, c, items).answers;
            && |answers| == 3 && PlainAnswer(answers[0], RWSTAT) == Fine(())
            && ReadAnswer(answers[1]) == Failure(Lost(UnexpectedEof)) && answers[2] == Failure(MismatchedTag)
  {
    hide Call, Inv, WstatBody, ReadBody, SourceOf, PlainFile, ModeAllowsRead, PlainAnswer, Components, Wstat, Chunk,
      Arriving, StatFits, Find, ReadAnswer, U32Le;
    var stat, path := Grown(WRAPPING), x.s.conns[c][fid].path;
    var w := Call(h, x.s, c, now, x.client, TWSTAT, WstatBody(fid, stat));
    var r := Call(h, w.s, c, now, w.client, TREAD, ReadBody(fid, 0, WRAPPING));
    GrownFits();
    WstatCall(h, x.s, c, now, x.client, fid, stat);
    GrownFile(h, x.s.tree, path, WRAPPING);
    WholeChunk(WRAPPING);
    WrappedReply(h, w.s, c, now, w.client, fid, 0);
    EmptyRead(w.client.nextTag);
    NoTag(WRAPPING);
    PayloadIsTaken(h, r.s, c, now, r.client, Zeros(WRAPPING), msgType, body);
    CallTakesTag(h, x.s, c, now, x.client, TWSTAT, WstatBody(fid, stat));
    PlayThree(h, x, c, Mine(TWSTAT, WstatBody(fid, stat), now), Mine(TREAD, ReadBody(fid, 0, WRAPPING), now),
              Mine(msgType, body, now));
  }

  lemma GrownFits()
    ensures StatStringsValid(Grown(WRAPPING)) && StatFits(Grown(WRAPPING)) && StatIsWired(Grown(WRAPPING))
  {
  }

  lemma WholeChunk(n: U32)
    ensures Chunk(Zeros(n), 0, n) == Zeros(n) && |Zeros(n)| == n
  {
  }

  lemma EmptyRead(tag: U16)
    ensures ReadAnswer(Fine(Message(RREAD, tag, []))) == Failure(Lost(UnexpectedEof))
  {
  }

  lemma NoTag(n: nat)
    requires n >= 3
    ensures |Zeros(n)| == n && ParseU16(Zeros(n)[1..3]).value == 0
  {
    var b: seq<Byte> := [0, 0];
    assert Zeros(n)[1..3] == b && b[..2] == b;
    assert FromLe(b) == 0 by { assert b[1..] == [0]; }
  }

  lemma CallTakesTag(h: Hasher, s: System, c: nat, now: U32, client: Client, msgType: Byte, body: seq<Byte>)
    ensures Call(h, s, c, now, client, msgType, body).client.nextTag == NextTag(client.nextTag)
  {
    hide Feed, Remainder, BuildFrame, ReadFrame, NewBytes;
  }

  lemma PlayThree(h: Hasher, x: Session, c: nat, a: Item, b: Item, d: Item)
    ensures Play(h, x, c, [a, b, d]) == PlayItem(h, PlayItem(h, PlayItem(h, x, c, a), c, b), c, d)
  {
    hide PlayItem, Play;
    PlayNone(h, x, c);
    PlaySnoc(h, x, c, [], a);
    PlaySnoc(h, x, c, [a], b);
    PlaySnoc(h, x, c, [a, b], d);
    assert [] + [a] == [a] && [a] + [b] == [a, b] && [a, b] + [d] == [a, b, d];
  }

  lemma PlayNone(h: Hasher, x: Session, c: nat)
    ensures Play(h, x, c, []) == x
  {
  }

  lemma PlaySnoc(h: Hasher, x: Session, c: nat, items: seq<Item>, item: Item)
    ensures Play(h, x, c, items + [item]) == PlayItem(h, Play(h, x, c, items), c, item)
  {
    hide PlayItem;
    assert (items + [item])[..|items + [item]| - 1] == items;
  }
}
