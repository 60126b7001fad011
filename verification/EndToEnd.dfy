/** Client calls answered by a server that other connections use too: encode, frame, handle, frame, decode
    (libs/planten_9p/src/lib.rs:70-213, libs/planten_fs_ramfs/src/server.rs:55-117 and 232-465). */
module EndToEnd {
  import opened Bytes
  import opened Paths
  import opened Sorting
  import opened Stats
  import opened Tree
  import opened TreeLaws
  import opened Codec
  import opened Frames
  import opened Messages
  import opened Server
  import opened Walks
  import opened Effects
  import opened FileLog
  import opened Systems
  import opened History
  import opened Draining
  import opened Listing
  import opened Clients
  import opened Calls

  // ---------------------------------------------------------------- single calls

  /** The branches of the dispatch that the calls below take. */
  lemma DispatchBranches(h: Hasher, now: U32, m: RawMessage, fids: FidTable, tree: Inode)
    ensures var e := Dispatch(h, now, m, fids, tree);
            && (m.msgType == TWALK ==> e == HandleWalk(h, m.body, fids, tree))
            && (m.msgType == TOPEN ==> e == HandleOpen(h, m.body, fids, tree))
            && (m.msgType == TREAD ==> e == HandleRead(h, m.body, fids, tree))
            && (m.msgType == TWRITE ==> e == HandleWrite(now, m.body, fids, tree))
            && (m.msgType == TSTAT ==> e == HandleStat(h, m.body, fids, tree))
            && (m.msgType == TWSTAT ==> e == HandleWstat(m.body, fids, tree))
            && (m.msgType == TCREATE ==> e == HandleCreate(h, now, m.body, fids, tree))
  {
    hide HandleVersion, HandleAttach, HandleWalk, HandleOpen, HandleRead, HandleWrite, HandleWstat, HandleFlush,
      HandleRemove, HandleClunk, HandleStat, HandleClone, HandleCreate, HandleAuth, EncodeString;
  }

  /** An attach is granted. */
  lemma AttachCall(h: Hasher, s: System, c: nat, now: U32, client: Client, fid: U32, uname: Str, aname: Str)
    requires Ready(s, c, client) && WireName(uname) && WireName(aname)
    ensures var r := Call(h, s, c, now, client, TATTACH, AttachBody(fid, None, uname, aname));
            && Ready(r.s, c, r.client) && r.s.tree == s.tree && PlainAnswer(r.answer, RATTACH) == Fine(())
            && fid in r.s.conns[c] && r.s.conns[c][fid].path == ROOT
  {
    var body := AttachBody(fid, None, uname, aname);
    AttachSize(fid, uname, aname);
    ParseAttachBody(fid, None, uname, aname);
    hide Dispatch, Call, AttachBody, ParseAttach, Inv;
    AttachIsGranted(h, now, Request(TATTACH, client.nextTag, body), s.conns[c], s.tree);
    AnsweredCall(h, s, c, now, client, TATTACH, body);
  }

  lemma AttachSize(fid: U32, uname: Str, aname: Str)
    ensures |AttachBody(fid, None, uname, aname)| == 12 + |uname| + |aname|
  {
    hide ToLe;
  }

  lemma {:induction false} ParseEncodedQids(qids: seq<Qid>, rest: seq<Byte>)
    ensures ParseQids(EncodeQids(qids) + rest, |qids|) == Ok((), rest)
  {
    hide ParseQid, EncodeQid;
    if qids == [] {
      assert EncodeQids(qids) + rest == rest;
    } else {
      ParseEncodedQids(qids[1..], rest);
      ParseEncodedQid(qids[0], EncodeQids(qids[1..]) + rest);
      Regroup(EncodeQid(qids[0]), EncodeQids(qids[1..]), rest);
    }
  }

  lemma ParseEncodedWalkReply(qids: seq<Qid>)
    requires |qids| < 0x1_0000
    ensures ParseWalkReply(WalkReply(qids)) == Ok(|qids|, [])
  {
    hide ParseU16, U16Le, EncodeQids, ParseQids;
    ParseU16Le(|qids|, EncodeQids(qids));
    ParseEncodedQids(qids, []);
    assert EncodeQids(qids) + [] == EncodeQids(qids);
  }

  /** What a Twalk of ordinary names does, by the children of the base. */
  lemma WalkByChildren(h: Hasher, fid: U32, newfid: U32, names: seq<Str>, fids: FidTable, tree: Inode)
    requires fid in fids && Find(tree, fids[fid].path).Some?
    requires WireNames(names) && forall i :: 0 <= i < |names| ==> Ordinary(names[i])
    ensures var e := HandleWalk(h, WalkBody(fid, newfid, names), fids, tree);
            && e.reply.Some? && e.tree == tree
            && if Lookup(Find(tree, fids[fid].path).value, names).Some? then
                 && newfid in e.fids && e.fids == fids[newfid := e.fids[newfid]]
                 && Components(e.fids[newfid].path) == Components(fids[fid].path) + names
                 && e.reply.value.msgType == RWALK && ParseWalkReply(e.reply.value.body) == Ok(|names|, [])
               else e.fids == fids && e.reply.value.msgType == RERROR
  {
    hide HandleWalk, WalkNames, FinishWalk, Find, Lookup, WalkBody, Components, Ordinary, WireNames, ParseWalkReply,
      EncodeString, WalkReply;
    var base := fids[fid].path;
    HandleWalkIsNames(h, fid, newfid, names, fids, tree);
    WalkFollowsChildren(h, tree, base, [], names);
    WalkNamesEnds(h, tree, base, [], names);
    var w := WalkNames(h, tree, base, [], names);
    if w.Walked? {
      FinishedWalk(h, newfid, base, names, fids, tree);
      QidPerName(h, tree, base, names);
      NamesFit(names);
      ParseEncodedWalkReply(w.qids);
    }
  }

  lemma NamesFit(names: seq<Str>)
    requires WireNames(names)
    ensures |names| < 0x1_0000
  {
  }

  lemma QidPerName(h: Hasher, t: Inode, base: Str, names: seq<Str>)
    requires Find(t, base).Some? && WalkNames(h, t, base, [], names).Walked?
    ensures |WalkNames(h, t, base, [], names).qids| == |names|
  {
    WalkEndsSomewhere(h, t, base, [], names);
  }

  /** A walk along ordinary names reaches the node found child by child, or is refused with nothing changed. */
  lemma WalkCall(h: Hasher, s: System, c: nat, now: U32, client: Client, fid: U32, newfid: U32, names: seq<Str>)
    requires Ready(s, c, client) && fid in s.conns[c] && Find(s.tree, s.conns[c][fid].path).Some?
    requires WireNames(names) && forall i :: 0 <= i < |names| ==> Ordinary(names[i])
    requires |WalkBody(fid, newfid, names)| <= MAX_BODY
    ensures var r := Call(h, s, c, now, client, TWALK, WalkBody(fid, newfid, names));
            && Ready(r.s, c, r.client) && r.s.tree == s.tree
            && if Lookup(Find(s.tree, s.conns[c][fid].path).value, names).Some? then
                 && WalkAnswer(r.answer) == Fine(|names|)
                 && newfid in r.s.conns[c]
                 && Components(r.s.conns[c][newfid].path) == Components(s.conns[c][fid].path) + names
               else WalkAnswer(r.answer) == Failure(UnexpectedType) && r.s.conns == s.conns
  {
    hide Dispatch, HandleWalk, Call, WalkBody, Find, Lookup, Components, Inv, ParseWalkReply, WireNames, Ordinary;
    var body := WalkBody(fid, newfid, names);
    DispatchBranches(h, now, Request(TWALK, client.nextTag, body), s.conns[c], s.tree);
    WalkByChildren(h, fid, newfid, names, s.conns[c], s.tree);
    AnsweredCall(h, s, c, now, client, TWALK, body);
  }

  /** Opening an existing file: any mode is granted. */
  lemma OpenCall(h: Hasher, s: System, c: nat, now: U32, client: Client, fid: U32, mode: Byte)
    requires Ready(s, c, client) && fid in s.conns[c] && Find(s.tree, s.conns[c][fid].path).Some?
    ensures var r := Call(h, s, c, now, client, TOPEN, OpenBody(fid, mode));
            && Ready(r.s, c, r.client) && r.s.tree == s.tree && OpenAnswer(r.answer) == Fine(0)
            && fid in r.s.conns[c] && r.s.conns[c][fid].path == s.conns[c][fid].path
            && r.s.conns[c][fid].openMode == Some(mode)
  {
    hide Dispatch, HandleOpen, Call, OpenBody, Find, Inv, ParseOpenReply;
    var body := OpenBody(fid, mode);
    DispatchBranches(h, now, Request(TOPEN, client.nextTag, body), s.conns[c], s.tree);
    Opened(h, fid, mode, s.conns[c], s.tree);
    AnsweredCall(h, s, c, now, client, TOPEN, body);
  }

  lemma Opened(h: Hasher, fid: U32, mode: Byte, fids: FidTable, tree: Inode)
    requires fid in fids && Find(tree, fids[fid].path).Some?
    ensures |OpenBody(fid, mode)| == 5
    ensures var e := HandleOpen(h, OpenBody(fid, mode), fids, tree);
            && e.tree == tree && fid in e.fids
            && e.fids[fid].path == fids[fid].path && e.fids[fid].openMode == Some(mode)
            && e.reply.Some? && e.reply.value.msgType == ROPEN
            && ParseOpenReply(e.reply.value.body) == Ok(0, [])
  {
    ParseOpenBody(fid, mode);
    hide ParseOpen, Find, EncodeQid, U32Le, QidOf, ParseQid, ParseU32;
    ParseEncodedQid(QidOf(h, fids[fid].path, Find(tree, fids[fid].path).value.attr), U32Le(0));
    ParseFidBody(0);
  }

  /** The most bytes that one Twrite can bring: 2^32 - 24. */
  const MAX_DATA: nat := MAX_BODY - 16

  /** A write on a fid open for writing: the bytes land in the file, or nowhere if it is gone or the root. They all do,
      their number comes back and the connection stays ready, exactly when the request fits a frame. */
  lemma WriteCall(h: Hasher, s: System, c: nat, now: U32, client: Client, fid: U32, offset: U64, d: seq<Byte>)
    requires Ready(s, c, client) && fid in s.conns[c]
    requires s.conns[c][fid].openMode.Some? && ModeAllowsWrite(s.conns[c][fid].openMode.value)
    ensures var r := Call(h, s, c, now, client, TWRITE, WriteBody(fid, offset, d));
            var written := Tree.Write(s.tree, Components(s.conns[c][fid].path), offset, d, now);
            && (Ready(r.s, c, r.client) <==> |d| <= MAX_DATA)
            && (written.Some? ==> (WriteAnswer(r.answer) == Fine(|d|) <==> |d| <= MAX_DATA))
            && (|d| <= MAX_DATA ==>
                  && r.s.conns == s.conns && r.s.tree == (if written.Some? then written.value else s.tree)
                  && WriteAnswer(r.answer) == Fine(if written.Some? then |d| else 0))
  {
    hide Dispatch, Call, WriteBody, Inv, Tree.Write, Components, WriteAnswer, ModeAllowsWrite, Feed;
    WriteSize(fid, offset, d);
    if |d| <= MAX_DATA {
      FittingWrite(h, s, c, now, client, fid, offset, d);
    } else {
      LongRequestIsNotServed(h, s, c, now, client, TWRITE, WriteBody(fid, offset, d));
      LongWrite(h, s, c, now, client, fid, offset, d);
      var n := (23 + |d|) % 0x1_0000_0000;
      if n < 23 {
        NoCount(Failure(Lost(UnexpectedEof)));
      } else {
        FittingWrite(h, s, c, now, client, fid, offset, d[..n - 23]);
      }
    }
  }

  lemma NoCount(a: Answer<RawMessage>)
    requires a.Failure?
    ensures WriteAnswer(a).Failure?
  {
  }

  lemma FittingWrite(h: Hasher, s: System, c: nat, now: U32, client: Client, fid: U32, offset: U64, d: seq<Byte>)
    requires Ready(s, c, client) && fid in s.conns[c] && |d| <= MAX_DATA
    requires s.conns[c][fid].openMode.Some? && ModeAllowsWrite(s.conns[c][fid].openMode.value)
    ensures var r := Call(h, s, c, now, client, TWRITE, WriteBody(fid, offset, d));
            var written := Tree.Write(s.tree, Components(s.conns[c][fid].path), offset, d, now);
            && Ready(r.s, c, r.client) && r.s.conns == s.conns
            && r.s.tree == (if written.Some? then written.value else s.tree)
            && WriteAnswer(r.answer) == Fine(if written.Some? then |d| else 0)
  {
    hide Dispatch, HandleWrite, Call, WriteBody, FidBody, Inv, ParseU32, Tree.Write, Components;
    var body := WriteBody(fid, offset, d);
    DispatchBranches(h, now, Request(TWRITE, client.nextTag, body), s.conns[c], s.tree);
    Written(now, fid, offset, d, s.conns[c], s.tree);
    ParseFidBody(0);
    ParseFidBody(|d|);
    WriteSize(fid, offset, d);
    AnsweredCall(h, s, c, now, client, TWRITE, body);
  }

  lemma Written(now: U32, fid: U32, offset: U64, d: seq<Byte>, fids: FidTable, tree: Inode)
    requires fid in fids && |d| <= MAX_DATA
    requires fids[fid].openMode.Some? && ModeAllowsWrite(fids[fid].openMode.value)
    ensures var e := HandleWrite(now, WriteBody(fid, offset, d), fids, tree);
            var written := Tree.Write(tree, Components(fids[fid].path), offset, d, now);
            if written.Some? then e == Server.Answer(fids, written.value, RWRITE, FidBody(|d|))
            else e == Server.Answer(fids, tree, RWRITE, FidBody(0))
  {
    ParseWriteBody(fid, offset, d);
    hide WriteBody, ParseWrite, HandleWrite, FidBody, Tree.Write, Components, ModeAllowsWrite;
    WriteGranted(now, WriteBody(fid, offset, d), fid, offset, d, fids, tree);
  }

  lemma WriteGranted(now: U32, body: seq<Byte>, fid: U32, offset: U64, d: seq<Byte>, fids: FidTable, tree: Inode)
    requires ParseWrite(body) == Ok((fid, offset, d), []) && fid in fids && |d| < 0x1_0000_0000
    requires fids[fid].openMode.Some? && ModeAllowsWrite(fids[fid].openMode.value)
    ensures var e := HandleWrite(now, body, fids, tree);
            var written := Tree.Write(tree, Components(fids[fid].path), offset, d, now);
            if written.Some? then e == Server.Answer(fids, written.value, RWRITE, FidBody(|d|))
            else e == Server.Answer(fids, tree, RWRITE, FidBody(0))
  {
    hide ParseWrite, U32Le, Tree.Write, Components, Refuse, ModeAllowsWrite;
    assert |d| % 0x1_0000_0000 == |d|;
  }

  lemma WriteSize(fid: U32, offset: U64, d: seq<Byte>)
    ensures |WriteBody(fid, offset, d)| == 16 + |d|
  {
    hide ToLe;
  }

  /** The frame of a longer write is that of its first bytes, as many as its wrapped size field leaves room for, with
      the other bytes behind it. */
  lemma LongWriteFrame(tag: U16, fid: U32, offset: U64, d: seq<Byte>, k: nat)
    requires k == |d| % 0x1_0000_0000 && k <= MAX_DATA
    ensures BuildFrame(TWRITE, tag, WriteBody(fid, offset, d)) ==
            FrameOf(Request(TWRITE, tag, WriteBody(fid, offset, d[..k]))) + d[k..]
  {
    WriteSize(fid, offset, d);
    WriteSize(fid, offset, d[..k]);
    LongWriteBody(fid, offset, d, k);
    SizeWraps(|d|);
    hide WriteBody, BuildFrame;
    SameSizeField(TWRITE, tag, WriteBody(fid, offset, d[..k]), d[k..]);
  }

  lemma SameSizeField(msgType: Byte, tag: U16, body: seq<Byte>, more: seq<Byte>)
    requires FrameSize(body + more) == FrameSize(body)
    ensures BuildFrame(msgType, tag, body + more) == BuildFrame(msgType, tag, body) + more
  {
    hide FrameSize, U32Le, U16Le;
    FramePrefix(msgType, tag, body, more);
  }

  lemma SizeWraps(n: nat)
    ensures (16 + n) % 0x1_0000_0000 == (16 + n % 0x1_0000_0000) % 0x1_0000_0000
  {
  }

  lemma LongWriteBody(fid: U32, offset: U64, d: seq<Byte>, k: nat)
    requires k == |d| % 0x1_0000_0000 && k <= |d|
    ensures WriteBody(fid, offset, d) == WriteBody(fid, offset, d[..k]) + d[k..]
  {
    hide U32Le, U64Le;
    HeadThenData(U32Le(fid), U64Le(offset), U32Le(k), d, k);
  }

  lemma HeadThenData(a: seq<Byte>, b: seq<Byte>, c: seq<Byte>, d: seq<Byte>, k: nat)
    requires k <= |d|
    ensures a + (b + (c + d)) == (a + (b + (c + d[..k]))) + d[k..]
  {
    assert d == d[..k] + d[k..];
  }

  /** With no room for its sixteen fixed bytes, it is no frame or one that is not understood. */
  lemma CutWriteFrame(tag: U16, body: seq<Byte>)
    requires FrameSize(body) < 23 && |body| > 23
    ensures var p := ReadFrame(BuildFrame(TWRITE, tag, body));
            if p.Ok? then p.value.msgType == TWRITE && ParseWrite(p.value.body).Err? else p.error == InvalidData
  {
    var size := FrameSize(body);
    assert body + [] == body;
    if size >= 7 {
      ReadParts(size, TWRITE, tag, body);
      FewBytes(body[..size - 7]);
    } else {
      ParseU32Le(size, [TWRITE] + (U16Le(tag) + body));
    }
    hide U32Le, U16Le, ParseWrite, ParseU32;
  }

  lemma FewBytes(b: seq<Byte>)
    requires |b| < 16
    ensures ParseWrite(b).Err?
  {
    hide FromLe;
  }

  /** A write too long for a frame loses the connection, or is the write of its first bytes, as many as its length
      leaves modulo 2^32; the server takes the others for further requests. */
  lemma LongWrite(h: Hasher, s: System, c: nat, now: U32, client: Client, fid: U32, offset: U64, d: seq<Byte>)
    requires Ready(s, c, client) && |d| > MAX_DATA
    ensures var r := Call(h, s, c, now, client, TWRITE, WriteBody(fid, offset, d));
            var n := (23 + |d|) % 0x1_0000_0000;
            if n < 23 then c !in r.s.conns && r.s.tree == s.tree && r.answer == Failure(Lost(UnexpectedEof))
            else
              var k := n - 23;
              var w := Call(h, s, c, now, client, TWRITE, WriteBody(fid, offset, d[..k]));
              k == |d| % 0x1_0000_0000 && r.answer == w.answer && r.s == Feed(h, w.s, c, now, d[k..])
  {
    hide Ready, Call, WriteBody, Feed;
    if (23 + |d|) % 0x1_0000_0000 < 23 {
      CutWrite(h, s, c, now, client, fid, offset, d);
    } else {
      SplitWrite(h, s, c, now, client, fid, offset, d);
    }
  }

  lemma CutWrite(h: Hasher, s: System, c: nat, now: U32, client: Client, fid: U32, offset: U64, d: seq<Byte>)
    requires Ready(s, c, client) && |d| > MAX_DATA && (23 + |d|) % 0x1_0000_0000 < 23
    ensures var r := Call(h, s, c, now, client, TWRITE, WriteBody(fid, offset, d));
            c !in r.s.conns && r.s.tree == s.tree && r.answer == Failure(Lost(UnexpectedEof))
  {
    hide Dispatch, ReadFrame, BuildFrame, WriteBody, Inv, Feed, Next, Remainder, NewBytes, ParseWrite;
    var body := WriteBody(fid, offset, d);
    WriteSize(fid, offset, d);
    assert client.unserved + BuildFrame(TWRITE, client.nextTag, body) == BuildFrame(TWRITE, client.nextTag, body);
    CutWriteFrame(client.nextTag, body);
    CutWriteIsLost(h, s, c, now, BuildFrame(TWRITE, client.nextTag, body));
    FeedNothing(h, s, c, now);
    assert client.unread + [] == [];
  }

  lemma SplitWrite(h: Hasher, s: System, c: nat, now: U32, client: Client, fid: U32, offset: U64, d: seq<Byte>)
    requires Ready(s, c, client) && |d| > MAX_DATA && (23 + |d|) % 0x1_0000_0000 >= 23
    ensures var r := Call(h, s, c, now, client, TWRITE, WriteBody(fid, offset, d));
            var k := (23 + |d|) % 0x1_0000_0000 - 23;
            var w := Call(h, s, c, now, client, TWRITE, WriteBody(fid, offset, d[..k]));
            k == |d| % 0x1_0000_0000 && r.answer == w.answer && r.s == Feed(h, w.s, c, now, d[k..])
  {
    hide Dispatch, ReadFrame, BuildFrame, WriteBody, Ready, Feed, Next, Remainder, NewBytes, FrameOf, Behind;
    var k := (23 + |d|) % 0x1_0000_0000 - 23;
    var frame := BuildFrame(TWRITE, client.nextTag, WriteBody(fid, offset, d));
    LongWriteFrame(client.nextTag, fid, offset, d, k);
    NothingWaits(s, c, client, frame);
    FirstAnswerCounts(h, s, c, now, client, fid, offset, d[..k], d[k..]);
  }

  lemma NothingWaits(s: System, c: nat, client: Client, frame: seq<Byte>)
    requires Ready(s, c, client)
    ensures client.unserved + frame == frame
  {
  }

  lemma CutWriteIsLost(h: Hasher, s: System, c: nat, now: U32, frame: seq<Byte>)
    requires c in s.conns
    requires var p := ReadFrame(frame);
             if p.Ok? then p.value.msgType == TWRITE && ParseWrite(p.value.body).Err? else p.error == InvalidData
    ensures var s' := Feed(h, s, c, now, frame); c !in s'.conns && s'.tree == s.tree && NewBytes(s, s', c) == []
  {
    hide ReadFrame, ParseWrite, BuildFrame;
    HungUp(h, s, c);
    if ReadFrame(frame).Ok? {
      var m := ReadFrame(frame).value;
      var s1 := Next(h, s, Receive(c, m, now));
      DispatchBranches(h, now, m, s.conns[c], s.tree);
      hide Dispatch;
      assert c !in s1.conns && s1.tree == s.tree;
      FeedClosed(h, s1, c, now, ReadFrame(frame).rest);
    }
  }

  /** What follows an answered write on the wire does not change its answer. */
  lemma FirstAnswerCounts(h: Hasher, s: System, c: nat, now: U32, client: Client, fid: U32, offset: U64,
      d: seq<Byte>, more: seq<Byte>)
    requires Ready(s, c, client) && |d| <= MAX_DATA
    ensures var m := Request(TWRITE, client.nextTag, WriteBody(fid, offset, d));
            var w := Call(h, s, c, now, client, TWRITE, WriteBody(fid, offset, d));
            var s' := Feed(h, s, c, now, FrameOf(m) + more);
            && s' == Feed(h, w.s, c, now, more)
            && Await(client.nextTag, ReadFrame(client.unread + NewBytes(s, s', c))) == w.answer
  {
    hide Dispatch, ReadFrame, BuildFrame, WriteBody, Inv, Feed, Next, Remainder;
    var m := Request(TWRITE, client.nextTag, WriteBody(fid, offset, d));
    WriteSize(fid, offset, d);
    FeedOne(h, s, c, now, m, more);
    CallIsStep(h, s, c, now, client, TWRITE, WriteBody(fid, offset, d));
    WriteIsAnswered(h, s, c, now, client, fid, offset, d);
    var s1, s' := Next(h, s, Receive(c, m, now)), Feed(h, s, c, now, FrameOf(m) + more);
    SentGrows(h, s, Receive(c, m, now), c);
    FeedKeeps(h, s1, c, now, more);
    var later := Sent(s', c)[|Sent(s1, c)|..];
    assert client.unread + NewBytes(s, s', c) == (client.unread + NewBytes(s, s1, c)) + later;
    ReadAhead(client.unread + NewBytes(s, s1, c), later);
  }

  lemma WriteIsAnswered(h: Hasher, s: System, c: nat, now: U32, client: Client, fid: U32, offset: U64, d: seq<Byte>)
    requires Ready(s, c, client) && |d| <= MAX_DATA
    ensures Call(h, s, c, now, client, TWRITE, WriteBody(fid, offset, d)).answer.Fine?
  {
    hide Dispatch, Call, WriteBody, Inv, ParseWrite, Tree.Write, Components, Refuse, ModeAllowsWrite, ParseU32;
    var m := Request(TWRITE, client.nextTag, WriteBody(fid, offset, d));
    WriteSize(fid, offset, d);
    ParseWriteBody(fid, offset, d);
    DispatchBranches(h, now, m, s.conns[c], s.tree);
    WriteAnswers(now, m.body, s.conns[c], s.tree);
    AnsweredCall(h, s, c, now, client, TWRITE, WriteBody(fid, offset, d));
  }

  lemma WriteAnswers(now: U32, body: seq<Byte>, fids: FidTable, tree: Inode)
    requires ParseWrite(body).Ok?
    ensures HandleWrite(now, body, fids, tree).reply.Some?
  {
    hide ParseWrite, Tree.Write, Components, ModeAllowsWrite, EncodeString, U32Le;
  }

  /** A read on a fid open for reading brings the chunk of the file's bytes and changes nothing, exactly when the chunk
      fits a frame. */
  lemma ReadCall(h: Hasher, s: System, c: nat, now: U32, client: Client, fid: U32, offset: U64, count: U32)
    requires Ready(s, c, client) && Readable(s.conns[c], fid)
    requires SourceOf(h, s.tree, s.conns[c][fid].path).Data?
    ensures var r := Call(h, s, c, now, client, TREAD, ReadBody(fid, offset, count));
            var chunk := Chunk(SourceOf(h, s.tree, s.conns[c][fid].path).bytes, offset, count);
            && r.s.conns == s.conns && r.s.tree == s.tree
            && (ReadAnswer(r.answer) == Fine(chunk) <==> |chunk| <= MAX_COUNT)
            && (|chunk| <= MAX_COUNT ==> Ready(r.s, c, r.client))
  {
    hide Dispatch, HandleRead, Call, ReadBody, Inv, Chunk, SourceOf, ParsePayload, ParseRead, ModeAllowsRead;
    var body := ReadBody(fid, offset, count);
    var chunk := Chunk(SourceOf(h, s.tree, s.conns[c][fid].path).bytes, offset, count);
    ParseReadBody(fid, offset, count);
    ReadSize(fid, offset, count);
    DispatchBranches(h, now, Request(TREAD, client.nextTag, body), s.conns[c], s.tree);
    TreadIsChunk(h, s.conns[c], s.tree, fid, offset, count);
    ChunkSize(SourceOf(h, s.tree, s.conns[c][fid].path).bytes, offset, count);
    CallIsDispatch(h, s, c, now, client, TREAD, body);
    AnswerIsFramed(h, s, c, now, client, TREAD, body);
    if |chunk| <= MAX_COUNT {
      AnsweredCall(h, s, c, now, client, TREAD, body);
      PayloadIsRead(chunk);
    } else {
      PayloadIsInBody(Call(h, s, c, now, client, TREAD, body).answer);
    }
  }

  lemma PayloadIsInBody(a: Answer<RawMessage>)
    ensures ReadAnswer(a).Fine? ==> a.Fine? && 4 + |ReadAnswer(a).value| <= |a.value.body|
  {
    hide FromLe;
  }

  lemma PayloadIsRead(chunk: seq<Byte>)
    requires |chunk| < 0x1_0000_0000
    ensures ParsePayload(U32Le(|chunk|) + chunk) == Ok(chunk, [])
  {
    hide ParseU32, U32Le;
    ParseU32Le(|chunk|, chunk);
    assert chunk[..|chunk|] == chunk && chunk[|chunk|..] == [];
  }

  lemma ReadSize(fid: U32, offset: U64, count: U32)
    ensures |ReadBody(fid, offset, count)| == 16
  {
    hide ToLe;
  }

  /** A stat comes back as the server made it exactly when its strings total at most 65488 bytes. */
  lemma StatCall(h: Hasher, s: System, c: nat, now: U32, client: Client, fid: U32)
    requires Ready(s, c, client) && fid in s.conns[c] && Find(s.tree, s.conns[c][fid].path).Some?
    ensures var r := Call(h, s, c, now, client, TSTAT, FidBody(fid));
            var path := s.conns[c][fid].path;
            var stat := StatOf(h, path, Find(s.tree, path).value.attr);
            && Ready(r.s, c, r.client) && r.s.conns == s.conns && r.s.tree == s.tree
            && (StatAnswer(r.answer) == Fine(stat) <==> StringBytes(stat) <= 65488)
  {
    hide Dispatch, HandleStat, Call, FidBody, Inv, Find, EncodeStat, StatOf, StringBytes, StatAnswer;
    FidBodySize(fid);
    DispatchBranches(h, now, Request(TSTAT, client.nextTag, FidBody(fid)), s.conns[c], s.tree);
    StatIsSent(h, fid, s.conns[c], s.tree);
    AnsweredCall(h, s, c, now, client, TSTAT, FidBody(fid));
    FoundStatIsValid(h, s, s.conns[c][fid].path);
    StatArrives(StatOf(h, s.conns[c][fid].path, Find(s.tree, s.conns[c][fid].path).value.attr), client.nextTag);
  }

  lemma FidBodySize(fid: U32)
    ensures |FidBody(fid)| == 4
  {
  }

  lemma StatIsSent(h: Hasher, fid: U32, fids: FidTable, tree: Inode)
    requires fid in fids && Find(tree, fids[fid].path).Some?
    ensures var stat := StatOf(h, fids[fid].path, Find(tree, fids[fid].path).value.attr);
            HandleStat(h, FidBody(fid), fids, tree) == Server.Answer(fids, tree, RSTAT, EncodeStat(stat))
  {
    ParseFidBody(fid);
    hide FidBody, ParseU32, Find, EncodeStat, StatOf, Refuse;
  }

  lemma StatArrives(stat: Stat, tag: U16)
    requires StatStringsValid(stat) && |EncodeStat(stat)| <= MAX_BODY
    ensures StatAnswer(Fine(Message(RSTAT, tag, EncodeStat(stat)))) == Fine(stat) <==> StringBytes(stat) <= 65488
  {
    StatRoundTrip(stat, []);
    DecodedStatFits(EncodeStat(stat));
    hide EncodeStat, ParseStat, StringBytes;
    assert EncodeStat(stat) + [] == EncodeStat(stat);
  }

  lemma FoundStatIsValid(h: Hasher, s: System, path: Str)
    requires Inv(s) && Find(s.tree, path).Some?
    ensures StatStringsValid(StatOf(h, path, Find(s.tree, path).value.attr))
  {
    assert NodeOk(Components(path), At(s.tree, Components(path)).value);
  }

  /** What the server makes of a stat that the client encodes. */
  function Arriving(stat: Stat): Option<Stat> {
    match ParseStat(EncodeStat(stat)) case Err(_) => None case Ok(arrived, _) => Some(arrived)
  }

  /** The stat itself, exactly when it fits its size field; and nothing when only the sum of its strings is too much. */
  lemma ArrivesExactly(stat: Stat)
    requires StatStringsValid(stat)
    ensures Arriving(stat) == Some(stat) <==> StatFits(stat)
    ensures StatIsWired(stat) && !StatFits(stat) ==> Arriving(stat) == None
  {
    assert EncodeStat(stat) + [] == EncodeStat(stat);
    StatRoundTrip(stat, []);
    DecodedStatFits(EncodeStat(stat));
    hide EncodeStat, ParseStat;
    if StatIsWired(stat) && !StatFits(stat) {
      assert EncodeStat(stat)[..|EncodeStat(stat)|] == EncodeStat(stat);
      OversizedIsShort(stat, [], |EncodeStat(stat)|);
    }
  }

  /** A wstat does to the tree exactly what the tree operation does with the stat that arrives, or is refused with the
      tree unchanged. The stat that arrives is the client's exactly when that fits; one whose strings each fit their
      fields, and not together, is refused. The connection stays ready exactly when the request fits a frame. */
  lemma WstatCall(h: Hasher, s: System, c: nat, now: U32, client: Client, fid: U32, stat: Stat)
    requires Ready(s, c, client) && fid in s.conns[c] && StatStringsValid(stat)
    ensures var r := Call(h, s, c, now, client, TWSTAT, WstatBody(fid, stat));
            var fits := |WstatBody(fid, stat)| <= MAX_BODY;
            var arriving := Arriving(stat);
            var path := Components(s.conns[c][fid].path);
            var changed := if arriving.Some? then Wstat(s.tree, path, arriving.value) else None;
            && (Ready(r.s, c, r.client) <==> fits) && (StatIsWired(stat) ==> fits)
            && (fits ==>
                  && r.s.conns == s.conns && r.s.tree == (if changed.Some? then changed.value else s.tree)
                  && PlainAnswer(r.answer, RWSTAT) == if changed.Some? then Fine(()) else Failure(UnexpectedType))
            && (arriving == Some(stat) <==> StatFits(stat))
            && (StatIsWired(stat) && !StatFits(stat) ==> arriving == None)
  {
    hide Dispatch, HandleWstat, Call, Inv, WstatBody, Wstat, Components, EncodeStat, Arriving, StatFits;
    var body := WstatBody(fid, stat);
    WstatSize(fid, stat);
    ArrivesExactly(stat);
    DispatchBranches(h, now, Request(TWSTAT, client.nextTag, body), s.conns[c], s.tree);
    ArrivingIsSet(fid, stat, s.conns[c], s.tree);
    CallLeavesReady(h, s, c, now, client, TWSTAT, body);
    if |body| <= MAX_BODY { AnsweredCall(h, s, c, now, client, TWSTAT, body); }
  }

  lemma ArrivingIsSet(fid: U32, stat: Stat, fids: FidTable, tree: Inode)
    requires fid in fids
    ensures var e, arriving := HandleWstat(WstatBody(fid, stat), fids, tree), Arriving(stat);
            var changed := if arriving.Some? then Wstat(tree, Components(fids[fid].path), arriving.value) else None;
            && e.reply.Some? && e.fids == fids && e.tree == (if changed.Some? then changed.value else tree)
            && e.reply.value.msgType == if changed.Some? then RWSTAT else RERROR
  {
    hide ParseU32, U32Le, EncodeStat, ParseStat, ErrorText, EncodeString, Wstat, Components;
    ParseU32Le(fid, EncodeStat(stat));
  }

  lemma WstatSize(fid: U32, stat: Stat)
    ensures StatIsWired(stat) ==> |WstatBody(fid, stat)| <= MAX_BODY
  {
    StatFieldsSize(stat);
    hide StatFields, ToLe;
  }

  // ---------------------------------------------------------------- a name with a slash

  /** On a fresh tree, three requests lead to a file that no path string names: a Tcreate of "x" in the root, a Twalk to
      it and a Twstat to "a/b". All three are granted. */
  lemma SlashTakesThreeRequests(h: Hasher, now: U32, fids: FidTable, tag: U16, fid: U32, newfid: U32, perm: U32,
      mode: Byte, stat: Stat)
    requires fid in fids && fids[fid].path == ROOT && !IsDirMode(perm)
    requires OnlyRenames(stat) && stat.name == Text("a/b") && StatStringsValid(stat) && StatFits(stat)
    ensures var x := Text("x");
            var create := Dispatch(h, now, Request(TCREATE, tag, CreateBody(fid, x, perm, mode)), fids, NewRoot(now));
            var walk := Dispatch(h, now, Request(TWALK, tag, WalkBody(fid, newfid, [x])), create.fids, create.tree);
            var wstat := Dispatch(h, now, Request(TWSTAT, tag, WstatBody(newfid, stat)), walk.fids, walk.tree);
            && create.reply.Some? && create.reply.value.msgType == RCREATE
            && walk.reply.Some? && walk.reply.value.msgType == RWALK
            && wstat.reply.Some? && wstat.reply.value.msgType == RWSTAT
            && wstat.tree == RenamedToSlash(now)
  {
    var x := Text("x");
    hide Dispatch, CreateBody, WalkBody, WstatBody, HandleCreate, HandleWalk, HandleWstat, Wstat, Make, NewRoot,
      Components, StatFits, StatStringsValid, Arriving, RenamedToSlash;
    var tree := Make(NewRoot(now), [x], File([]), now);
    DispatchBranches(h, now, Request(TCREATE, tag, CreateBody(fid, x, perm, mode)), fids, NewRoot(now));
    CreateX(h, now, fids, fid, perm, mode);
    DispatchBranches(h, now, Request(TWALK, tag, WalkBody(fid, newfid, [x])), fids, tree);
    WalkToX(h, now, fids, fid, newfid);
    var walk := HandleWalk(h, WalkBody(fid, newfid, [x]), fids, tree);
    DispatchBranches(h, now, Request(TWSTAT, tag, WstatBody(newfid, stat)), walk.fids, tree);
    ArrivesExactly(stat);
    ArrivingIsSet(newfid, stat, walk.fids, tree);
    SlashTakesTwoOperations(now, stat);
  }

  lemma NameX()
    ensures var x := Text("x"); Ordinary(x) && WireName(x) && WireNames([x])
    ensures ResolveStep(ROOT, Text("x")).Some? && Components(ResolveStep(ROOT, Text("x")).value) == [Text("x")]
  {
    var x := Text("x");
    assert |x| == 1 && x[0] == 0x78;
    Utf8.AsciiIsValid(x);
    ResolveStepRefines(ROOT, x);
    ComponentsOfRoot();
    ComponentsOfName(x);
    hide ResolveStep, Components;
    assert [] + [x] == [x];
  }

  lemma CreateX(h: Hasher, now: U32, fids: FidTable, fid: U32, perm: U32, mode: Byte)
    requires fid in fids && fids[fid].path == ROOT && !IsDirMode(perm)
    ensures var e := HandleCreate(h, now, CreateBody(fid, Text("x"), perm, mode), fids, NewRoot(now));
            && e.fids == fids && e.tree == Make(NewRoot(now), [Text("x")], File([]), now)
            && e.reply.Some? && e.reply.value.msgType == RCREATE
  {
    NameX();
    ParseCreateBody(fid, Text("x"), perm, mode);
    hide ParseCreate, CreateBody, ResolveStep, Components, Make, EncodeQid, U32Le, QidOf;
  }

  lemma WalkToX(h: Hasher, now: U32, fids: FidTable, fid: U32, newfid: U32)
    requires fid in fids && fids[fid].path == ROOT
    ensures var tree := Make(NewRoot(now), [Text("x")], File([]), now);
            var e := HandleWalk(h, WalkBody(fid, newfid, [Text("x")]), fids, tree);
            && e.tree == tree && e.reply.Some? && e.reply.value.msgType == RWALK
            && newfid in e.fids && Components(e.fids[newfid].path) == [Text("x")]
  {
    var x := Text("x");
    var tree := Make(NewRoot(now), [x], File([]), now);
    NameX();
    ComponentsOfRoot();
    RootIsFound(tree);
    var p := [x];
    assert p[0] == x && p[1..] == [];
    RootIsFound(tree.children[x]);
    assert Lookup(tree, p).Some?;
    hide Components, Make, Lookup, HandleWalk, WalkBody, WireNames, Ordinary;
    WalkByChildren(h, fid, newfid, [x], fids, tree);
    assert [] + [x] == [x];
  }

  // ---------------------------------------------------------------- writing, then reading

  /** A file whose data a read brings: it exists, is not the root and is not marked as a directory. */
  predicate PlainFile(tree: Inode, path: Str) {
    Components(path) != [] && Find(tree, path).Some? && !IsDirMode(Find(tree, path).value.attr.mode)
  }

  /** What a write puts at its offset is what a read of as many bytes finds there. */
  lemma WrittenIsRead(h: Hasher, tree: Inode, path: Str, offset: nat, d: seq<Byte>, now: U32)
    requires PlainFile(tree, path)
    ensures var written := Tree.Write(tree, Components(path), offset, d, now);
            && written.Some? && PlainFile(written.value, path)
            && SourceOf(h, written.value, path) ==
               Data(WriteData(Find(tree, path).value.attr.data, offset, d))
            && Chunk(WriteData(Find(tree, path).value.attr.data, offset, d), offset, |d|) == d
  {
    hide Components;
    var p := Components(path);
    var node := Find(tree, path).value;
    LookupReplaced(tree, p, node.(attr := WriteAttr(node.attr, offset, d, now)), p);
    assert p[|p|..] == [];
    ChunkOfWritten(node.attr.data, offset, d);
  }

  lemma ChunkOfWritten(data: seq<Byte>, offset: nat, d: seq<Byte>)
    ensures Chunk(WriteData(data, offset, d), offset, |d|) == d
  {
  }

  /** On an existing file that a fid has open for reading and writing, a write and then a read of as many bytes at the
      same offset, both through the wire, give the bytes back, exactly when the write fits a frame. */
  lemma WriteThenRead(h: Hasher, s: System, c: nat, now: U32, client: Client, fid: U32, offset: U64, d: seq<Byte>)
    requires Ready(s, c, client) && Readable(s.conns[c], fid) && ModeAllowsWrite(s.conns[c][fid].openMode.value)
    requires PlainFile(s.tree, s.conns[c][fid].path) && |d| < 0x1_0000_0000
    ensures var w := Call(h, s, c, now, client, TWRITE, WriteBody(fid, offset, d));
            var r := Call(h, w.s, c, now, w.client, TREAD, ReadBody(fid, offset, |d|));
            && (WriteAnswer(w.answer) == Fine(|d|) && ReadAnswer(r.answer) == Fine(d) <==> |d| <= MAX_DATA)
            && (|d| <= MAX_DATA ==> Ready(r.s, c, r.client))
  {
    hide Call, Inv, WriteBody, ReadBody, Chunk, SourceOf, PlainFile, Tree.Write, WriteData, Components, WriteAnswer,
      ReadAnswer, ModeAllowsWrite, ModeAllowsRead;
    WrittenIsRead(h, s.tree, s.conns[c][fid].path, offset, d, now);
    WriteCall(h, s, c, now, client, fid, offset, d);
    var w := Call(h, s, c, now, client, TWRITE, WriteBody(fid, offset, d));
    if |d| <= MAX_DATA { ReadCall(h, w.s, c, now, w.client, fid, offset, |d|); }
  }

  /** Steps of other connections leave this one ready, with the fids it had. */
  lemma {:induction false} OthersRun(h: Hasher, s: System, c: nat, client: Client, steps: seq<Step>)
    requires Ready(s, c, client) && forall i :: 0 <= i < |steps| ==> steps[i].c != c
    ensures Ready(Run(h, s, steps), c, client) && Run(h, s, steps).conns[c] == s.conns[c]
    decreases steps
  {
    hide Inv, Next;
    if steps != [] {
      var init, step := steps[..|steps| - 1], steps[|steps| - 1];
      OthersRun(h, s, c, client, init);
      NextKeepsInv(h, Run(h, s, init), step);
      SentGrows(h, Run(h, s, init), step, c);
      OthersUntouched(h, Run(h, s, init), step, c);
    }
  }

  /** No edit of the log touches a byte of the range. */
  predicate Apart(log: seq<Edit>, offset: nat, n: nat) {
    forall j, i :: 0 <= j < |log| && offset <= i < offset + n ==> !Touches(log[j], i)
  }

  lemma RangeIsKept(data: seq<Byte>, offset: nat, d: seq<Byte>, log: seq<Edit>)
    requires Apart(log, offset, |d|)
    ensures Chunk(ApplyLog(WriteData(data, offset, d), log), offset, |d|) == d
  {
    hide ApplyLog, WriteData, Apart, Touches;
    var end := ApplyLog(WriteData(data, offset, d), log);
    if d != [] {
      ByteIsKept(data, offset, d, log, |d| - 1);
      forall i | 0 <= i < |d| ensures end[offset + i] == d[i] {
        ByteIsKept(data, offset, d, log, i);
      }
      assert end[offset..offset + |d|] == d;
    }
  }

  lemma ByteIsKept(data: seq<Byte>, offset: nat, d: seq<Byte>, log: seq<Edit>, i: nat)
    requires Apart(log, offset, |d|) && i < |d|
    ensures var end := ApplyLog(WriteData(data, offset, d), log); offset + i < |end| && end[offset + i] == d[i]
  {
    hide WriteData;
    var put := [Put(offset, d)];
    var all := put + log;
    ApplyOneEdit(data, put);
    ApplyLogConcat(data, put, log);
    hide ApplyLog;
    assert all[0] == Put(offset, d) && forall j :: 0 < j < |all| ==> all[j] == log[j - 1];
    CoveredIsWithin(data, all, 0, offset + i);
    FileLog.LastTouchDecides(data, all, 0, offset + i);
  }

  /** The same with others acting in between: as long as they leave the file in its place, unmarked as a directory, and
      touch none of these bytes, the read still gives back what the write put there. */
  lemma WriteThenReadAmidOthers(h: Hasher, s: System, c: nat, now: U32, client: Client, fid: U32, offset: U64,
      d: seq<Byte>, others: seq<Step>)
    requires Ready(s, c, client) && Readable(s.conns[c], fid) && ModeAllowsWrite(s.conns[c][fid].openMode.value)
    requires PlainFile(s.tree, s.conns[c][fid].path) && |d| < 0x1_0000_0000
    requires forall i :: 0 <= i < |others| ==> others[i].c != c
    ensures var p := Components(s.conns[c][fid].path);
            var w := Call(h, s, c, now, client, TWRITE, WriteBody(fid, offset, d));
            var s' := Run(h, w.s, others);
            var ops := OpsOf(h, w.s, others);
            var r := Call(h, s', c, now, w.client, TREAD, ReadBody(fid, offset, |d|));
            (forall i :: 0 <= i < |ops| ==> Spares(ops[i], p)) && Apart(LogOf(ops, p), offset, |d|)
            && PlainFile(s'.tree, s.conns[c][fid].path) ==>
              (WriteAnswer(w.answer) == Fine(|d|) && ReadAnswer(r.answer) == Fine(d) <==> |d| <= MAX_DATA)
  {
    hide Call, Inv, WriteBody, ReadBody, Chunk, SourceOf, Tree.Write, WriteData, Components, WriteAnswer,
      ReadAnswer, ModeAllowsWrite, ModeAllowsRead, Run, OpsOf, Spares, Apart, ApplyLog, LogOf, Lookup;
    var path := s.conns[c][fid].path;
    var p := Components(path);
    WrittenIsRead(h, s.tree, path, offset, d, now);
    WriteCall(h, s, c, now, client, fid, offset, d);
    var w := Call(h, s, c, now, client, TWRITE, WriteBody(fid, offset, d));
    if |d| <= MAX_DATA {
      OthersRun(h, w.s, c, w.client, others);
      ContentsFollowTheLog(h, w.s, others, p);
      var s', ops := Run(h, w.s, others), OpsOf(h, w.s, others);
      if (forall i :: 0 <= i < |ops| ==> Spares(ops[i], p)) && Apart(LogOf(ops, p), offset, |d|)
         && PlainFile(s'.tree, path) {
        PlainSource(h, w.s.tree, path);
        PlainSource(h, s'.tree, path);
        RangeIsKept(Find(s.tree, path).value.attr.data, offset, d, LogOf(ops, p));
        ReadCall(h, s', c, now, w.client, fid, offset, |d|);
      }
    }
  }

  lemma PlainSource(h: Hasher, tree: Inode, path: Str)
    requires PlainFile(tree, path)
    ensures At(tree, Components(path)).Some?
    ensures SourceOf(h, tree, path) == Data(At(tree, Components(path)).value.data)
  {
  }

  // ---------------------------------------------------------------- reading to the end

  /** Client reads of the given counts, each starting where the one before ended; none once one fails. */
  function Reads(h: Hasher, s: System, c: nat, now: U32, client: Client, fid: U32, offset: nat, counts: seq<U32>)
    : Option<seq<seq<Byte>>>
    decreases counts
  {
    if counts == [] then Some([])
    else if offset >= 0x1_0000_0000_0000_0000 then None
    else
      var r := Call(h, s, c, now, client, TREAD, ReadBody(fid, offset, counts[0]));
      match ReadAnswer(r.answer)
      case Failure(_) => None
      case Fine(chunk) =>
        match Reads(h, r.s, c, now, r.client, fid, offset + |chunk|, counts[1..])
        case None => None
        case Some(chunks) => Some([chunk] + chunks)
  }

  predicate ShortChunks(chunks: seq<seq<Byte>>) {
    forall i :: 0 <= i < |chunks| ==> |chunks[i]| <= MAX_COUNT
  }

  /** Chained client reads are the chained chunks of the data exactly when every chunk fits a frame. */
  lemma {:induction false} ReadsAreChunks(h: Hasher, s: System, c: nat, now: U32, client: Client, fid: U32, offset: nat,
      counts: seq<U32>)
    requires Ready(s, c, client) && Readable(s.conns[c], fid)
    ensures var source := SourceOf(h, s.tree, s.conns[c][fid].path);
            source.Data? && offset <= |source.bytes| < 0x1_0000_0000_0000_0000 ==>
              (Reads(h, s, c, now, client, fid, offset, counts) == Some(Chain(source.bytes, offset, counts)) <==>
               ShortChunks(Chain(source.bytes, offset, counts)))
    decreases counts
  {
    hide Call, Inv, ReadBody, SourceOf, ReadAnswer, ModeAllowsRead, Chunk, ShortChunks;
    var source := SourceOf(h, s.tree, s.conns[c][fid].path);
    if source.Data? && offset <= |source.bytes| < 0x1_0000_0000_0000_0000 {
      if counts == [] {
        NoChunks();
      } else {
        var chunk := Chunk(source.bytes, offset, counts[0]);
        ReadCall(h, s, c, now, client, fid, offset, counts[0]);
        ChunkIsSlice(source.bytes, offset, counts[0]);
        ShortChunksCons(chunk, Chain(source.bytes, offset + |chunk|, counts[1..]));
        var r := Call(h, s, c, now, client, TREAD, ReadBody(fid, offset, counts[0]));
        if |chunk| <= MAX_COUNT {
          ReadsAreChunks(h, r.s, c, now, r.client, fid, offset + |chunk|, counts[1..]);
        }
      }
    }
  }

  lemma NoChunks()
    ensures ShortChunks([])
  {
  }

  lemma ShortChunksCons(chunk: seq<Byte>, chunks: seq<seq<Byte>>)
    ensures ShortChunks([chunk] + chunks) <==> |chunk| <= MAX_COUNT && ShortChunks(chunks)
    ensures ([chunk] + chunks)[0] == chunk && ([chunk] + chunks)[1..] == chunks
  {
    assert forall i :: 0 <= i < |chunks| ==> ([chunk] + chunks)[i + 1] == chunks[i];
    assert ([chunk] + chunks)[0] == chunk;
  }

  /** The data is short, or no read asks for more than a frame can bring. */
  predicate ModestCounts(size: nat, counts: seq<nat>) {
    size <= MAX_COUNT || forall i :: 0 <= i < |counts| ==> counts[i] <= MAX_COUNT
  }

  /** Every chunk fits a frame when the data does, or when no read asks for more. */
  lemma {:induction false} ChunksAreShort(data: seq<Byte>, offset: nat, counts: seq<nat>)
    requires offset <= |data|
    requires ModestCounts(|data|, counts)
    ensures ShortChunks(Chain(data, offset, counts))
    decreases counts
  {
    hide Chunk, ShortChunks;
    assert counts != [] ==> ModestCounts(|data|, counts[1..]);
    if counts == [] {
      NoChunks();
    } else {
      var chunk := Chunk(data, offset, counts[0]);
      ChunkIsSlice(data, offset, counts[0]);
      ChunksAreShort(data, offset + |chunk|, counts[1..]);
      ShortChunksCons(chunk, Chain(data, offset + |chunk|, counts[1..]));
    }
  }

  /** Client reads chained from offset 0 until one of positive size comes back empty return the whole file, and with
      positive sizes such a read comes; the file is short, or no read asks for more than a frame can bring. */
  lemma ReadsReturnTheFile(h: Hasher, s: System, c: nat, now: U32, client: Client, fid: U32, counts: seq<U32>)
    requires Ready(s, c, client) && Readable(s.conns[c], fid)
    ensures var source := SourceOf(h, s.tree, s.conns[c][fid].path);
            var chunks := Reads(h, s, c, now, client, fid, 0, counts);
            && source.Data? && |source.bytes| < 0x1_0000_0000_0000_0000
            && ModestCounts(|source.bytes|, counts) ==>
              && chunks.Some? && |chunks.value| == |counts|
              && (counts != [] && counts[|counts| - 1] > 0 && chunks.value[|counts| - 1] == [] ==>
                    Joined(chunks.value) == source.bytes)
              && (AllPositive(counts) && |counts| > |source.bytes| ==> chunks.value[|counts| - 1] == [])
  {
    hide SourceOf, Reads, Inv, ModeAllowsRead, ShortChunks;
    var source := SourceOf(h, s.tree, s.conns[c][fid].path);
    if source.Data? && |source.bytes| < 0x1_0000_0000_0000_0000
       && ModestCounts(|source.bytes|, counts) {
      ChunksAreShort(source.bytes, 0, counts);
      ReadsAreChunks(h, s, c, now, client, fid, 0, counts);
      ChainIsData(source.bytes, 0, counts);
      if AllPositive(counts) && |counts| > |source.bytes| {
        ChainEnds(source.bytes, 0, counts);
      }
      assert source.bytes[0..] == source.bytes;
    }
  }

  /** The same for a directory: the chunks, drained as they come, are exactly the children's stats exactly when the
      directory can be listed. */
  lemma ReadsListTheDirectory(h: Hasher, s: System, c: nat, now: U32, client: Client, fid: U32, counts: seq<U32>)
    requires Ready(s, c, client) && Readable(s.conns[c], fid) && Find(s.tree, s.conns[c][fid].path).Some?
    requires IsDirMode(Find(s.tree, s.conns[c][fid].path).value.attr.mode)
    requires counts != [] && counts[|counts| - 1] > 0
    ensures var source := SourceOf(h, s.tree, s.conns[c][fid].path);
            var chunks := Reads(h, s, c, now, client, fid, 0, counts);
            source.Data? && (|source.bytes| < 0x1_0000_0000_0000_0000 && ModestCounts(|source.bytes|, counts) ==>
              && chunks.Some? && |chunks.value| == |counts|
              && (chunks.value[|counts| - 1] == [] ==>
                    (DrainChunks([], chunks.value) == Drained(ListingOf(h, s.tree, s.conns[c][fid].path), []) <==>
                     Listed(h, s.tree, s.conns[c][fid].path))))
  {
    hide SourceOf, Reads, FidsOk, TreeOk, ListingOf, EncodeStats, DrainChunks, Find, Listed, SentStats, Sorted,
      ModeAllowsRead;
    var path := s.conns[c][fid].path;
    SourceIsSent(h, s.tree, path);
    ReadsReturnTheFile(h, s, c, now, client, fid, counts);
    var source, chunks := SourceOf(h, s.tree, path), Reads(h, s, c, now, client, fid, 0, counts);
    if |source.bytes| < 0x1_0000_0000_0000_0000
       && ModestCounts(|source.bytes|, counts)
       && chunks.value[|counts| - 1] == [] {
      ListedExactly(h, s.tree, path, chunks.value);
    }
  }

  // ---------------------------------------------------------------- a whole session

  /** From a fresh connection: attach, walk to a file by ordinary names, open it for reading and writing, write, and
      read the bytes back. Every call succeeds, exactly when the write fits a frame. */
  lemma FreshSession(h: Hasher, s: System, c: nat, now: U32, client: Client, fid: U32, newfid: U32, uname: Str,
      aname: Str, names: seq<Str>, mode: Byte, offset: U64, d: seq<Byte>)
    requires Ready(s, c, client) && WireName(uname) && WireName(aname)
    requires names != [] && WireNames(names) && forall i :: 0 <= i < |names| ==> Ordinary(names[i])
    requires |WalkBody(fid, newfid, names)| <= MAX_BODY && |d| < 0x1_0000_0000
    requires ModeAllowsRead(mode) && ModeAllowsWrite(mode)
    requires Lookup(s.tree, names).Some? && !IsDirMode(Lookup(s.tree, names).value.attr.mode)
    ensures var a := Call(h, s, c, now, client, TATTACH, AttachBody(fid, None, uname, aname));
            var w := Call(h, a.s, c, now, a.client, TWALK, WalkBody(fid, newfid, names));
            var o := Call(h, w.s, c, now, w.client, TOPEN, OpenBody(newfid, mode));
            var wr := Call(h, o.s, c, now, o.client, TWRITE, WriteBody(newfid, offset, d));
            var rd := Call(h, wr.s, c, now, wr.client, TREAD, ReadBody(newfid, offset, |d|));
            && PlainAnswer(a.answer, RATTACH) == Fine(()) && WalkAnswer(w.answer) == Fine(|names|)
            && OpenAnswer(o.answer) == Fine(0)
            && (WriteAnswer(wr.answer) == Fine(|d|) && ReadAnswer(rd.answer) == Fine(d) <==> |d| <= MAX_DATA)
  {
    hide Call, Inv, AttachBody, WalkBody, OpenBody, WriteBody, ReadBody, Lookup, PlainAnswer, WalkAnswer, OpenAnswer,
      WriteAnswer, ReadAnswer, WireNames, Ordinary, Components,
      ModeAllowsRead, ModeAllowsWrite;
    AttachCall(h, s, c, now, client, fid, uname, aname);
    var a := Call(h, s, c, now, client, TATTACH, AttachBody(fid, None, uname, aname));
    ComponentsOfRoot();
    RootIsFound(a.s.tree);
    WalkCall(h, a.s, c, now, a.client, fid, newfid, names);
    var w := Call(h, a.s, c, now, a.client, TWALK, WalkBody(fid, newfid, names));
    assert [] + names == names;
    OpenCall(h, w.s, c, now, w.client, newfid, mode);
    var o := Call(h, w.s, c, now, w.client, TOPEN, OpenBody(newfid, mode));
    WriteThenRead(h, o.s, c, now, o.client, newfid, offset, d);
  }

  lemma RootIsFound(t: Inode)
    ensures Lookup(t, []) == Some(t)
  {
  }
}
