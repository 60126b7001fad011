/** What a client sees through the wire of what its own calls did
    (libs/planten_9p/src/lib.rs:87-213, libs/planten_fs_ramfs/tests/fid_semantics.rs:176-240). */
module Flows {
  import opened Bytes
  import opened Paths
  import opened Stats
  import opened Tree
  import opened Codec
  import opened Frames
  import opened Messages
  import opened Server
  import opened Systems
  import opened Clients
  import opened Calls
  import opened Fields
  import opened Requests
  import opened EndToEnd
  import opened Effects

  /** A call that is not a read and fits a frame gets the reply of its dispatch and leaves all as that does. */
  lemma PlainCall(h: Hasher, s: System, c: nat, now: U32, client: Client, msgType: Byte, body: seq<Byte>, e: Effect)
    requires Ready(s, c, client) && msgType != TREAD && |body| <= MAX_BODY
    requires Decodable(Request(msgType, client.nextTag, body))
    requires e == Dispatch(h, now, Request(msgType, client.nextTag, body), s.conns[c], s.tree)
    ensures var r := Call(h, s, c, now, client, msgType, body);
            && Ready(r.s, c, r.client) && r.s.tree == e.tree && r.s.conns == s.conns[c := e.fids]
            && e.reply.Some? && |e.reply.value.body| <= MAX_BODY
            && r.answer == Fine(Message(e.reply.value.msgType, client.nextTag, e.reply.value.body))
  {
    hide Dispatch, Inv, Call, Decodable;
    ReplyMatchesRequest(h, now, Request(msgType, client.nextTag, body), s.conns[c], s.tree);
    AnsweredCall(h, s, c, now, client, msgType, body);
  }

  /** A version call gets "9P2000", whatever it asks for. */
  lemma VersionCall(h: Hasher, s: System, c: nat, now: U32, client: Client, msize: U32, version: Str)
    requires Ready(s, c, client) && WireName(version)
    ensures var r := Call(h, s, c, now, client, TVERSION, VersionBody(msize, version));
            && Ready(r.s, c, r.client) && r.s.tree == s.tree && r.s.conns == s.conns
            && VersionAnswer(r.answer) == Fine(Text("9P2000"))
  {
    var m := Request(TVERSION, client.nextTag, VersionBody(msize, version));
    VersionSize(msize, version);
    ParseVersionBody(msize, version);
    VersionRequest(h, now, m, s.conns[c], s.tree);
    hide Dispatch, Call, Inv, VersionBody, ParseVersion;
    PlainCall(h, s, c, now, client, TVERSION, m.body, Dispatch(h, now, m, s.conns[c], s.tree));
  }

  /** Whatever server answers: the version of a reply whose msize is not zero is taken. */
  lemma VersionTaken(tag: U16, msize: U32, version: Str)
    requires WireName(version)
    ensures VersionAnswer(Fine(Message(101, tag, VersionBody(msize, version)))) ==
            if msize == 0 then Failure(InvalidMsize) else Fine(version)
  {
    VersionSize(msize, version);
    ParseVersionBody(msize, version);
    hide ParseVersion, VersionBody;
  }

  /** A reply of any other type than the one asked for is an error of every call. */
  lemma OtherTypesAreRefused(m: RawMessage)
    ensures m.msgType != 101 ==> VersionAnswer(Fine(m)) == Failure(UnexpectedType)
    ensures m.msgType != 111 ==> WalkAnswer(Fine(m)) == Failure(UnexpectedType)
    ensures m.msgType != 113 ==> OpenAnswer(Fine(m)) == Failure(UnexpectedType)
    ensures m.msgType != 115 ==> CreateAnswer(Fine(m)) == Failure(UnexpectedType)
    ensures m.msgType != 117 ==> ReadAnswer(Fine(m)) == Failure(UnexpectedType)
    ensures m.msgType != 119 ==> WriteAnswer(Fine(m)) == Failure(UnexpectedType)
    ensures m.msgType != 125 ==> StatAnswer(Fine(m)) == Failure(UnexpectedType)
    ensures m.msgType != 105 ==> PlainAnswer(Fine(m), RATTACH) == Failure(UnexpectedType)
    ensures m.msgType != 121 ==> PlainAnswer(Fine(m), RCLUNK) == Failure(UnexpectedType)
    ensures m.msgType != 123 ==> PlainAnswer(Fine(m), RREMOVE) == Failure(UnexpectedType)
    ensures m.msgType != 127 ==> PlainAnswer(Fine(m), RWSTAT) == Failure(UnexpectedType)
  {
    hide ParseVersion, ParseWalkReply, ParseOpenReply, ParseCreateReply, Listing.ParsePayload, ParseU32, ParseStat;
  }

  /** The qids that an Rwalk announces must all be there. */
  lemma {:induction false} QidsAreThere(b: seq<Byte>, n: nat)
    ensures ParseQids(b, n) == if |b| < 13 * n then Err(UnexpectedEof) else Ok((), b[13 * n..])
    decreases n
  {
    if n > 0 {
      OneQid(b);
      hide ParseQid;
      if |b| >= 13 {
        QidsAreThere(b[13..], n - 1);
        if |b| >= 13 * n { assert b[13..][13 * (n - 1)..] == b[13 * n..]; }
      }
    } else {
      assert b[0..] == b;
    }
  }

  lemma OneQid(b: seq<Byte>)
    ensures if |b| < 13 then ParseQid(b) == Err(UnexpectedEof) else ParseQid(b).Ok? && ParseQid(b).rest == b[13..]
  {
    hide FromLe;
  }

  /** A create that is granted makes an empty file or directory with the missing ancestors and gets the qid of what it
      made and an iounit of zero; one that is refused changes nothing. */
  predicate Created(h: Hasher, now: U32, fids: FidTable, tree: Inode, tree': Inode, fid: U32, name: Str, perm: U32,
      answer: Answer<(Qid, U32)>, q: Path)
  {
    if CreateRefusal(fids, tree, fid, name).Some? then answer == Failure(UnexpectedType) && tree' == tree
    else
      var path := ResolveStep(fids[fid].path, name).value;
      && MadeAt(tree, tree', Components(path), perm, now, q)
      && answer.Fine? && answer.value.1 == 0
      && ShowsQid(h, answer.value.0, path, At(tree', Components(path)).value)
  }

  lemma CreateCall(h: Hasher, s: System, c: nat, now: U32, client: Client, fid: U32, name: Str, perm: U32, mode: Byte,
      q: Path)
    requires Ready(s, c, client) && WireName(name)
    ensures var r := Call(h, s, c, now, client, TCREATE, CreateBody(fid, name, perm, mode));
            && Ready(r.s, c, r.client) && r.s.conns == s.conns
            && Created(h, now, s.conns[c], s.tree, r.s.tree, fid, name, perm, CreateAnswer(r.answer), q)
  {
    hide Dispatch, Call, Inv, CreateBody, CreateAnswer, Created, Decodable;
    var e := CreateReplies(h, now, s.conns[c], s.tree, client.nextTag, fid, name, perm, mode, q);
    PlainCall(h, s, c, now, client, TCREATE, CreateBody(fid, name, perm, mode), e);
  }

  lemma CreateReplies(h: Hasher, now: U32, fids: FidTable, tree: Inode, tag: U16, fid: U32, name: Str, perm: U32,
      mode: Byte, q: Path) returns (e: Effect)
    requires WireName(name)
    ensures |CreateBody(fid, name, perm, mode)| <= MAX_BODY
    ensures Decodable(Request(TCREATE, tag, CreateBody(fid, name, perm, mode)))
    ensures e == Dispatch(h, now, Request(TCREATE, tag, CreateBody(fid, name, perm, mode)), fids, tree)
    ensures e.fids == fids
    ensures e.reply.Some? && |e.reply.value.body| <= MAX_BODY ==>
              Created(h, now, fids, tree, e.tree, fid, name, perm,
                      CreateAnswer(Fine(Message(e.reply.value.msgType, tag, e.reply.value.body))), q)
  {
    var m := Request(TCREATE, tag, CreateBody(fid, name, perm, mode));
    CreateSize(fid, name, perm, mode);
    ParseCreateBody(fid, name, perm, mode);
    CreateRequest(h, now, m, fids, tree, q);
    e := Dispatch(h, now, m, fids, tree);
    CreateDecodes(m);
    hide Dispatch, CreateBody, ParseCreate, CreateDone, Created, Decodable, CreateAnswer;
    CreateKeepsFids(h, now, m, fids, tree);
    if e.reply.Some? && |e.reply.value.body| <= MAX_BODY { CreateTold(h, e, now, fid, name, perm, fids, tree, tag, q); }
  }

  lemma CreateDecodes(m: RawMessage)
    requires m.msgType == TCREATE && ParseCreate(m.body).Ok?
    ensures Decodable(m)
  {
    hide ParseCreate;
  }

  lemma CreateTold(h: Hasher, e: Effect, now: U32, fid: U32, name: Str, perm: U32, fids: FidTable, tree: Inode,
      tag: U16, q: Path)
    requires CreateDone(h, e, now, fid, name, perm, fids, tree, q)
    requires e.reply.Some? && |e.reply.value.body| <= MAX_BODY
    ensures Created(h, now, fids, tree, e.tree, fid, name, perm,
                    CreateAnswer(Fine(Message(e.reply.value.msgType, tag, e.reply.value.body))), q)
  {
    if fid in fids { ResolveFails(fids[fid].path, name); }
    hide ResolveStep, Components, Lookup, At, JustMade, ShowsQid, ParseQid, EncodeString, CreateAnswer;
    if CreateRefusal(fids, tree, fid, name).Some? {
      RefusedCreate(e.reply.value, tag);
    } else {
      var path := ResolveStep(fids[fid].path, name).value;
      CreateIsAnswered(h, e, tag, path, At(e.tree, Components(path)).value);
    }
  }

  lemma RefusedCreate(reply: Reply, tag: U16)
    requires reply.msgType == 107 && |reply.body| <= MAX_BODY
    ensures CreateAnswer(Fine(Message(reply.msgType, tag, reply.body))) == Failure(UnexpectedType)
  {
  }

  lemma CreateIsAnswered(h: Hasher, e: Effect, tag: U16, path: Str, a: Attr)
    requires RepliedQid(h, e, 115, path, a, [0, 0, 0, 0]) && |e.reply.value.body| <= MAX_BODY
    ensures var answer := CreateAnswer(Fine(Message(e.reply.value.msgType, tag, e.reply.value.body)));
            answer.Fine? && answer.value.1 == 0 && ShowsQid(h, answer.value.0, path, a)
  {
    NoIounit();
    hide ParseQid, ParseU32;
  }

  lemma VersionSize(msize: U32, version: Str)
    ensures |VersionBody(msize, version)| == 6 + |version|
  {
  }

  lemma CreateSize(fid: U32, name: Str, perm: U32, mode: Byte)
    ensures |CreateBody(fid, name, perm, mode)| == 11 + |name|
  {
  }

  lemma NoIounit()
    ensures ParseU32([0, 0, 0, 0]) == Ok(0, [])
  {
    ParseFidBody(0);
    ZeroNumber();
  }

  /** After a write, a stat shows its time as mtime and as qid version, the grown length, and all else as before. */
  lemma StatAfterWrite(h: Hasher, s: System, c: nat, now: U32, client: Client, fid: U32, offset: U64, d: seq<Byte>)
    requires Ready(s, c, client) && fid in s.conns[c] && |d| <= MAX_DATA
    requires s.conns[c][fid].openMode.Some? && ModeAllowsWrite(s.conns[c][fid].openMode.value)
    requires var p := Components(s.conns[c][fid].path); p != [] && At(s.tree, p).Some?
    ensures var path := s.conns[c][fid].path;
            var a := At(s.tree, Components(path)).value;
            var w := Call(h, s, c, now, client, TWRITE, WriteBody(fid, offset, d));
            var answer := StatAnswer(Call(h, w.s, c, now, w.client, TSTAT, FidBody(fid)).answer);
            var length := if |a.data| < offset + |d| then offset + |d| else |a.data|;
            |a.name| + 2 * |a.uid| + |a.gid| <= 65488 ==>
              answer == Fine(Stat(0, 0, Qid(if a.mode >= 0x8000_0000 then 0x80 else 0, now, h(path, now)), a.mode,
                                  a.atime, now, length % 0x1_0000_0000_0000_0000, a.name, a.uid, a.gid, a.uid))
  {
    var path := s.conns[c][fid].path;
    var p := Components(path);
    var w := Call(h, s, c, now, client, TWRITE, WriteBody(fid, offset, d));
    WriteCall(h, s, c, now, client, fid, offset, d);
    WrittenFields(s.tree, p, offset, d, now, p);
    hide Call, Inv, Components, WriteBody, FidBody, StatAnswer, Tree.Write, WriteAnswer, ModeAllowsWrite, Lookup;
    StatCall(h, w.s, c, now, w.client, fid);
  }

  /** After a wstat that gives no new name, a stat of the same fid shows every field that it set, and the others as they
      were; after one that does, the fid names nothing any more. */
  lemma StatAfterWstat(h: Hasher, s: System, c: nat, now: U32, client: Client, fid: U32, stat: Stat)
    requires Ready(s, c, client) && fid in s.conns[c] && StatStringsValid(stat) && StatFits(stat)
    requires var p := Components(s.conns[c][fid].path); At(s.tree, p).Some? && CanEdit(s.tree, p, stat)
    ensures var path := s.conns[c][fid].path;
            var p := Components(path);
            var a := At(s.tree, p).value;
            var w := Call(h, s, c, now, client, TWSTAT, WstatBody(fid, stat));
            var answer := StatAnswer(Call(h, w.s, c, now, w.client, TSTAT, FidBody(fid)).answer);
            && PlainAnswer(w.answer, RWSTAT) == Fine(())
            && (GivesName(stat, p) ==> answer == Failure(UnexpectedType))
            && (!GivesName(stat, p) && StringBytes(EditedStat(h, path, a, stat, p == [])) <= 65488 ==>
                  answer == Fine(EditedStat(h, path, a, stat, p == [])))
  {
    var path := s.conns[c][fid].path;
    var p := Components(path);
    var w := Call(h, s, c, now, client, TWSTAT, WstatBody(fid, stat));
    WstatCall(h, s, c, now, client, fid, stat);
    TreeLaws.WstatOutcome(s.tree, p, stat);
    WstatFields(s.tree, p, stat, p);
    hide Call, Inv, Components, WstatBody, FidBody, StatAnswer, Wstat, PlainAnswer, Lookup, Edited, EditedStat, StatOf,
      StringBytes, StatFits, StatIsWired, StatStringsValid;
    if GivesName(stat, p) {
      MissingStatCall(h, w.s, c, now, w.client, fid);
    } else {
      EditIsShown(h, path, At(s.tree, p).value, At(w.s.tree, p).value, stat, p == []);
      StatCall(h, w.s, c, now, w.client, fid);
    }
  }

  /** The stat of a node that had these attributes, after a wstat that gave it no new name. */
  function EditedStat(h: Hasher, path: Str, a: Attr, stat: Stat, root: bool): Stat {
    var mode := if stat.mode != 0xFFFF_FFFF then stat.mode else a.mode;
    var mtime := if stat.mtime != 0xFFFF_FFFF then stat.mtime else a.mtime;
    var gid := if stat.gid != [] then stat.gid else a.gid;
    var length := if !root && stat.length != 0xFFFF_FFFF_FFFF_FFFF then stat.length else |a.data|;
    Stat(0, 0, Qid(if mode >= 0x8000_0000 then 0x80 else 0, mtime, h(path, mtime)), mode, a.atime, mtime,
         length % 0x1_0000_0000_0000_0000, a.name, a.uid, gid, a.uid)
  }

  lemma EditIsShown(h: Hasher, path: Str, a: Attr, b: Attr, stat: Stat, root: bool)
    requires Edited(a, b, stat, root, a.name)
    ensures StatOf(h, path, b) == EditedStat(h, path, a, stat, root)
  {
  }

  lemma MissingStatCall(h: Hasher, s: System, c: nat, now: U32, client: Client, fid: U32)
    requires Ready(s, c, client) && fid in s.conns[c] && At(s.tree, Components(s.conns[c][fid].path)).None?
    ensures StatAnswer(Call(h, s, c, now, client, TSTAT, FidBody(fid)).answer) == Failure(UnexpectedType)
  {
    var m := Request(TSTAT, client.nextTag, FidBody(fid));
    ParseFidBody(fid);
    FidBodySize(fid);
    StatRequest(h, now, m, s.conns[c], s.tree);
    hide Dispatch, Call, Inv, FidBody, ParseU32, Components, At, EncodeString, EncodeStat, ParseStat;
    PlainCall(h, s, c, now, client, TSTAT, m.body, Dispatch(h, now, m, s.conns[c], s.tree));
  }

  /** A remove call takes the node with all below it, or is refused with the tree unchanged; the fid goes either way. A
      clunk call takes only the fid. */
  lemma RemoveCall(h: Hasher, s: System, c: nat, now: U32, client: Client, fid: U32, q: Path)
    requires Ready(s, c, client) && fid in s.conns[c]
    ensures var p := Components(s.conns[c][fid].path);
            var r := Call(h, s, c, now, client, TREMOVE, FidBody(fid));
            && Ready(r.s, c, r.client) && fid !in r.s.conns[c]
            && (forall f :: f != fid && f in s.conns[c] ==> f in r.s.conns[c] && r.s.conns[c][f] == s.conns[c][f])
            && if p == [] || At(s.tree, p).None? then
                 PlainAnswer(r.answer, RREMOVE) == Failure(UnexpectedType) && r.s.tree == s.tree
               else
                 && PlainAnswer(r.answer, RREMOVE) == Fine(())
                 && At(r.s.tree, q) == if p <= q then None else At(s.tree, q)
  {
    var m := Request(TREMOVE, client.nextTag, FidBody(fid));
    ParseFidBody(fid);
    FidBodySize(fid);
    RemoveRequest(h, now, m, s.conns[c], s.tree, q);
    hide Dispatch, Call, Inv, FidBody, ParseU32, Components, At, EncodeString;
    PlainCall(h, s, c, now, client, TREMOVE, m.body, Dispatch(h, now, m, s.conns[c], s.tree));
  }

  lemma ClunkCall(h: Hasher, s: System, c: nat, now: U32, client: Client, fid: U32)
    requires Ready(s, c, client)
    ensures var r := Call(h, s, c, now, client, TCLUNK, FidBody(fid));
            && Ready(r.s, c, r.client) && r.s.tree == s.tree && fid !in r.s.conns[c]
            && (forall f :: f != fid && f in s.conns[c] ==> f in r.s.conns[c] && r.s.conns[c][f] == s.conns[c][f])
            && PlainAnswer(r.answer, RCLUNK) == Fine(())
  {
    var m := Request(TCLUNK, client.nextTag, FidBody(fid));
    ParseFidBody(fid);
    FidBodySize(fid);
    ClunkRequest(h, now, m, s.conns[c], s.tree);
    hide Dispatch, Call, Inv, FidBody, ParseU32;
    PlainCall(h, s, c, now, client, TCLUNK, m.body, Dispatch(h, now, m, s.conns[c], s.tree));
  }
}
