/** One connection as the server runs it: the handlers and the reading loop over a shared tree
    (libs/planten_fs_ramfs/src/server.rs:55-548), proved against the step of the transition system. */
module Connections {
  import opened Bytes
  import opened Utf8
  import opened Paths
  import opened Stats
  import opened Tree
  import opened Codec
  import opened Frames
  import opened Messages
  import Sorting
  import opened Server
  import opened Shapes
  import opened RamFiles
  import opened Systems
  import opened History
  import TreeLaws
  import opened Wire

  // ---------------------------------------------------------------- the arguments of each handler

  method FidArg(body: seq<Byte>) returns (r: IoResult<U32>)
    ensures r == Outcome(ParseU32(body))
  {
    var cursor := new Cursor(body);
    r := cursor.DecodeU32();
  }

  /** The stat behind the fid of a Twstat. */
  method StatArg(body: seq<Byte>) returns (r: IoResult<Stat>)
    ensures ParseU32(body).Ok? ==> r == Outcome(ParseStat(ParseU32(body).rest))
  {
    hide ParseU32, ParseStat, Cursor.Rest;
    var cursor := new Cursor(body);
    var fid :- cursor.DecodeU32();
    r := cursor.DecodeStat();
  }

  method VersionArgs(body: seq<Byte>) returns (r: IoResult<(U32, Str)>)
    ensures r == Outcome(ParseVersion(body))
  {
    hide ParseU32, ParseString, ValidUtf8, Cursor.Rest;
    var cursor := new Cursor(body);
    var msize :- cursor.DecodeU32();
    var version :- cursor.DecodeString();
    r := Got((msize, version));
  }

  method AttachArgs(body: seq<Byte>) returns (r: IoResult<U32>)
    ensures r == Outcome(ParseAttach(body))
  {
    hide ParseU32, ParseString, ValidUtf8, Cursor.Rest;
    var cursor := new Cursor(body);
    var fid :- cursor.DecodeU32();
    var afid :- cursor.DecodeU32();
    var uname :- cursor.DecodeString();
    var aname :- cursor.DecodeString();
    r := Got(fid);
  }

  method OpenArgs(body: seq<Byte>) returns (r: IoResult<(U32, Byte)>)
    ensures r == Outcome(ParseOpen(body))
  {
    hide ParseU32, Cursor.Rest;
    var cursor := new Cursor(body);
    var fid :- cursor.DecodeU32();
    var mode :- cursor.DecodeU8();
    r := Got((fid, mode));
  }

  method CloneArgs(body: seq<Byte>) returns (r: IoResult<(U32, U32)>)
    ensures r == Outcome(ParseClone(body))
  {
    hide ParseU32, Cursor.Rest;
    var cursor := new Cursor(body);
    var fid :- cursor.DecodeU32();
    var newfid :- cursor.DecodeU32();
    r := Got((fid, newfid));
  }

  method ReadArgs(body: seq<Byte>) returns (r: IoResult<(U32, U64, U32)>)
    ensures r == Outcome(ParseRead(body))
  {
    hide ParseU32, ParseU64, Cursor.Rest;
    var cursor := new Cursor(body);
    var fid :- cursor.DecodeU32();
    var offset :- cursor.DecodeU64();
    var count :- cursor.DecodeU32();
    r := Got((fid, offset, count));
  }

  method WriteArgs(body: seq<Byte>) returns (r: IoResult<(U32, U64, seq<Byte>)>)
    ensures r == Outcome(ParseWrite(body))
  {
    hide ParseU32, ParseU64, Cursor.Rest;
    var cursor := new Cursor(body);
    var fid :- cursor.DecodeU32();
    var offset :- cursor.DecodeU64();
    var count :- cursor.DecodeU32();
    var buffer :- cursor.ReadExact(count);
    r := Got((fid, offset, buffer));
  }

  method CreateArgs(body: seq<Byte>) returns (r: IoResult<(U32, Str, U32, Byte)>)
    ensures r == Outcome(ParseCreate(body))
  {
    hide ParseU32, ParseString, ValidUtf8, Cursor.Rest;
    var cursor := new Cursor(body);
    var fid :- cursor.DecodeU32();
    var name :- cursor.DecodeString();
    var perm :- cursor.DecodeU32();
    var mode :- cursor.DecodeU8();
    r := Got((fid, name, perm, mode));
  }

  class Connection {
    const ramfs: RamFs
    const hash: Hasher
    /** `fid_states` */
    var fids: FidTable
    /** What the stream still has to give, and what was written to it. */
    var incoming: seq<Byte>
    var sent: seq<Byte>

    constructor (ramfs: RamFs, hash: Hasher, input: seq<Byte>)
      ensures this.ramfs == ramfs && this.hash == hash && fids == map[] && incoming == input && sent == []
    {
      this.ramfs := ramfs;
      this.hash := hash;
      fids := map[];
      incoming := input;
      sent := [];
    }

    /** The fids, the tree and the output are as `e` says; the handler failed exactly when `e` has no reply. */
    ghost predicate Did(e: Effect, tag: U16, before: seq<Byte>, r: IoResult<()>)
      reads this, ramfs
    {
      && fids == e.fids && ramfs.Tree() == e.tree
      && if e.reply.None? then r.Raised? && sent == before
         else r == Got(()) && sent == before + BuildFrame(e.reply.value.msgType, tag, e.reply.value.body)
    }

    method SendResponse(msgType: Byte, tag: U16, body: seq<Byte>)
      modifies `sent
      ensures sent == old(sent) + BuildFrame(msgType, tag, body)
    {
      var frame := MakeFrame(msgType, tag, body);
      sent := sent + frame;
    }

    method SendError(tag: U16, text: Str)
      modifies `sent
      ensures sent == old(sent) + BuildFrame(RERROR, tag, EncodeString(text))
    {
      var body := MakeString(text);
      SendResponse(RERROR, tag, body);
    }

    // -------------------------------------------------------------- handlers that only look at the tree

    method HandleAuth(tag: U16) returns (r: IoResult<()>)
      modifies `fids, `sent
      ensures Did(Server.HandleAuth(old(fids), ramfs.Tree()), tag, old(sent), r)
    {
      SendResponse(RAUTH, tag, seq(13, _ => 0));
      r := Got(());
    }

    method HandleVersion(tag: U16, body: seq<Byte>) returns (r: IoResult<()>)
      modifies `fids, `sent
      ensures Did(Server.HandleVersion(body, old(fids), ramfs.Tree()), tag, old(sent), r)
    {
      hide Separate, Linked, Wired, Abs, Nodes, Lookup, ParseU32, ParseString, EncodeString, U32Le, BuildFrame;
      var args :- VersionArgs(body);
      var version := MakeString(Text("9P2000"));
      SendResponse(RVERSION, tag, U32Le(131072) + version);
      r := Got(());
    }

    method HandleAttach(tag: U16, body: seq<Byte>) returns (r: IoResult<()>)
      requires ramfs.Valid()
      modifies `fids, `sent
      ensures Did(Server.HandleAttach(hash, body, old(fids), ramfs.Tree()), tag, old(sent), r)
    {
      hide Separate, Linked, Wired, Abs, Nodes, Lookup, ParseU32, ParseString, EncodeString, EncodeQid, QidOf,
        BuildFrame, Components;
      var fid :- AttachArgs(body);
      var root := ramfs.Stat(ROOT);
      if root.None? {
        SendError(tag, Text("root missing"));
        return Got(());
      }
      var qid := QidOf(hash, ROOT, root.value.attr);
      fids := fids[fid := FidState(ROOT, qid, None)];
      var response := MakeQid(qid);
      SendResponse(RATTACH, tag, response);
      r := Got(());
    }

    method HandleOpen(tag: U16, body: seq<Byte>) returns (r: IoResult<()>)
      requires ramfs.Valid()
      modifies `fids, `sent
      ensures Did(Server.HandleOpen(hash, body, old(fids), ramfs.Tree()), tag, old(sent), r)
    {
      hide Separate, Linked, Wired, Abs, Nodes, Lookup, ParseU32, ParseU8, EncodeString, EncodeQid, QidOf, BuildFrame,
        Components, U32Le;
      var args :- OpenArgs(body);
      var (fid, mode) := args;
      if fid !in fids {
        SendError(tag, Text("unknown fid"));
        return Got(());
      }
      var path := fids[fid].path;
      var inode := ramfs.Stat(path);
      if inode.None? {
        SendError(tag, Text("file not found"));
        return Got(());
      }
      var state := fids[fid].(qid := QidOf(hash, path, inode.value.attr), openMode := Some(mode));
      fids := fids[fid := state];
      var response := MakeQid(state.qid);
      response := response + U32Le(0);
      SendResponse(ROPEN, tag, response);
      r := Got(());
    }

    method HandleClone(tag: U16, body: seq<Byte>) returns (r: IoResult<()>)
      modifies `fids, `sent
      ensures Did(Server.HandleClone(body, old(fids), ramfs.Tree()), tag, old(sent), r)
    {
      hide Separate, Linked, Wired, Abs, Nodes, Lookup, ParseU32, EncodeString, BuildFrame;
      var args :- CloneArgs(body);
      var (fid, newfid) := args;
      if fid !in fids {
        SendError(tag, Text("unknown fid"));
        return Got(());
      }
      fids := fids[newfid := fids[fid]];
      SendResponse(RCLONE, tag, []);
      r := Got(());
    }

    method HandleClunk(tag: U16, body: seq<Byte>) returns (r: IoResult<()>)
      modifies `fids, `sent
      ensures Did(Server.HandleClunk(body, old(fids), ramfs.Tree()), tag, old(sent), r)
    {
      hide Separate, Linked, Wired, Abs, Nodes, Lookup, ParseU32, BuildFrame;
      var fid :- FidArg(body);
      fids := fids - {fid};
      SendResponse(RCLUNK, tag, []);
      r := Got(());
    }

    method HandleFlush(tag: U16) returns (r: IoResult<()>)
      modifies `fids, `sent
      ensures Did(Server.HandleFlush(old(fids), ramfs.Tree()), tag, old(sent), r)
    {
      SendResponse(RFLUSH, tag, []);
      r := Got(());
    }

    method HandleStat(tag: U16, body: seq<Byte>) returns (r: IoResult<()>)
      requires ramfs.Valid()
      modifies `fids, `sent
      ensures Did(Server.HandleStat(hash, body, old(fids), ramfs.Tree()), tag, old(sent), r)
    {
      hide Separate, Linked, Wired, Abs, Nodes, Lookup, ParseU32, EncodeString, EncodeStat, StatOf, BuildFrame,
        Components;
      var fid :- FidArg(body);
      if fid !in fids {
        SendError(tag, Text("unknown fid"));
        return Got(());
      }
      var inode := ramfs.Stat(fids[fid].path);
      if inode.None? {
        SendError(tag, Text("file not found"));
        return Got(());
      }
      var payload := MakeStat(StatOf(hash, fids[fid].path, inode.value.attr));
      SendResponse(RSTAT, tag, payload);
      r := Got(());
    }

    /** The walk is tried name by name; the new fid is bound only once all names were followed. */
    method HandleWalk(tag: U16, body: seq<Byte>) returns (r: IoResult<()>)
      requires ramfs.Valid()
      modifies `fids, `sent
      ensures Did(Server.HandleWalk(hash, body, old(fids), ramfs.Tree()), tag, old(sent), r)
    {
      hide Separate, Linked, Wired, Abs, Nodes, ParseWalkHead, WalkLoop, Cursor.Rest, EncodeString, FinishWalk,
        BuildFrame;
      var cursor := new Cursor(body);
      var head :- cursor.DecodeWalkHead();
      var (fid, newfid, nwname) := head;
      var walked :- FollowNames(cursor, WalkBase(fids, fid), nwname);
      if walked.Failed? {
        SendError(tag, walked.text);
        return Got(());
      }
      r := BindWalked(tag, newfid, walked.path, walked.qids);
    }

    /** The loop of `handle_walk`: each name is decoded, resolved as a path string and looked up from the root. */
    method FollowNames(cursor: Cursor, base: Str, nwname: nat) returns (r: IoResult<WalkResult>)
      requires ramfs.Valid() && cursor.Valid()
      modifies cursor
      ensures var w := WalkLoop(hash, ramfs.Tree(), base, [], old(cursor.Rest()), nwname);
              if w.Broken? then r.Raised? else r == Got(w)
    {
      hide Separate, Linked, Wired, Abs, Nodes, Lookup, ParseString, QidOf, Components, ResolveStep;
      var currentPath := base;
      var qids := [];
      var i := 0;
      while i < nwname
        invariant i <= nwname && cursor.Valid() && ramfs.Valid() && ramfs.Tree() == old(ramfs.Tree())
        invariant WalkLoop(hash, ramfs.Tree(), base, [], old(cursor.Rest()), nwname) ==
                  WalkLoop(hash, ramfs.Tree(), currentPath, qids, cursor.Rest(), nwname - i)
      {
        var name :- cursor.DecodeString();
        var next := ResolveStep(currentPath, name);
        if next.None? {
          return Got(Failed(Text("walk failed: invalid component '") + name + Text("'")));
        }
        var inode := ramfs.Stat(next.value);
        if inode.None? {
          return Got(Failed(Text("walk failed: component '") + name + Text("' not found")));
        }
        currentPath := next.value;
        qids := qids + [QidOf(hash, currentPath, inode.value.attr)];
        i := i + 1;
      }
      r := Got(Walked(currentPath, qids));
    }

    /** The end of `handle_walk`. */
    method BindWalked(tag: U16, newfid: U32, path: Str, qids: seq<Qid>) returns (r: IoResult<()>)
      requires ramfs.Valid()
      modifies `fids, `sent
      ensures Did(FinishWalk(hash, newfid, path, qids, old(fids), ramfs.Tree()), tag, old(sent), r)
    {
      hide Separate, Linked, Wired, Abs, Nodes, Lookup, EncodeString, EncodeQid, QidOf, BuildFrame, Components, U16Le;
      var newQid;
      if qids != [] {
        newQid := qids[|qids| - 1];
      } else {
        var inode := ramfs.Stat(path);
        if inode.None? {
          SendError(tag, Text("walk failed: target missing"));
          return Got(());
        }
        newQid := QidOf(hash, path, inode.value.attr);
      }
      fids := fids[newfid := FidState(path, newQid, None)];
      var response := U16Le(|qids| % 0x1_0000);
      ghost var body := response + EncodeQids(qids);
      var i := 0;
      assert qids[0..] == qids;
      while i < |qids|
        invariant i <= |qids| && sent == old(sent) && fids == old(fids)[newfid := FidState(path, newQid, None)]
        invariant response + EncodeQids(qids[i..]) == body
      {
        var qid := MakeQid(qids[i]);
        assert qids[i..][0] == qids[i] && qids[i..][1..] == qids[i + 1..];
        Regroup(response, EncodeQid(qids[i]), EncodeQids(qids[i + 1..]));
        response := response + qid;
        i := i + 1;
      }
      assert response + [] == response;
      SendResponse(RWALK, tag, response);
      r := Got(());
    }

    /** What a read takes its chunk from: a directory's stats one after the other, or a file's data. */
    method Content(path: Str) returns (source: Source)
      requires ramfs.Valid()
      ensures source == SourceOf(hash, ramfs.Tree(), path)
    {
      hide Separate, Linked, Wired, Abs, Nodes, Lookup, EncodeStat, StatOf, Components, ResolveStep, Sorting.Sorted;
      var inode := ramfs.Stat(path);
      if inode.None? {
        return Unreadable(Text("file not found"));
      }
      if !IsDirMode(inode.value.attr.mode) {
        var bytes := ramfs.ReadFile(path);
        return if bytes.Some? then Data(bytes.value) else Unreadable(Text("file missing during read"));
      }
      var listed := ramfs.ListDir(path);
      var entries := if listed.Some? then listed.value else [];
      var dirBytes := [];
      var i := 0;
      assert entries[0..] == entries;
      assert [] + DirBytes(hash, ramfs.Tree(), path, entries) == DirBytes(hash, ramfs.Tree(), path, entries);
      while i < |entries|
        invariant i <= |entries|
        invariant dirBytes + DirBytes(hash, ramfs.Tree(), path, entries[i..]) ==
                  DirBytes(hash, ramfs.Tree(), path, entries)
      {
        var entry := EntryStat(path, entries[i]);
        assert entries[i..][0] == entries[i] && entries[i..][1..] == entries[i + 1..];
        Regroup(dirBytes, entry, DirBytes(hash, ramfs.Tree(), path, entries[i + 1..]));
        dirBytes := dirBytes + entry;
        i := i + 1;
      }
      assert dirBytes + [] == dirBytes;
      source := Data(dirBytes);
    }

    /** The bytes of one directory entry, none when its path does not resolve or is gone. */
    method EntryStat(path: Str, entry: Str) returns (bytes: seq<Byte>)
      requires ramfs.Valid()
      ensures bytes == EntryBytes(hash, ramfs.Tree(), path, entry)
    {
      hide Separate, Linked, Wired, Abs, Nodes, Lookup, EncodeStat, StatOf, Components, ResolveStep;
      match ResolveStep(path, entry)
      case None =>
        bytes := [];
      case Some(childPath) =>
        var child := ramfs.Stat(childPath);
        if child.None? {
          return [];
        }
        bytes := MakeStat(StatOf(hash, childPath, child.value.attr));
    }

    method HandleRead(tag: U16, body: seq<Byte>) returns (r: IoResult<()>)
      requires ramfs.Valid()
      modifies `fids, `sent
      ensures Did(Server.HandleRead(hash, body, old(fids), ramfs.Tree()), tag, old(sent), r)
    {
      hide Separate, Linked, Wired, Abs, Nodes, Lookup, ParseU32, ParseU64, EncodeString, BuildFrame, SourceOf, U32Le;
      var args :- ReadArgs(body);
      var (fid, offset, count) := args;
      if fid !in fids {
        SendError(tag, Text("unknown fid"));
        return Got(());
      }
      var mode := fids[fid].openMode;
      if mode.None? {
        SendError(tag, Text("fid not open"));
        return Got(());
      }
      if !ModeAllowsRead(mode.value) {
        SendError(tag, Text("fid not open for read"));
        return Got(());
      }
      var source := Content(fids[fid].path);
      if source.Unreadable? {
        SendError(tag, source.text);
        return Got(());
      }
      var data := source.bytes;
      var end := if offset + count < |data| then offset + count else |data|;
      var chunk := if offset >= |data| then [] else data[offset..end];
      var response := U32Le(|chunk| % 0x1_0000_0000);
      response := response + chunk;
      SendResponse(RREAD, tag, response);
      r := Got(());
    }

    // -------------------------------------------------------------- handlers that change the tree

    method HandleCreate(tag: U16, body: seq<Byte>, now: U32) returns (r: IoResult<()>)
      requires ramfs.Valid()
      modifies `fids, `sent, ramfs, Nodes(ramfs.shape)
      ensures ramfs.Valid() && fresh(Nodes(ramfs.shape) - old(Nodes(ramfs.shape)))
      ensures Did(Server.HandleCreate(hash, now, body, old(fids), old(ramfs.Tree())), tag, old(sent), r)
    {
      hide Separate, Linked, Wired, Abs, Nodes, ParseU32, ParseU8, ParseString, EncodeString, BuildFrame, ResolveStep,
        CreateAt;
      var args :- CreateArgs(body);
      var (fid, name, perm, _) := args;
      if fid !in fids {
        SendError(tag, Text("unknown fid"));
        return Got(());
      }
      var target := ResolveStep(fids[fid].path, name);
      if target.None? {
        SendError(tag, Text("invalid target path"));
        return Got(());
      }
      r := CreateUnderLock(tag, target.value, perm, now);
    }

    method CreateUnderLock(tag: U16, newPath: Str, perm: U32, now: U32) returns (r: IoResult<()>)
      requires ramfs.Valid()
      modifies `fids, `sent, ramfs, Nodes(ramfs.shape)
      ensures ramfs.Valid() && fresh(Nodes(ramfs.shape) - old(Nodes(ramfs.shape)))
      ensures Did(CreateAt(hash, now, newPath, perm, old(fids), old(ramfs.Tree())), tag, old(sent), r)
    {
      hide Separate, Linked, Wired, Abs, Nodes, Lookup, EncodeString, EncodeQid, QidOf, BuildFrame, Components, U32Le,
        Make;
      var existing := ramfs.Stat(newPath);
      if existing.Some? {
        SendError(tag, Text("file exists"));
        return Got(());
      }
      var kind := if IsDirMode(perm) then Dir else File([]);
      MadeIsFound(ramfs.Tree(), Components(newPath), kind, now);
      ramfs.Create(newPath, kind, now);
      var inode := ramfs.Stat(newPath);
      var response := MakeQid(QidOf(hash, newPath, inode.value.attr));
      response := response + U32Le(0);
      SendResponse(RCREATE, tag, response);
      r := Got(());
    }

    method HandleWrite(tag: U16, body: seq<Byte>, now: U32) returns (r: IoResult<()>)
      requires ramfs.Valid()
      modifies `fids, `sent, ramfs, Nodes(ramfs.shape)
      ensures ramfs.Valid() && fresh(Nodes(ramfs.shape) - old(Nodes(ramfs.shape)))
      ensures Did(Server.HandleWrite(now, body, old(fids), old(ramfs.Tree())), tag, old(sent), r)
    {
      hide Separate, Linked, Wired, Abs, Nodes, Lookup, ParseU32, ParseU64, EncodeString, BuildFrame, Components,
        U32Le, Write;
      var args :- WriteArgs(body);
      var (fid, offset, buffer) := args;
      if fid !in fids {
        SendError(tag, Text("unknown fid"));
        return Got(());
      }
      var mode := fids[fid].openMode;
      if mode.None? {
        SendError(tag, Text("fid not open"));
        return Got(());
      }
      if !ModeAllowsWrite(mode.value) {
        SendError(tag, Text("fid not open for write"));
        return Got(());
      }
      var written := ramfs.Write(fids[fid].path, offset, buffer, now);
      SendResponse(RWRITE, tag, U32Le(if written.Some? then written.value else 0));
      r := Got(());
    }

    method HandleWstat(tag: U16, body: seq<Byte>) returns (r: IoResult<()>)
      requires ramfs.Valid()
      modifies `fids, `sent, ramfs, Nodes(ramfs.shape)
      ensures ramfs.Valid() && fresh(Nodes(ramfs.shape) - old(Nodes(ramfs.shape)))
      ensures Did(Server.HandleWstat(body, old(fids), old(ramfs.Tree())), tag, old(sent), r)
    {
      hide Separate, Linked, Wired, Abs, Nodes, ParseU32, ParseStat, EncodeString, BuildFrame, WstatAt, ErrorText, Text;
      var fid :- FidArg(body);
      if fid !in fids {
        SendError(tag, Text("unknown fid"));
        return Got(());
      }
      var stat := StatArg(body);
      if stat.Raised? {
        SendError(tag, Text("invalid stat format: ") + ErrorText(stat.error));
        return Got(());
      }
      r := WstatUnderLock(tag, fids[fid].path, stat.value);
    }

    method WstatUnderLock(tag: U16, path: Str, stat: Stat) returns (r: IoResult<()>)
      requires ramfs.Valid()
      modifies `fids, `sent, ramfs, Nodes(ramfs.shape)
      ensures ramfs.Valid() && fresh(Nodes(ramfs.shape) - old(Nodes(ramfs.shape)))
      ensures Did(WstatAt(path, stat, old(fids), old(ramfs.Tree())), tag, old(sent), r)
    {
      hide Separate, Linked, Wired, Abs, Nodes, Lookup, EncodeString, BuildFrame, Components, Wstat;
      var done := ramfs.WstatFromStat(path, stat);
      if done {
        SendResponse(RWSTAT, tag, []);
      } else {
        SendError(tag, Text("wstat failed"));
      }
      r := Got(());
    }

    /** The fid goes even when the remove fails. */
    method HandleRemove(tag: U16, body: seq<Byte>) returns (r: IoResult<()>)
      requires ramfs.Valid()
      modifies `fids, `sent, ramfs, Nodes(ramfs.shape)
      ensures ramfs.Valid() && fresh(Nodes(ramfs.shape) - old(Nodes(ramfs.shape)))
      ensures Did(Server.HandleRemove(body, old(fids), old(ramfs.Tree())), tag, old(sent), r)
    {
      hide Separate, Linked, Wired, Abs, Nodes, Lookup, ParseU32, EncodeString, BuildFrame, Components, Nodes, Remove;
      var fid :- FidArg(body);
      if fid !in fids {
        SendError(tag, Text("unknown fid"));
        return Got(());
      }
      var success := ramfs.Remove(fids[fid].path);
      fids := fids - {fid};
      if success {
        SendResponse(RREMOVE, tag, []);
      } else {
        SendError(tag, Text("remove failed"));
      }
      r := Got(());
    }

    // -------------------------------------------------------------- the loop

    /** The match on the message type. */
    method HandleMessage(m: RawMessage, now: U32) returns (r: IoResult<()>)
      requires ramfs.Valid()
      modifies `fids, `sent, ramfs, Nodes(ramfs.shape)
      ensures ramfs.Valid() && fresh(Nodes(ramfs.shape) - old(Nodes(ramfs.shape)))
      ensures Did(Dispatch(hash, now, m, old(fids), old(ramfs.Tree())), m.tag, old(sent), r)
    {
      hide Server.HandleVersion, Server.HandleAttach, Server.HandleWalk, Server.HandleOpen, Server.HandleRead,
        Server.HandleWrite, Server.HandleWstat, Server.HandleFlush, Server.HandleRemove, Server.HandleClunk,
        Server.HandleStat, Server.HandleClone, Server.HandleCreate, Server.HandleAuth, BuildFrame, Nodes, EncodeString;
      if m.msgType == TVERSION { r := HandleVersion(m.tag, m.body); }
      else if m.msgType == TATTACH { r := HandleAttach(m.tag, m.body); }
      else if m.msgType == TWALK { r := HandleWalk(m.tag, m.body); }
      else if m.msgType == TOPEN { r := HandleOpen(m.tag, m.body); }
      else if m.msgType == TREAD { r := HandleRead(m.tag, m.body); }
      else if m.msgType == TWRITE { r := HandleWrite(m.tag, m.body, now); }
      else if m.msgType == TWSTAT { r := HandleWstat(m.tag, m.body); }
      else if m.msgType == TFLUSH { r := HandleFlush(m.tag); }
      else if m.msgType == TREMOVE { r := HandleRemove(m.tag, m.body); }
      else if m.msgType == TCLUNK { r := HandleClunk(m.tag, m.body); }
      else if m.msgType == TSTAT { r := HandleStat(m.tag, m.body); }
      else if m.msgType == TCLONE { r := HandleClone(m.tag, m.body); }
      else if m.msgType == TCREATE { r := HandleCreate(m.tag, m.body, now); }
      else if m.msgType == TAUTH { r := HandleAuth(m.tag); }
      else {
        SendError(m.tag, Text("unsupported message"));
        r := Got(());
      }
    }

    /** The next frame off the stream. */
    method Receive() returns (r: IoResult<RawMessage>)
      modifies `incoming
      ensures var p := ReadFrame(old(incoming)); r == Outcome(p) && (p.Ok? ==> incoming == p.rest)
    {
      hide ReadFrame;
      var cursor := new Cursor(incoming);
      r := cursor.ReadMessage();
      incoming := incoming[cursor.pos..];
    }

    /** `handle_client`: frames are read and handled one by one until the input ends or something fails. The output and
        the tree are those of the transition system after this connection's steps. */
    method HandleClient(clock: nat -> U32) returns (r: IoResult<()>)
      requires ramfs.Valid() && fids == map[] && sent == []
      modifies this, ramfs, Nodes(ramfs.shape)
      ensures ramfs.Valid() && fresh(Nodes(ramfs.shape) - old(Nodes(ramfs.shape)))
      ensures Handled(hash, old(ramfs.Tree()), ReadAll(old(incoming)), clock, ramfs.Tree(), sent, r)
    {
      hide Nodes, Separate, Linked, Wired, Abs, ReadFrame, ReadAll, After, Next, Shows, Handled;
      ghost var tree0, read := ramfs.Tree(), ReadAll(incoming);
      ghost var s := Connected(hash, tree0, clock);
      var k := 0;
      assert read.0[0..] == read.0 && read.0[..0] == [];
      while true
        invariant ramfs.Valid() && fresh(Nodes(ramfs.shape) - old(Nodes(ramfs.shape)))
        invariant k <= |read.0| && ReadAll(incoming) == (read.0[k..], read.1)
        invariant s == After(hash, tree0, read.0[..k], clock) && Shows(s, 0, ramfs.Tree(), fids, sent)
        decreases |incoming|
      {
        ghost var rest := incoming;
        var message := Receive();
        if message.Raised? {
          StreamEnds(hash, tree0, read, k, clock, rest, ramfs.Tree(), fids, sent);
          return if message.error == UnexpectedEof then Got(()) else Raised(message.error);
        }
        ReadNext(rest, message.value, incoming, read.0, k);
        NextMessage(hash, tree0, read.0, k, clock);
        var handled := HandleNext(message.value, clock(k), s, 0);
        s := Next(hash, s, Step.Receive(0, message.value, clock(k)));
        k := k + 1;
        if handled.Raised? {
          StreamBreaksOff(hash, tree0, read, k, clock, ramfs.Tree(), sent, handled);
          return handled;
        }
      }
    }

    /** Handling one message is one step of the system, whatever the state of the other connections. */
    method HandleNext(m: RawMessage, now: U32, ghost s: System, ghost c: nat) returns (r: IoResult<()>)
      requires ramfs.Valid() && Shows(s, c, ramfs.Tree(), fids, sent)
      modifies `fids, `sent, ramfs, Nodes(ramfs.shape)
      ensures ramfs.Valid() && fresh(Nodes(ramfs.shape) - old(Nodes(ramfs.shape)))
      ensures var s' := Next(hash, s, Step.Receive(c, m, now));
              && ramfs.Tree() == s'.tree && sent == Sent(s', c)
              && if c in s'.conns then r == Got(()) && Shows(s', c, ramfs.Tree(), fids, sent) else r.Raised?
    {
      hide Nodes, Separate, Linked, Wired, Abs, BuildFrame, Dispatch;
      r := HandleMessage(m, now);
    }
  }

  // ---------------------------------------------------------------- the loop as a run

  /** A lone connection and the messages it gets. */
  function Receives(msgs: seq<RawMessage>, clock: nat -> U32): seq<Step> {
    [Connect(0)] + seq(|msgs|, i requires 0 <= i < |msgs| => Receive(0, msgs[i], clock(i)))
  }

  function After(h: Hasher, tree: Inode, msgs: seq<RawMessage>, clock: nat -> U32): System {
    Systems.Run(h, System(tree, map[], map[]), Receives(msgs, clock))
  }

  /** Connection `c` is open in `s` with these fids and this output. */
  predicate Shows(s: System, c: nat, tree: Inode, fids: FidTable, sent: seq<Byte>) {
    s.tree == tree && c in s.conns && s.conns[c] == fids && Sent(s, c) == sent
  }

  lemma ShownOpen(s: System, c: nat, tree: Inode, fids: FidTable, sent: seq<Byte>)
    requires Shows(s, c, tree, fids, sent)
    ensures s.tree == tree && c in s.conns && s.conns[c] == fids && Sent(s, c) == sent
  {
  }

  /** Where a connection that read these messages, and then met this error, ends: the output and the tree are those of
      the transition system; the loop ends well at the end of the input, and otherwise with the error or with that of
      the message that closed the connection. */
  ghost predicate Handled(h: Hasher, tree0: Inode, read: (seq<RawMessage>, IoError), clock: nat -> U32, tree: Inode,
      sent: seq<Byte>, r: IoResult<()>)
  {
    var s := After(h, tree0, read.0, clock);
    && tree == s.tree && sent == Sent(s, 0)
    && if 0 in s.conns then r == (if read.1 == UnexpectedEof then Got(()) else Raised(read.1)) else r.Raised?
  }

  lemma StreamEnds(h: Hasher, tree0: Inode, read: (seq<RawMessage>, IoError), k: nat, clock: nat -> U32,
      rest: seq<Byte>, tree: Inode, fids: FidTable, sent: seq<Byte>)
    requires k <= |read.0| && ReadAll(rest) == (read.0[k..], read.1) && ReadFrame(rest).Err?
    requires Shows(After(h, tree0, read.0[..k], clock), 0, tree, fids, sent)
    ensures read.1 == ReadFrame(rest).error
    ensures Handled(h, tree0, read, clock, tree, sent, if read.1 == UnexpectedEof then Got(()) else Raised(read.1))
  {
    hide ReadFrame, ReadAll, After;
    ReadNone(rest);
    assert read.0[..k] == read.0;
  }

  lemma StreamBreaksOff(h: Hasher, tree0: Inode, read: (seq<RawMessage>, IoError), k: nat, clock: nat -> U32,
      tree: Inode, sent: seq<Byte>, r: IoResult<()>)
    requires k <= |read.0| && r.Raised?
    requires var s := After(h, tree0, read.0[..k], clock); 0 !in s.conns && s.tree == tree && Sent(s, 0) == sent
    ensures Handled(h, tree0, read, clock, tree, sent, r)
  {
    hide After;
    ClosedStays(h, tree0, read.0, k, clock);
  }

  lemma Connected(h: Hasher, tree: Inode, clock: nat -> U32) returns (s: System)
    ensures s == After(h, tree, [], clock) && Shows(s, 0, tree, map[], [])
  {
    hide Dispatch, BuildFrame;
    assert Receives([], clock) == [Connect(0)];
    assert [Connect(0)][..0] == [];
    s := After(h, tree, [], clock);
  }

  lemma ReadNext(b: seq<Byte>, m: RawMessage, rest: seq<Byte>, msgs: seq<RawMessage>, k: nat)
    requires k <= |msgs| && ReadAll(b).0 == msgs[k..] && ReadFrame(b) == Ok(m, rest)
    ensures k < |msgs| && msgs[k] == m && ReadAll(rest) == (msgs[k + 1..], ReadAll(b).1) && |rest| < |b|
  {
    hide ReadFrame, ReadAll;
    ReadOne(b, m, rest);
    ReadIsFrame(b);
    var tail := ReadAll(rest).0;
    assert ([m] + tail)[1..] == tail && msgs[k..][1..] == msgs[k + 1..];
  }

  lemma NextMessage(h: Hasher, tree: Inode, msgs: seq<RawMessage>, k: nat, clock: nat -> U32)
    requires k < |msgs|
    ensures After(h, tree, msgs[..k + 1], clock) ==
            Next(h, After(h, tree, msgs[..k], clock), Receive(0, msgs[k], clock(k)))
  {
    hide Next;
    var steps := Receives(msgs[..k + 1], clock);
    assert steps[..|steps| - 1] == Receives(msgs[..k], clock);
  }

  /** After the connection is closed, what it would still have read does nothing. */
  lemma {:induction false} ClosedStays(h: Hasher, tree: Inode, msgs: seq<RawMessage>, k: nat, clock: nat -> U32)
    requires k <= |msgs| && 0 !in After(h, tree, msgs[..k], clock).conns
    ensures After(h, tree, msgs, clock) == After(h, tree, msgs[..k], clock)
    decreases |msgs| - k
  {
    hide Systems.Run;
    if k == |msgs| {
      assert msgs[..k] == msgs;
    } else {
      NextMessage(h, tree, msgs, k, clock);
      ClosedStays(h, tree, msgs, k + 1, clock);
    }
  }

  lemma ReadNone(b: seq<Byte>)
    requires ReadFrame(b).Err?
    ensures ReadAll(b) == ([], ReadFrame(b).error)
  {
  }

  // ---------------------------------------------------------------- bytes in, bytes out

  /** A stream of decodable requests, as bytes, is answered by a stream of as many frames, in order, each with the tag
      of its request and with the type one above it or RERROR. */
  lemma {:induction false} StreamIsAnswered(h: Hasher, tree: Inode, ms: seq<RawMessage>, clock: nat -> U32)
    requires TreeLaws.TreeOk(tree)
    requires forall i :: 0 <= i < |ms| ==> WellFormed(ms[i]) && Decodable(ms[i])
    ensures var s := After(h, tree, ReadAll(Frames.Concat(ms)).0, clock);
            var (replies, end) := ReadAll(Sent(s, 0));
            && 0 in s.conns
            && (ShortReads(h, System(tree, map[], map[]), Receives(ms, clock), 0) ==>
                  && end == UnexpectedEof && |replies| == |ms|
                  && forall i :: 0 <= i < |ms| ==>
                       && replies[i].tag == ms[i].tag
                       && (replies[i].msgType == RERROR
                           || (KnownRequest(ms[i].msgType) && replies[i].msgType == ms[i].msgType + 1)))
  {
    hide Dispatch, Systems.Run, Events, ReadAll, Frames.Concat, Decodable, ShortReads, TreeLaws.TreeOk, KnownRequest;
    StreamRoundTrip(ms);
    var s0, steps := System(tree, map[], map[]), Receives(ms, clock);
    EveryRequestIsAnswered(h, s0, steps, 0);
    OutputIsRead(h, s0, steps, 0);
    RequestsReceived(ms, clock);
    var events := Events(h, s0, steps, 0);
    assert forall i :: 0 <= i < |events| ==> events[i].m == RequestsOf(events)[i];
  }

  lemma {:induction false} RequestsReceived(ms: seq<RawMessage>, clock: nat -> U32)
    ensures Requests(Receives(ms, clock), 0) == ms
    decreases ms
  {
    var steps := Receives(ms, clock);
    if ms == [] {
      assert steps == [Connect(0)];
      assert steps[..0] == [];
    } else {
      var init := ms[..|ms| - 1];
      RequestsReceived(init, clock);
      assert steps[..|steps| - 1] == Receives(init, clock);
      assert steps[|steps| - 1] == Receive(0, ms[|ms| - 1], clock(|ms| - 1));
    }
  }
}
