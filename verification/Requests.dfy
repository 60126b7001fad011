/** What each request comes to in any state: when it is granted, what it answers byte by byte, what it leaves, and how
    it is refused (libs/planten_fs_ramfs/src/server.rs:75-117 and each handler behind). */
module Requests {
  import opened Bytes
  import opened Paths
  import opened Stats
  import opened Tree
  import opened Codec
  import opened Frames
  import opened Messages
  import opened Server
  import opened Walks
  import opened Fields

  // ---------------------------------------------------------------- what replies say

  /** The qid of a node: type 0x80 for a directory and 0 otherwise, its mtime, and the hash of path string and mtime. */
  predicate ShowsQid(h: Hasher, q: Qid, path: Str, a: Attr) {
    q == Qid(if a.mode >= 0x8000_0000 then 0x80 else 0, a.mtime, h(path, a.mtime))
  }

  /** The stat of a node: its own fields and data length, its owner again as last modifier. */
  predicate ShowsStat(h: Hasher, s: Stat, path: Str, a: Attr) {
    && s.typ == 0 && s.dev == 0 && ShowsQid(h, s.qid, path, a) && s.mode == a.mode
    && s.atime == a.atime && s.mtime == a.mtime && s.length == |a.data| % 0x1_0000_0000_0000_0000
    && s.name == a.name && s.uid == a.uid && s.gid == a.gid && s.muid == a.uid
  }

  lemma StatShows(h: Hasher, path: Str, a: Attr)
    ensures ShowsStat(h, StatOf(h, path, a), path, a)
  {
  }

  /** Nothing changed, and the reply is an Rerror with this text. */
  predicate Refused(e: Effect, fids: FidTable, tree: Inode, text: Str) {
    e == Effect(fids, tree, Some(Reply(107, EncodeString(text))))
  }

  /** Nothing changed, and the connection is closed without a reply. */
  predicate Closed(e: Effect, fids: FidTable, tree: Inode) {
    e == Effect(fids, tree, None)
  }

  /** The reply is of this type, with this body. */
  predicate Replied(e: Effect, msgType: Byte, body: seq<Byte>) {
    e.reply == Some(Reply(msgType, body))
  }

  /** The reply is of this type; its body is the node's qid and then `more`. */
  predicate RepliedQid(h: Hasher, e: Effect, msgType: Byte, path: Str, a: Attr, more: seq<Byte>) {
    && e.reply.Some? && e.reply.value.msgType == msgType
    && var p := ParseQid(e.reply.value.body); p.Ok? && ShowsQid(h, p.value, path, a) && p.rest == more
  }

  lemma QidIsReplied(h: Hasher, e: Effect, msgType: Byte, path: Str, a: Attr, more: seq<Byte>)
    requires Replied(e, msgType, EncodeQid(QidOf(h, path, a)) + more)
    ensures RepliedQid(h, e, msgType, path, a, more)
  {
    hide ParseQid, EncodeQid;
    ParseEncodedQid(QidOf(h, path, a), more);
  }

  // ---------------------------------------------------------------- session

  /** Tversion: msize 131072 and "9P2000", whatever was asked. */
  lemma VersionRequest(h: Hasher, now: U32, m: RawMessage, fids: FidTable, tree: Inode)
    requires m.msgType == 100
    ensures var e := Dispatch(h, now, m, fids, tree);
            if ParseVersion(m.body).Ok? then
              && e.fids == fids && e.tree == tree && e.reply.Some? && e.reply.value.msgType == 101
              && ParseVersion(e.reply.value.body) == Ok((131072, Text("9P2000")), [])
            else Closed(e, fids, tree)
  {
    Utf8.TextIsValid("9P2000");
    ParseVersionBody(131072, Text("9P2000"));
    hide ParseVersion, VersionBody, Utf8.ValidUtf8;
  }

  /** Tauth: thirteen zero bytes. Tflush: nothing. Both whatever the body. Any other type is refused. */
  lemma OtherRequest(h: Hasher, now: U32, m: RawMessage, fids: FidTable, tree: Inode)
    ensures var e := Dispatch(h, now, m, fids, tree);
            && (m.msgType == 102 ==> e == Effect(fids, tree, Some(Reply(103, [0, 0, 0, 0, 0, 0, 0, 0, 0, 0, 0, 0, 0]))))
            && (m.msgType == 108 ==> e == Effect(fids, tree, Some(Reply(109, []))))
            && (m.msgType !in {100, 102, 104, 108, 110, 112, 114, 116, 118, 120, 122, 124, 126, 128} ==>
                  Refused(e, fids, tree, Text("unsupported message")))
  {
    assert Zeros(13) == [0, 0, 0, 0, 0, 0, 0, 0, 0, 0, 0, 0, 0];
    hide EncodeString;
  }

  /** Tattach: the fid stands on the root and is not open, whoever asks. */
  lemma AttachRequest(h: Hasher, now: U32, m: RawMessage, fids: FidTable, tree: Inode)
    requires m.msgType == 104
    ensures var e, p := Dispatch(h, now, m, fids, tree), ParseAttach(m.body);
            if p.Ok? then
              && RepliedQid(h, e, 105, Text("/"), tree.attr, []) && e.tree == tree
              && p.value in e.fids && e.fids == fids[p.value := e.fids[p.value]]
              && e.fids[p.value].path == Text("/") && e.fids[p.value].openMode == None
            else Closed(e, fids, tree)
  {
    assert Text("/") == [0x2F];
    ComponentsOfRoot();
    hide ParseAttach, Components, EncodeQid, QidOf, ParseQid, ShowsQid, EncodeString;
    var e := Dispatch(h, now, m, fids, tree);
    if ParseAttach(m.body).Ok? {
      var body := EncodeQid(QidOf(h, ROOT, tree.attr));
      assert body + [] == body;
      QidIsReplied(h, e, 105, ROOT, tree.attr, []);
    }
  }

  // ---------------------------------------------------------------- fids

  /** Tclone: the new fid gets all that the old one has. */
  lemma CloneRequest(h: Hasher, now: U32, m: RawMessage, fids: FidTable, tree: Inode)
    requires m.msgType == 128
    ensures var e, p := Dispatch(h, now, m, fids, tree), ParseClone(m.body);
            if p.Err? then Closed(e, fids, tree)
            else if p.value.0 !in fids then Refused(e, fids, tree, Text("unknown fid"))
            else
              var (fid, newfid) := p.value;
              && Replied(e, 129, []) && e.tree == tree
              && newfid in e.fids && e.fids == fids[newfid := e.fids[newfid]]
              && e.fids[newfid].path == fids[fid].path && e.fids[newfid].openMode == fids[fid].openMode
              && e.fids[newfid].qid == fids[fid].qid
  {
    hide ParseClone, EncodeString;
  }

  /** Tclunk: the fid is unbound, bound before or not. */
  lemma ClunkRequest(h: Hasher, now: U32, m: RawMessage, fids: FidTable, tree: Inode)
    requires m.msgType == 120
    ensures var e, p := Dispatch(h, now, m, fids, tree), ParseU32(m.body);
            if p.Err? then Closed(e, fids, tree)
            else
              && Replied(e, 121, []) && e.tree == tree
              && forall f :: (f in e.fids <==> f in fids && f != p.value) && (f in e.fids ==> e.fids[f] == fids[f])
  {
    hide ParseU32;
  }

  /** Topen: of a node that is there, in any mode; its qid and an iounit of zero are answered. */
  lemma OpenRequest(h: Hasher, now: U32, m: RawMessage, fids: FidTable, tree: Inode)
    requires m.msgType == 112
    ensures var e, p := Dispatch(h, now, m, fids, tree), ParseOpen(m.body);
            if p.Err? then Closed(e, fids, tree)
            else if p.value.0 !in fids then Refused(e, fids, tree, Text("unknown fid"))
            else
              var (fid, mode) := p.value;
              var path := fids[fid].path;
              var node := Lookup(tree, Components(path));
              if node.None? then Refused(e, fids, tree, Text("file not found"))
              else
                && RepliedQid(h, e, 113, path, node.value.attr, [0, 0, 0, 0]) && e.tree == tree
                && fid in e.fids && e.fids == fids[fid := e.fids[fid]]
                && e.fids[fid].path == path && e.fids[fid].openMode == Some(mode)
                && ShowsQid(h, e.fids[fid].qid, path, node.value.attr)
  {
    hide ParseOpen, Lookup, Components, EncodeQid, EncodeString, ParseQid;
    ZeroNumber();
    hide U32Le;
    var e, p := Dispatch(h, now, m, fids, tree), ParseOpen(m.body);
    if p.Ok? && p.value.0 in fids && Find(tree, fids[p.value.0].path).Some? {
      var path := fids[p.value.0].path;
      QidIsReplied(h, e, 113, path, Find(tree, path).value.attr, [0, 0, 0, 0]);
    }
  }

  lemma ZeroNumber()
    ensures U32Le(0) == [0, 0, 0, 0]
  {
  }

  // ---------------------------------------------------------------- reading

  /** `chunk` is `data` from `offset` on, as much as there is and at most `count` bytes. */
  predicate IsChunk(data: seq<Byte>, offset: nat, count: nat, chunk: seq<Byte>) {
    && |chunk| == (if |data| <= offset then 0 else if |data| - offset < count then |data| - offset else count)
    && forall i :: 0 <= i < |chunk| ==> chunk[i] == data[offset + i]
  }

  /** A directory brings the stats of its entries one after the other, any other node its data. */
  predicate Brings(h: Hasher, tree: Inode, path: Str, node: Inode, data: seq<Byte>) {
    data == if node.attr.mode >= 0x8000_0000 then DirBytes(h, tree, path, Sorting.Sorted(node.children.Keys))
            else node.attr.data
  }

  /** Why a Tread is refused, in the order of the checks. */
  function ReadRefusal(fids: FidTable, tree: Inode, fid: U32): Option<Str> {
    if fid !in fids then Some(Text("unknown fid"))
    else if fids[fid].openMode.None? then Some(Text("fid not open"))
    else if fids[fid].openMode.value % 4 == 1 then Some(Text("fid not open for read"))
    else
      var p := Components(fids[fid].path);
      if Lookup(tree, p).None? then Some(Text("file not found"))
      else if p == [] && tree.attr.mode < 0x8000_0000 then Some(Text("file missing during read"))
      else None
  }

  /** Tread: the chunk behind its length; nothing changes. */
  lemma ReadRequest(h: Hasher, now: U32, m: RawMessage, fids: FidTable, tree: Inode)
    requires m.msgType == 116
    ensures var e, p := Dispatch(h, now, m, fids, tree), ParseRead(m.body);
            if p.Err? then Closed(e, fids, tree)
            else
              var (fid, offset, count) := p.value;
              var refusal := ReadRefusal(fids, tree, fid);
              if refusal.Some? then Refused(e, fids, tree, refusal.value)
              else
                && e.fids == fids && e.tree == tree
                && exists data, chunk ::
                     && Brings(h, tree, fids[fid].path, Lookup(tree, Components(fids[fid].path)).value, data)
                     && IsChunk(data, offset, count, chunk)
                     && Replied(e, 117, U32Le(|chunk|) + chunk)
  {
    hide ParseRead, Lookup, Components, EncodeString, U32Le, DirBytes, Chunk;
    var e, p := Dispatch(h, now, m, fids, tree), ParseRead(m.body);
    if p.Ok? && ReadRefusal(fids, tree, p.value.0).None? {
      var (fid, offset, count) := p.value;
      RootIsFound(tree);
      var data := SourceOf(h, tree, fids[fid].path).bytes;
      var chunk := Chunk(data, offset, count);
      ChunkIs(data, offset, count);
      assert Brings(h, tree, fids[fid].path, Lookup(tree, Components(fids[fid].path)).value, data);
      assert Replied(e, 117, U32Le(|chunk|) + chunk);
    } else if p.Ok? {
      RootIsFound(tree);
    }
  }

  lemma RootIsFound(t: Inode)
    ensures Lookup(t, []) == Some(t)
  {
  }

  lemma ChunkIs(data: seq<Byte>, offset: nat, count: nat)
    ensures IsChunk(data, offset, count, Chunk(data, offset, count))
  {
  }

  // ---------------------------------------------------------------- writing

  /** Why a Twrite is refused, in the order of the checks. */
  function WriteRefusal(fids: FidTable, fid: U32): Option<Str> {
    if fid !in fids then Some(Text("unknown fid"))
    else if fids[fid].openMode.None? then Some(Text("fid not open"))
    else
      var mode := fids[fid].openMode.value;
      if mode % 4 != 1 && mode % 4 != 2 && mode / 16 % 2 == 0 then Some(Text("fid not open for write"))
      else None
  }

  /** Twrite: all bytes and their number, or none and zero when the file is gone or is the root. */
  lemma WriteRequest(h: Hasher, now: U32, m: RawMessage, fids: FidTable, tree: Inode, q: Path)
    requires m.msgType == 118
    ensures var e, p := Dispatch(h, now, m, fids, tree), ParseWrite(m.body);
            if p.Err? then Closed(e, fids, tree)
            else
              var (fid, offset, bytes) := p.value;
              var refusal := WriteRefusal(fids, fid);
              if refusal.Some? then Refused(e, fids, tree, refusal.value)
              else
                var path := Components(fids[fid].path);
                var before, after := At(tree, q), At(e.tree, q);
                && e.fids == fids
                && if path == [] || At(tree, path).None? then Replied(e, 119, U32Le(0)) && e.tree == tree
                   else
                     && Replied(e, 119, U32Le(|bytes|))
                     && if q == path then
                          && after.Some? && Overwritten(before.value.data, offset, bytes, after.value.data)
                          && after.value.mtime == now
                          && after.value.name == before.value.name && after.value.mode == before.value.mode
                          && after.value.uid == before.value.uid && after.value.gid == before.value.gid
                          && after.value.atime == before.value.atime
                        else after == before
  {
    hide ParseWrite, Components, EncodeString, U32Le, Tree.Write, Overwritten, At;
    var p := ParseWrite(m.body);
    if p.Ok? && p.value.0 in fids {
      WrittenFields(tree, Components(fids[p.value.0].path), p.value.1, p.value.2, now, q);
    }
  }

  // ---------------------------------------------------------------- stat and wstat

  /** Tstat: every field of the node. */
  lemma StatRequest(h: Hasher, now: U32, m: RawMessage, fids: FidTable, tree: Inode)
    requires m.msgType == 124
    ensures var e, p := Dispatch(h, now, m, fids, tree), ParseU32(m.body);
            if p.Err? then Closed(e, fids, tree)
            else if p.value !in fids then Refused(e, fids, tree, Text("unknown fid"))
            else
              var path := fids[p.value].path;
              var a := At(tree, Components(path));
              if a.None? then Refused(e, fids, tree, Text("file not found"))
              else
                && e.fids == fids && e.tree == tree
                && exists s :: ShowsStat(h, s, path, a.value) && Replied(e, 125, EncodeStat(s))
  {
    hide ParseU32, Components, EncodeString, EncodeStat, StatOf, ShowsStat, Lookup;
    var p := ParseU32(m.body);
    if p.Ok? && p.value in fids && At(tree, Components(fids[p.value].path)).Some? {
      var path := fids[p.value].path;
      StatShows(h, path, At(tree, Components(path)).value);
    }
  }

  /** Why a Twstat is refused, in the order of the checks. */
  function WstatRefusal(body: seq<Byte>, fids: FidTable, tree: Inode): Option<Str>
    requires ParseU32(body).Ok?
  {
    var fid := ParseU32(body).value;
    if fid !in fids then Some(Text("unknown fid"))
    else
      match ParseStat(ParseU32(body).rest)
      case Err(UnexpectedEof) => Some(Text("invalid stat format: ") + Text("failed to fill whole buffer"))
      case Err(InvalidData) => Some(Text("invalid stat format: ") + Text("invalid UTF-8 string"))
      case Ok(stat, _) => if CanEdit(tree, Components(fids[fid].path), stat) then None else Some(Text("wstat failed"))
  }

  /** The root can always be edited, another node when it is there and its new name is not taken. */
  predicate CanEdit(tree: Inode, p: Path, stat: Stat) {
    p == [] || (At(tree, p).Some? && (GivesName(stat, p) ==> At(tree, Moved(p, stat)).None?))
  }

  /** Twstat: the node is edited field by field and stands where its name says, with what was below it; every other node
      is as it was. */
  lemma WstatRequest(h: Hasher, now: U32, m: RawMessage, fids: FidTable, tree: Inode, q: Path)
    requires m.msgType == 126
    ensures var e, fid := Dispatch(h, now, m, fids, tree), ParseU32(m.body);
            if fid.Err? then Closed(e, fids, tree)
            else
              var refusal := WstatRefusal(m.body, fids, tree);
              if refusal.Some? then Refused(e, fids, tree, refusal.value)
              else
                var stat := ParseStat(fid.rest).value;
                var p := Components(fids[fid.value].path);
                var before, after, p' := At(tree, q), At(e.tree, q), Moved(p, stat);
                && e.fids == fids && Replied(e, 127, []) && At(tree, p).Some?
                && if q == p' then
                     && after.Some?
                     && Edited(At(tree, p).value, after.value, stat, p == [],
                               if GivesName(stat, p) then stat.name else At(tree, p).value.name)
                   else if p' <= q && GivesName(stat, p) then after == At(tree, p + q[|p'|..])
                   else if p <= q && GivesName(stat, p) then after == None
                   else after == before
  {
    hide ParseU32, ParseStat, Components, EncodeString, Wstat, Edited, Lookup;
    var fid := ParseU32(m.body);
    if fid.Ok? && fid.value in fids && ParseStat(fid.rest).Ok? {
      var stat, p := ParseStat(fid.rest).value, Components(fids[fid.value].path);
      TreeLaws.WstatOutcome(tree, p, stat);
      RootIsFound(tree);
      if Wstat(tree, p, stat).Some? { WstatFields(tree, p, stat, q); }
    }
  }

  // ---------------------------------------------------------------- remove

  /** Tremove: the node goes with all below it. The fid goes even when nothing else does. */
  lemma RemoveRequest(h: Hasher, now: U32, m: RawMessage, fids: FidTable, tree: Inode, q: Path)
    requires m.msgType == 122
    ensures var e, p := Dispatch(h, now, m, fids, tree), ParseU32(m.body);
            if p.Err? then Closed(e, fids, tree)
            else if p.value !in fids then Refused(e, fids, tree, Text("unknown fid"))
            else
              var path := Components(fids[p.value].path);
              && (forall f :: (f in e.fids <==> f in fids && f != p.value) && (f in e.fids ==> e.fids[f] == fids[f]))
              && if path == [] || At(tree, path).None? then
                   e.tree == tree && Replied(e, 107, EncodeString(Text("remove failed")))
                 else Replied(e, 123, []) && At(e.tree, q) == if path <= q then None else At(tree, q)
  {
    hide ParseU32, Components, EncodeString, Remove, Lookup;
    var p := ParseU32(m.body);
    if p.Ok? && p.value in fids { RemovedFields(tree, Components(fids[p.value].path), q); }
  }

  // ---------------------------------------------------------------- create

  /** Why a Tcreate is refused, in the order of the checks. */
  function CreateRefusal(fids: FidTable, tree: Inode, fid: U32, name: Str): Option<Str> {
    if fid !in fids then Some(Text("unknown fid"))
    else if name == [] then Some(Text("invalid target path"))
    else if Lookup(tree, Components(ResolveStep(fids[fid].path, name).value)).Some? then Some(Text("file exists"))
    else None
  }

  /** What a path shows before and after the creation of `p`: an empty file of mode 0o644, or with the directory bit in
      the permissions a directory of mode 0o755, whatever the other permissions; each missing ancestor becomes such a
      directory; every other node is kept. */
  predicate MadeAt(tree: Inode, tree': Inode, p: Path, perm: U32, now: U32, q: Path) {
    var before, after := At(tree, q), At(tree', q);
    && p != [] && At(tree', p).Some?
    && if q == p then
         JustMade(after.value, p[|p| - 1], [], if perm >= 0x8000_0000 then 0x8000_01ED else 0x1A4, now)
       else if q != [] && q <= p && before.None? then
         after.Some? && JustMade(after.value, q[|q| - 1], [], 0x8000_01ED, now)
       else after == before
  }

  /** What a Tcreate comes to: something new is made, its qid answered with an iounit of zero, and no fid moves; or it
      is refused. */
  predicate CreateDone(h: Hasher, e: Effect, now: U32, fid: U32, name: Str, perm: U32, fids: FidTable, tree: Inode,
      q: Path)
  {
    var refusal := CreateRefusal(fids, tree, fid, name);
    if refusal.Some? then Refused(e, fids, tree, refusal.value)
    else
      var path := ResolveStep(fids[fid].path, name).value;
      var p := Components(path);
      && MadeAt(tree, e.tree, p, perm, now, q) && e.fids == fids
      && RepliedQid(h, e, 115, path, At(e.tree, p).value, [0, 0, 0, 0])
  }

  lemma CreateRequest(h: Hasher, now: U32, m: RawMessage, fids: FidTable, tree: Inode, q: Path)
    requires m.msgType == 114
    ensures var e, r := Dispatch(h, now, m, fids, tree), ParseCreate(m.body);
            if r.Ok? then CreateDone(h, e, now, r.value.0, r.value.1, r.value.2, fids, tree, q)
            else Closed(e, fids, tree)
  {
    hide ParseCreate;
    var r := ParseCreate(m.body);
    if r.Ok? && r.value.0 in fids {
      ResolveFails(fids[r.value.0].path, r.value.1);
      if CreateRefusal(fids, tree, r.value.0, r.value.1).None? {
        var path := ResolveStep(fids[r.value.0].path, r.value.1).value;
        hide ResolveStep;
        CreateGranted(h, now, path, r.value.2, fids, tree, q);
        hide CreateAt, Components, RepliedQid, JustMade, Lookup, MadeAt;
      } else {
        hide ResolveStep, Components, EncodeString, Lookup, Make, EncodeQid;
      }
    }
  }

  lemma ResolveFails(base: Str, name: Str)
    ensures ResolveStep(base, name).None? <==> name == []
  {
  }

  lemma CreateGranted(h: Hasher, now: U32, path: Str, perm: U32, fids: FidTable, tree: Inode, q: Path)
    requires Lookup(tree, Components(path)).None?
    ensures var e, p := CreateAt(h, now, path, perm, fids, tree), Components(path);
            && MadeAt(tree, e.tree, p, perm, now, q) && e.fids == fids
            && RepliedQid(h, e, 115, path, At(e.tree, p).value, [0, 0, 0, 0])
  {
    var p, kind := Components(path), if IsDirMode(perm) then Dir else File([]);
    RootIsFound(tree);
    MadeIsFound(tree, p, kind, now);
    MadeFields(tree, p, kind, now, p);
    MadeFields(tree, p, kind, now, q);
    ZeroNumber();
    NothingBelow(tree, p, q);
    hide Components, Lookup, Make, EncodeQid, ParseQid, EncodeString, U32Le, JustMade, QidOf, ShowsQid;
    var e := CreateAt(h, now, path, perm, fids, tree);
    assert Replied(e, 115, EncodeQid(QidOf(h, path, At(e.tree, p).value)) + U32Le(0));
    QidIsReplied(h, e, 115, path, At(e.tree, p).value, [0, 0, 0, 0]);
  }

  lemma NothingBelow(t: Inode, p: Path, q: Path)
    requires Lookup(t, p).None?
    ensures p <= q ==> At(t, q).None?
  {
    if p <= q && Lookup(t, q).Some? { LookupPrefix(t, p, q); }
  }

  /** Written from the start after its creation, a file reads as what was written; a directory still reads as the empty
      listing. */
  lemma CreatedThenWritten(h: Hasher, now: U32, later: U32, path: Str, perm: U32, d: seq<Byte>, fids: FidTable,
      tree: Inode)
    requires Lookup(tree, Components(path)).None?
    ensures var e := CreateAt(h, now, path, perm, fids, tree);
            var written := Tree.Write(e.tree, Components(path), 0, d, later);
            && SourceOf(h, e.tree, path) == Data([])
            && written.Some? && SourceOf(h, written.value, path) == Data(if perm >= 0x8000_0000 then [] else d)
  {
    var p, kind := Components(path), if IsDirMode(perm) then Dir else File([]);
    RootIsFound(tree);
    MadeIsFound(tree, p, kind, now);
    MadeFields(tree, p, kind, now, p);
    forall q | p <= q && q != p ensures At(Make(tree, p, kind, now), q).None? {
      MadeFields(tree, p, kind, now, q);
      NothingBelow(tree, p, q);
    }
    var made := Make(tree, p, kind, now);
    var node := Lookup(made, p).value;
    hide Components, Make, EncodeString, EncodeQid, U32Le, QidOf;
    Childless(made, p);
    WrittenFields(made, p, 0, d, later, p);
    WrittenChildren(made, p, d, later);
    ChildlessReads(h, made, path);
    ChildlessReads(h, Tree.Write(made, p, 0, d, later).value, path);
    FirstBytes(d, At(Tree.Write(made, p, 0, d, later).value, p).value.data);
  }

  lemma FirstBytes(d: seq<Byte>, after: seq<Byte>)
    ensures Overwritten([], 0, d, after) ==> after == d
  {
  }

  lemma Childless(t: Inode, p: Path)
    requires Lookup(t, p).Some? && forall q :: p <= q && q != p ==> At(t, q).None?
    ensures Lookup(t, p).value.children == map[]
  {
    forall k: Str ensures k !in Lookup(t, p).value.children {
      LookupConcat(t, p, [k]);
      var q := p + [k];
      assert |q| == |p| + 1 && At(t, q).None?;
      Flat.LookupOne(Lookup(t, p).value, [k]);
    }
  }

  lemma WrittenChildren(t: Inode, p: Path, d: seq<Byte>, now: U32)
    requires p != [] && Lookup(t, p).Some?
    ensures var t' := Tree.Write(t, p, 0, d, now);
            t'.Some? && Lookup(t'.value, p).Some? && Lookup(t'.value, p).value.children == Lookup(t, p).value.children
  {
    var node := Lookup(t, p).value;
    hide WriteAttr;
    LookupReplaced(t, p, node.(attr := WriteAttr(node.attr, 0, d, now)), p);
    assert p[|p|..] == [];
  }

  lemma ChildlessReads(h: Hasher, t: Inode, path: Str)
    requires Components(path) != [] && Find(t, path).Some? && Find(t, path).value.children == map[]
    ensures var a := Find(t, path).value.attr;
            SourceOf(h, t, path) == Data(if a.mode >= 0x8000_0000 then [] else a.data)
  {
    hide Find, Components;
    assert Find(t, path).value.children.Keys == {};
  }
}
