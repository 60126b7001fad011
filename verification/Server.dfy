/** What each request does to a connection's fids and the shared tree, and what it answers
    (libs/planten_fs_ramfs/src/server.rs). A handler runs its whole tree access under one lock, so each is one step. */
module Server {
  import opened Bytes
  import opened Paths
  import opened Stats
  import opened Tree
  import opened Codec
  import opened Frames
  import opened Messages
  import opened Sorting
  import Flat

  /** `DefaultHasher` over a path and an mtime; its values are left open. */
  type Hasher = (Str, U32) -> U64

  datatype FidState = FidState(path: Str, qid: Qid, openMode: Option<Byte>)

  type FidTable = map<U32, FidState>

  datatype Reply = Reply(msgType: Byte, body: seq<Byte>)

  /** The state after a request, and the reply; no reply means the handler failed and the connection is closed. */
  datatype Effect = Effect(fids: FidTable, tree: Inode, reply: Option<Reply>)

  function Close(fids: FidTable, tree: Inode): Effect {
    Effect(fids, tree, None)
  }

  function Answer(fids: FidTable, tree: Inode, msgType: Byte, body: seq<Byte>): Effect {
    Effect(fids, tree, Some(Reply(msgType, body)))
  }

  /** `send_error` */
  function Refuse(fids: FidTable, tree: Inode, text: Str): Effect {
    Answer(fids, tree, RERROR, EncodeString(text))
  }

  // ---------------------------------------------------------------- values

  function QidOf(h: Hasher, path: Str, a: Attr): Qid {
    Qid(if IsDirMode(a.mode) then 0x80 else 0x00, a.mtime, h(path, a.mtime))
  }

  /** `inode_to_stat`; muid repeats uid. */
  function StatOf(h: Hasher, path: Str, a: Attr): Stat {
    Stat(0, 0, QidOf(h, path, a), a.mode, a.atime, a.mtime, |a.data| % 0x1_0000_0000_0000_0000,
         a.name, a.uid, a.gid, a.uid)
  }

  /** `mode & 3` is 0, 2 or 3. */
  predicate ModeAllowsRead(mode: Byte) {
    mode % 4 == 0 || mode % 4 == 2 || mode % 4 == 3
  }

  /** `mode & 3` is 1 or 2, or `mode & 0x10` is set. */
  predicate ModeAllowsWrite(mode: Byte) {
    mode % 4 == 1 || mode % 4 == 2 || mode / 0x10 % 2 == 1
  }

  /** The arithmetic is the bit test of the code. */
  lemma ReadBits(mode: Byte, bits: bv8)
    requires bits as int == mode
    ensures ModeAllowsRead(mode) <==> bits & 3 == 0 || bits & 3 == 2 || bits & 3 == 3
  {
  }

  lemma WriteBits(mode: Byte, bits: bv8)
    requires bits as int == mode
    ensures ModeAllowsWrite(mode) <==> bits & 3 == 1 || bits & 3 == 2 || bits & 0x10 != 0
  {
  }

  /** A stat by path string. */
  function Find(t: Inode, path: Str): Option<Inode> {
    Lookup(t, Components(path))
  }

  // ---------------------------------------------------------------- handlers

  function HandleAuth(fids: FidTable, tree: Inode): Effect {
    Answer(fids, tree, RAUTH, Zeros(13))
  }

  function HandleVersion(body: seq<Byte>, fids: FidTable, tree: Inode): Effect {
    match ParseVersion(body)
    case Err(_) => Close(fids, tree)
    case Ok(_, _) => Answer(fids, tree, RVERSION, VersionBody(131072, Text("9P2000")))
  }

  function HandleAttach(h: Hasher, body: seq<Byte>, fids: FidTable, tree: Inode): Effect {
    match ParseAttach(body)
    case Err(_) => Close(fids, tree)
    case Ok(fid, _) =>
      match Find(tree, ROOT)
      case None => Refuse(fids, tree, Text("root missing"))
      case Some(root) =>
        var qid := QidOf(h, ROOT, root.attr);
        Answer(fids[fid := FidState(ROOT, qid, None)], tree, RATTACH, EncodeQid(qid))
  }

  /** How far the walk loop got: the input broke off, a step failed, or all names were followed. */
  datatype WalkResult = Broken | Failed(text: Str) | Walked(path: Str, qids: seq<Qid>)

  /** One name of a walk: resolve the path string and stat it from the root. */
  function WalkName(h: Hasher, t: Inode, path: Str, name: Str): WalkResult {
    match ResolveStep(path, name)
    case None => Failed(Text("walk failed: invalid component '") + name + Text("'"))
    case Some(next) =>
      match Find(t, next)
      case None => Failed(Text("walk failed: component '") + name + Text("' not found"))
      case Some(inode) => Walked(next, [QidOf(h, next, inode.attr)])
  }

  /** The loop over the names still in `rest`, after `qids` were collected. */
  function WalkLoop(h: Hasher, t: Inode, path: Str, qids: seq<Qid>, rest: seq<Byte>, n: nat): WalkResult
    decreases n
  {
    if n == 0 then Walked(path, qids)
    else match ParseString(rest)
      case Err(_) => Broken
      case Ok(name, rest') =>
        match WalkName(h, t, path, name)
        case Walked(next, qid) => WalkLoop(h, t, next, qids + qid, rest', n - 1)
        case failure => failure
  }

  function EncodeQids(qids: seq<Qid>): seq<Byte> {
    if qids == [] then [] else EncodeQid(qids[0]) + EncodeQids(qids[1..])
  }

  /** Binding the fid a finished walk leads to. */
  function FinishWalk(h: Hasher, newfid: U32, path: Str, qids: seq<Qid>, fids: FidTable, tree: Inode): Effect {
    var body := U16Le(|qids| % 0x1_0000) + EncodeQids(qids);
    if qids != [] then
      Answer(fids[newfid := FidState(path, qids[|qids| - 1], None)], tree, RWALK, body)
    else match Find(tree, path)
      case None => Refuse(fids, tree, Text("walk failed: target missing"))
      case Some(inode) =>
        Answer(fids[newfid := FidState(path, QidOf(h, path, inode.attr), None)], tree, RWALK, body)
  }

  /** Where a walk starts: an unknown fid stands for the root. */
  function WalkBase(fids: FidTable, fid: U32): Str {
    if fid in fids then fids[fid].path else ROOT
  }

  function HandleWalk(h: Hasher, body: seq<Byte>, fids: FidTable, tree: Inode): Effect {
    match ParseWalkHead(body)
    case Err(_) => Close(fids, tree)
    case Ok(head, rest) =>
      match WalkLoop(h, tree, WalkBase(fids, head.0), [], rest, head.2)
      case Broken => Close(fids, tree)
      case Failed(text) => Refuse(fids, tree, text)
      case Walked(path, qids) => FinishWalk(h, head.1, path, qids, fids, tree)
  }

  function HandleOpen(h: Hasher, body: seq<Byte>, fids: FidTable, tree: Inode): Effect {
    match ParseOpen(body)
    case Err(_) => Close(fids, tree)
    case Ok((fid, mode), _) =>
      if fid !in fids then Refuse(fids, tree, Text("unknown fid"))
      else match Find(tree, fids[fid].path)
        case None => Refuse(fids, tree, Text("file not found"))
        case Some(inode) =>
          var qid := QidOf(h, fids[fid].path, inode.attr);
          Answer(fids[fid := FidState(fids[fid].path, qid, Some(mode))], tree, ROPEN, EncodeQid(qid) + U32Le(0))
  }

  function HandleClone(body: seq<Byte>, fids: FidTable, tree: Inode): Effect {
    match ParseClone(body)
    case Err(_) => Close(fids, tree)
    case Ok((fid, newfid), _) =>
      if fid !in fids then Refuse(fids, tree, Text("unknown fid"))
      else Answer(fids[newfid := fids[fid]], tree, RCLONE, [])
  }

  /** The part of `handle_create` under the lock. */
  function CreateAt(h: Hasher, now: U32, path: Str, perm: U32, fids: FidTable, tree: Inode): Effect {
    if Find(tree, path).Some? then Refuse(fids, tree, Text("file exists"))
    else
      var kind := if IsDirMode(perm) then Dir else File([]);
      var tree' := Make(tree, Components(path), kind, now);
      MadeIsFound(tree, Components(path), kind, now);
      var qid := QidOf(h, path, Lookup(tree', Components(path)).value.attr);
      Answer(fids, tree', RCREATE, EncodeQid(qid) + U32Le(0))
  }

  /** Why the `unwrap` after a creation cannot fail. */
  lemma MadeIsFound(t: Inode, p: Path, kind: Kind, now: U32)
    requires Lookup(t, p).None?
    ensures Lookup(Make(t, p, kind, now), p).Some?
  {
    Flat.MakeAt(t, p, kind, now, p);
  }

  function HandleCreate(h: Hasher, now: U32, body: seq<Byte>, fids: FidTable, tree: Inode): Effect {
    match ParseCreate(body)
    case Err(_) => Close(fids, tree)
    case Ok((fid, name, perm, _), _) =>
      if fid !in fids then Refuse(fids, tree, Text("unknown fid"))
      else match ResolveStep(fids[fid].path, name)
        case None => Refuse(fids, tree, Text("invalid target path"))
        case Some(path) => CreateAt(h, now, path, perm, fids, tree)
  }

  /** The bytes of an open directory: the children's stats in name order. */
  function DirBytes(h: Hasher, t: Inode, path: Str, entries: seq<Str>): seq<Byte> {
    if entries == [] then []
    else EntryBytes(h, t, path, entries[0]) + DirBytes(h, t, path, entries[1..])
  }

  function EntryBytes(h: Hasher, t: Inode, path: Str, entry: Str): seq<Byte> {
    match ResolveStep(path, entry)
    case None => []
    case Some(child) =>
      match Find(t, child)
      case None => []
      case Some(inode) => EncodeStat(StatOf(h, child, inode.attr))
  }

  /** What a Tread reads from, or why it cannot. */
  datatype Source = Data(bytes: seq<Byte>) | Unreadable(text: Str)

  function SourceOf(h: Hasher, t: Inode, path: Str): Source {
    match Find(t, path)
    case None => Unreadable(Text("file not found"))
    case Some(inode) =>
      if IsDirMode(inode.attr.mode) then Data(DirBytes(h, t, path, Sorted(inode.children.Keys)))
      else if Components(path) == [] then Unreadable(Text("file missing during read"))
      else Data(inode.attr.data)
  }

  function Chunk(data: seq<Byte>, offset: nat, count: nat): (r: seq<Byte>)
    ensures |r| <= count
  {
    if offset >= |data| then []
    else data[offset..(if offset + count <= |data| then offset + count else |data|)]
  }

  function HandleRead(h: Hasher, body: seq<Byte>, fids: FidTable, tree: Inode): Effect {
    match ParseRead(body)
    case Err(_) => Close(fids, tree)
    case Ok((fid, offset, count), _) =>
      if fid !in fids then Refuse(fids, tree, Text("unknown fid"))
      else match fids[fid].openMode
        case None => Refuse(fids, tree, Text("fid not open"))
        case Some(mode) =>
          if !ModeAllowsRead(mode) then Refuse(fids, tree, Text("fid not open for read"))
          else match SourceOf(h, tree, fids[fid].path)
            case Unreadable(text) => Refuse(fids, tree, text)
            case Data(data) =>
              var chunk := Chunk(data, offset, count);
              Answer(fids, tree, RREAD, U32Le(|chunk| % 0x1_0000_0000) + chunk)
  }

  function HandleWrite(now: U32, body: seq<Byte>, fids: FidTable, tree: Inode): Effect {
    match ParseWrite(body)
    case Err(_) => Close(fids, tree)
    case Ok((fid, offset, data), _) =>
      if fid !in fids then Refuse(fids, tree, Text("unknown fid"))
      else match fids[fid].openMode
        case None => Refuse(fids, tree, Text("fid not open"))
        case Some(mode) =>
          if !ModeAllowsWrite(mode) then Refuse(fids, tree, Text("fid not open for write"))
          else match Write(tree, Components(fids[fid].path), offset, data, now)
            case None => Answer(fids, tree, RWRITE, U32Le(0))
            case Some(tree') => Answer(fids, tree', RWRITE, U32Le(|data| % 0x1_0000_0000))
  }

  function HandleStat(h: Hasher, body: seq<Byte>, fids: FidTable, tree: Inode): Effect {
    match ParseU32(body)
    case Err(_) => Close(fids, tree)
    case Ok(fid, _) =>
      if fid !in fids then Refuse(fids, tree, Text("unknown fid"))
      else match Find(tree, fids[fid].path)
        case None => Refuse(fids, tree, Text("file not found"))
        case Some(inode) => Answer(fids, tree, RSTAT, EncodeStat(StatOf(h, fids[fid].path, inode.attr)))
  }

  /** How `std::io::Error` prints the two kinds. */
  function ErrorText(e: IoError): Str {
    match e
    case UnexpectedEof => Text("failed to fill whole buffer")
    case InvalidData => Text("invalid UTF-8 string")
  }

  function HandleWstat(body: seq<Byte>, fids: FidTable, tree: Inode): Effect {
    match ParseU32(body)
    case Err(_) => Close(fids, tree)
    case Ok(fid, rest) =>
      if fid !in fids then Refuse(fids, tree, Text("unknown fid"))
      else match ParseStat(rest)
        case Err(e) => Refuse(fids, tree, Text("invalid stat format: ") + ErrorText(e))
        case Ok(stat, _) => WstatAt(fids[fid].path, stat, fids, tree)
  }

  /** The part of `handle_wstat` under the lock. */
  function WstatAt(path: Str, stat: Stat, fids: FidTable, tree: Inode): Effect {
    match Wstat(tree, Components(path), stat)
    case None => Refuse(fids, tree, Text("wstat failed"))
    case Some(tree') => Answer(fids, tree', RWSTAT, [])
  }

  function HandleRemove(body: seq<Byte>, fids: FidTable, tree: Inode): Effect {
    match ParseU32(body)
    case Err(_) => Close(fids, tree)
    case Ok(fid, _) =>
      if fid !in fids then Refuse(fids, tree, Text("unknown fid"))
      else match Remove(tree, Components(fids[fid].path))
        case None => Refuse(fids - {fid}, tree, Text("remove failed"))
        case Some(tree') => Answer(fids - {fid}, tree', RREMOVE, [])
  }

  function HandleClunk(body: seq<Byte>, fids: FidTable, tree: Inode): Effect {
    match ParseU32(body)
    case Err(_) => Close(fids, tree)
    case Ok(fid, _) => Answer(fids - {fid}, tree, RCLUNK, [])
  }

  function HandleFlush(fids: FidTable, tree: Inode): Effect {
    Answer(fids, tree, RFLUSH, [])
  }

  /** The dispatch of `handle_client`. */
  function Dispatch(h: Hasher, now: U32, m: RawMessage, fids: FidTable, tree: Inode): Effect {
    if m.msgType == TVERSION then HandleVersion(m.body, fids, tree)
    else if m.msgType == TATTACH then HandleAttach(h, m.body, fids, tree)
    else if m.msgType == TWALK then HandleWalk(h, m.body, fids, tree)
    else if m.msgType == TOPEN then HandleOpen(h, m.body, fids, tree)
    else if m.msgType == TREAD then HandleRead(h, m.body, fids, tree)
    else if m.msgType == TWRITE then HandleWrite(now, m.body, fids, tree)
    else if m.msgType == TWSTAT then HandleWstat(m.body, fids, tree)
    else if m.msgType == TFLUSH then HandleFlush(fids, tree)
    else if m.msgType == TREMOVE then HandleRemove(m.body, fids, tree)
    else if m.msgType == TCLUNK then HandleClunk(m.body, fids, tree)
    else if m.msgType == TSTAT then HandleStat(h, m.body, fids, tree)
    else if m.msgType == TCLONE then HandleClone(m.body, fids, tree)
    else if m.msgType == TCREATE then HandleCreate(h, now, m.body, fids, tree)
    else if m.msgType == TAUTH then HandleAuth(fids, tree)
    else Refuse(fids, tree, Text("unsupported message"))
  }

  // ---------------------------------------------------------------- replies

  /** Bodies a handler decodes to the end whatever the state. */
  predicate Decodable(m: RawMessage) {
    if m.msgType == TVERSION then ParseVersion(m.body).Ok?
    else if m.msgType == TATTACH then ParseAttach(m.body).Ok?
    else if m.msgType == TWALK then ParseWalk(m.body).Ok?
    else if m.msgType == TOPEN then ParseOpen(m.body).Ok?
    else if m.msgType == TREAD then ParseRead(m.body).Ok?
    else if m.msgType == TWRITE then ParseWrite(m.body).Ok?
    else if m.msgType == TCLONE then ParseClone(m.body).Ok?
    else if m.msgType == TCREATE then ParseCreate(m.body).Ok?
    else if m.msgType == TWSTAT || m.msgType == TREMOVE || m.msgType == TCLUNK || m.msgType == TSTAT then
      ParseU32(m.body).Ok?
    else true
  }

  predicate KnownRequest(msgType: Byte) {
    msgType in {TVERSION, TATTACH, TWALK, TOPEN, TREAD, TWRITE, TWSTAT, TFLUSH, TREMOVE, TCLUNK, TSTAT, TCLONE,
                TCREATE, TAUTH}
  }

  /** The same walk over decoded names. */
  function WalkNames(h: Hasher, t: Inode, path: Str, qids: seq<Qid>, names: seq<Str>): WalkResult
    decreases names
  {
    if names == [] then Walked(path, qids)
    else match WalkName(h, t, path, names[0])
      case Walked(next, qid) => WalkNames(h, t, next, qids + qid, names[1..])
      case failure => failure
  }

  /** The loop walks the names it can decode; with fewer names than announced it never finishes. */
  lemma {:induction false} WalkLoopIsNames(h: Hasher, t: Inode, path: Str, qids: seq<Qid>, rest: seq<Byte>, n: nat)
    ensures match ParseStrings(rest, n)
            case Ok(names, _) => WalkLoop(h, t, path, qids, rest, n) == WalkNames(h, t, path, qids, names)
            case Err(_) => !WalkLoop(h, t, path, qids, rest, n).Walked?
    decreases n
  {
    hide ParseString, WalkName;
    if n > 0 && ParseString(rest).Ok? {
      var name, rest' := ParseString(rest).value, ParseString(rest).rest;
      match WalkName(h, t, path, name)
      case Walked(next, qid) =>
        WalkLoopIsNames(h, t, next, qids + qid, rest', n - 1);
        if ParseStrings(rest', n - 1).Ok? {
          NamesHead(name, ParseStrings(rest', n - 1).value);
        }
      case _ =>
        if ParseStrings(rest', n - 1).Ok? {
          NamesHead(name, ParseStrings(rest', n - 1).value);
        }
    }
  }

  lemma NamesHead(name: Str, names: seq<Str>)
    ensures ([name] + names)[0] == name && ([name] + names)[1..] == names
  {
  }

  lemma {:induction false} WalkNamesEnds(h: Hasher, t: Inode, path: Str, qids: seq<Qid>, names: seq<Str>)
    ensures !WalkNames(h, t, path, qids, names).Broken?
    decreases names
  {
    hide WalkName;
    if names != [] {
      WalkNameEnds(h, t, path, names[0]);
      match WalkName(h, t, path, names[0])
      case Walked(next, qid) => WalkNamesEnds(h, t, next, qids + qid, names[1..]);
      case _ =>
    }
  }

  lemma WalkNameEnds(h: Hasher, t: Inode, path: Str, name: Str)
    ensures !WalkName(h, t, path, name).Broken?
    ensures WalkName(h, t, path, name).Walked? ==> |WalkName(h, t, path, name).qids| == 1
  {
  }

  /** In any state, a decodable request is answered by its own reply type or by RERROR, and only a request that
      does not decode can close the connection, leaving fids and tree alone. */
  lemma ReplyMatchesRequest(h: Hasher, now: U32, m: RawMessage, fids: FidTable, tree: Inode)
    ensures var e := Dispatch(h, now, m, fids, tree);
            && (Decodable(m) ==> e.reply.Some?)
            && (e.reply.Some? ==> e.reply.value.msgType == RERROR
                                  || (KnownRequest(m.msgType) && e.reply.value.msgType == m.msgType + 1))
            && (e.reply.None? ==> e.fids == fids && e.tree == tree)
  {
    hide ParseVersion, ParseAttach, ParseOpen, ParseRead, ParseWrite, ParseClone, ParseCreate, ParseU32, ParseWalk,
      HandleWalk, ParseStat, EncodeString, EncodeQid, EncodeStat, U32Le, VersionBody, Chunk, SourceOf, Make, Write,
      Wstat, Remove, Lookup, ResolveStep, Components, StatOf;
    if m.msgType == TWALK { WalkReplyMatches(h, m.body, fids, tree); }
  }

  lemma WalkReplyMatches(h: Hasher, body: seq<Byte>, fids: FidTable, tree: Inode)
    ensures var e := HandleWalk(h, body, fids, tree);
            && (ParseWalk(body).Ok? ==> e.reply.Some?)
            && (e.reply.Some? ==> e.reply.value.msgType == RERROR || e.reply.value.msgType == RWALK)
            && (e.reply.None? ==> e.fids == fids && e.tree == tree)
  {
    hide ParseWalkHead, ParseStrings, WalkLoop, WalkNames, EncodeString, EncodeQids, U16Le, Find, QidOf;
    if ParseWalkHead(body).Ok? {
      var head, rest := ParseWalkHead(body).value, ParseWalkHead(body).rest;
      WalkLoopIsNames(h, tree, WalkBase(fids, head.0), [], rest, head.2);
      if ParseStrings(rest, head.2).Ok? {
        WalkNamesEnds(h, tree, WalkBase(fids, head.0), [], ParseStrings(rest, head.2).value);
      }
    }
  }
}
