/** What one request can do: to the tree, to the invariant, to one path, to the node count, to the fids. */
module Effects {
  import opened Bytes
  import opened Paths
  import opened Stats
  import opened Tree
  import opened Flat
  import opened TreeLaws
  import opened Codec
  import opened Frames
  import opened Messages
  import opened Server
  import opened FileLog

  predicate Succeeded(e: Effect, msgType: Byte) {
    e.reply.Some? && e.reply.value.msgType == msgType
  }

  /** The component list of the fid a body starts with. */
  function FidPath(body: seq<Byte>, fids: FidTable): Option<Path> {
    match ParseU32(body)
    case Err(_) => None
    case Ok(fid, _) => if fid in fids then Some(Components(fids[fid].path)) else None
  }

  /** The path a Tcreate names. */
  function CreatePath(body: seq<Byte>, fids: FidTable): Option<Path> {
    match ParseCreate(body)
    case Err(_) => None
    case Ok((fid, name, _, _), _) =>
      if fid !in fids then None
      else match ResolveStep(fids[fid].path, name)
        case None => None
        case Some(path) => Some(Components(path))
  }

  /** The tree operation a request comes down to in a given state, if any. */
  function OpOf(now: U32, m: RawMessage, fids: FidTable, tree: Inode): Option<FsOp> {
    if m.msgType == TCREATE then
      match CreatePath(m.body, fids)
      case None => None
      case Some(p) =>
        if Lookup(tree, p).Some? then None
        else if IsDirMode(ParseCreate(m.body).value.2) then Some(CreateDir(p, now))
        else Some(CreateFile(p, [], now))
    else if m.msgType == TWRITE then
      match ParseWrite(m.body)
      case Err(_) => None
      case Ok((fid, offset, data), _) =>
        if fid in fids && fids[fid].openMode.Some? && ModeAllowsWrite(fids[fid].openMode.value)
        then Some(WriteOp(Components(fids[fid].path), offset, data, now))
        else None
    else if m.msgType == TREMOVE then
      match FidPath(m.body, fids) case None => None case Some(p) => Some(RemoveOp(p))
    else if m.msgType == TWSTAT then
      match FidPath(m.body, fids)
      case None => None
      case Some(p) =>
        match ParseStat(ParseU32(m.body).rest) case Err(_) => None case Ok(stat, _) => Some(WstatOp(p, stat))
    else None
  }

  /** The tree after a request is the tree after its operation, so every server run is a run of tree operations. */
  lemma DispatchIsOp(h: Hasher, now: U32, m: RawMessage, fids: FidTable, tree: Inode)
    ensures Dispatch(h, now, m, fids, tree).tree ==
            match OpOf(now, m, fids, tree) case None => tree case Some(op) => Apply(tree, op)
  {
    hide ParseVersion, ParseAttach, ParseOpen, ParseRead, ParseWrite, ParseClone, ParseCreate, ParseU32,
      ParseWalkHead, ParseStat, WalkLoop, EncodeString, EncodeQid, EncodeQids, EncodeStat, U16Le, U32Le,
      VersionBody, Chunk, SourceOf, Make, Write, Wstat, Remove, Lookup, ResolveStep, Components, StatOf;
  }

  /** When creates, removes and wstats succeed, and what they then did. */
  lemma SuccessMeans(h: Hasher, now: U32, m: RawMessage, fids: FidTable, tree: Inode)
    ensures var e := Dispatch(h, now, m, fids, tree);
            && (Succeeded(e, RCREATE) <==>
                  m.msgType == TCREATE && CreatePath(m.body, fids).Some?
                  && Lookup(tree, CreatePath(m.body, fids).value).None?)
            && (Succeeded(e, RREMOVE) <==>
                  m.msgType == TREMOVE && FidPath(m.body, fids).Some?
                  && Remove(tree, FidPath(m.body, fids).value).Some?)
            && (Succeeded(e, RWSTAT) <==>
                  m.msgType == TWSTAT && FidPath(m.body, fids).Some?
                  && ParseStat(ParseU32(m.body).rest).Ok?
                  && Wstat(tree, FidPath(m.body, fids).value, ParseStat(ParseU32(m.body).rest).value).Some?)
  {
    hide ParseVersion, ParseAttach, ParseOpen, ParseRead, ParseWrite, ParseClone, ParseCreate, ParseU32,
      ParseWalkHead, ParseStat, WalkLoop, EncodeString, EncodeQid, EncodeQids, EncodeStat, U16Le, U32Le,
      VersionBody, Chunk, SourceOf, Make, Write, Wstat, Remove, Lookup, ResolveStep, Components, StatOf;
  }

  /** After a successful Tcreate the node is there, so the handler's `unwrap` cannot fail; the path is never the
      root, every missing ancestor was made, and the fids did not move. */
  lemma CreatedIsThere(h: Hasher, now: U32, m: RawMessage, fids: FidTable, tree: Inode, p: Path)
    ensures var e := Dispatch(h, now, m, fids, tree);
            Succeeded(e, RCREATE) && CreatePath(m.body, fids) == Some(p) ==>
              && p != [] && Lookup(tree, p).None? && ParseCreate(m.body).Ok?
              && e.tree == Make(tree, p, if IsDirMode(ParseCreate(m.body).value.2) then Dir else File([]), now)
              && e.fids == fids && forall q :: q <= p ==> Lookup(e.tree, q).Some?
  {
    if Succeeded(Dispatch(h, now, m, fids, tree), RCREATE) && CreatePath(m.body, fids) == Some(p) {
      SuccessMeans(h, now, m, fids, tree);
      DispatchIsOp(h, now, m, fids, tree);
      CreateKeepsFids(h, now, m, fids, tree);
      hide Dispatch, ParseCreate, Make, Components, ResolveStep, LeafAttr;
      var kind := if IsDirMode(ParseCreate(m.body).value.2) then Dir else File([]);
      MakeAt(tree, p, kind, now, p);
      var tree' := Dispatch(h, now, m, fids, tree).tree;
      assert tree' == Make(tree, p, kind, now);
      forall q | q <= p ensures Lookup(tree', q).Some? {
        LookupPrefix(tree', q, p);
      }
    }
  }

  lemma CreateKeepsFids(h: Hasher, now: U32, m: RawMessage, fids: FidTable, tree: Inode)
    requires m.msgType == TCREATE
    ensures Dispatch(h, now, m, fids, tree).fids == fids
  {
    hide ParseCreate, EncodeString, EncodeQid, Make, Lookup, ResolveStep, Components;
  }

  /** A decodable Tattach is always granted: the root is never missing. */
  lemma AttachIsGranted(h: Hasher, now: U32, m: RawMessage, fids: FidTable, tree: Inode)
    requires m.msgType == TATTACH && ParseAttach(m.body).Ok?
    ensures var e, fid := Dispatch(h, now, m, fids, tree), ParseAttach(m.body).value;
            && Succeeded(e, RATTACH) && e.tree == tree
            && fid in e.fids && e.fids == fids[fid := e.fids[fid]]
            && e.fids[fid].path == ROOT && e.fids[fid].openMode == None
  {
    ComponentsOfRoot();
    hide ParseAttach, EncodeQid;
  }

  // ---------------------------------------------------------------- the invariant

  ghost predicate FidsOk(fids: FidTable) {
    forall f :: f in fids ==> PathOk(Components(fids[f].path))
  }

  lemma StepOk(path: Str, name: Str)
    requires PathOk(Components(path)) && WireName(name) && ResolveStep(path, name).Some?
    ensures PathOk(Components(ResolveStep(path, name).value))
  {
    ResolveStepRefines(path, name);
    ComponentsOfWireName(name);
    ComponentsAreNameable(name);
  }

  lemma {:induction false} WalkOk(h: Hasher, t: Inode, path: Str, qids: seq<Qid>, names: seq<Str>)
    requires PathOk(Components(path)) && forall i :: 0 <= i < |names| ==> WireName(names[i])
    ensures var w := WalkNames(h, t, path, qids, names); w.Walked? ==> PathOk(Components(w.path))
    decreases names
  {
    if names != [] {
      assert WalkName(h, t, path, names[0]).Walked? ==>
          ResolveStep(path, names[0]) == Some(WalkName(h, t, path, names[0]).path);
      hide WalkName, ResolveStep, Components, PathOk;
      var w := WalkName(h, t, path, names[0]);
      if w.Walked? {
        StepOk(path, names[0]);
        WalkOk(h, t, w.path, qids + w.qids, names[1..]);
      }
    }
  }

  /** A finished Twalk decoded all its names and followed them. */
  lemma FinishedIsNames(h: Hasher, t: Inode, path: Str, rest: seq<Byte>, n: nat)
    requires WalkLoop(h, t, path, [], rest, n).Walked?
    ensures ParseStrings(rest, n).Ok?
    ensures var names := ParseStrings(rest, n).value;
            && WalkLoop(h, t, path, [], rest, n) == WalkNames(h, t, path, [], names)
            && forall i :: 0 <= i < |names| ==> WireName(names[i])
  {
    WalkLoopIsNames(h, t, path, [], rest, n);
  }

  lemma HandleWalkKeepsOk(h: Hasher, body: seq<Byte>, fids: FidTable, tree: Inode)
    requires FidsOk(fids)
    ensures FidsOk(HandleWalk(h, body, fids, tree).fids)
  {
    hide Components, PathOk, WalkLoop, WalkNames, ParseWalkHead, ParseStrings, EncodeQids, EncodeString, Find, QidOf;
    RootIsOk();
    if ParseWalkHead(body).Ok? {
      var head, rest := ParseWalkHead(body).value, ParseWalkHead(body).rest;
      var base := WalkBase(fids, head.0);
      if WalkLoop(h, tree, base, [], rest, head.2).Walked? {
        FinishedIsNames(h, tree, base, rest, head.2);
        WalkOk(h, tree, base, [], ParseStrings(rest, head.2).value);
      }
    }
  }

  lemma RootIsOk()
    ensures PathOk(Components(ROOT))
  {
    ComponentsOfRoot();
  }

  /** Every path bound afterwards was bound before or is the root's. */
  ghost predicate SmallChange(fids: FidTable, fids': FidTable) {
    forall f :: f in fids' ==> fids'[f].path == ROOT || exists g :: g in fids && fids[g].path == fids'[f].path
  }

  lemma AttachChange(h: Hasher, body: seq<Byte>, fids: FidTable, tree: Inode)
    ensures SmallChange(fids, HandleAttach(h, body, fids, tree).fids)
  {
    hide ParseAttach, EncodeQid, Find, EncodeString;
  }

  lemma OpenChange(h: Hasher, body: seq<Byte>, fids: FidTable, tree: Inode)
    ensures SmallChange(fids, HandleOpen(h, body, fids, tree).fids)
  {
    hide ParseOpen, EncodeQid, Find, EncodeString;
  }

  lemma CloneChange(body: seq<Byte>, fids: FidTable, tree: Inode)
    ensures SmallChange(fids, HandleClone(body, fids, tree).fids)
  {
    hide ParseClone, EncodeString;
  }

  lemma OtherChange(h: Hasher, now: U32, m: RawMessage, fids: FidTable, tree: Inode)
    requires m.msgType != TWALK
    ensures SmallChange(fids, Dispatch(h, now, m, fids, tree).fids)
  {
    AttachChange(h, m.body, fids, tree);
    OpenChange(h, m.body, fids, tree);
    CloneChange(m.body, fids, tree);
    hide HandleAttach, HandleOpen, HandleClone, ParseVersion, ParseRead, ParseWrite, ParseCreate,
      ParseU32, ParseStat, HandleWalk, EncodeString, EncodeQid, EncodeStat, U32Le, VersionBody, Chunk, SourceOf, Make,
      Write, Wstat, Remove, Lookup, Find, ResolveStep, Components, StatOf;
  }

  lemma SmallChangeKeepsOk(fids: FidTable, fids': FidTable)
    requires FidsOk(fids) && SmallChange(fids, fids')
    ensures FidsOk(fids')
  {
    RootIsOk();
    hide Components, PathOk;
  }

  /** No request leads to a fid whose path could not have come over the wire. */
  lemma DispatchKeepsFidsOk(h: Hasher, now: U32, m: RawMessage, fids: FidTable, tree: Inode)
    requires FidsOk(fids)
    ensures FidsOk(Dispatch(h, now, m, fids, tree).fids)
  {
    if m.msgType == TWALK {
      hide HandleWalk;
      HandleWalkKeepsOk(h, m.body, fids, tree);
    } else {
      OtherChange(h, now, m, fids, tree);
      SmallChangeKeepsOk(fids, Dispatch(h, now, m, fids, tree).fids);
    }
  }

  lemma OpKeepsOk(t: Inode, op: FsOp)
    requires TreeOk(t) && PathOk(op.path) && (op.WstatOp? ==> StatOk(op.stat))
    ensures TreeOk(Apply(t, op))
  {
    match op
    case CreateFile(p, data, now) => MakeKeepsOk(t, p, File(data), now);
    case CreateDir(p, now) => MakeKeepsOk(t, p, Dir, now);
    case WriteOp(p, offset, bytes, now) =>
      if Write(t, p, offset, bytes, now).Some? { WriteKeepsOk(t, p, offset, bytes, now); }
    case RemoveOp(p) => if Remove(t, p).Some? { RemoveKeepsOk(t, p); }
    case WstatOp(p, stat) => if Wstat(t, p, stat).Some? { WstatKeepsOk(t, p, stat); }
  }

  lemma CreatePathIsOk(body: seq<Byte>, fids: FidTable)
    requires FidsOk(fids) && CreatePath(body, fids).Some?
    ensures PathOk(CreatePath(body, fids).value)
  {
    var (fid, name, _, _) := ParseCreate(body).value;
    StepOk(fids[fid].path, name);
  }

  /** In every reachable state, for all requests: every map key is its node's name and not empty, and all names fit
      the wire. */
  lemma DispatchKeepsTreeOk(h: Hasher, now: U32, m: RawMessage, fids: FidTable, tree: Inode)
    requires TreeOk(tree) && FidsOk(fids)
    ensures TreeOk(Dispatch(h, now, m, fids, tree).tree)
  {
    DispatchIsOp(h, now, m, fids, tree);
    var op := OpOf(now, m, fids, tree);
    if op.Some? {
      if m.msgType == TCREATE { CreatePathIsOk(m.body, fids); }
      if m.msgType == TWSTAT { ParsedStatStrings(ParseU32(m.body).rest); }
      hide Dispatch, TreeOk, Apply, Components;
      OpKeepsOk(tree, op.value);
    }
  }

  // ---------------------------------------------------------------- one path

  /** The request took `q` away, by removing it or by giving it another name. */
  predicate Removes(h: Hasher, now: U32, m: RawMessage, fids: FidTable, tree: Inode, q: Path) {
    Succeeded(Dispatch(h, now, m, fids, tree), RREMOVE) && FidPath(m.body, fids) == Some(q)
  }

  predicate RenamesAway(h: Hasher, now: U32, m: RawMessage, fids: FidTable, tree: Inode, q: Path) {
    && Succeeded(Dispatch(h, now, m, fids, tree), RWSTAT) && FidPath(m.body, fids) == Some(q) && q != []
    && ParseStat(ParseU32(m.body).rest).Ok?
    && Renames(ParseStat(ParseU32(m.body).rest).value, Last(q))
  }

  /** A path stays until it or an ancestor is removed or renamed. */
  lemma PathStays(h: Hasher, now: U32, m: RawMessage, fids: FidTable, tree: Inode, p: Path)
    requires Lookup(tree, p).Some?
    requires forall q :: q <= p ==> !Removes(h, now, m, fids, tree, q) && !RenamesAway(h, now, m, fids, tree, q)
    ensures Lookup(Dispatch(h, now, m, fids, tree).tree, p).Some?
  {
    DispatchIsOp(h, now, m, fids, tree);
    SuccessMeans(h, now, m, fids, tree);
    var op := OpOf(now, m, fids, tree);
    if p != [] && op.Some? && Apply(tree, op.value) != tree {
      StaysSpared(h, now, m, fids, tree, p, op.value);
      SparedStep(tree, op.value, p);
    }
  }

  lemma StaysSpared(h: Hasher, now: U32, m: RawMessage, fids: FidTable, tree: Inode, p: Path, op: FsOp)
    requires Lookup(tree, p).Some? && p != []
    ensures OpOf(now, m, fids, tree) == Some(op) && Apply(tree, op) != tree
            && (forall q :: q <= p ==> !Removes(h, now, m, fids, tree, q) && !RenamesAway(h, now, m, fids, tree, q)) ==>
              Spares(op, p)
  {
    SuccessMeans(h, now, m, fids, tree);
    hide Dispatch, ParseU32, ParseStat, ParseCreate, ParseWrite, Components, ResolveStep;
    if OpOf(now, m, fids, tree) == Some(op) && Apply(tree, op) != tree {
      match op
      case CreateFile(q, _, _) => if q <= p { LookupPrefix(tree, q, p); }
      case RemoveOp(q) => assert Removes(h, now, m, fids, tree, q);
      case WstatOp(q, stat) =>
        if q != [] && Renames(stat, Last(q)) { assert RenamesAway(h, now, m, fids, tree, q); }
      case _ =>
    }
  }

  // ---------------------------------------------------------------- counting nodes

  function CreatedBy(h: Hasher, now: U32, m: RawMessage, fids: FidTable, tree: Inode): nat {
    if Succeeded(Dispatch(h, now, m, fids, tree), RCREATE) && CreatePath(m.body, fids).Some?
    then Missing(tree, CreatePath(m.body, fids).value) else 0
  }

  function RemovedBy(h: Hasher, now: U32, m: RawMessage, fids: FidTable, tree: Inode): nat {
    if Succeeded(Dispatch(h, now, m, fids, tree), RREMOVE) && FidPath(m.body, fids).Some?
       && Lookup(tree, FidPath(m.body, fids).value).Some?
    then NodeCount(Lookup(tree, FidPath(m.body, fids).value).value) else 0
  }

  /** A Tcreate adds its missing components, a Tremove takes its subtree, nothing else changes the node count. */
  lemma RequestCounts(h: Hasher, now: U32, m: RawMessage, fids: FidTable, tree: Inode)
    ensures NodeCount(Dispatch(h, now, m, fids, tree).tree) + RemovedBy(h, now, m, fids, tree) ==
            NodeCount(tree) + CreatedBy(h, now, m, fids, tree)
  {
    DispatchIsOp(h, now, m, fids, tree);
    SuccessMeans(h, now, m, fids, tree);
    hide Dispatch, ParseU32, ParseStat, ParseCreate, ParseWrite, Components, ResolveStep, NodeCount, Missing,
      Make, Write, Remove, Wstat;
    match OpOf(now, m, fids, tree)
    case None =>
    case Some(CreateFile(p, data, _)) => NotRoot(tree, p); MakeCounts(tree, p, File(data), now);
    case Some(CreateDir(p, _)) => NotRoot(tree, p); MakeCounts(tree, p, Dir, now);
    case Some(WriteOp(p, offset, bytes, _)) =>
      if Write(tree, p, offset, bytes, now).Some? { WriteCounts(tree, p, offset, bytes, now); }
    case Some(RemoveOp(p)) => if Remove(tree, p).Some? { RemoveCounts(tree, p); }
    case Some(WstatOp(p, stat)) => if Wstat(tree, p, stat).Some? { WstatCounts(tree, p, stat); }
  }

  lemma NotRoot(t: Inode, p: Path)
    ensures Lookup(t, p).None? ==> p != []
  {
  }
}
