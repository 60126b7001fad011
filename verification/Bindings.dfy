/** Where a fid stands, told by the wire alone, over any interleaving
    (libs/planten_fs_ramfs/src/server.rs:175-195, 251-256, 264-313, 323-357, 513-519, 528-538). */
module Bindings {
  import opened Bytes
  import opened Paths
  import opened Tree
  import opened Codec
  import opened Frames
  import opened Messages
  import opened Server
  import opened Systems
  import opened History
  import opened Requests
  import opened Trails

  /** The path string that `names` lead to from `base`; a name that cannot be resolved leads nowhere. */
  function Followed(base: Str, names: seq<Str>): Str
    decreases names
  {
    if names == [] then base
    else match ResolveStep(base, names[0])
      case None => base
      case Some(next) => Followed(next, names[1..])
  }

  /** What an exchange says of where fid `f` stands. */
  datatype Whereabouts = Same | Nowhere | AtRoot | Beyond(from: U32, names: seq<Str>) | WhereIs(source: U32)

  function Says(m: RawMessage, replyType: Byte, f: U32): Whereabouts {
    if m.msgType == 104 && replyType == 105 && ParseAttach(m.body).Ok? && ParseAttach(m.body).value == f then AtRoot
    else if m.msgType == 110 && replyType == 111 && ParseWalk(m.body).Ok? && ParseWalk(m.body).value.1 == f then
      Beyond(ParseWalk(m.body).value.0, ParseWalk(m.body).value.2)
    else if m.msgType == 128 && replyType == 129 && ParseClone(m.body).Ok? && ParseClone(m.body).value.1 == f then
      WhereIs(ParseClone(m.body).value.0)
    else if (m.msgType == 120 || m.msgType == 122) && ParseU32(m.body).Ok? && ParseU32(m.body).value == f then Nowhere
    else Same
  }

  /** The path of `f` according to the exchanges so far: the root's after its attach, the one its walk reached from
      wherever the walked fid stood then, or from the root if that was nowhere, and after a clone wherever the source
      stood then. */
  function WirePath(events: seq<Event>, f: U32): Option<Str>
    decreases events
  {
    if events == [] then None
    else
      var before, last := events[..|events| - 1], events[|events| - 1];
      match Says(last.m, last.reply.msgType, f)
      case Same => WirePath(before, f)
      case Nowhere => None
      case AtRoot => Some(Text("/"))
      case Beyond(from, names) =>
        Some(Followed(match WirePath(before, from) case None => Text("/") case Some(path) => path, names))
      case WhereIs(source) => WirePath(before, source)
  }

  /** The last exchange that says where a fid stands decides; none means that it stands nowhere. */
  lemma {:induction false} LastWordDecides(events: seq<Event>, f: U32, k: int)
    requires -1 <= k < |events|
    requires k >= 0 ==> !Says(events[k].m, events[k].reply.msgType, f).Same?
    requires forall j :: k < j < |events| ==> Says(events[j].m, events[j].reply.msgType, f).Same?
    ensures WirePath(events, f) ==
            if k < 0 then None
            else match Says(events[k].m, events[k].reply.msgType, f)
              case AtRoot => Some(Text("/"))
              case WhereIs(source) => WirePath(events[..k], source)
              case Beyond(from, names) =>
                var base := WirePath(events[..k], from);
                Some(Followed(if base.Some? then base.value else Text("/"), names))
              case _ => None
    decreases events
  {
    hide Says;
    if k < |events| - 1 {
      var before := events[..|events| - 1];
      LastWordDecides(before, f, k);
      assert k >= 0 ==> before[..k] == events[..k];
    }
  }

  function PathOf(fids: FidTable, f: U32): Option<Str> {
    if f in fids then Some(fids[f].path) else None
  }

  /** Where a fid stands after an exchange that says so much. */
  function NextPath(says: Whereabouts, fids: FidTable, f: U32): Option<Str> {
    match says
    case Same => PathOf(fids, f)
    case Nowhere => None
    case AtRoot => Some(Text("/"))
    case Beyond(from, names) => Some(Followed(if from in fids then fids[from].path else Text("/"), names))
    case WhereIs(source) => PathOf(fids, source)
  }

  /** An exchange moves `f` as it says. */
  predicate PathStep(m: RawMessage, e: Effect, fids: FidTable, f: U32) {
    e.reply.Some? ==> PathOf(e.fids, f) == NextPath(Says(m, e.reply.value.msgType, f), fids, f)
  }

  // ---------------------------------------------------------------- one request

  /** A trail that goes all the way ends where its names lead. */
  lemma {:induction false} TrailEnds(t: Inode, base: Str, names: seq<Str>)
    ensures |Trail(t, base, names)| == |names| + 1 ==> Trail(t, base, names)[|names|] == Followed(base, names)
    decreases names
  {
    hide ResolveStep, Lookup, Components;
    if names != [] && ResolveStep(base, names[0]).Some? {
      TrailEnds(t, ResolveStep(base, names[0]).value, names[1..]);
    }
  }

  lemma WalkMoves(h: Hasher, now: U32, m: RawMessage, fids: FidTable, tree: Inode, f: U32)
    requires m.msgType == 110
    ensures PathStep(m, Dispatch(h, now, m, fids, tree), fids, f)
  {
    WalkRequest(h, now, m, fids, tree);
    hide Dispatch, ParseAttach, ParseWalk, ParseClone, ParseU32, WalkDone, Followed, PathOf;
    var p := ParseWalk(m.body);
    if p.Ok? {
      WalkEndsThere(h, Dispatch(h, now, m, fids, tree), p.value.0, p.value.1, p.value.2, fids, tree, f);
    }
  }

  lemma WalkEndsThere(h: Hasher, e: Effect, fid: U32, newfid: U32, names: seq<Str>, fids: FidTable, tree: Inode, f: U32)
    requires WalkDone(h, e, fid, newfid, names, fids, tree)
    ensures e.reply.Some?
    ensures PathOf(e.fids, f) ==
            if e.reply.value.msgType == 111 && f == newfid then
              Some(Followed(if fid in fids then fids[fid].path else Text("/"), names))
            else PathOf(fids, f)
  {
    hide Components, Lookup, AnswersTrail, ShowsStop, WalkFailure, EncodeString, Trail, Followed;
    TrailEnds(tree, if fid in fids then fids[fid].path else Text("/"), names);
  }

  lemma AttachMoves(h: Hasher, now: U32, m: RawMessage, fids: FidTable, tree: Inode, f: U32)
    requires m.msgType == 104
    ensures PathStep(m, Dispatch(h, now, m, fids, tree), fids, f)
  {
    AttachRequest(h, now, m, fids, tree);
    hide Dispatch, ParseAttach, ParseWalk, ParseClone, ParseU32, ShowsQid, ParseQid;
  }

  lemma OpenMoves(h: Hasher, now: U32, m: RawMessage, fids: FidTable, tree: Inode, f: U32)
    requires m.msgType == 112
    ensures PathStep(m, Dispatch(h, now, m, fids, tree), fids, f)
  {
    OpenRequest(h, now, m, fids, tree);
    hide Dispatch, ParseOpen, ParseAttach, ParseWalk, ParseClone, ParseU32, Components, Lookup, ShowsQid, ParseQid,
      EncodeString;
  }

  lemma CloneMoves(h: Hasher, now: U32, m: RawMessage, fids: FidTable, tree: Inode, f: U32)
    requires m.msgType == 128
    ensures PathStep(m, Dispatch(h, now, m, fids, tree), fids, f)
  {
    CloneRequest(h, now, m, fids, tree);
    hide Dispatch, ParseAttach, ParseWalk, ParseClone, ParseU32, EncodeString;
  }

  lemma UnbindMoves(h: Hasher, now: U32, m: RawMessage, fids: FidTable, tree: Inode, f: U32)
    requires m.msgType == 120 || m.msgType == 122
    ensures PathStep(m, Dispatch(h, now, m, fids, tree), fids, f)
  {
    if m.msgType == 120 {
      ClunkRequest(h, now, m, fids, tree);
    } else {
      RemoveRequest(h, now, m, fids, tree, []);
    }
    hide Dispatch, ParseAttach, ParseWalk, ParseClone, ParseU32, Components, At, EncodeString;
  }

  /** Every other request leaves all fids where they stand. */
  lemma OtherMoves(h: Hasher, now: U32, m: RawMessage, fids: FidTable, tree: Inode, f: U32)
    requires m.msgType !in {104, 110, 112, 128, 120, 122}
    ensures PathStep(m, Dispatch(h, now, m, fids, tree), fids, f)
  {
    hide ParseVersion, ParseRead, ParseWrite, ParseCreate, ParseU32, ParseStat, ParseAttach, ParseWalk, ParseClone,
      EncodeString, EncodeQid, EncodeStat, U32Le, VersionBody, Chunk, SourceOf, Make, Tree.Write, Wstat, Lookup,
      ResolveStep, Components, StatOf, QidOf;
  }

  lemma DispatchMoves(h: Hasher, now: U32, m: RawMessage, fids: FidTable, tree: Inode, f: U32)
    ensures PathStep(m, Dispatch(h, now, m, fids, tree), fids, f)
  {
    hide Dispatch, PathStep;
    if m.msgType == 110 { WalkMoves(h, now, m, fids, tree, f); }
    else if m.msgType == 104 { AttachMoves(h, now, m, fids, tree, f); }
    else if m.msgType == 112 { OpenMoves(h, now, m, fids, tree, f); }
    else if m.msgType == 128 { CloneMoves(h, now, m, fids, tree, f); }
    else if m.msgType == 120 || m.msgType == 122 { UnbindMoves(h, now, m, fids, tree, f); }
    else { OtherMoves(h, now, m, fids, tree, f); }
  }

  // ---------------------------------------------------------------- every run

  /** In every run, on every connection, a fid stands exactly where the wire history says, and is bound exactly when
      that says that it stands somewhere. */
  lemma {:induction false} PathsFollowHistory(h: Hasher, s: System, steps: seq<Step>, c: nat, f: U32)
    requires c !in s.conns && c !in s.out
    requires c in Run(h, s, steps).conns
    ensures PathOf(Run(h, s, steps).conns[c], f) == WirePath(Events(h, s, steps, c), f)
    decreases steps
  {
    hide WirePath, PathOf;
    if steps != [] {
      var init, step := steps[..|steps| - 1], steps[|steps| - 1];
      var before := Run(h, s, init);
      NeverSeen(h, s, init, c);
      if c in before.conns {
        forall g: U32 { PathsFollowHistory(h, s, init, c, g); }
        PathsStep(h, before, step, c, f, Events(h, s, init, c));
      } else {
        JustConnected(h, before, step, c);
        NothingStands(f);
        assert Events(h, s, steps, c) == [] && Run(h, s, steps).conns[c] == map[];
      }
    }
  }

  lemma NothingStands(f: U32)
    ensures PathOf(map[], f) == None && WirePath([], f) == None
  {
  }

  lemma PathsStep(h: Hasher, s: System, step: Step, c: nat, f: U32, events: seq<Event>)
    requires c in s.conns && c in s.out && c in Next(h, s, step).conns
    requires forall g: U32 :: PathOf(s.conns[c], g) == WirePath(events, g)
    ensures PathOf(Next(h, s, step).conns[c], f) == WirePath(events + Seen(h, s, step, c), f)
  {
    var seen := Seen(h, s, step, c);
    if step.Receive? && step.c == c {
      var m := step.m;
      DispatchMoves(h, step.now, m, s.conns[c], s.tree, f);
      hide Dispatch, BuildFrame, Says, Followed;
      var e := Dispatch(h, step.now, m, s.conns[c], s.tree);
      assert e.reply.Some?;
      var all := events + seen;
      assert all[..|all| - 1] == events && all[|all| - 1] == seen[0];
    } else {
      assert events + seen == events;
      OthersUntouchedHere(h, s, step, c);
    }
  }
}
