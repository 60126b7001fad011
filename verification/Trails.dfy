/** What a Twalk answers: one qid for every name, in order, each that of the node its path string leads to
    (libs/planten_fs_ramfs/src/server.rs:260-321). */
module Trails {
  import opened Bytes
  import opened Paths
  import opened Stats
  import opened Tree
  import opened Codec
  import opened Frames
  import opened Messages
  import opened Server
  import opened Walks
  import opened Requests
  import History

  /** The path strings passed from `base` on, as far as each name can be resolved and leads to a node. */
  function Trail(t: Inode, base: Str, names: seq<Str>): (r: seq<Str>)
    ensures 0 < |r| <= |names| + 1 && r[0] == base
    decreases names
  {
    if names == [] then [base]
    else
      match ResolveStep(base, names[0])
      case None => [base]
      case Some(next) =>
        if Lookup(t, Components(next)).None? then [base] else [base] + Trail(t, next, names[1..])
  }

  /** Each stop is one step from the stop before and names a node; where the trail breaks off, the next name cannot be
      resolved or leads nowhere. */
  lemma {:induction false} TrailIsStepwise(t: Inode, base: Str, names: seq<Str>, i: nat)
    requires i < |names| && i < |Trail(t, base, names)|
    ensures var r, step := Trail(t, base, names), ResolveStep(Trail(t, base, names)[i], names[i]);
            if i + 1 < |r| then step == Some(r[i + 1]) && Lookup(t, Components(r[i + 1])).Some?
            else step.Some? ==> Lookup(t, Components(step.value)).None?
    decreases names
  {
    hide ResolveStep, Lookup, Components;
    if i > 0 {
      var next := ResolveStep(base, names[0]).value;
      TrailIsStepwise(t, next, names[1..], i - 1);
    }
  }

  /** The path string leads to a node, and the qid is that node's. */
  predicate ShowsStop(h: Hasher, t: Inode, path: Str, q: Qid) {
    Lookup(t, Components(path)).Some? && ShowsQid(h, q, path, Lookup(t, Components(path)).value.attr)
  }

  /** The qids are those of the stops behind the base, in order. */
  predicate ShowsTrail(h: Hasher, t: Inode, trail: seq<Str>, qids: seq<Qid>) {
    |qids| + 1 == |trail| && forall i :: 0 <= i < |qids| ==> ShowsStop(h, t, trail[i + 1], qids[i])
  }

  /** What an Rerror says when the trail breaks off. */
  function WalkFailure(trail: seq<Str>, names: seq<Str>): Str
    requires 0 < |trail| <= |names|
  {
    StepFailure(trail[|trail| - 1], names[|trail| - 1])
  }

  function StepFailure(path: Str, name: Str): Str {
    if ResolveStep(path, name).None? then Text("walk failed: invalid component '") + name + Text("'")
    else Text("walk failed: component '") + name + Text("' not found")
  }

  lemma {:induction false} WalkIsTrail(h: Hasher, t: Inode, base: Str, names: seq<Str>)
    ensures var w, r := WalkNames(h, t, base, [], names), Trail(t, base, names);
            if |r| == |names| + 1 then w.Walked? && w.path == r[|r| - 1] && ShowsTrail(h, t, r, w.qids)
            else w == Failed(WalkFailure(r, names))
    decreases names
  {
    hide ResolveStep, Find, Lookup, Components, ShowsQid;
    if names != [] {
      var step := WalkName(h, t, base, names[0]);
      FirstStep(h, t, base, names[0]);
      if step.Walked? {
        var next, rest := step.path, Trail(t, step.path, names[1..]);
        assert Trail(t, base, names) == [base] + rest;
        WalkIsTrail(h, t, next, names[1..]);
        assert step.qids + [] == step.qids && [] + step.qids == step.qids;
        WalkNamesShift(h, t, next, step.qids, [], names[1..]);
        hide WalkName, Trail;
        if |rest| == |names| {
          TrailCons(h, t, base, rest, step.qids[0], WalkNames(h, t, next, [], names[1..]).qids);
        } else {
          FailureCons(base, rest, names);
        }
      }
    }
  }

  lemma FirstStep(h: Hasher, t: Inode, base: Str, name: Str)
    ensures var step := WalkName(h, t, base, name);
            match ResolveStep(base, name)
            case None => step == Failed(Text("walk failed: invalid component '") + name + Text("'"))
            case Some(next) =>
              var node := Lookup(t, Components(next));
              if node.None? then step == Failed(Text("walk failed: component '") + name + Text("' not found"))
              else step.Walked? && step.path == next && |step.qids| == 1
                   && ShowsQid(h, step.qids[0], next, node.value.attr)
  {
    hide ResolveStep, Lookup, Components;
  }

  lemma TrailCons(h: Hasher, t: Inode, base: Str, rest: seq<Str>, q: Qid, qids: seq<Qid>)
    requires rest != [] && ShowsTrail(h, t, rest, qids) && ShowsStop(h, t, rest[0], q)
    ensures ShowsTrail(h, t, [base] + rest, [q] + qids)
  {
    hide ShowsStop;
    var all, trail := [q] + qids, [base] + rest;
    forall i | 0 <= i < |all| ensures ShowsStop(h, t, trail[i + 1], all[i]) {
      assert trail[i + 1] == rest[i];
      if i > 0 {
        var j := i - 1;
        assert all[i] == qids[j] && rest[j + 1] == rest[i];
      }
    }
  }

  lemma FailureCons(base: Str, rest: seq<Str>, names: seq<Str>)
    requires 0 < |rest| < |names|
    ensures WalkFailure([base] + rest, names) == WalkFailure(rest, names[1..])
  {
    hide StepFailure;
    assert ([base] + rest)[|rest|] == rest[|rest| - 1] && names[1..][|rest| - 1] == names[|rest|];
  }

  // ---------------------------------------------------------------- the bytes

  lemma {:induction false} QidInPlace(qids: seq<Qid>, i: nat)
    requires i < |qids|
    ensures |EncodeQids(qids)| == 13 * |qids|
    ensures ParseQid(EncodeQids(qids)[13 * i..]) == Ok(qids[i], EncodeQids(qids)[13 * (i + 1)..])
    decreases qids
  {
    hide EncodeQid, ParseQid;
    var first, rest := EncodeQid(qids[0]), EncodeQids(qids[1..]);
    assert EncodeQids(qids) == first + rest;
    if |qids| > 1 {
      QidInPlace(qids[1..], if i == 0 then 0 else i - 1);
    } else {
      assert EncodeQids(qids[1..]) == [];
    }
    if i == 0 {
      ParseEncodedQid(qids[0], rest);
      assert (first + rest)[0..] == first + rest && (first + rest)[13..] == rest;
    } else {
      assert (first + rest)[13 * i..] == rest[13 * (i - 1)..];
      assert (first + rest)[13 * (i + 1)..] == rest[13 * i..];
    }
  }

  /** An Rwalk body: the number of qids, and each at its place. */
  predicate AnswersTrail(h: Hasher, t: Inode, trail: seq<Str>, body: seq<Byte>) {
    && |body| == 2 + 13 * (|trail| - 1) && |trail| > 0
    && ParseU16(body).Ok? && ParseU16(body).value == |trail| - 1
    && forall i :: 0 <= i < |trail| - 1 ==> AnswersStop(h, t, trail, body, i)
  }

  predicate AnswersStop(h: Hasher, t: Inode, trail: seq<Str>, body: seq<Byte>, i: nat) {
    && i + 1 < |trail| && 2 + 13 * i <= |body|
    && var q := ParseQid(body[2 + 13 * i..]);
    q.Ok? && ShowsStop(h, t, trail[i + 1], q.value)
  }

  lemma ReplyAnswersTrail(h: Hasher, t: Inode, trail: seq<Str>, qids: seq<Qid>)
    requires ShowsTrail(h, t, trail, qids) && |qids| < 0x1_0000
    ensures AnswersTrail(h, t, trail, WalkReply(qids))
  {
    var body := WalkReply(qids);
    ReplySize(qids);
    hide ShowsStop, ParseQid, WalkReply, ParseU16;
    forall i | 0 <= i < |qids| ensures AnswersStop(h, t, trail, body, i) {
      ReplyQid(qids, i);
    }
  }

  lemma ReplySize(qids: seq<Qid>)
    requires |qids| < 0x1_0000
    ensures |WalkReply(qids)| == 2 + 13 * |qids|
    ensures ParseU16(WalkReply(qids)).Ok? && ParseU16(WalkReply(qids)).value == |qids|
  {
    hide EncodeQids, U16Le, ParseU16;
    ParseU16Le(|qids|, EncodeQids(qids));
    History.QidsSize(qids);
  }

  lemma ReplyQid(qids: seq<Qid>, i: nat)
    requires i < |qids| < 0x1_0000
    ensures 2 + 13 * i <= |WalkReply(qids)|
    ensures ParseQid(WalkReply(qids)[2 + 13 * i..]).Ok? && ParseQid(WalkReply(qids)[2 + 13 * i..]).value == qids[i]
  {
    hide ParseQid, EncodeQids, U16Le;
    QidInPlace(qids, i);
    assert WalkReply(qids)[2 + 13 * i..] == EncodeQids(qids)[13 * i..];
  }

  /** What a Twalk along `names` comes to: from the path of the fid, or from the root when it is not bound, all names
      are followed, the qids of all stops answered, and the new fid stands at the last, not open; or nothing changes and
      the first name that cannot be followed is told. */
  predicate WalkDone(h: Hasher, e: Effect, fid: U32, newfid: U32, names: seq<Str>, fids: FidTable, tree: Inode) {
    var base := if fid in fids then fids[fid].path else Text("/");
    var trail := Trail(tree, base, names);
    if |trail| <= |names| then Refused(e, fids, tree, WalkFailure(trail, names))
    else if names == [] && Lookup(tree, Components(base)).None? then
      Refused(e, fids, tree, Text("walk failed: target missing"))
    else
      && e.tree == tree && e.reply.Some? && e.reply.value.msgType == 111
      && AnswersTrail(h, tree, trail, e.reply.value.body)
      && newfid in e.fids && e.fids == fids[newfid := e.fids[newfid]]
      && e.fids[newfid].path == trail[|names|] && e.fids[newfid].openMode == None
      && ShowsStop(h, tree, trail[|names|], e.fids[newfid].qid)
  }

  /** Twalk. When its names do not all decode, nothing changes. */
  lemma WalkRequest(h: Hasher, now: U32, m: RawMessage, fids: FidTable, tree: Inode)
    requires m.msgType == 110
    ensures var e, p := Dispatch(h, now, m, fids, tree), ParseWalk(m.body);
            if p.Ok? then WalkDone(h, e, p.value.0, p.value.1, p.value.2, fids, tree)
            else e.fids == fids && e.tree == tree && (e.reply.Some? ==> e.reply.value.msgType == 107)
  {
    WalkHandled(h, m.body, fids, tree);
    hide HandleWalk, ParseWalk, WalkDone;
  }

  lemma WalkHandled(h: Hasher, body: seq<Byte>, fids: FidTable, tree: Inode)
    ensures var e, p := HandleWalk(h, body, fids, tree), ParseWalk(body);
            if p.Ok? then WalkDone(h, e, p.value.0, p.value.1, p.value.2, fids, tree)
            else e.fids == fids && e.tree == tree && (e.reply.Some? ==> e.reply.value.msgType == 107)
  {
    hide Components, EncodeString, Lookup, ResolveStep, ParseStrings, Trail, WalkNames, WalkLoop, FinishWalk, ParseU16,
      ParseU32, WalkDone;
    if ParseWalkHead(body).Ok? {
      var head, rest := ParseWalkHead(body).value, ParseWalkHead(body).rest;
      WalkLoopIsNames(h, tree, WalkBase(fids, head.0), [], rest, head.2);
      if ParseStrings(rest, head.2).Ok? {
        WalkFinished(h, head.0, head.1, ParseStrings(rest, head.2).value, fids, tree);
      }
    }
  }

  lemma WalkFinished(h: Hasher, fid: U32, newfid: U32, names: seq<Str>, fids: FidTable, tree: Inode)
    requires |names| < 0x1_0000
    ensures var w := WalkNames(h, tree, WalkBase(fids, fid), [], names);
            && !w.Broken?
            && (w.Walked? ==>
                  WalkDone(h, FinishWalk(h, newfid, w.path, w.qids, fids, tree), fid, newfid, names, fids, tree))
            && (w.Failed? ==> WalkDone(h, Refuse(fids, tree, w.text), fid, newfid, names, fids, tree))
  {
    hide Components, EncodeString, Lookup, Trail, WalkNames, AnswersTrail, WalkFailure, ShowsTrail, ShowsStop,
      FinishWalk, Find, Text;
    SlashText();
    var base := WalkBase(fids, fid);
    WalkIsTrail(h, tree, base, names);
    var trail, w := Trail(tree, base, names), WalkNames(h, tree, base, [], names);
    if |trail| > |names| { WalkBinds(h, newfid, trail, w.qids, fids, tree); }
  }

  lemma SlashText()
    ensures Text("/") == ROOT
  {
  }

  lemma WalkBinds(h: Hasher, newfid: U32, trail: seq<Str>, qids: seq<Qid>, fids: FidTable, tree: Inode)
    requires 0 < |trail| <= 0x1_0000 && ShowsTrail(h, tree, trail, qids)
    ensures var end := trail[|trail| - 1];
            var e := FinishWalk(h, newfid, end, qids, fids, tree);
            if |trail| == 1 && Lookup(tree, Components(end)).None? then
              Refused(e, fids, tree, Text("walk failed: target missing"))
            else
              && e.tree == tree && e.reply.Some? && e.reply.value.msgType == 111
              && AnswersTrail(h, tree, trail, e.reply.value.body)
              && newfid in e.fids && e.fids == fids[newfid := e.fids[newfid]]
              && e.fids[newfid].path == end && e.fids[newfid].openMode == None
              && ShowsStop(h, tree, end, e.fids[newfid].qid)
  {
    ReplyAnswersTrail(h, tree, trail, qids);
    if qids != [] { LastStop(h, tree, trail, qids); }
    hide Components, EncodeString, Lookup, EncodeQids, AnswersTrail;
  }

  lemma LastStop(h: Hasher, t: Inode, trail: seq<Str>, qids: seq<Qid>)
    requires qids != [] && ShowsTrail(h, t, trail, qids)
    ensures ShowsStop(h, t, trail[|trail| - 1], qids[|qids| - 1])
  {
    hide ShowsStop;
    var i := |qids| - 1;
    assert ShowsStop(h, t, trail[i + 1], qids[i]);
  }

  // ---------------------------------------------------------------- ordinary names

  /** Along ordinary names the stops are the components one by one, and the trail goes as far as the children do. */
  lemma {:induction false} TrailFollowsChildren(t: Inode, base: Str, names: seq<Str>, i: nat)
    requires Lookup(t, Components(base)).Some? && i <= |names|
    requires forall k :: 0 <= k < |names| ==> Ordinary(names[k])
    ensures var r := Trail(t, base, names);
            i < |r| <==> Lookup(t, Components(base) + names[..i]).Some?
    ensures var r := Trail(t, base, names);
            i < |r| ==> Components(r[i]) == Components(base) + names[..i]
    decreases names
  {
    hide ResolveStep, Components, Ordinary;
    if i == 0 {
      assert Components(base) + names[..0] == Components(base);
    } else {
      ResolveOrdinary(base, names[0]);
      var next := ResolveStep(base, names[0]).value;
      assert Components(base) + names[..i] == (Components(base) + [names[0]]) + names[1..][..i - 1];
      if Lookup(t, Components(next)).Some? {
        TrailFollowsChildren(t, next, names[1..], i - 1);
      } else if Lookup(t, Components(base) + names[..i]).Some? {
        LookupPrefix(t, Components(next), Components(base) + names[..i]);
      }
    }
  }

  lemma ResolveOrdinary(base: Str, name: Str)
    requires Ordinary(name)
    ensures ResolveStep(base, name).Some?
    ensures Components(ResolveStep(base, name).value) == Components(base) + [name]
  {
    ResolveStepRefines(base, name);
    ComponentsOfName(name);
    assert SLASH in ROOT;
  }

  /** A Twalk along ordinary names from an existing node is granted exactly when they lead to a node, child by child.
      Its Rwalk then shows, from byte `2 + 13 * i` on, the qid of the node that the first `i + 1` names lead to. */
  lemma WalkAnswersEveryName(h: Hasher, now: U32, m: RawMessage, fids: FidTable, tree: Inode, i: nat)
    requires m.msgType == 110 && ParseWalk(m.body).Ok?
    requires var (fid, _, names) := ParseWalk(m.body).value;
             && fid in fids && Lookup(tree, Components(fids[fid].path)).Some?
             && forall k :: 0 <= k < |names| ==> Ordinary(names[k])
    ensures var (fid, _, names) := ParseWalk(m.body).value;
            var e, p := Dispatch(h, now, m, fids, tree), Components(fids[fid].path);
            if Lookup(tree, p + names).None? then e.reply.Some? && e.reply.value.msgType == 107
            else
              && e.reply.Some? && e.reply.value.msgType == 111 && |e.reply.value.body| == 2 + 13 * |names|
              && |Trail(tree, fids[fid].path, names)| == |names| + 1
              && (i < |names| ==>
                    var q, node := ParseQid(e.reply.value.body[2 + 13 * i..]), Lookup(tree, p + names[..i + 1]);
                    var path := Trail(tree, fids[fid].path, names)[i + 1];
                    && Components(path) == p + names[..i + 1] && node.Some? && q.Ok?
                    && q.value.qtype == (if node.value.attr.mode >= 0x8000_0000 then 0x80 else 0)
                    && q.value.version == node.value.attr.mtime
                    && q.value.path == h(path, node.value.attr.mtime))
  {
    hide Dispatch, ParseWalk, Ordinary, Components, ParseQid, EncodeString, WalkFailure, Trail, Lookup;
    var (fid, newfid, names) := ParseWalk(m.body).value;
    var base := fids[fid].path;
    WalkRequest(h, now, m, fids, tree);
    TrailFollowsChildren(tree, base, names, |names|);
    assert names[..|names|] == names;
    assert names == [] ==> Components(base) + names == Components(base);
    if i < |names| && Lookup(tree, Components(base) + names).Some? {
      TrailFollowsChildren(tree, base, names, i + 1);
      var e := Dispatch(h, now, m, fids, tree);
      assert AnswersStop(h, tree, Trail(tree, base, names), e.reply.value.body, i);
    }
  }
}
