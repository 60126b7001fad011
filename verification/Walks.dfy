/** Laws of Twalk (libs/planten_fs_ramfs/src/server.rs:260-321). */
module Walks {
  import opened Bytes
  import opened Paths
  import opened Stats
  import opened Tree
  import opened Codec
  import opened Messages
  import opened Server

  // ---------------------------------------------------------------- splitting a walk

  lemma {:induction false} WalkNamesConcat(h: Hasher, t: Inode, path: Str, qids: seq<Qid>, xs: seq<Str>, ys: seq<Str>)
    ensures WalkNames(h, t, path, qids, xs + ys) ==
            var w := WalkNames(h, t, path, qids, xs);
            if w.Walked? then WalkNames(h, t, w.path, w.qids, ys) else w
    decreases xs
  {
    hide WalkName;
    if xs == [] {
      assert xs + ys == ys;
    } else {
      assert (xs + ys)[0] == xs[0] && (xs + ys)[1..] == xs[1..] + ys;
      var w := WalkName(h, t, path, xs[0]);
      if w.Walked? {
        WalkNamesConcat(h, t, w.path, qids + w.qids, xs[1..], ys);
      }
    }
  }

  function Prepend(q: seq<Qid>, r: WalkResult): WalkResult {
    if r.Walked? then Walked(r.path, q + r.qids) else r
  }

  /** The qids collected before play no part in where a walk goes. */
  lemma {:induction false} WalkNamesShift(h: Hasher, t: Inode, path: Str, q: seq<Qid>, qids: seq<Qid>, names: seq<Str>)
    ensures WalkNames(h, t, path, q + qids, names) == Prepend(q, WalkNames(h, t, path, qids, names))
    decreases names
  {
    hide WalkName;
    if names != [] {
      var w := WalkName(h, t, path, names[0]);
      if w.Walked? {
        assert (q + qids) + w.qids == q + (qids + w.qids);
        WalkNamesShift(h, t, w.path, q, qids + w.qids, names[1..]);
      }
    }
  }

  /** Every finished walk stands on an existing node, and its last qid is that node's. */
  lemma {:induction false} WalkEndsSomewhere(h: Hasher, t: Inode, path: Str, qids: seq<Qid>, names: seq<Str>)
    requires Find(t, path).Some?
    requires qids != [] ==> qids[|qids| - 1] == QidOf(h, path, Find(t, path).value.attr)
    ensures var w := WalkNames(h, t, path, qids, names);
            w.Walked? ==>
              && Find(t, w.path).Some? && |w.qids| == |qids| + |names|
              && (w.qids != [] ==> w.qids[|w.qids| - 1] == QidOf(h, w.path, Find(t, w.path).value.attr))
    decreases names
  {
    hide Find, QidOf;
    if names != [] {
      WalkNameFinds(h, t, path, names[0]);
      hide WalkName;
      var w := WalkName(h, t, path, names[0]);
      if w.Walked? {
        WalkEndsSomewhere(h, t, w.path, qids + w.qids, names[1..]);
      }
    }
  }

  lemma WalkNameFinds(h: Hasher, t: Inode, path: Str, name: Str)
    ensures var w := WalkName(h, t, path, name);
            w.Walked? ==> Find(t, w.path).Some? && w.qids == [QidOf(h, w.path, Find(t, w.path).value.attr)]
  {
  }

  /** The reply body of a successful walk. */
  function WalkReply(qids: seq<Qid>): seq<Byte> {
    U16Le(|qids| % 0x1_0000) + EncodeQids(qids)
  }

  predicate WireNames(names: seq<Str>) {
    |names| < 0x1_0000 && forall i :: 0 <= i < |names| ==> WireName(names[i])
  }

  /** A Twalk of wire names is the walk over those names. */
  lemma HandleWalkIsNames(h: Hasher, fid: U32, newfid: U32, names: seq<Str>, fids: FidTable, tree: Inode)
    requires WireNames(names)
    ensures HandleWalk(h, WalkBody(fid, newfid, names), fids, tree) ==
            var w := WalkNames(h, tree, WalkBase(fids, fid), [], names);
            if w.Walked? then FinishWalk(h, newfid, w.path, w.qids, fids, tree)
            else if w.Failed? then Refuse(fids, tree, w.text)
            else Close(fids, tree)
  {
    hide ParseWalkHead, WalkBody, ParseStrings, EncodeStrings, WalkLoop, WalkNames, FinishWalk, EncodeString;
    ParseWalkHeadBody(fid, newfid, names);
    ParseEncodedStrings(names, []);
    assert EncodeStrings(names) + [] == EncodeStrings(names);
    WalkLoopIsNames(h, tree, WalkBase(fids, fid), [], EncodeStrings(names), |names|);
  }

  /** From an existing base, a finished walk answers its qids and binds the new fid to the final path,
      with that node's qid and not open. */
  lemma FinishedWalk(h: Hasher, newfid: U32, base: Str, names: seq<Str>, fids: FidTable, tree: Inode)
    requires Find(tree, base).Some? && WalkNames(h, tree, base, [], names).Walked?
    ensures var w := WalkNames(h, tree, base, [], names);
            && Find(tree, w.path).Some?
            && FinishWalk(h, newfid, w.path, w.qids, fids, tree) ==
               Answer(fids[newfid := FidState(w.path, QidOf(h, w.path, Find(tree, w.path).value.attr), None)],
                      tree, RWALK, WalkReply(w.qids))
  {
    hide WalkNames, QidOf, EncodeQids;
    WalkEndsSomewhere(h, tree, base, [], names);
  }

  /** Walking `xs + ys` in one request is walking `xs` and then `ys` in two: it succeeds when both do, ends at the
      same fid state, and answers the concatenated qids. */
  lemma TwoWalks(h: Hasher, fid: U32, mid: U32, newfid: U32, xs: seq<Str>, ys: seq<Str>, fids: FidTable, tree: Inode)
    requires WireNames(xs + ys) && WireNames(xs) && WireNames(ys)
    requires Find(tree, WalkBase(fids, fid)).Some?
    ensures var one := HandleWalk(h, WalkBody(fid, newfid, xs + ys), fids, tree);
            var first := HandleWalk(h, WalkBody(fid, mid, xs), fids, tree);
            var second := HandleWalk(h, WalkBody(mid, newfid, ys), first.fids, tree);
            if first.reply.Some? && first.reply.value.msgType == RWALK
               && second.reply.Some? && second.reply.value.msgType == RWALK
            then
              && newfid in one.fids && newfid in second.fids && one.fids[newfid] == second.fids[newfid]
              && exists q, r ::
                   && first.reply == Some(Reply(RWALK, WalkReply(q)))
                   && second.reply == Some(Reply(RWALK, WalkReply(r)))
                   && one.reply == Some(Reply(RWALK, WalkReply(q + r)))
            else one.reply.Some? && one.reply.value.msgType == RERROR && one.fids == fids
  {
    var base := WalkBase(fids, fid);
    HandleWalkIsNames(h, fid, newfid, xs + ys, fids, tree);
    HandleWalkIsNames(h, fid, mid, xs, fids, tree);
    WalkNamesConcat(h, tree, base, [], xs, ys);
    WalkNamesEnds(h, tree, base, [], xs);
    hide WalkNames, HandleWalk, FinishWalk, WalkBody, WalkReply, EncodeString;
    var w1 := WalkNames(h, tree, base, [], xs);
    if w1.Walked? {
      FinishedWalk(h, mid, base, xs, fids, tree);
      var first := HandleWalk(h, WalkBody(fid, mid, xs), fids, tree);
      assert WalkBase(first.fids, mid) == w1.path;
      HandleWalkIsNames(h, mid, newfid, ys, first.fids, tree);
      assert w1.qids + [] == w1.qids;
      WalkNamesShift(h, tree, w1.path, w1.qids, [], ys);
      WalkNamesEnds(h, tree, w1.path, [], ys);
      var w2 := WalkNames(h, tree, w1.path, [], ys);
      if w2.Walked? {
        FinishedWalk(h, newfid, w1.path, ys, first.fids, tree);
        FinishedWalk(h, newfid, base, xs + ys, fids, tree);
        assert WalkNames(h, tree, base, [], xs + ys) == Walked(w2.path, w1.qids + w2.qids);
      }
    }
  }

  /** A Twalk that is not answered RWALK changes nothing; one that is changes the new fid only. */
  lemma WalkIsAllOrNothing(h: Hasher, body: seq<Byte>, fids: FidTable, tree: Inode)
    ensures var e := HandleWalk(h, body, fids, tree);
            && e.tree == tree
            && (!(e.reply.Some? && e.reply.value.msgType == RWALK) ==> e.fids == fids)
            && (e.reply.Some? && e.reply.value.msgType == RWALK ==>
                  && ParseWalkHead(body).Ok?
                  && var newfid := ParseWalkHead(body).value.1;
                  && newfid in e.fids && e.fids[newfid].openMode == None
                  && e.fids == fids[newfid := e.fids[newfid]])
  {
    hide ParseWalkHead, WalkLoop, EncodeQids, EncodeString, Find;
  }

  // ---------------------------------------------------------------- following children

  /** For ordinary names, resolving each path string again from the root reaches the node found by stepping from
      child to child, and the walk fails exactly when a child is not there. */
  lemma {:induction false} WalkFollowsChildren(h: Hasher, t: Inode, path: Str, qids: seq<Qid>, names: seq<Str>)
    requires forall i :: 0 <= i < |names| ==> Ordinary(names[i])
    requires Find(t, path).Some?
    ensures var w := WalkNames(h, t, path, qids, names);
            && (w.Walked? <==> Lookup(Find(t, path).value, names).Some?)
            && (w.Walked? ==> && Components(w.path) == Components(path) + names
                              && Find(t, w.path) == Lookup(Find(t, path).value, names))
    decreases names
  {
    hide Find, QidOf, ResolveStep, WalkName;
    if names == [] {
      assert Components(path) + [] == Components(path);
    } else {
      StepToChild(h, t, path, names[0]);
      var w := WalkName(h, t, path, names[0]);
      if w.Walked? {
        WalkFollowsChildren(h, t, w.path, qids + w.qids, names[1..]);
        assert (Components(path) + [names[0]]) + names[1..] == Components(path) + names;
      }
    }
  }

  lemma StepToChild(h: Hasher, t: Inode, path: Str, name: Str)
    requires Ordinary(name) && Find(t, path).Some?
    ensures var w, node := WalkName(h, t, path, name), Find(t, path).value;
            && (w.Walked? <==> name in node.children)
            && (w.Walked? ==> && Components(w.path) == Components(path) + [name]
                              && Find(t, w.path) == Some(node.children[name]))
  {
    hide ResolveStep, Components, QidOf;
    ResolveStepRefines(path, name);
    ComponentsOfName(name);
    assert name != ROOT by { assert SLASH in ROOT; }
    LookupConcat(t, Components(path), [name]);
  }
}
