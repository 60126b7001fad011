/** The form of the path strings that fids hold (libs/planten_fs_ramfs/src/server.rs:280-283, 313 and 607-635). */
module PathForms {
  import opened Bytes
  import opened Paths
  import opened Stats
  import opened Tree
  import opened Codec
  import opened Frames
  import opened Messages
  import opened Server
  import opened Effects
  import opened Systems
  import TreeLaws

  /** The rendering of ordinary components: no empty, "." or ".." component, no trailing slash. */
  predicate NormalPath(path: Str) {
    Normal(Components(path)) && path == Render(Components(path))
  }

  ghost predicate FidsNormal(fids: FidTable) {
    forall f :: f in fids ==> NormalPath(fids[f].path)
  }

  /** A name a walk takes as one step: slash-free, or the single slash that goes to the root. */
  predicate PlainName(name: Str) {
    SlashFree(name) || name == ROOT
  }

  predicate PlainWalk(m: RawMessage) {
    m.msgType == TWALK && ParseWalk(m.body).Ok? ==>
      forall i :: 0 <= i < |ParseWalk(m.body).value.2| ==> PlainName(ParseWalk(m.body).value.2[i])
  }

  lemma RenderedIsNormal(p: Path)
    requires Normal(p)
    ensures NormalPath(Render(p)) && Components(Render(p)) == p
  {
    forall c | c in p ensures c != [] && SlashFree(c) { assert Ordinary(c); }
    RenderRoundTrip(p);
  }

  lemma RootIsNormal()
    ensures NormalPath(ROOT)
  {
    ComponentsOfRoot();
  }

  lemma StepKeepsNormal(path: Str, name: Str)
    requires NormalPath(path) && PlainName(name) && ResolveStep(path, name).Some?
    ensures NormalPath(ResolveStep(path, name).value)
  {
    var p := Components(path);
    ResolveStepNormal(p, name);
    RenderedIsNormal([]);
    RenderedIsNormal(Pop(p));
    hide NormalPath, ResolveStep, Components, Render;
    if Ordinary(name) { RenderedIsNormal(p + [name]); }
    assert SlashFree(name) || name == ROOT;
  }

  lemma {:induction false} WalkKeepsNormal(h: Hasher, t: Inode, path: Str, qids: seq<Qid>, names: seq<Str>)
    requires NormalPath(path) && forall i :: 0 <= i < |names| ==> PlainName(names[i])
    ensures var w := WalkNames(h, t, path, qids, names); w.Walked? ==> NormalPath(w.path)
    decreases names
  {
    if names != [] {
      assert WalkName(h, t, path, names[0]).Walked? ==>
          ResolveStep(path, names[0]) == Some(WalkName(h, t, path, names[0]).path);
      hide WalkName, ResolveStep, NormalPath, PlainName;
      var w := WalkName(h, t, path, names[0]);
      if w.Walked? {
        StepKeepsNormal(path, names[0]);
        WalkKeepsNormal(h, t, w.path, qids + w.qids, names[1..]);
      }
    }
  }

  lemma HandleWalkKeepsNormal(h: Hasher, m: RawMessage, fids: FidTable, tree: Inode)
    requires m.msgType == TWALK && PlainWalk(m) && FidsNormal(fids)
    ensures FidsNormal(HandleWalk(h, m.body, fids, tree).fids)
  {
    RootIsNormal();
    hide NormalPath, PlainName, WalkLoop, WalkNames, ParseWalkHead, ParseStrings, EncodeQids, EncodeString, Find, QidOf;
    if ParseWalkHead(m.body).Ok? {
      var head, rest := ParseWalkHead(m.body).value, ParseWalkHead(m.body).rest;
      var base := WalkBase(fids, head.0);
      if WalkLoop(h, tree, base, [], rest, head.2).Walked? {
        FinishedIsNames(h, tree, base, rest, head.2);
        var names := ParseStrings(rest, head.2).value;
        assert ParseWalk(m.body).Ok? && ParseWalk(m.body).value.2 == names;
        WalkKeepsNormal(h, tree, base, [], names);
      }
    }
  }

  lemma SmallChangeKeepsNormal(fids: FidTable, fids': FidTable)
    requires FidsNormal(fids) && SmallChange(fids, fids')
    ensures FidsNormal(fids')
  {
    RootIsNormal();
    hide NormalPath;
  }

  lemma DispatchKeepsNormal(h: Hasher, now: U32, m: RawMessage, fids: FidTable, tree: Inode)
    requires PlainWalk(m) && FidsNormal(fids)
    ensures FidsNormal(Dispatch(h, now, m, fids, tree).fids)
  {
    if m.msgType == TWALK {
      hide HandleWalk;
      HandleWalkKeepsNormal(h, m, fids, tree);
    } else {
      OtherChange(h, now, m, fids, tree);
      SmallChangeKeepsNormal(fids, Dispatch(h, now, m, fids, tree).fids);
    }
  }

  /** In every reachable state of an interleaving whose Twalks use plain names, every fid path of every connection is
      in normal form. */
  lemma {:induction false} PathsStayNormal(h: Hasher, s: System, steps: seq<Step>)
    requires forall c :: c in s.conns ==> FidsNormal(s.conns[c])
    requires forall i :: 0 <= i < |steps| && steps[i].Receive? ==> PlainWalk(steps[i].m)
    ensures forall c :: c in Run(h, s, steps).conns ==> FidsNormal(Run(h, s, steps).conns[c])
    decreases steps
  {
    if steps != [] {
      var before, step := Run(h, s, steps[..|steps| - 1]), steps[|steps| - 1];
      PathsStayNormal(h, s, steps[..|steps| - 1]);
      if step.Receive? && step.c in before.conns {
        DispatchKeepsNormal(h, step.now, step.m, before.conns[step.c], before.tree);
      }
      assert FidsNormal(map[]) by { NoneNormal(); }
      hide Dispatch, FidsNormal, PlainWalk, BuildFrame;
    }
  }

  lemma NoneNormal()
    ensures FidsNormal(map[])
  {
  }

  // ---------------------------------------------------------------- names with slashes

  /** A Twstat may give any non-empty name. After the rename the node stands under that name, and some path string
      leads to it exactly when the name has no slash. */
  lemma RenamedIsReachable(t: Inode, path: Str, stat: Stat)
    requires Components(path) != [] && Renames(stat, Last(Components(path)))
    requires Wstat(t, Components(path), stat).Some?
    ensures var t', p' := Wstat(t, Components(path), stat).value, Pop(Components(path)) + [stat.name];
            && Lookup(t', p').Some?
            && ((exists s: Str :: Components(s) == p') <==> SlashFree(stat.name))
  {
    var p := Components(path);
    var p' := Pop(p) + [stat.name];
    TreeLaws.RenamedAsReplace(t, p, stat);
    ComponentsAreNameable(path);
    RenderRoundTrip(p');
    hide Components, Render, Lookup, Wstat;
    assert Nameable(p') <==> SlashFree(stat.name) by {
      assert p'[|p'| - 1] == stat.name;
      assert stat.name in p';
      assert forall c :: c in Pop(p) ==> c in p;
    }
  }
}
