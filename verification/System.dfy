/** Any number of connections over one tree: each handler is one atomic step, so a run is any interleaving
    (libs/planten_fs_ramfs/src/server.rs:33-117). */
module Systems {
  import opened Bytes
  import opened Paths
  import opened Tree
  import opened Flat
  import opened TreeLaws
  import opened Frames
  import opened Messages
  import opened Server
  import opened Effects
  import opened FileLog

  /** The shared tree, the fid table of every open connection, and all bytes sent on each connection so far. */
  datatype System = System(tree: Inode, conns: map<nat, FidTable>, out: map<nat, seq<Byte>>)

  datatype Step =
    | Connect(c: nat)
    | Receive(c: nat, m: RawMessage, now: U32)
    | Hangup(c: nat)

  function Sent(s: System, c: nat): seq<Byte> {
    if c in s.out then s.out[c] else []
  }

  function Next(h: Hasher, s: System, step: Step): System {
    match step
    case Connect(c) =>
      if c in s.out then s else System(s.tree, s.conns[c := map[]], s.out[c := []])
    case Receive(c, m, now) =>
      if c !in s.conns then s
      else
        var e := Dispatch(h, now, m, s.conns[c], s.tree);
        if e.reply.None? then System(e.tree, s.conns - {c}, s.out)
        else
          var frame := BuildFrame(e.reply.value.msgType, m.tag, e.reply.value.body);
          System(e.tree, s.conns[c := e.fids], s.out[c := Sent(s, c) + frame])
    case Hangup(c) => System(s.tree, s.conns - {c}, s.out)
  }

  function Run(h: Hasher, s: System, steps: seq<Step>): System
    decreases steps
  {
    if steps == [] then s else Next(h, Run(h, s, steps[..|steps| - 1]), steps[|steps| - 1])
  }

  lemma RunStep(h: Hasher, s: System, steps: seq<Step>, k: nat)
    requires k < |steps|
    ensures Run(h, s, steps[..k + 1]) == Next(h, Run(h, s, steps[..k]), steps[k])
  {
    assert steps[..k + 1][..k] == steps[..k];
  }

  // ---------------------------------------------------------------- the invariant

  ghost predicate Inv(s: System) {
    TreeOk(s.tree) && forall c :: c in s.conns ==> FidsOk(s.conns[c])
  }

  lemma NextKeepsInv(h: Hasher, s: System, step: Step)
    requires Inv(s)
    ensures Inv(Next(h, s, step))
  {
    hide Dispatch, TreeOk, FidsOk, BuildFrame;
    match step
    case Connect(c) => assert FidsOk(map[]) by { NoFidsOk(); }
    case Receive(c, m, now) =>
      if c in s.conns {
        DispatchKeepsTreeOk(h, now, m, s.conns[c], s.tree);
        DispatchKeepsFidsOk(h, now, m, s.conns[c], s.tree);
      }
    case Hangup(c) =>
  }

  lemma NoFidsOk()
    ensures FidsOk(map[])
  {
  }

  /** Every reachable state of every interleaving keeps keys equal to names, names non-empty, and all strings
      such as the wire can carry. */
  lemma {:induction false} RunKeepsInv(h: Hasher, s: System, steps: seq<Step>)
    requires Inv(s)
    ensures Inv(Run(h, s, steps))
    decreases steps
  {
    if steps != [] {
      RunKeepsInv(h, s, steps[..|steps| - 1]);
      NextKeepsInv(h, Run(h, s, steps[..|steps| - 1]), steps[|steps| - 1]);
    }
  }

  /** A server that starts from an empty RamFs satisfies it. */
  lemma FreshServerInv(now: U32)
    ensures Inv(System(NewRoot(now), map[], map[]))
  {
    NewRootIsOk(now);
  }

  // ---------------------------------------------------------------- isolation

  /** A step of one connection leaves the fids and the output of every other alone. */
  lemma OthersUntouched(h: Hasher, s: System, step: Step, d: nat)
    requires step.c != d
    ensures var s' := Next(h, s, step);
            && (d in s'.conns <==> d in s.conns) && (d in s.conns ==> s'.conns[d] == s.conns[d])
            && Sent(s', d) == Sent(s, d)
  {
    hide Dispatch, BuildFrame;
  }

  // ---------------------------------------------------------------- two creates of one path

  /** Step `i` of the run is answered RCREATE for path `p`. */
  predicate CreatesAt(h: Hasher, s: System, steps: seq<Step>, i: nat, p: Path)
    requires i < |steps|
  {
    var before := Run(h, s, steps[..i]);
    && steps[i].Receive? && steps[i].c in before.conns
    && Succeeded(Dispatch(h, steps[i].now, steps[i].m, before.conns[steps[i].c], before.tree), RCREATE)
    && CreatePath(steps[i].m.body, before.conns[steps[i].c]) == Some(p)
  }

  /** Step `i` of the run removes the node at `q`, or renames it. */
  predicate TakesAt(h: Hasher, s: System, steps: seq<Step>, i: nat, q: Path)
    requires i < |steps|
  {
    var before := Run(h, s, steps[..i]);
    && steps[i].Receive? && steps[i].c in before.conns
    && (Removes(h, steps[i].now, steps[i].m, before.conns[steps[i].c], before.tree, q)
        || RenamesAway(h, steps[i].now, steps[i].m, before.conns[steps[i].c], before.tree, q))
  }

  /** A node stays while neither it nor an ancestor is taken away, whoever acts in between. */
  lemma {:induction false} NodeStays(h: Hasher, s: System, steps: seq<Step>, p: Path, i: nat, j: nat)
    requires i <= j <= |steps|
    requires Lookup(Run(h, s, steps[..i]).tree, p).Some?
    requires forall k, q :: i <= k < j && q <= p ==> !TakesAt(h, s, steps, k, q)
    ensures Lookup(Run(h, s, steps[..j]).tree, p).Some?
    decreases j
  {
    if i < j {
      NodeStays(h, s, steps, p, i, j - 1);
      RunStep(h, s, steps, j - 1);
      var before, step := Run(h, s, steps[..j - 1]), steps[j - 1];
      if step.Receive? && step.c in before.conns {
        forall q | q <= p
          ensures !Removes(h, step.now, step.m, before.conns[step.c], before.tree, q)
          ensures !RenamesAway(h, step.now, step.m, before.conns[step.c], before.tree, q)
        {
          assert !TakesAt(h, s, steps, j - 1, q);
        }
        hide Dispatch, Removes, RenamesAway, TakesAt, Run;
        PathStays(h, step.now, step.m, before.conns[step.c], before.tree, p);
      }
    }
  }

  /** Between two successful Tcreates of one path, by any clients, there is a successful Tremove or Twstat rename of
      that path or of one of its ancestors. */
  lemma CreatesAreSeparated(h: Hasher, s: System, steps: seq<Step>, p: Path, i: nat, j: nat)
    requires i < j < |steps|
    ensures CreatesAt(h, s, steps, i, p) && CreatesAt(h, s, steps, j, p) ==>
              exists k, q :: i < k < j && q <= p && TakesAt(h, s, steps, k, q)
  {
    if CreatesAt(h, s, steps, i, p) && CreatesAt(h, s, steps, j, p) {
      var first, again := Run(h, s, steps[..i]), Run(h, s, steps[..j]);
      CreatedIsThere(h, steps[i].now, steps[i].m, first.conns[steps[i].c], first.tree, p);
      SuccessMeans(h, steps[j].now, steps[j].m, again.conns[steps[j].c], again.tree);
      RunStep(h, s, steps, i);
      assert Lookup(Run(h, s, steps[..i + 1]).tree, p).Some?;
      if forall k, q :: i < k < j && q <= p ==> !TakesAt(h, s, steps, k, q) {
        hide Dispatch, TakesAt, Run;
        NodeStays(h, s, steps, p, i + 1, j);
        assert false;
      }
    }
  }

  // ---------------------------------------------------------------- the tree over a run

  /** The tree operations of a run, in order. */
  function OpsOf(h: Hasher, s: System, steps: seq<Step>): seq<FsOp>
    decreases steps
  {
    if steps == [] then []
    else
      var before, step := Run(h, s, steps[..|steps| - 1]), steps[|steps| - 1];
      OpsOf(h, s, steps[..|steps| - 1]) + StepOps(before, step)
  }

  function StepOps(s: System, step: Step): seq<FsOp> {
    if step.Receive? && step.c in s.conns then
      match OpOf(step.now, step.m, s.conns[step.c], s.tree) case None => [] case Some(op) => [op]
    else []
  }

  lemma {:induction false} FlatRunAppend(t: Inode, ops: seq<FsOp>, op: FsOp)
    ensures Flat.Run(t, ops + [op]) == Apply(Flat.Run(t, ops), op)
    decreases ops
  {
    if ops == [] {
      assert ops + [op] == [op];
    } else {
      assert (ops + [op])[0] == ops[0] && (ops + [op])[1..] == ops[1..] + [op];
      FlatRunAppend(Apply(t, ops[0]), ops[1..], op);
    }
  }

  /** Whatever the interleaving, the tree is the run of its operations, and a stat of any path is a lookup in the
      flat map that ran them. */
  lemma {:induction false} SystemRefinesFlatMap(h: Hasher, s: System, steps: seq<Step>, q: Path)
    ensures Run(h, s, steps).tree == Flat.Run(s.tree, OpsOf(h, s, steps))
    ensures At(Run(h, s, steps).tree, q) == Get(FlatRun(Flatten(s.tree), OpsOf(h, s, steps)), q)
    decreases steps
  {
    RunRefines(s.tree, OpsOf(h, s, steps), q);
    if steps != [] {
      var init, step := steps[..|steps| - 1], steps[|steps| - 1];
      SystemRefinesFlatMap(h, s, init, q);
      StepIsOps(h, Run(h, s, init), step);
      var ops := StepOps(Run(h, s, init), step);
      if ops == [] {
        assert OpsOf(h, s, init) + ops == OpsOf(h, s, init);
      } else {
        FlatRunAppend(s.tree, OpsOf(h, s, init), ops[0]);
      }
    }
  }

  /** Whatever the clients do, as long as the file at `p` stays in its place: its data is what the writes and
      truncations of the run made of it, in their order. */
  lemma ContentsFollowTheLog(h: Hasher, s: System, steps: seq<Step>, p: Path)
    requires p != [] && At(s.tree, p).Some?
    ensures var ops, after := OpsOf(h, s, steps), At(Run(h, s, steps).tree, p);
            (forall i :: 0 <= i < |ops| ==> Spares(ops[i], p)) ==>
              after.Some? && after.value.data == ApplyLog(At(s.tree, p).value.data, LogOf(ops, p))
  {
    hide Run, OpsOf, Spares;
    SystemRefinesFlatMap(h, s, steps, p);
    var ops := OpsOf(h, s, steps);
    if forall i :: 0 <= i < |ops| ==> Spares(ops[i], p) {
      DataIsLog(s.tree, ops, p);
    }
  }

  lemma StepIsOps(h: Hasher, s: System, step: Step)
    ensures var ops := StepOps(s, step);
            && |ops| <= 1
            && Next(h, s, step).tree == if ops == [] then s.tree else Apply(s.tree, ops[0])
  {
    hide Dispatch, BuildFrame, OpOf;
    if step.Receive? && step.c in s.conns {
      DispatchIsOp(h, step.now, step.m, s.conns[step.c], s.tree);
    }
  }

  // ---------------------------------------------------------------- node conservation

  function CreatedIn(h: Hasher, s: System, step: Step): nat {
    if step.Receive? && step.c in s.conns then CreatedBy(h, step.now, step.m, s.conns[step.c], s.tree) else 0
  }

  function RemovedIn(h: Hasher, s: System, step: Step): nat {
    if step.Receive? && step.c in s.conns then RemovedBy(h, step.now, step.m, s.conns[step.c], s.tree) else 0
  }

  function Created(h: Hasher, s: System, steps: seq<Step>): nat
    decreases steps
  {
    if steps == [] then 0
    else Created(h, s, steps[..|steps| - 1])
         + CreatedIn(h, Run(h, s, steps[..|steps| - 1]), steps[|steps| - 1])
  }

  function Removed(h: Hasher, s: System, steps: seq<Step>): nat
    decreases steps
  {
    if steps == [] then 0
    else Removed(h, s, steps[..|steps| - 1])
         + RemovedIn(h, Run(h, s, steps[..|steps| - 1]), steps[|steps| - 1])
  }

  lemma StepCounts(h: Hasher, s: System, step: Step)
    ensures NodeCount(Next(h, s, step).tree) + RemovedIn(h, s, step) == NodeCount(s.tree) + CreatedIn(h, s, step)
  {
    hide Dispatch, BuildFrame, NodeCount, CreatedBy, RemovedBy;
    if step.Receive? && step.c in s.conns {
      RequestCounts(h, step.now, step.m, s.conns[step.c], s.tree);
    }
  }

  /** Over any run: nodes now = nodes at the start + components created - nodes removed. */
  lemma {:induction false} NodesAreConserved(h: Hasher, s: System, steps: seq<Step>)
    ensures NodeCount(Run(h, s, steps).tree) + Removed(h, s, steps) == NodeCount(s.tree) + Created(h, s, steps)
    decreases steps
  {
    if steps != [] {
      hide NodeCount, Next, CreatedIn, RemovedIn;
      NodesAreConserved(h, s, steps[..|steps| - 1]);
      StepCounts(h, Run(h, s, steps[..|steps| - 1]), steps[|steps| - 1]);
    }
  }
}
