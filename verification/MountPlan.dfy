/** The mount-plan normaliser of libs/planten_ns/src/lib.rs: adjacent unions on one target are merged in one pass. */
module MountPlans {
  import opened Bytes

  datatype Mount =
    | Bind(path: Str)
    | Union(paths: seq<Str>)
    | P9(addr: Str, path: Str)

  /** A `MountEntry`, and equally a `(String, MountPlan)` pair of a plan: the two enums have the same arms. */
  datatype Entry = Entry(target: Str, mount: Mount)

  predicate SameUnion(a: Entry, b: Entry) {
    a.mount.Union? && b.mount.Union? && a.target == b.target
  }

  /** One turn of the loop: extend the last element or push. */
  function Push(plan: seq<Entry>, e: Entry): seq<Entry> {
    if plan != [] && SameUnion(plan[|plan| - 1], e)
    then plan[..|plan| - 1] + [Entry(e.target, Union(plan[|plan| - 1].mount.paths + e.mount.paths))]
    else plan + [e]
  }

  function Plan(mounts: seq<Entry>): seq<Entry>
    decreases mounts
  {
    if mounts == [] then [] else Push(Plan(mounts[..|mounts| - 1]), mounts[|mounts| - 1])
  }

  class Namespace {
    var mounts: seq<Entry>

    constructor ()
      ensures mounts == []
    {
      mounts := [];
    }

    method AddMountEntry(target: Str, mount: Mount)
      modifies this
      ensures mounts == old(mounts) + [Entry(target, mount)]
    {
      mounts := mounts + [Entry(target, mount)];
    }

    method Bind(target: Str, source: Str)
      modifies this
      ensures mounts == old(mounts) + [Entry(target, Mount.Bind(source))]
      ensures Explode(mounts) == Explode(old(mounts)) + [Atom(target, Mount.Bind(source))]
    {
      ExplodeSnoc(mounts, Entry(target, Mount.Bind(source)));
      AddMountEntry(target, Mount.Bind(source));
    }

    method Union(target: Str, source: Str)
      modifies this
      ensures mounts == old(mounts) + [Entry(target, Mount.Union([source]))]
      ensures Explode(mounts) == Explode(old(mounts)) + [Atom(target, Mount.Union([source]))]
    {
      ExplodeSnoc(mounts, Entry(target, Mount.Union([source])));
      AddMountEntry(target, Mount.Union([source]));
    }

    /** A union of many paths means what the same unions one by one mean. */
    method UnionMulti(target: Str, sources: seq<Str>)
      modifies this
      ensures mounts == old(mounts) + [Entry(target, Mount.Union(sources))]
      ensures Explode(mounts) == Explode(old(mounts)) + seq(|sources|, i requires 0 <= i < |sources| =>
                                                              Atom(target, Mount.Union([sources[i]])))
    {
      ExplodeSnoc(mounts, Entry(target, Mount.Union(sources)));
      AddMountEntry(target, Mount.Union(sources));
    }

    method Mount9P(target: Str, addr: Str, path: Str)
      modifies this
      ensures mounts == old(mounts) + [Entry(target, Mount.P9(addr, path))]
      ensures Explode(mounts) == Explode(old(mounts)) + [Atom(target, Mount.P9(addr, path))]
    {
      ExplodeSnoc(mounts, Entry(target, Mount.P9(addr, path)));
      AddMountEntry(target, Mount.P9(addr, path));
    }

    /** `mount_plan`: one pass that edits the last element of the plan in place. */
    method MountPlan() returns (plan: seq<Entry>)
      ensures plan == Plan(mounts)
    {
      plan := [];
      for i := 0 to |mounts|
        invariant plan == Plan(mounts[..i])
      {
        var entry := mounts[i];
        assert mounts[..i + 1][..i] == mounts[..i] && mounts[..i + 1][i] == entry;
        match entry.mount {
          case Bind(_) => plan := plan + [entry];
          case P9(_, _) => plan := plan + [entry];
          case Union(paths) =>
            if plan != [] && plan[|plan| - 1].mount.Union? && plan[|plan| - 1].target == entry.target {
              var existing := plan[|plan| - 1].mount.paths + paths;
              plan := plan[..|plan| - 1] + [Entry(entry.target, Mount.Union(existing))];
            } else {
              plan := plan + [entry];
            }
        }
      }
      assert mounts[..|mounts|] == mounts;
    }
  }

  // ---------------------------------------------------------------- meaning

  /** One path mounted on one target. */
  datatype Atom = Atom(target: Str, mount: Mount)

  /** An entry path by path; an empty union mounts nothing. */
  function Atoms(e: Entry): seq<Atom> {
    if e.mount.Union?
    then seq(|e.mount.paths|, i requires 0 <= i < |e.mount.paths| => Atom(e.target, Union([e.mount.paths[i]])))
    else [Atom(e.target, e.mount)]
  }

  /** What a list of mounts does, in order. */
  function Explode(entries: seq<Entry>): seq<Atom> {
    if entries == [] then [] else Atoms(entries[0]) + Explode(entries[1..])
  }

  lemma {:induction false} ExplodeConcat(a: seq<Entry>, b: seq<Entry>)
    ensures Explode(a + b) == Explode(a) + Explode(b)
  {
    hide Atoms;
    if a == [] {
      assert a + b == b;
    } else {
      ExplodeConcat(a[1..], b);
      assert (a + b)[0] == a[0] && (a + b)[1..] == a[1..] + b;
      Regroup(Atoms(a[0]), Explode(a[1..]), Explode(b));
    }
  }

  lemma ExplodeSnoc(a: seq<Entry>, e: Entry)
    ensures Explode(a + [e]) == Explode(a) + Atoms(e)
  {
    ExplodeConcat(a, [e]);
    assert [e][1..] == [];
    assert Explode([e]) == Atoms(e) + [];
  }

  function Init<T>(s: seq<T>): seq<T>
    requires s != []
  {
    s[..|s| - 1]
  }

  function Final<T>(s: seq<T>): T
    requires s != []
  {
    s[|s| - 1]
  }

  lemma PushPreserves(plan: seq<Entry>, e: Entry)
    ensures Explode(Push(plan, e)) == Explode(plan) + Atoms(e)
  {
    if plan != [] && SameUnion(Final(plan), e) {
      var merged := Entry(e.target, Union(Final(plan).mount.paths + e.mount.paths));
      MergedAtoms(Final(plan), e);
      hide Atoms, Explode;
      assert plan == Init(plan) + [Final(plan)];
      ExplodeSnoc(Init(plan), Final(plan));
      ExplodeSnoc(Init(plan), merged);
      Regroup(Explode(Init(plan)), Atoms(Final(plan)), Atoms(e));
    } else {
      ExplodeSnoc(plan, e);
    }
  }

  lemma MergedAtoms(a: Entry, b: Entry)
    requires SameUnion(a, b)
    ensures Atoms(Entry(b.target, Union(a.mount.paths + b.mount.paths))) == Atoms(a) + Atoms(b)
  {
  }

  /** Planning preserves the meaning. */
  lemma {:induction false} PlanPreserves(mounts: seq<Entry>)
    ensures Explode(Plan(mounts)) == Explode(mounts)
    decreases mounts
  {
    if mounts != [] {
      PlanPreserves(Init(mounts));
      PushPreserves(Plan(Init(mounts)), Final(mounts));
      ExplodeSnoc(Init(mounts), Final(mounts));
      assert mounts == Init(mounts) + [Final(mounts)];
    }
  }

  // ---------------------------------------------------------------- canonical form

  /** No two adjacent entries are unions on one target. */
  predicate Separated(plan: seq<Entry>) {
    forall i :: 0 < i < |plan| ==> !SameUnion(plan[i - 1], plan[i])
  }

  lemma {:induction false} PlanIsSeparated(mounts: seq<Entry>)
    ensures Separated(Plan(mounts))
    decreases mounts
  {
    if mounts != [] {
      PlanIsSeparated(Init(mounts));
    }
  }

  /** A separated list is its own plan. */
  lemma {:induction false} SeparatedIsPlan(plan: seq<Entry>)
    requires Separated(plan)
    ensures Plan(plan) == plan
    decreases plan
  {
    if plan != [] {
      hide SameUnion;
      var init, e := Init(plan), Final(plan);
      assert Separated(init);
      SeparatedIsPlan(init);
      assert init != [] ==> init[|init| - 1] == plan[|plan| - 2] && !SameUnion(plan[|plan| - 2], plan[|plan| - 1]);
      assert Push(init, e) == init + [e] == plan;
    }
  }

  /** Planning twice is planning once. */
  lemma PlanIsIdempotent(mounts: seq<Entry>)
    ensures Plan(Plan(mounts)) == Plan(mounts)
  {
    PlanIsSeparated(mounts);
    SeparatedIsPlan(Plan(mounts));
  }

  /** Two plans joined: merged at the seam when it falls between unions on one target, concatenated otherwise. */
  function Join(a: seq<Entry>, b: seq<Entry>): seq<Entry> {
    if a != [] && b != [] && SameUnion(Final(a), b[0])
    then Init(a) + [Entry(b[0].target, Union(Final(a).mount.paths + b[0].mount.paths))] + b[1..]
    else a + b
  }

  lemma JoinSnocEmpty(a: seq<Entry>, e: Entry)
    ensures Push(Join(a, []), e) == Join(a, Push([], e))
  {
    assert [e][1..] == [];
  }

  lemma JoinSnocApart(a: seq<Entry>, b: seq<Entry>, e: Entry)
    requires b != [] && (a == [] || !SameUnion(Final(a), b[0]))
    ensures Push(Join(a, b), e) == Join(a, Push(b, e))
  {
    assert Final(a + b) == Final(b) && Init(a + b) == a + Init(b);
    assert Join(a, b) == a + b;
    var pushed := Push(b, e);
    if SameUnion(Final(b), e) {
      Regroup(a, Init(b), [Final(pushed)]);
      assert |b| > 1 ==> pushed[0] == b[0];
    } else {
      Regroup(a, b, [e]);
      assert pushed[0] == b[0];
    }
  }

  lemma JoinSnocMerged(a: seq<Entry>, b: seq<Entry>, e: Entry)
    requires a != [] && b != [] && SameUnion(Final(a), b[0])
    ensures Push(Join(a, b), e) == Join(a, Push(b, e))
  {
    var merged := Entry(b[0].target, Union(Final(a).mount.paths + b[0].mount.paths));
    var j, front := Join(a, b), Init(a) + [merged];
    assert j == front + b[1..];
    if |b| > 1 {
      JoinTail(front, b, e);
      assert Push(b, e)[0] == b[0] && Push(b, e)[1..] == Push(b[1..], e);
    } else if SameUnion(b[0], e) {
      Regroup(Final(a).mount.paths, b[0].mount.paths, e.mount.paths);
      assert j == front && Init(j) == Init(a);
    } else {
      assert j == front && Push(b, e)[1..] == [e];
    }
  }

  lemma JoinTail(front: seq<Entry>, b: seq<Entry>, e: Entry)
    requires |b| > 1
    ensures Push(front + b[1..], e) == front + Push(b[1..], e)
    ensures Push(b, e) == [b[0]] + Push(b[1..], e)
  {
    var t := b[1..];
    assert Final(front + t) == Final(t) == Final(b);
    assert Init(front + t) == front + Init(t) && Init(b) == [b[0]] + Init(t);
    assert b == [b[0]] + t;
  }

  lemma JoinSnoc(a: seq<Entry>, b: seq<Entry>, e: Entry)
    ensures Push(Join(a, b), e) == Join(a, Push(b, e))
  {
    hide Push, Join;
    if b == [] { JoinSnocEmpty(a, e); }
    else if a != [] && SameUnion(Final(a), b[0]) { JoinSnocMerged(a, b, e); }
    else { JoinSnocApart(a, b, e); }
  }

  /** Planning a concatenation merges only at the seam. */
  lemma {:induction false} PlanConcat(a: seq<Entry>, b: seq<Entry>)
    ensures Plan(a + b) == Join(Plan(a), Plan(b))
    decreases b
  {
    if b == [] {
      assert a + b == a;
    } else {
      PlanConcat(a, Init(b));
      assert Init(a + b) == a + Init(b) && Final(a + b) == Final(b);
      JoinSnoc(Plan(a), Plan(Init(b)), Final(b));
    }
  }

  predicate NoEmptyUnion(entries: seq<Entry>) {
    forall i :: 0 <= i < |entries| && entries[i].mount.Union? ==> entries[i].mount.paths != []
  }

  /** The atom belongs to the same entry as the first one. */
  predicate Continues(first: Atom, a: Atom) {
    first.mount.Union? && a.mount.Union? && a.target == first.target
  }

  /** How many leading atoms belong to the first entry of a separated plan, read off its meaning alone. */
  function Leading(atoms: seq<Atom>, n: nat): (k: nat)
    requires 0 < n <= |atoms|
    ensures n <= k <= |atoms|
    decreases |atoms| - n
  {
    if n < |atoms| && Continues(atoms[0], atoms[n]) then Leading(atoms, n + 1) else n
  }

  lemma {:induction false} LeadingIs(atoms: seq<Atom>, n: nat, k: nat)
    requires 0 < n <= k <= |atoms|
    requires forall i :: n <= i < k ==> Continues(atoms[0], atoms[i])
    requires k < |atoms| ==> !Continues(atoms[0], atoms[k])
    ensures Leading(atoms, n) == k
    decreases k - n
  {
    if n < k { LeadingIs(atoms, n + 1, k); }
  }

  lemma {:induction false} FirstEntryIsLeading(plan: seq<Entry>)
    requires plan != [] && Separated(plan) && NoEmptyUnion(plan)
    ensures Explode(plan) != [] && Leading(Explode(plan), 1) == |Atoms(plan[0])|
    ensures Explode(plan)[..|Atoms(plan[0])|] == Atoms(plan[0])
    ensures Explode(plan)[|Atoms(plan[0])|..] == Explode(plan[1..])
  {
    var atoms, k := Explode(plan), |Atoms(plan[0])|;
    if |plan| > 1 {
      assert plan[1..][0] == plan[1] && !SameUnion(plan[0], plan[1]);
      assert NoEmptyUnion(plan) && Atoms(plan[1]) != [];
      assert Explode(plan[1..]) == Atoms(plan[1]) + Explode(plan[1..][1..]);
      assert atoms == Atoms(plan[0]) + Explode(plan[1..]);
      assert atoms[k] == Atoms(plan[1])[0];
    }
    LeadingIs(atoms, 1, k);
  }

  lemma AtomsDetermineEntry(a: Entry, b: Entry)
    requires Atoms(a) == Atoms(b) && Atoms(a) != []
    ensures a == b
  {
    assert Atoms(a)[0] == Atoms(b)[0];
    if a.mount.Union? {
      forall i | 0 <= i < |a.mount.paths| ensures a.mount.paths[i] == b.mount.paths[i] {
        assert Atoms(a)[i].mount.paths[0] == a.mount.paths[i];
        assert Atoms(b)[i].mount.paths[0] == b.mount.paths[i];
      }
    }
  }

  /** A separated list without empty unions is determined by its meaning. */
  lemma {:induction false} MeaningDeterminesPlan(a: seq<Entry>, b: seq<Entry>)
    requires Separated(a) && Separated(b) && NoEmptyUnion(a) && NoEmptyUnion(b)
    requires Explode(a) == Explode(b)
    ensures a == b
    decreases a
  {
    if a != [] { FirstEntryIsLeading(a); }
    if b != [] { FirstEntryIsLeading(b); }
    if a != [] && b != [] {
      AtomsDetermineEntry(a[0], b[0]);
      assert Separated(a[1..]) && Separated(b[1..]);
      MeaningDeterminesPlan(a[1..], b[1..]);
      assert a == [a[0]] + a[1..] && b == [b[0]] + b[1..];
    }
  }

  // ---------------------------------------------------------------- when the plan is canonical

  /** The entries from `i` up to `j` are all the unions on one target that stand together there. */
  predicate Run(m: seq<Entry>, i: nat, j: nat) {
    && i < j <= |m| && m[i].mount.Union? && (forall k :: i < k < j ==> SameUnion(m[k - 1], m[k]))
    && (i > 0 ==> !SameUnion(m[i - 1], m[i])) && (j < |m| ==> !SameUnion(m[j - 1], m[j]))
  }

  predicate HasPath(m: seq<Entry>, i: nat, j: nat) {
    exists k :: i <= k < j <= |m| && m[k].mount.Union? && m[k].mount.paths != []
  }

  /** Every maximal run of adjacent unions on one target holds at least one path. */
  ghost predicate RunsHavePaths(m: seq<Entry>) {
    forall i: nat, j: nat :: Run(m, i, j) ==> HasPath(m, i, j)
  }

  /** The same for the runs that end before the list does. */
  ghost predicate ClosedHavePaths(m: seq<Entry>) {
    forall i: nat, j: nat :: Run(m, i, j) && j < |m| ==> HasPath(m, i, j)
  }

  /** Where the run that the last entry belongs to begins. */
  function LastRun(m: seq<Entry>): (i: nat)
    requires m != []
    ensures i < |m|
    ensures Final(m).mount.Union? ==> Run(m, i, |m|)
    decreases m
  {
    if |m| > 1 && SameUnion(m[|m| - 2], Final(m)) then
      assert Final(Init(m)) == m[|m| - 2];
      LastRun(Init(m))
    else |m| - 1
  }

  lemma {:induction false} LastRunIsOnly(m: seq<Entry>, i: nat)
    requires m != [] && Run(m, i, |m|)
    ensures i == LastRun(m)
    decreases m
  {
    if i < |m| - 1 {
      assert SameUnion(m[|m| - 2], m[|m| - 1]);
      LastRunIsOnly(Init(m), i);
    }
  }

  lemma RunsSplit(m: seq<Entry>)
    requires m != []
    ensures RunsHavePaths(m) <==>
            ClosedHavePaths(m) && (Final(m).mount.Union? ==> HasPath(m, LastRun(m), |m|))
  {
    hide HasPath, LastRun;
    forall i: nat | Run(m, i, |m|) ensures i == LastRun(m) && Final(m).mount.Union? {
      LastRunIsOnly(m, i);
      assert |m| - 1 > i ==> SameUnion(m[|m| - 2], m[|m| - 1]);
    }
  }

  lemma RunOfInit(m: seq<Entry>, i: nat, j: nat)
    requires m != [] && j < |m|
    requires j == |m| - 1 > 0 ==> !SameUnion(m[|m| - 2], Final(m))
    ensures Run(m, i, j) <==> Run(Init(m), i, j)
    ensures HasPath(m, i, j) <==> HasPath(Init(m), i, j)
  {
    if HasPath(m, i, j) {
      var k :| i <= k < j && m[k].mount.Union? && m[k].mount.paths != [];
      assert Init(m)[k] == m[k];
    }
    if HasPath(Init(m), i, j) {
      var k :| i <= k < j && Init(m)[k].mount.Union? && Init(m)[k].mount.paths != [];
      assert Init(m)[k] == m[k];
    }
    assert forall k :: 0 <= k < |m| - 1 ==> Init(m)[k] == m[k];
  }

  /** The runs before the last entry are those of the list without it, closed or not. */
  lemma ClosedOfInit(m: seq<Entry>)
    requires |m| > 1
    ensures ClosedHavePaths(m) <==>
            if SameUnion(m[|m| - 2], Final(m)) then ClosedHavePaths(Init(m)) else RunsHavePaths(Init(m))
  {
    var apart := !SameUnion(m[|m| - 2], Final(m));
    forall i: nat, j: nat | j < |m| && (apart || j < |m| - 1)
      ensures Run(m, i, j) <==> Run(Init(m), i, j)
      ensures HasPath(m, i, j) <==> HasPath(Init(m), i, j)
    {
      RunOfInit(m, i, j);
    }
    hide HasPath;
    var n := |m| - 1;
    forall i: nat | Run(m, i, n) ensures apart {
    }
  }

  lemma HasPathSnoc(m: seq<Entry>, i: nat)
    requires i < |m|
    ensures HasPath(m, i, |m|) <==>
            (Final(m).mount.Union? && Final(m).mount.paths != []) || HasPath(Init(m), i, |m| - 1)
  {
    if Final(m).mount.Union? && Final(m).mount.paths != [] {
      assert m[|m| - 1].mount.paths != [];
    } else {
      if HasPath(m, i, |m|) {
        var k :| i <= k < |m| && m[k].mount.Union? && m[k].mount.paths != [];
        assert Init(m)[k] == m[k];
      }
      if HasPath(Init(m), i, |m| - 1) {
        var k :| i <= k < |m| - 1 && Init(m)[k].mount.Union? && Init(m)[k].mount.paths != [];
        assert Init(m)[k] == m[k];
      }
    }
  }

  lemma PathsOfLastRun(m: seq<Entry>)
    requires m != [] && Final(m).mount.Union?
    ensures HasPath(m, LastRun(m), |m|) <==>
            Final(m).mount.paths != []
            || (|m| > 1 && SameUnion(m[|m| - 2], Final(m)) && HasPath(Init(m), LastRun(Init(m)), |m| - 1))
  {
    HasPathSnoc(m, LastRun(m));
    if |m| == 1 || !SameUnion(m[|m| - 2], Final(m)) {
      assert !HasPath(Init(m), |m| - 1, |m| - 1);
    }
  }

  /** The last entry of the plan is that of the list, with the paths of its run. */
  lemma {:induction false} LastOfPlan(m: seq<Entry>)
    requires m != []
    ensures Plan(m) != [] && Final(Plan(m)).target == Final(m).target
    ensures Final(Plan(m)).mount.Union? <==> Final(m).mount.Union?
    decreases m
  {
    if |m| > 1 { LastOfPlan(Init(m)); }
  }

  lemma NoEmptyUnionSnoc(plan: seq<Entry>)
    requires plan != []
    ensures NoEmptyUnion(plan) <==>
            NoEmptyUnion(Init(plan)) && (Final(plan).mount.Union? ==> Final(plan).mount.paths != [])
  {
    assert plan == Init(plan) + [Final(plan)];
  }

  /** What the last step of planning does to the plan before it. */
  lemma PlanStep(m: seq<Entry>)
    requires |m| > 1
    ensures var p, plan := Plan(Init(m)), Plan(m);
            && p != [] && plan != []
            && if SameUnion(m[|m| - 2], Final(m)) then
                 && Init(plan) == Init(p) && Final(plan).mount.Union? && Final(p).mount.Union?
                 && Final(plan).mount.paths == Final(p).mount.paths + Final(m).mount.paths
               else Init(plan) == p && Final(plan) == Final(m)
  {
    LastOfPlan(Init(m));
    assert Final(Init(m)) == m[|m| - 2];
  }

  lemma {:induction false} RunsOfPlan(m: seq<Entry>)
    requires m != []
    ensures Plan(m) != [] && (Final(Plan(m)).mount.Union? <==> Final(m).mount.Union?)
    ensures ClosedHavePaths(m) <==> NoEmptyUnion(Init(Plan(m)))
    ensures Final(m).mount.Union? ==>
              (HasPath(m, LastRun(m), |m|) <==> Final(Plan(m)).mount.paths != [])
    decreases m
  {
    hide Plan, HasPath, ClosedHavePaths, RunsHavePaths, NoEmptyUnion, LastRun;
    LastOfPlan(m);
    if Final(m).mount.Union? { PathsOfLastRun(m); }
    if |m| == 1 {
      PlanOfOne(m);
    } else {
      PlanStep(m);
      var init := Init(m);
      assert Final(init) == m[|m| - 2];
      RunsOfPlan(init);
      ClosedOfInit(m);
      RunsSplit(init);
      NoEmptyUnionSnoc(Plan(init));
    }
  }

  lemma PlanOfOne(m: seq<Entry>)
    requires |m| == 1
    ensures Plan(m) == m && ClosedHavePaths(m) && NoEmptyUnion(Init(m))
  {
    assert Init(m) == [] && Plan(m) == Push([], m[0]);
  }

  /** The condition on the list is exactly that its plan has no empty union. */
  lemma PlanIsFull(m: seq<Entry>)
    ensures RunsHavePaths(m) <==> NoEmptyUnion(Plan(m))
  {
    if m != [] {
      RunsOfPlan(m);
      RunsSplit(m);
      NoEmptyUnionSnoc(Plan(m));
    }
  }

  /** Two mount lists whose runs hold paths have the same plan exactly when they mean the same. */
  lemma PlanIsCanonical(a: seq<Entry>, b: seq<Entry>)
    requires RunsHavePaths(a) && RunsHavePaths(b)
    ensures Plan(a) == Plan(b) <==> Explode(a) == Explode(b)
  {
    PlanPreserves(a);
    PlanPreserves(b);
    if Explode(a) == Explode(b) {
      PlanIsSeparated(a);
      PlanIsSeparated(b);
      PlanIsFull(a);
      PlanIsFull(b);
      MeaningDeterminesPlan(Plan(a), Plan(b));
    }
  }

  /** The mounts of a meaning, one entry for each path. */
  function Singles(atoms: seq<Atom>): seq<Entry> {
    seq(|atoms|, i requires 0 <= i < |atoms| => Entry(atoms[i].target, atoms[i].mount))
  }

  lemma {:induction false} SinglesMean(m: seq<Entry>)
    ensures Explode(Singles(Explode(m))) == Explode(m) && NoEmptyUnion(Singles(Explode(m)))
  {
    if m != [] {
      SinglesMean(m[1..]);
      var first, more := Atoms(m[0]), Explode(m[1..]);
      assert Singles(first + more) == Singles(first) + Singles(more);
      ExplodeConcat(Singles(first), Singles(more));
      AtomsMean(m[0]);
    }
  }

  lemma AtomsMean(e: Entry)
    ensures Explode(Singles(Atoms(e))) == Atoms(e) && NoEmptyUnion(Singles(Atoms(e)))
  {
    SinglesOfAtoms(Atoms(e));
  }

  lemma {:induction false} SinglesOfAtoms(atoms: seq<Atom>)
    requires forall i :: 0 <= i < |atoms| ==> atoms[i].mount.Union? ==> |atoms[i].mount.paths| == 1
    ensures Explode(Singles(atoms)) == atoms && NoEmptyUnion(Singles(atoms))
  {
    if atoms != [] {
      SinglesOfAtoms(atoms[1..]);
      var e := Entry(atoms[0].target, atoms[0].mount);
      assert Singles(atoms)[0] == e && Singles(atoms)[1..] == Singles(atoms[1..]);
      if e.mount.Union? {
        assert e.mount.paths == [e.mount.paths[0]];
      }
      assert Atoms(e) == [atoms[0]];
    }
  }

  lemma FullRunsHavePaths(m: seq<Entry>)
    requires NoEmptyUnion(m)
    ensures RunsHavePaths(m)
  {
    forall i: nat, j: nat | Run(m, i, j) ensures HasPath(m, i, j) {
      assert m[i].mount.paths != [];
    }
  }

  /** A list has the plan of its meaning, and with it of every list that means the same and whose runs hold paths,
      exactly when its own runs do. So the claim fails for every list with a run of empty unions only, and for no
      other. */
  lemma CanonicalExactly(a: seq<Entry>)
    ensures Plan(a) == Plan(Singles(Explode(a))) <==> RunsHavePaths(a)
    ensures (forall b :: RunsHavePaths(b) && Explode(b) == Explode(a) ==> Plan(a) == Plan(b)) <==> RunsHavePaths(a)
  {
    var b := Singles(Explode(a));
    SinglesMean(a);
    FullRunsHavePaths(b);
    PlanIsFull(a);
    PlanIsFull(b);
    if RunsHavePaths(a) {
      forall c | RunsHavePaths(c) && Explode(c) == Explode(a) ensures Plan(a) == Plan(c) {
        PlanIsCanonical(a, c);
      }
    }
  }

  /** The smallest list for which it fails: an empty union alone means nothing but keeps its place in the plan. */
  lemma EmptyUnionKeepsItsPlace(target: Str)
    ensures Explode([Entry(target, Union([]))]) == Explode([])
    ensures Plan([Entry(target, Union([]))]) != Plan([])
    ensures !RunsHavePaths([Entry(target, Union([]))])
  {
    var e := Entry(target, Union([]));
    assert Plan([e]) == Push(Plan([e][..0]), e);
    assert Explode([e]) == Atoms(e) + Explode([e][1..]);
    assert Run([e], 0, 1) && !HasPath([e], 0, 1);
  }
}
