/** File contents are decided by the last edit that touched each byte
    (libs/planten_fs_ramfs/src/lib.rs:46-48 and 148-167). */
module FileLog {
  import opened Bytes
  import opened Paths
  import opened Stats
  import opened Tree
  import opened Flat
  import opened TreeLaws

  /** What a write and a Twstat length do to the data. */
  datatype Edit = Put(offset: nat, bytes: seq<Byte>) | Cut(length: nat)

  function ApplyEdit(data: seq<Byte>, e: Edit): seq<Byte> {
    match e
    case Put(offset, bytes) => WriteData(data, offset, bytes)
    case Cut(n) => Resize(data, n)
  }

  function Before(log: seq<Edit>): seq<Edit>
    requires log != []
  {
    log[..|log| - 1]
  }

  function ApplyLog(data: seq<Byte>, log: seq<Edit>): seq<Byte> {
    if log == [] then data else ApplyEdit(ApplyLog(data, Before(log)), log[|log| - 1])
  }

  /** A write touches the bytes it covers, a truncation every byte from its length on. */
  predicate Touches(e: Edit, i: nat) {
    match e
    case Put(offset, bytes) => offset <= i < offset + |bytes|
    case Cut(n) => n <= i
  }

  lemma EditAt(data: seq<Byte>, e: Edit, i: nat)
    requires i < |ApplyEdit(data, e)|
    ensures ApplyEdit(data, e)[i] ==
            if e.Put? && Touches(e, i) then e.bytes[i - e.offset]
            else if i < |data| && !Touches(e, i) then data[i]
            else 0
  {
  }

  /** The last edit that touches byte `i` decides it: a write by the byte it put there, a truncation by zero. */
  lemma {:induction false} LastTouchDecides(data: seq<Byte>, log: seq<Edit>, k: nat, i: nat)
    requires k < |log| && Touches(log[k], i)
    requires forall j :: k < j < |log| ==> !Touches(log[j], i)
    requires i < |ApplyLog(data, log)|
    ensures ApplyLog(data, log)[i] == if log[k].Put? then log[k].bytes[i - log[k].offset] else 0
    decreases log
  {
    hide ApplyEdit;
    var n := |log| - 1;
    EditAt(ApplyLog(data, Before(log)), log[n], i);
    if k < n {
      if i < |ApplyLog(data, Before(log))| {
        LastTouchDecides(data, Before(log), k, i);
      } else if log[k].Put? {
        CoveredIsWithin(data, Before(log), k, i);
      }
    }
  }

  /** A byte written and not cut since is inside the file. */
  lemma {:induction false} CoveredIsWithin(data: seq<Byte>, log: seq<Edit>, k: nat, i: nat)
    requires k < |log| && log[k].Put? && Touches(log[k], i)
    requires forall j :: k < j < |log| ==> !Touches(log[j], i)
    ensures i < |ApplyLog(data, log)|
    decreases log
  {
    if k < |log| - 1 {
      CoveredIsWithin(data, Before(log), k, i);
    }
  }

  /** A byte no edit touched is the initial one, or zero where there was none. */
  lemma {:induction false} UntouchedIsInitial(data: seq<Byte>, log: seq<Edit>, i: nat)
    requires forall j :: 0 <= j < |log| ==> !Touches(log[j], i)
    requires i < |ApplyLog(data, log)|
    ensures ApplyLog(data, log)[i] == if i < |data| then data[i] else 0
    decreases log
  {
    if log != [] {
      EditAt(ApplyLog(data, Before(log)), log[|log| - 1], i);
      if i < |data| {
        KeptIsWithin(data, Before(log), i);
      }
      if i < |ApplyLog(data, Before(log))| {
        UntouchedIsInitial(data, Before(log), i);
      }
    }
  }

  lemma {:induction false} KeptIsWithin(data: seq<Byte>, log: seq<Edit>, i: nat)
    requires forall j :: 0 <= j < |log| ==> !Touches(log[j], i)
    requires i < |data|
    ensures i < |ApplyLog(data, log)|
    decreases log
  {
    if log != [] {
      KeptIsWithin(data, Before(log), i);
    }
  }

  function End(e: Edit): nat {
    match e
    case Put(offset, bytes) => offset + |bytes|
    case Cut(n) => n
  }

  /** Index `k` is that of the last truncation in the log, or -1 when there is none. */
  predicate LastCut(log: seq<Edit>, k: int) {
    -1 <= k < |log| && (k >= 0 ==> log[k].Cut?) && forall j :: k < j < |log| ==> log[j].Put?
  }

  function Base(data: seq<Byte>, log: seq<Edit>, k: int): nat
    requires LastCut(log, k)
  {
    if k < 0 then |data| else log[k].length
  }

  lemma LengthStep(data: seq<Byte>, log: seq<Edit>)
    requires log != []
    ensures var e, n' := log[|log| - 1], |ApplyLog(data, Before(log))|;
            |ApplyLog(data, log)| == if e.Cut? || End(e) > n' then End(e) else n'
  {
  }

  lemma {:induction false} LengthBounds(data: seq<Byte>, log: seq<Edit>, k: int)
    requires LastCut(log, k)
    ensures Base(data, log, k) <= |ApplyLog(data, log)|
    ensures forall j :: k < j < |log| ==> End(log[j]) <= |ApplyLog(data, log)|
    decreases log
  {
    if log != [] {
      LengthStep(data, log);
      if k < |log| - 1 {
        hide ApplyLog, End;
        LengthBounds(data, Before(log), k);
        BoundsStep(log, k, |ApplyLog(data, Before(log))|, |ApplyLog(data, log)|);
      }
    }
  }

  lemma BoundsStep(log: seq<Edit>, k: int, n: nat, n': nat)
    requires -1 <= k < |log| - 1 && n <= n' && End(log[|log| - 1]) <= n'
    requires forall j :: k < j < |Before(log)| ==> End(Before(log)[j]) <= n
    ensures forall j :: k < j < |log| ==> End(log[j]) <= n'
  {
    hide End;
    forall j | k < j < |log| ensures End(log[j]) <= n' {
      if j < |log| - 1 { assert Before(log)[j] == log[j]; }
    }
  }

  lemma {:induction false} LengthAttained(data: seq<Byte>, log: seq<Edit>, k: int) returns (j: nat)
    requires LastCut(log, k)
    ensures |ApplyLog(data, log)| == Base(data, log, k)
            || (k < j < |log| && End(log[j]) == |ApplyLog(data, log)|)
    decreases log
  {
    j := 0;
    if log != [] {
      LengthStep(data, log);
      if k < |log| - 1 {
        j := LengthAttained(data, Before(log), k);
        if End(log[|log| - 1]) == |ApplyLog(data, log)| {
          j := |log| - 1;
        }
      }
    }
  }

  /** The length is that of the last truncation (or the initial one), raised to the furthest end of a write
      since. A write of no bytes counts with its offset. */
  lemma {:induction false} LogLength(data: seq<Byte>, log: seq<Edit>, k: int)
    requires LastCut(log, k)
    ensures Base(data, log, k) <= |ApplyLog(data, log)|
    ensures forall j :: k < j < |log| ==> End(log[j]) <= |ApplyLog(data, log)|
    ensures |ApplyLog(data, log)| == Base(data, log, k)
            || exists j :: k < j < |log| && End(log[j]) == |ApplyLog(data, log)|
  {
    LengthBounds(data, log, k);
    var j := LengthAttained(data, log, k);
  }

  /** Writes to disjoint ranges commute on the data. */
  lemma DisjointWritesCommute(data: seq<Byte>, o1: nat, b1: seq<Byte>, o2: nat, b2: seq<Byte>)
    requires o1 + |b1| <= o2 || o2 + |b2| <= o1
    ensures WriteData(WriteData(data, o1, b1), o2, b2) == WriteData(WriteData(data, o2, b2), o1, b1)
  {
    var x, y := WriteData(data, o1, b1), WriteData(data, o2, b2);
    var l, r := WriteData(x, o2, b2), WriteData(y, o1, b1);
    forall i | 0 <= i < |l| ensures l[i] == r[i] {
      EditAt(x, Put(o2, b2), i);
      EditAt(y, Put(o1, b1), i);
      if i < |x| { EditAt(data, Put(o1, b1), i); }
      if i < |y| { EditAt(data, Put(o2, b2), i); }
    }
  }

  // ---------------------------------------------------------------- on the tree

  /** An operation that leaves the file at `p` in its place: it may write, truncate and change it,
      and do anything elsewhere, but does not replace, remove or rename it or an ancestor. */
  predicate Spares(op: FsOp, p: Path) {
    match op
    case CreateFile(q, _, _) => q == [] || !(q <= p)
    case CreateDir(_, _) => true
    case WriteOp(_, _, _, _) => true
    case RemoveOp(q) => !(q <= p)
    case WstatOp(q, stat) => q <= p && q != [] ==> !Renames(stat, Last(q))
  }

  /** The edits of the data of `p` among the operations. */
  function EditOf(op: FsOp, p: Path): seq<Edit> {
    match op
    case WriteOp(q, offset, bytes, _) => if q == p then [Put(offset, bytes)] else []
    case WstatOp(q, stat) => if q == p && stat.length != KEEP64 then [Cut(stat.length)] else []
    case _ => []
  }

  function LogOf(ops: seq<FsOp>, p: Path): seq<Edit> {
    if ops == [] then [] else EditOf(ops[0], p) + LogOf(ops[1..], p)
  }

  lemma ApplyOneEdit(data: seq<Byte>, log: seq<Edit>)
    requires |log| <= 1
    ensures ApplyLog(data, log) == if log == [] then data else ApplyEdit(data, log[0])
  {
    if log != [] { assert Before(log) == []; }
  }

  lemma BeforeConcat(a: seq<Edit>, b: seq<Edit>)
    requires b != []
    ensures Before(a + b) == a + Before(b) && (a + b)[|a + b| - 1] == b[|b| - 1]
  {
  }

  lemma {:induction false} ApplyLogConcat(data: seq<Byte>, a: seq<Edit>, b: seq<Edit>)
    ensures ApplyLog(data, a + b) == ApplyLog(ApplyLog(data, a), b)
    decreases b
  {
    if b == [] {
      assert a + b == a;
    } else {
      ApplyLogConcat(data, a, Before(b));
      BeforeConcat(a, b);
    }
  }

  lemma SparedStep(t: Inode, op: FsOp, p: Path)
    requires p != [] && At(t, p).Some? && Spares(op, p)
    ensures At(Apply(t, op), p).Some?
    ensures At(Apply(t, op), p).value.data == ApplyLog(At(t, p).value.data, EditOf(op, p))
  {
    ApplyOneEdit(At(t, p).value.data, EditOf(op, p));
    match op
    case CreateFile(q, data, now) =>
      if q != [] { MakeAt(t, q, File(data), now, p); }
    case CreateDir(q, now) =>
      if q != [] { MakeDirSpares(t, q, now, p); }
    case WriteOp(q, offset, bytes, now) =>
      if q != [] && Lookup(t, q).Some? {
        AttrChangeAt(t, q, WriteAttr(Lookup(t, q).value.attr, offset, bytes, now), p);
      }
    case RemoveOp(q) =>
      if Remove(t, q).Some? {
        LookupLast(t, q);
        RemoveAt(t, q, p);
      }
    case WstatOp(q, stat) =>
      WstatSpares(t, q, stat, p);
  }

  lemma MakeDirSpares(t: Inode, q: Path, now: U32, p: Path)
    requires q != [] && At(t, p).Some?
    ensures At(Make(t, q, Dir, now), p) == At(t, p)
  {
    MakeAt(t, q, Dir, now, p);
    if q <= p { LookupPrefix(t, q, p); }
  }

  lemma WstatSpares(t: Inode, q: Path, stat: Stat, p: Path)
    requires p != [] && At(t, p).Some?
    requires q <= p && q != [] ==> !Renames(stat, Last(q))
    ensures At(Or(Wstat(t, q, stat), t), p) ==
            if q == p then Some(EditAttr(At(t, p).value, stat))
            else At(t, p)
  {
    WstatOutcome(t, q, stat);
    if q == [] {
      AttrChangeAt(t, q, EditRootAttr(t.attr, stat), p);
    } else if Wstat(t, q, stat).Some? {
      if Renames(stat, Last(q)) {
        RenameAt(t, q, stat, p);
        var q' := Pop(q) + [stat.name];
        if q' <= p { LookupPrefix(t, q', p); }
      } else {
        var node := Lookup(t, q).value;
        LookupLast(t, q);
        EditIsReplace(t, q, node.(attr := EditAttr(node.attr, stat)));
        AttrChangeAt(t, q, EditAttr(node.attr, stat), p);
      }
    }
  }

  /** After any interleaving with operations that leave the file in place, its data is what its own edits made. */
  lemma {:induction false} DataIsLog(t: Inode, ops: seq<FsOp>, p: Path)
    requires p != [] && At(t, p).Some?
    requires forall i :: 0 <= i < |ops| ==> Spares(ops[i], p)
    ensures At(Run(t, ops), p).Some?
    ensures At(Run(t, ops), p).value.data == ApplyLog(At(t, p).value.data, LogOf(ops, p))
    decreases ops
  {
    if ops != [] {
      SparedStep(t, ops[0], p);
      DataIsLog(Apply(t, ops[0]), ops[1..], p);
      ApplyLogConcat(At(t, p).value.data, EditOf(ops[0], p), LogOf(ops[1..], p));
    }
  }
}
