/** The tree refines a flat, prefix-closed map from component lists to node attributes. */
module Flat {
  import opened Bytes
  import opened Paths
  import opened Stats
  import opened Tree

  type FlatMap = map<Path, Attr>

  predicate PrefixClosed(m: FlatMap) {
    [] in m && forall q :: q in m ==> q == [] || Pop(q) in m
  }

  function PathSet(t: Inode): set<Path> {
    {[]} + set k, q | k in t.children && q in PathSet(t.children[k]) :: [k] + q
  }

  lemma {:induction false} PathSetIsDomain(t: Inode, q: Path)
    ensures q in PathSet(t) <==> Lookup(t, q).Some?
    decreases q
  {
    if q != [] {
      assert q == [q[0]] + q[1..];
      if q[0] in t.children {
        PathSetIsDomain(t.children[q[0]], q[1..]);
      }
      forall k, r | k in t.children && r in PathSet(t.children[k]) && [k] + r == q
        ensures k == q[0] && r == q[1..]
      {
        assert ([k] + r)[1..] == r;
      }
    }
  }

  /** The abstraction: every reachable component list with its attributes. */
  function Flatten(t: Inode): (m: FlatMap) {
    map q | q in PathSet(t) && Lookup(t, q).Some? :: Lookup(t, q).value.attr
  }

  function Get(m: FlatMap, q: Path): Option<Attr> {
    if q in m then Some(m[q]) else None
  }

  /** A stat of the tree is a lookup in the map. */
  lemma StatIsLookup(t: Inode, q: Path)
    ensures At(t, q) == Get(Flatten(t), q)
  {
    PathSetIsDomain(t, q);
  }

  lemma FlattenIsPrefixClosed(t: Inode)
    ensures PrefixClosed(Flatten(t))
  {
    StatIsLookup(t, []);
    forall q | q in Flatten(t) && q != []
      ensures Pop(q) in Flatten(t)
    {
      StatIsLookup(t, q);
      StatIsLookup(t, Pop(q));
      LookupLast(t, q);
    }
  }

  lemma {:induction false} PrefixClosedAll(m: FlatMap, p: Path, q: Path)
    requires PrefixClosed(m) && q in m && p <= q
    ensures p in m
    decreases |q|
  {
    if p != q {
      assert p <= Pop(q);
      PrefixClosedAll(m, p, Pop(q));
    }
  }

  lemma SameGetsSameMap(m: FlatMap, n: FlatMap)
    requires forall q :: Get(m, q) == Get(n, q)
    ensures m == n
  {
    forall q ensures q in m <==> q in n {
      assert Get(m, q) == Get(n, q);
    }
    forall q | q in m ensures m[q] == n[q] {
      assert Get(m, q) == Get(n, q);
    }
  }

  // ---------------------------------------------------------------- operations on the map

  function Below(m: FlatMap, p: Path): set<Path> {
    set q | q in m && p <= q
  }

  function Prefixes(p: Path): set<Path> {
    set i | 1 <= i <= |p| :: p[..i]
  }

  /** Everything at or below `p` gives way to one fresh node, and absent ancestors appear as directories. */
  function FlatMake(m: FlatMap, p: Path, kind: Kind, now: U32): FlatMap {
    if p == [] || (kind.Dir? && p in m) then m
    else
      map q | q in (m.Keys - Below(m, p)) + Prefixes(p) ::
        if q == p then LeafAttr(Last(p), kind, now)
        else if q in m then m[q]
        else FreshAttr(Last(q), DIR_MODE, now)
  }

  function FlatRemove(m: FlatMap, p: Path): Option<FlatMap> {
    if p == [] || p !in m then None
    else Some(map q | q in m.Keys - Below(m, p) :: m[q])
  }

  function FlatWrite(m: FlatMap, p: Path, offset: nat, bytes: seq<Byte>, now: U32): Option<FlatMap> {
    if p == [] || p !in m then None
    else Some(m[p := WriteAttr(m[p], offset, bytes, now)])
  }

  /** Every entry `p + s` becomes `p' + s`. */
  function Rekey(m: FlatMap, p: Path, p': Path): FlatMap {
    var suffixes := set q | q in Below(m, p) :: q[|p|..];
    (map q | q in m.Keys - Below(m, p) :: m[q])
    + (map q | q in (set s | s in suffixes :: p' + s) && p + q[|p'|..] in m :: m[p + q[|p'|..]])
  }

  function FlatWstat(m: FlatMap, p: Path, stat: Stat): Option<FlatMap> {
    if p !in m then None
    else if p == [] then Some(m[p := EditRootAttr(m[p], stat)])
    else if Renames(stat, Last(p)) then
      var p' := Pop(p) + [stat.name];
      if p' in m then None
      else Some(Rekey(m, p, p')[p' := EditAttr(m[p], stat).(name := stat.name)])
    else Some(m[p := EditAttr(m[p], stat)])
  }

  // ---------------------------------------------------------------- each operation refines its flat form

  /** What a stat shows after a creation at `p`. */
  ghost predicate MadeAs(t: Inode, p: Path, kind: Kind, now: U32, q: Path, r: Option<Attr>)
    requires p != []
  {
    if kind.Dir? && Lookup(t, p).Some? then r == At(t, q)
    else if q == p then r == Some(LeafAttr(Last(p), kind, now))
    else if p <= q then r == None
    else if q <= p && At(t, q).None? then q != [] && r == Some(FreshAttr(Last(q), DIR_MODE, now))
    else r == At(t, q)
  }

  lemma MakeAtLeaf(t: Inode, p: Path, kind: Kind, now: U32, q: Path)
    requires |p| == 1
    ensures MadeAs(t, p, kind, now, q, At(Make(t, p, kind, now), q))
  {
    var n := Make(t, p, kind, now);
    LookupOne(t, p);
    LookupOne(n, p);
    assert q <= p && q != [] ==> q == p;
    if p <= q {
      LookupBelow(n, p, q);
      LookupBelow(n, p, p);
      if kind.Dir? && Lookup(t, p).Some? {
      } else {
        assert n.children[p[0]] == Inode(LeafAttr(Last(p), kind, now), map[]);
        assert q != p ==> q[|p|..] != [];
      }
    }
  }

  lemma LookupOne(t: Inode, p: Path)
    requires |p| == 1
    ensures Lookup(t, p) == if p[0] in t.children then Some(t.children[p[0]]) else None
  {
    assert p[1..] == [];
  }

  lemma {:induction false} MakeAt(t: Inode, p: Path, kind: Kind, now: U32, q: Path)
    requires p != []
    ensures MadeAs(t, p, kind, now, q, At(Make(t, p, kind, now), q))
    decreases p
  {
    if |p| == 1 {
      MakeAtLeaf(t, p, kind, now, q);
    } else if q == [] || q[0] != p[0] {
      assert At(Make(t, p, kind, now), q) == At(t, q);
      assert !(p <= q) && (q <= p ==> q == []);
    } else {
      var child := WithDir(t, p[0], now).children[p[0]];
      MakeAt(child, p[1..], kind, now, q[1..]);
      assert At(Make(t, p, kind, now), q) == At(Make(child, p[1..], kind, now), q[1..]);
      MakeAtStep(t, p, kind, now, q, At(Make(child, p[1..], kind, now), q[1..]));
    }
  }

  lemma MakeAtStep(t: Inode, p: Path, kind: Kind, now: U32, q: Path, r: Option<Attr>)
    requires |p| > 1 && q != [] && q[0] == p[0]
    requires MadeAs(WithDir(t, p[0], now).children[p[0]], p[1..], kind, now, q[1..], r)
    ensures MadeAs(t, p, kind, now, q, r)
  {
    PrefixTails(p, q);
    PrefixTails(q, p);
    assert p == q <==> p[1..] == q[1..] by {
      assert p == [p[0]] + p[1..] && q == [q[0]] + q[1..];
    }
    assert q[1..] != [] ==> Last(q[1..]) == Last(q);
    if p[0] in t.children {
      assert Lookup(t, p) == Lookup(t.children[p[0]], p[1..]) && At(t, q) == At(t.children[p[0]], q[1..]);
    } else {
      MakeAtFreshStep(t, p, kind, now, q);
    }
  }

  /** Under a directory just made there was nothing before, and there is nothing yet. */
  lemma MakeAtFreshStep(t: Inode, p: Path, kind: Kind, now: U32, q: Path)
    requires |p| > 1 && q != [] && q[0] == p[0] && p[0] !in t.children
    ensures At(t, q) == None && Lookup(t, p) == None
    ensures var child := WithDir(t, p[0], now).children[p[0]];
            Lookup(child, p[1..]) == None &&
            At(child, q[1..]) == if |q| == 1 then Some(FreshAttr(Last(q), DIR_MODE, now)) else None
  {
  }

  lemma PrefixesContain(p: Path, q: Path)
    ensures q in Prefixes(p) <==> q != [] && q <= p
  {
    if q <= p { assert q == p[..|q|]; }
  }

  lemma MakeRefines(t: Inode, p: Path, kind: Kind, now: U32)
    ensures Flatten(Make(t, p, kind, now)) == FlatMake(Flatten(t), p, kind, now)
  {
    FlattenIsPrefixClosed(t);
    var m, t' := Flatten(t), Make(t, p, kind, now);
    if p != [] {
      forall q ensures Get(Flatten(t'), q) == Get(FlatMake(m, p, kind, now), q) {
        StatIsLookup(t, q);
        StatIsLookup(t, p);
        StatIsLookup(t', q);
        MakeAt(t, p, kind, now, q);
        PrefixesContain(p, q);
      }
      SameGetsSameMap(Flatten(t'), FlatMake(m, p, kind, now));
    }
  }

  lemma RemoveRefines(t: Inode, p: Path)
    ensures var r, f := Remove(t, p), FlatRemove(Flatten(t), p);
            if r.Some? then f == Some(Flatten(r.value)) else f.None?
  {
    var m := Flatten(t);
    StatIsLookup(t, p);
    if p != [] {
      LookupLast(t, p);
      if Lookup(t, p).Some? {
        var t' := Remove(t, p).value;
        forall q ensures Get(Flatten(t'), q) == Get(FlatRemove(m, p).value, q) {
          StatIsLookup(t, q);
          StatIsLookup(t', q);
          RemoveAt(t, p, q);
        }
        SameGetsSameMap(Flatten(t'), FlatRemove(m, p).value);
      }
    }
  }

  lemma RemoveAt(t: Inode, p: Path, q: Path)
    requires p != [] && Lookup(t, p).Some?
    ensures Remove(t, p).Some?
    ensures At(Remove(t, p).value, q) == if p <= q then None else At(t, q)
  {
    LookupLast(t, p);
    var parent := Lookup(t, Pop(p)).value;
    var sub := parent.(children := parent.children - {Last(p)});
    LookupReplaced(t, Pop(p), sub, q);
    if Pop(p) <= q {
      ChildOf(p, q);
      LookupBelow(t, Pop(p), q);
    }
  }

  /** Below the parent of `p`: either the parent itself, or under the child its next component names. */
  lemma ChildOf(p: Path, q: Path)
    requires p != [] && Pop(p) <= q
    ensures p <= q <==> |q| >= |p| && q[|p| - 1] == Last(p)
    ensures |q| >= |p| ==> q[|p| - 1..][0] == q[|p| - 1]
    ensures |q| >= |p| ==> q[|p| - 1..][1..] == q[|p|..]
  {
    assert p == Pop(p) + [Last(p)];
  }

  lemma LookupBelow(t: Inode, p: Path, q: Path)
    requires p <= q && Lookup(t, p).Some?
    ensures Lookup(t, q) == Lookup(Lookup(t, p).value, q[|p|..])
  {
    assert q == p + q[|p|..];
    LookupConcat(t, p, q[|p|..]);
  }

  lemma WriteRefines(t: Inode, p: Path, offset: nat, bytes: seq<Byte>, now: U32)
    ensures var r, f := Write(t, p, offset, bytes, now), FlatWrite(Flatten(t), p, offset, bytes, now);
            if r.Some? then f == Some(Flatten(r.value)) else f.None?
  {
    StatIsLookup(t, p);
    if p != [] && Lookup(t, p).Some? {
      var node := Lookup(t, p).value;
      var attr := WriteAttr(node.attr, offset, bytes, now);
      AttrChangeRefines(t, p, attr);
    }
  }

  /** Exchanging only the attributes of one node changes only its entry. */
  lemma AttrChangeRefines(t: Inode, p: Path, attr: Attr)
    requires Lookup(t, p).Some?
    ensures Flatten(ReplaceAt(t, p, Lookup(t, p).value.(attr := attr))) == Flatten(t)[p := attr]
  {
    var t' := ReplaceAt(t, p, Lookup(t, p).value.(attr := attr));
    var m := Flatten(t)[p := attr];
    forall q ensures Get(Flatten(t'), q) == Get(m, q) {
      StatIsLookup(t, q);
      StatIsLookup(t', q);
      AttrChangeAt(t, p, attr, q);
    }
    SameGetsSameMap(Flatten(t'), m);
  }

  lemma AttrChangeAt(t: Inode, p: Path, attr: Attr, q: Path)
    requires Lookup(t, p).Some?
    ensures At(ReplaceAt(t, p, Lookup(t, p).value.(attr := attr)), q) == if q == p then Some(attr) else At(t, q)
  {
    LookupReplaced(t, p, Lookup(t, p).value.(attr := attr), q);
    if p <= q {
      LookupBelow(t, p, q);
      if q != p {
        assert q[|p|..] != [];
      }
    }
  }

  lemma WstatRefines(t: Inode, p: Path, stat: Stat)
    ensures var r, f := Wstat(t, p, stat), FlatWstat(Flatten(t), p, stat);
            if r.Some? then f == Some(Flatten(r.value)) else f.None?
  {
    StatIsLookup(t, p);
    if p == [] {
      AttrChangeRefines(t, p, EditRootAttr(t.attr, stat));
    } else {
      LookupLast(t, p);
      if Lookup(t, p).Some? {
        var node := Lookup(t, p).value;
        var p' := Pop(p) + [stat.name];
        StatIsLookup(t, p');
        LookupLast(t, p');
        if Renames(stat, Last(p)) {
          if Lookup(t, p').None? {
            RenameRefines(t, p, stat);
          }
        } else {
          EditIsReplace(t, p, node.(attr := EditAttr(node.attr, stat)));
          AttrChangeRefines(t, p, EditAttr(node.attr, stat));
        }
      }
    }
  }

  /** Replacing a child in its parent's map replaces the node at the child's path. */
  lemma {:induction false} EditIsReplace(t: Inode, p: Path, sub: Inode)
    requires p != [] && Lookup(t, p).Some?
    ensures Lookup(t, Pop(p)).Some?
    ensures var parent := Lookup(t, Pop(p)).value;
            ReplaceAt(t, Pop(p), parent.(children := parent.children[Last(p) := sub])) == ReplaceAt(t, p, sub)
    decreases p
  {
    LookupLast(t, p);
    if |p| == 1 {
      assert Pop(p) == [];
      assert p[1..] == [];
    } else {
      EditIsReplace(t.children[p[0]], p[1..], sub);
      assert Pop(p)[1..] == Pop(p[1..]);
    }
  }

  /** What a stat shows after a rename. */
  lemma RenameAt(t: Inode, p: Path, stat: Stat, q: Path)
    requires p != [] && Lookup(t, p).Some? && Renames(stat, Last(p))
    requires Lookup(t, Pop(p) + [stat.name]).None?
    ensures Wstat(t, p, stat).Some?
    ensures var p' := Pop(p) + [stat.name];
            At(Wstat(t, p, stat).value, q) ==
            if q == p' then Some(EditAttr(Lookup(t, p).value.attr, stat).(name := stat.name))
            else if p' <= q then At(t, p + q[|p'|..])
            else if p <= q then None
            else At(t, q)
  {
    var p' := Pop(p) + [stat.name];
    assert Pop(p') == Pop(p) && Last(p') == stat.name;
    LookupLast(t, p);
    LookupLast(t, p');
    var parent := Lookup(t, Pop(p)).value;
    var node := parent.children[Last(p)];
    var renamed := node.(attr := EditAttr(node.attr, stat).(name := stat.name));
    assert Wstat(t, p, stat).value ==
           ReplaceAt(t, Pop(p), parent.(children := (parent.children - {Last(p)})[stat.name := renamed]));
    hide Wstat, EditAttr, ReplaceAt, Lookup, At;
    assert p == Pop(p) + [Last(p)];
    ExchangedAt(t, Pop(p), Last(p), stat.name, renamed, q);
    if p' <= q && q != p' {
      MovedAt(t, p, node, renamed.attr, q[|p'|..]);
    }
  }

  /** What is below a node stays where it is when only its fields change. */
  lemma MovedAt(t: Inode, p: Path, node: Inode, a: Attr, s: Path)
    requires Lookup(t, p) == Some(node) && s != []
    ensures At(node.(attr := a), s) == At(t, p + s)
  {
    LookupConcat(t, p, s);
  }

  /** A directory's child exchanged for one under a new name, seen from everywhere. */
  lemma ExchangedAt(t: Inode, front: Path, a: Str, b: Str, renamed: Inode, q: Path)
    requires Lookup(t, front).Some? && a != b
    requires a in Lookup(t, front).value.children && b !in Lookup(t, front).value.children
    ensures var parent := Lookup(t, front).value;
            var sub := parent.(children := (parent.children - {a})[b := renamed]);
            At(ReplaceAt(t, front, sub), q) ==
            if q == front + [b] then Some(renamed.attr)
            else if front + [b] <= q then At(renamed, q[|front| + 1..])
            else if front + [a] <= q then None
            else At(t, q)
  {
    var parent := Lookup(t, front).value;
    var sub := parent.(children := (parent.children - {a})[b := renamed]);
    LookupReplaced(t, front, sub, q);
    if front <= q {
      LookupBelow(t, front, q);
      hide ReplaceAt;
      BelowFront(front, a, q);
      BelowFront(front, b, q);
    }
  }

  lemma BelowFront(front: Path, a: Str, q: Path)
    requires front <= q
    ensures var r := q[|front|..];
            && (front + [a] <= q <==> r != [] && r[0] == a) && (q == front + [a] <==> r == [a])
            && (r != [] ==> r[1..] == q[|front| + 1..])
  {
    assert q == front + q[|front|..];
  }

  lemma RenameRefines(t: Inode, p: Path, stat: Stat)
    requires p != [] && Lookup(t, p).Some? && Renames(stat, Last(p))
    requires Lookup(t, Pop(p) + [stat.name]).None?
    ensures Wstat(t, p, stat).Some?
    ensures FlatWstat(Flatten(t), p, stat) == Some(Flatten(Wstat(t, p, stat).value))
  {
    var p' := Pop(p) + [stat.name];
    RenameAt(t, p, stat, []);
    StatIsLookup(t, p);
    StatIsLookup(t, p');
    var m, t' := Flatten(t), Wstat(t, p, stat).value;
    var n := FlatWstat(m, p, stat).value;
    forall q ensures Get(Flatten(t'), q) == Get(n, q) {
      RenameAt(t, p, stat, q);
      StatIsLookup(t', q);
      StatIsLookup(t, q);
      FlattenIsPrefixClosed(t);
      if p' <= q {
        StatIsLookup(t, p + q[|p'|..]);
      }
      RekeyGet(m, p, p', q);
    }
    SameGetsSameMap(Flatten(t'), n);
  }

  lemma RekeyGet(m: FlatMap, p: Path, p': Path, q: Path)
    requires PrefixClosed(m) && p' !in m && !(p <= p') && !(p' <= p)
    ensures Get(Rekey(m, p, p'), q) ==
            if p' <= q then Get(m, p + q[|p'|..])
            else if p <= q then None
            else Get(m, q)
  {
    var suffixes := set r | r in Below(m, p) :: r[|p|..];
    if p' <= q {
      var s := q[|p'|..];
      assert q == p' + s;
      if p + s in m {
        assert (p + s)[|p|..] == s;
        assert p + s in Below(m, p);
        assert s in suffixes;
      }
      if q in m { PrefixClosedAll(m, p', q); }
    }
  }

  // ---------------------------------------------------------------- runs

  datatype FsOp =
    | CreateFile(path: Path, data: seq<Byte>, now: U32)
    | CreateDir(path: Path, now: U32)
    | WriteOp(path: Path, offset: U64, bytes: seq<Byte>, now: U32)
    | RemoveOp(path: Path)
    | WstatOp(path: Path, stat: Stat)

  function Or<T>(o: Option<T>, default: T): T {
    match o case Some(x) => x case None => default
  }

  /** One operation; a refused one leaves the tree alone. */
  function Apply(t: Inode, op: FsOp): Inode {
    match op
    case CreateFile(p, data, now) => Make(t, p, File(data), now)
    case CreateDir(p, now) => Make(t, p, Dir, now)
    case WriteOp(p, offset, bytes, now) => Or(Write(t, p, offset, bytes, now), t)
    case RemoveOp(p) => Or(Remove(t, p), t)
    case WstatOp(p, stat) => Or(Wstat(t, p, stat), t)
  }

  function FlatApply(m: FlatMap, op: FsOp): FlatMap {
    match op
    case CreateFile(p, data, now) => FlatMake(m, p, File(data), now)
    case CreateDir(p, now) => FlatMake(m, p, Dir, now)
    case WriteOp(p, offset, bytes, now) => Or(FlatWrite(m, p, offset, bytes, now), m)
    case RemoveOp(p) => Or(FlatRemove(m, p), m)
    case WstatOp(p, stat) => Or(FlatWstat(m, p, stat), m)
  }

  function Run(t: Inode, ops: seq<FsOp>): Inode
    decreases ops
  {
    if ops == [] then t else Run(Apply(t, ops[0]), ops[1..])
  }

  function FlatRun(m: FlatMap, ops: seq<FsOp>): FlatMap
    decreases ops
  {
    if ops == [] then m else FlatRun(FlatApply(m, ops[0]), ops[1..])
  }

  lemma ApplyRefines(t: Inode, op: FsOp)
    ensures Flatten(Apply(t, op)) == FlatApply(Flatten(t), op)
  {
    match op
    case CreateFile(p, data, now) => MakeRefines(t, p, File(data), now);
    case CreateDir(p, now) => MakeRefines(t, p, Dir, now);
    case WriteOp(p, offset, bytes, now) => WriteRefines(t, p, offset, bytes, now);
    case RemoveOp(p) => RemoveRefines(t, p);
    case WstatOp(p, stat) => WstatRefines(t, p, stat);
  }

  /** After any sequence of operations, a stat of any component list is a lookup in the prefix-closed map
      that ran the same operations. */
  lemma {:induction false} RunRefines(t: Inode, ops: seq<FsOp>, q: Path)
    ensures Flatten(Run(t, ops)) == FlatRun(Flatten(t), ops)
    ensures PrefixClosed(FlatRun(Flatten(t), ops))
    ensures At(Run(t, ops), q) == Get(FlatRun(Flatten(t), ops), q)
    decreases ops
  {
    if ops == [] {
      FlattenIsPrefixClosed(t);
      StatIsLookup(t, q);
    } else {
      ApplyRefines(t, ops[0]);
      RunRefines(Apply(t, ops[0]), ops[1..], q);
    }
  }
}
