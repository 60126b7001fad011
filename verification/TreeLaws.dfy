/** What spans several tree operations: the invariant they keep, moving a subtree, undoing, counting nodes. */
module TreeLaws {
  import opened Bytes
  import opened Paths
  import opened Stats
  import opened Tree
  import opened Flat

  // ---------------------------------------------------------------- the invariant

  /** Strings that a 9P string field can carry. */
  predicate AttrOk(a: Attr) {
    WireName(a.name) && WireName(a.uid) && WireName(a.gid)
  }

  predicate NodeOk(q: Path, a: Attr) {
    AttrOk(a) && if q == [] then a.name == ROOT else Last(q) != [] && a.name == Last(q)
  }

  /** The root is named "/", every other node's map key is its name and is not empty, and every string fits the wire. */
  ghost predicate TreeOk(t: Inode) {
    forall q :: At(t, q).Some? ==> NodeOk(q, At(t, q).value)
  }

  predicate StatOk(s: Stat) {
    WireName(s.name) && WireName(s.uid) && WireName(s.gid) && WireName(s.muid)
  }

  predicate PathOk(p: Path) {
    forall c :: c in p ==> c != [] && WireName(c)
  }

  lemma DefaultsFit()
    ensures WireName(USER) && WireName(GROUP) && WireName(ROOT)
  {
    hide Utf8.ValidUtf8;
    Utf8.TextIsValid("user");
    Utf8.TextIsValid("group");
    Utf8.AsciiIsValid(ROOT);
  }

  lemma NewRootIsOk(now: U32)
    ensures TreeOk(NewRoot(now))
  {
    DefaultsFit();
  }

  lemma PrefixIsOk(p: Path, q: Path)
    requires PathOk(p) && q != [] && q <= p
    ensures Last(q) != [] && WireName(Last(q))
  {
    assert Last(q) == p[|q| - 1] && p[|q| - 1] in p;
  }

  lemma MakeKeepsOk(t: Inode, p: Path, kind: Kind, now: U32)
    requires TreeOk(t) && PathOk(p)
    ensures TreeOk(Make(t, p, kind, now))
  {
    DefaultsFit();
    if p != [] {
      forall q | At(Make(t, p, kind, now), q).Some?
        ensures NodeOk(q, At(Make(t, p, kind, now), q).value)
      {
        MakeAt(t, p, kind, now, q);
        if q != [] && q <= p { PrefixIsOk(p, q); }
      }
    }
  }

  lemma RemoveKeepsOk(t: Inode, p: Path)
    requires TreeOk(t) && Remove(t, p).Some?
    ensures TreeOk(Remove(t, p).value)
  {
    LookupLast(t, p);
    forall q | At(Remove(t, p).value, q).Some?
      ensures NodeOk(q, At(Remove(t, p).value, q).value)
    {
      RemoveAt(t, p, q);
    }
  }

  lemma AttrChangeKeepsOk(t: Inode, p: Path, a: Attr)
    requires TreeOk(t) && Lookup(t, p).Some? && NodeOk(p, a)
    ensures TreeOk(ReplaceAt(t, p, Lookup(t, p).value.(attr := a)))
  {
    var t' := ReplaceAt(t, p, Lookup(t, p).value.(attr := a));
    forall q | At(t', q).Some?
      ensures NodeOk(q, At(t', q).value)
    {
      AttrChangeAt(t, p, a, q);
    }
  }

  lemma WriteKeepsOk(t: Inode, p: Path, offset: nat, bytes: seq<Byte>, now: U32)
    requires TreeOk(t) && Write(t, p, offset, bytes, now).Some?
    ensures TreeOk(Write(t, p, offset, bytes, now).value)
  {
    var node := Lookup(t, p).value;
    assert NodeOk(p, At(t, p).value);
    AttrChangeKeepsOk(t, p, WriteAttr(node.attr, offset, bytes, now));
  }

  lemma WstatKeepsOk(t: Inode, p: Path, stat: Stat)
    requires TreeOk(t) && StatOk(stat) && Wstat(t, p, stat).Some?
    ensures TreeOk(Wstat(t, p, stat).value)
  {
    WstatOutcome(t, p, stat);
    var node := Lookup(t, p).value;
    assert NodeOk(p, At(t, p).value);
    if p == [] {
      AttrChangeKeepsOk(t, p, EditRootAttr(t.attr, stat));
    } else if Renames(stat, Last(p)) {
      forall q | At(Wstat(t, p, stat).value, q).Some?
        ensures NodeOk(q, At(Wstat(t, p, stat).value, q).value)
      {
        RenameAt(t, p, stat, q);
        RenamedIsOk(t, p, stat, q);
      }
    } else {
      EditIsReplace(t, p, node.(attr := EditAttr(node.attr, stat)));
      LookupLast(t, p);
      AttrChangeKeepsOk(t, p, EditAttr(node.attr, stat));
    }
  }

  lemma RenamedIsOk(t: Inode, p: Path, stat: Stat, q: Path)
    requires TreeOk(t) && StatOk(stat) && p != [] && Lookup(t, p).Some? && Renames(stat, Last(p))
    ensures var p' := Pop(p) + [stat.name];
            NodeOk(p', EditAttr(Lookup(t, p).value.attr, stat).(name := stat.name)) &&
            (p' <= q && q != p' && At(t, p + q[|p'|..]).Some? ==> NodeOk(q, At(t, p + q[|p'|..]).value))
  {
    assert NodeOk(p, At(t, p).value);
    var p' := Pop(p) + [stat.name];
    if p' <= q && q != p' {
      var r := p + q[|p'|..];
      assert Last(r) == Last(q);
    }
  }

  // ---------------------------------------------------------------- rename

  /** Exactly when a Twstat is refused: the file is not there, or the new name is taken. The root never is. */
  lemma WstatOutcome(t: Inode, p: Path, stat: Stat)
    ensures Wstat(t, p, stat).None? <==>
            p != [] && (Lookup(t, p).None? ||
                        (Renames(stat, Last(p)) && Lookup(t, Pop(p) + [stat.name]).Some?))
  {
    if p != [] {
      LookupLast(t, p);
      LookupLast(t, Pop(p) + [stat.name]);
      assert Pop(Pop(p) + [stat.name]) == Pop(p);
    }
  }

  /** A rename moves the whole subtree: every `p + s` is found, unchanged, at `p' + s`; only the top node's
      Twstat fields differ, nothing is left behind, and every path apart from these two keeps its node. */
  lemma RenameMovesSubtree(t: Inode, p: Path, stat: Stat, s: Path, q: Path)
    requires p != [] && Renames(stat, Last(p)) && Wstat(t, p, stat).Some?
    ensures var t', p' := Wstat(t, p, stat).value, Pop(p) + [stat.name];
            && Lookup(t, p).Some? && Lookup(t, p').None?
            && Lookup(t', p') == Some(Inode(EditAttr(Lookup(t, p).value.attr, stat).(name := stat.name),
                                            Lookup(t, p).value.children))
            && (s != [] ==> Lookup(t', p' + s) == Lookup(t, p + s))
            && Lookup(t', p + s) == None
            && (!(p <= q) && !(p' <= q) ==> At(t', q) == At(t, q))
            && (!(p <= q) && !(p' <= q) && !(q <= Pop(p)) ==> Lookup(t', q) == Lookup(t, q))
  {
    WstatOutcome(t, p, stat);
    var t', p' := Wstat(t, p, stat).value, Pop(p) + [stat.name];
    RenamedAsReplace(t, p, stat);
    var node := Lookup(t, p).value;
    var renamed := Inode(EditAttr(node.attr, stat).(name := stat.name), node.children);
    LookupConcat(t', p', s);
    LookupConcat(t, p, s);
    LookupConcat(t', p, s);
    if s != [] {
      assert Lookup(renamed, s) == Lookup(node, s);
    }
    RenameAt(t, p, stat, p + s);
    RenameAt(t, p, stat, q);
    if !(p <= q) && !(p' <= q) && !(q <= Pop(p)) {
      RenamedApart(t, p, stat, q);
    }
  }

  lemma RenamedAsReplace(t: Inode, p: Path, stat: Stat)
    requires p != [] && Renames(stat, Last(p)) && Wstat(t, p, stat).Some?
    ensures Lookup(t, Pop(p)).Some? && Lookup(t, p).Some? && Lookup(t, Pop(p) + [stat.name]).None?
    ensures var parent, node := Lookup(t, Pop(p)).value, Lookup(t, p).value;
            var renamed := Inode(EditAttr(node.attr, stat).(name := stat.name), node.children);
            var sub := parent.(children := (parent.children - {Last(p)})[stat.name := renamed]);
            Last(p) in parent.children && stat.name !in parent.children && parent.children[Last(p)] == node &&
            Wstat(t, p, stat).value == ReplaceAt(t, Pop(p), sub) &&
            Lookup(Wstat(t, p, stat).value, Pop(p)) == Some(sub) &&
            Lookup(Wstat(t, p, stat).value, Pop(p) + [stat.name]) == Some(renamed)
  {
    WstatOutcome(t, p, stat);
    LookupLast(t, p);
    var p' := Pop(p) + [stat.name];
    assert Pop(p') == Pop(p) && Last(p') == stat.name;
    LookupLast(t, p');
    LookupLast(Wstat(t, p, stat).value, p');
    var parent, node := Lookup(t, Pop(p)).value, Lookup(t, p).value;
    var renamed := Inode(EditAttr(node.attr, stat).(name := stat.name), node.children);
    var sub := parent.(children := (parent.children - {Last(p)})[stat.name := renamed]);
    LookupReplaced(t, Pop(p), sub, Pop(p));
    assert Pop(p)[|Pop(p)|..] == [];
  }

  lemma RenamedApart(t: Inode, p: Path, stat: Stat, q: Path)
    requires p != [] && Renames(stat, Last(p)) && Wstat(t, p, stat).Some?
    requires !(p <= q) && !(Pop(p) + [stat.name] <= q) && !(q <= Pop(p))
    ensures Lookup(Wstat(t, p, stat).value, q) == Lookup(t, q)
  {
    hide Wstat, ReplaceAt, EditAttr, Lookup;
    RenamedAsReplace(t, p, stat);
    assert p == Pop(p) + [Last(p)];
    ReplacedApart(t, Pop(p), Lookup(Wstat(t, p, stat).value, Pop(p)).value, Last(p), stat.name, q);
  }

  /** The two nodes have the same children under every name but `a` and `b`. */
  ghost predicate SameBut(t: Inode, u: Inode, a: Str, b: Str) {
    forall n: Str :: n != a && n != b ==>
      (n in t.children <==> n in u.children) && (n in t.children ==> t.children[n] == u.children[n])
  }

  /** A node exchanged for one with other children under `a` and `b` only: every path apart from these two, below the
      node or beside it, keeps what it names. */
  lemma ReplacedApart(t: Inode, front: Path, sub: Inode, a: Str, b: Str, q: Path)
    requires Lookup(t, front).Some? && SameBut(sub, Lookup(t, front).value, a, b)
    requires !(front + [a] <= q) && !(front + [b] <= q) && !(q <= front)
    ensures Lookup(ReplaceAt(t, front, sub), q) == Lookup(t, q)
  {
    hide ReplaceAt, Lookup;
    LookupReplaced(t, front, sub, q);
    if front <= q {
      LookupBelow(t, front, q);
      var r := q[|front|..];
      assert q == front + r && r[0] != a && r[0] != b;
      SameChild(sub, Lookup(t, front).value, r);
    }
  }

  /** Two nodes with the same child under one name show the same below it. */
  lemma SameChild(t: Inode, u: Inode, r: Path)
    requires r != [] && (r[0] in t.children <==> r[0] in u.children)
    requires r[0] in t.children ==> t.children[r[0]] == u.children[r[0]]
    ensures Lookup(t, r) == Lookup(u, r)
  {
  }

  lemma {:induction false} ReplaceTwice(t: Inode, p: Path, a: Inode, b: Inode)
    requires Lookup(t, p).Some?
    ensures Lookup(ReplaceAt(t, p, a), p) == Some(a)
    ensures ReplaceAt(ReplaceAt(t, p, a), p, b) == ReplaceAt(t, p, b)
    ensures Lookup(t, p) == Some(a) ==> ReplaceAt(t, p, a) == t
    decreases p
  {
    if p != [] {
      ReplaceTwice(t.children[p[0]], p[1..], a, b);
    }
  }

  /** A Twstat that leaves every field but the name alone. */
  predicate OnlyRenames(stat: Stat) {
    stat.mode == KEEP32 && stat.mtime == KEEP32 && stat.length == KEEP64 && stat.gid == []
  }

  /** Renaming there and back restores the exact tree. */
  lemma RenameUndone(t: Inode, p: Path, there: Stat, back: Stat)
    requires TreeOk(t) && p != [] && OnlyRenames(there) && OnlyRenames(back)
    requires Renames(there, Last(p)) && back.name == Last(p)
    requires Wstat(t, p, there).Some?
    ensures Wstat(Wstat(t, p, there).value, Pop(p) + [there.name], back) == Some(t)
  {
    RenamedAsReplace(t, p, there);
    var t', p' := Wstat(t, p, there).value, Pop(p) + [there.name];
    var parent, node := Lookup(t, Pop(p)).value, Lookup(t, p).value;
    assert NodeOk(p, At(t, p).value);
    assert Pop(p') == Pop(p) && Last(p') == there.name;
    LookupLast(t', p');
    var sub := Lookup(t', Pop(p)).value;
    assert Renames(back, Last(p'));
    assert back.name !in sub.children;
    assert (sub.children - {there.name})[back.name := node] == parent.children;
    ReplaceTwice(t, Pop(p), sub, parent);
    ReplaceTwice(t, Pop(p), parent, parent);
  }

  /** Creating under an existing parent and removing again restores the exact tree. */
  lemma CreateUndone(t: Inode, p: Path, kind: Kind, now: U32)
    requires p != [] && Lookup(t, Pop(p)).Some? && Lookup(t, p).None?
    ensures Remove(Make(t, p, kind, now), p) == Some(t)
  {
    MakeIsReplace(t, p, kind, now);
    LookupLast(t, p);
    var parent := Lookup(t, Pop(p)).value;
    var leaf := WithLeaf(parent, Last(p), kind, now);
    ReplaceTwice(t, Pop(p), leaf, parent);
    ReplaceTwice(t, Pop(p), parent, parent);
    assert leaf.children - {Last(p)} == parent.children;
  }

  lemma {:induction false} MakeIsReplace(t: Inode, p: Path, kind: Kind, now: U32)
    requires p != [] && Lookup(t, Pop(p)).Some?
    ensures Make(t, p, kind, now) == ReplaceAt(t, Pop(p), WithLeaf(Lookup(t, Pop(p)).value, Last(p), kind, now))
    decreases p
  {
    if |p| == 1 {
      assert Pop(p) == [];
    } else {
      assert Pop(p)[1..] == Pop(p[1..]) && Pop(p)[0] == p[0];
      MakeIsReplace(t.children[p[0]], p[1..], kind, now);
    }
  }

  // ---------------------------------------------------------------- counting nodes

  function NodeCount(t: Inode): nat { |Flatten(t)| }

  /** How many components of `p` name nothing yet. */
  function Missing(t: Inode, p: Path): nat
    decreases p
  {
    if p == [] then 0
    else if p[0] in t.children then Missing(t.children[p[0]], p[1..])
    else |p|
  }

  lemma {:induction false} ImageSize(s: set<Path>, p: Path)
    ensures |set q | q in s :: p + q| == |s|
  {
    if s != {} {
      var x :| x in s;
      ImageSize(s - {x}, p);
      forall q | q in s && p + q == p + x ensures q == x {
        assert (p + q)[|p|..] == q && (p + x)[|p|..] == x;
      }
      assert (set q | q in s :: p + q) == (set q | q in s - {x} :: p + q) + {p + x};
    }
  }

  function PrefixRange(p: Path, lo: nat, hi: nat): set<Path>
    requires hi <= |p|
  {
    set i | lo < i <= hi :: p[..i]
  }

  lemma {:induction false} PrefixRangeSize(p: Path, lo: nat, hi: nat)
    requires lo <= hi <= |p|
    ensures |PrefixRange(p, lo, hi)| == hi - lo
    decreases hi
  {
    if lo < hi {
      PrefixRangeSize(p, lo, hi - 1);
      assert forall q :: q in PrefixRange(p, lo, hi - 1) ==> |q| < |p[..hi]|;
      assert PrefixRange(p, lo, hi) == PrefixRange(p, lo, hi - 1) + {p[..hi]};
    } else {
      assert PrefixRange(p, lo, hi) == {};
    }
  }

  lemma {:induction false} MissingIsSuffix(t: Inode, p: Path, i: nat)
    requires i <= |p|
    ensures Missing(t, p) <= |p|
    ensures Lookup(t, p[..i]).None? <==> |p| - Missing(t, p) < i
    decreases p
  {
    if p != [] && i > 0 {
      assert p[..i][1..] == p[1..][..i - 1];
      if p[0] in t.children {
        MissingIsSuffix(t.children[p[0]], p[1..], i - 1);
      }
    } else if p != [] && p[0] in t.children {
      MissingIsSuffix(t.children[p[0]], p[1..], 0);
    }
  }

  /** A creation where nothing was adds exactly the missing components. */
  lemma MakeCounts(t: Inode, p: Path, kind: Kind, now: U32)
    requires p != [] && Lookup(t, p).None?
    ensures NodeCount(Make(t, p, kind, now)) == NodeCount(t) + Missing(t, p)
    ensures Missing(t, p) > 0
  {
    var m := Flatten(t);
    MissingIsSuffix(t, p, |p|);
    assert p[..|p|] == p;
    var lo := |p| - Missing(t, p);
    MakeRefines(t, p, kind, now);
    FlattenIsPrefixClosed(t);
    StatIsLookup(t, p);
    PrefixRangeSize(p, lo, |p|);
    forall q ensures q in PrefixRange(p, lo, |p|) <==> q in Prefixes(p) && q !in m {
      PrefixesContain(p, q);
      if q <= p {
        assert q == p[..|q|];
        MissingIsSuffix(t, p, |q|);
        StatIsLookup(t, q);
      }
    }
    MadeKeys(m, p, kind, now, PrefixRange(p, lo, |p|));
  }

  lemma MadeKeys(m: FlatMap, p: Path, kind: Kind, now: U32, added: set<Path>)
    requires PrefixClosed(m) && p != [] && p !in m
    requires forall q :: q in added <==> q in Prefixes(p) && q !in m
    ensures |FlatMake(m, p, kind, now)| == |m| + |added|
  {
    forall q | q in m ensures !(p <= q) {
      if p <= q { PrefixClosedAll(m, p, q); }
    }
    var m' := FlatMake(m, p, kind, now);
    assert m'.Keys == m.Keys + added;
    assert m.Keys !! added;
  }

  lemma BelowMember(t: Inode, p: Path, q: Path)
    requires Lookup(t, p).Some?
    ensures q in Below(Flatten(t), p) <==> p <= q && q[|p|..] in Flatten(Lookup(t, p).value)
  {
    if p <= q {
      LookupBelow(t, p, q);
      StatIsLookup(t, q);
      StatIsLookup(Lookup(t, p).value, q[|p|..]);
    }
  }

  /** The entries at or below `p` are as many as the nodes of the subtree there. */
  lemma BelowCounts(t: Inode, p: Path)
    requires Lookup(t, p).Some?
    ensures |Below(Flatten(t), p)| == NodeCount(Lookup(t, p).value)
  {
    var keys := Flatten(Lookup(t, p).value).Keys;
    ImageSize(keys, p);
    forall q ensures q in Below(Flatten(t), p) <==> p <= q && q[|p|..] in keys {
      BelowMember(t, p, q);
    }
    ImageIs(keys, p, Below(Flatten(t), p));
  }

  lemma ImageIs(s: set<Path>, p: Path, image: set<Path>)
    requires forall q :: q in image <==> p <= q && q[|p|..] in s
    ensures (set q | q in s :: p + q) == image
  {
    forall q | q in image ensures q in (set r | r in s :: p + r) {
      assert q == p + q[|p|..];
    }
    forall r | r in s ensures p + r in image {
      assert (p + r)[|p|..] == r;
    }
  }

  lemma RemoveCounts(t: Inode, p: Path)
    requires Remove(t, p).Some?
    ensures Lookup(t, p).Some?
    ensures NodeCount(Remove(t, p).value) == NodeCount(t) - NodeCount(Lookup(t, p).value)
  {
    LookupLast(t, p);
    RemoveRefines(t, p);
    BelowCounts(t, p);
    var m := Flatten(t);
    assert FlatRemove(m, p).value.Keys == m.Keys - Below(m, p);
  }

  lemma WriteCounts(t: Inode, p: Path, offset: nat, bytes: seq<Byte>, now: U32)
    requires Write(t, p, offset, bytes, now).Some?
    ensures NodeCount(Write(t, p, offset, bytes, now).value) == NodeCount(t)
  {
    WriteRefines(t, p, offset, bytes, now);
    var m := Flatten(t);
    assert FlatWrite(m, p, offset, bytes, now).value.Keys == m.Keys;
  }

  lemma WstatCounts(t: Inode, p: Path, stat: Stat)
    requires Wstat(t, p, stat).Some?
    ensures NodeCount(Wstat(t, p, stat).value) == NodeCount(t)
  {
    WstatRefines(t, p, stat);
    var m := Flatten(t);
    if p != [] && Renames(stat, Last(p)) {
      FlattenIsPrefixClosed(t);
      RekeyCounts(m, p, Pop(p) + [stat.name]);
    } else {
      assert FlatWstat(m, p, stat).value.Keys == m.Keys;
    }
  }

  lemma RekeyCounts(m: FlatMap, p: Path, p': Path)
    requires PrefixClosed(m) && p in m && p' !in m
    ensures p' in Rekey(m, p, p')
    ensures |Rekey(m, p, p')| == |m|
  {
    TopIsMoved(m, p, p');
    hide Rekey, Below, PrefixClosed;
    var below, moved := BelowMoves(m, p, p');
    SwapSize(m.Keys, below, moved);
  }

  lemma TopIsMoved(m: FlatMap, p: Path, p': Path)
    requires p in m
    ensures p' in Rekey(m, p, p')
  {
    assert p in Below(m, p) && p[|p|..] == [];
    assert p' + [] == p' && p'[|p'|..] == [] && p + [] == p;
  }

  /** The keys at or below `p`, and as many new ones in their place. */
  lemma BelowMoves(m: FlatMap, p: Path, p': Path) returns (below: set<Path>, moved: set<Path>)
    requires PrefixClosed(m) && p' !in m
    ensures below <= m.Keys && |below| == |moved| && forall q :: q in moved ==> q !in m
    ensures Rekey(m, p, p').Keys == (m.Keys - below) + moved
  {
    below := Below(m, p);
    var suffixes := set q | q in below :: q[|p|..];
    moved := set s | s in suffixes :: p' + s;
    SuffixesOf(m, p, suffixes);
    MovedKeys(m, p, p', suffixes, moved);
    ImageSize(suffixes, p');
    ImageSize(suffixes, p);
    ImageIs(suffixes, p, below);
  }

  lemma SwapSize<T>(keys: set<T>, gone: set<T>, added: set<T>)
    requires gone <= keys && |gone| == |added| && forall x :: x in added ==> x !in keys
    ensures |(keys - gone) + added| == |keys|
  {
    assert (keys - gone) !! added;
  }

  lemma MovedKeys(m: FlatMap, p: Path, p': Path, suffixes: set<Path>, moved: set<Path>)
    requires PrefixClosed(m) && p' !in m
    requires suffixes == set q | q in Below(m, p) :: q[|p|..]
    requires moved == set s | s in suffixes :: p' + s
    requires forall s :: s in suffixes ==> p + s in m
    ensures forall q :: q in moved ==> q !in m
    ensures Rekey(m, p, p').Keys == (m.Keys - Below(m, p)) + moved
  {
    forall q | q in moved ensures p' <= q && p + q[|p'|..] in m && q !in m {
      var s :| s in suffixes && q == p' + s;
      assert q[|p'|..] == s;
      if q in m { PrefixClosedAll(m, p', q); }
    }
  }

  lemma SuffixesOf(m: FlatMap, p: Path, suffixes: set<Path>)
    requires suffixes == set q | q in Below(m, p) :: q[|p|..]
    ensures forall s :: s in suffixes ==> p + s in m
    ensures forall q :: q in Below(m, p) <==> p <= q && q[|p|..] in suffixes
  {
    forall s | s in suffixes ensures p + s in m {
      var q :| q in Below(m, p) && s == q[|p|..];
      assert q == p + s;
    }
    forall q | p <= q && q[|p|..] in suffixes ensures q in Below(m, p) {
      assert q == p + q[|p|..];
    }
  }

  /** A path that can be followed to its end can be followed part of the way. */
  lemma LookupPrefixes(t: Inode, p: Path)
    ensures Lookup(t, p).Some? ==> forall i :: 0 <= i <= |p| ==> Lookup(t, p[..i]).Some?
  {
    if Lookup(t, p).Some? {
      forall i | 0 <= i <= |p| ensures Lookup(t, p[..i]).Some? {
        LookupPrefix(t, p[..i], p);
      }
    }
  }
}
