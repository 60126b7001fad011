/** Directories and whole files as the server sends them in chunks, and exactly when a listing is right
    (libs/planten_fs_ramfs/src/server.rs:359-426, libs/planten_fs_ramfs/src/lib.rs:101-114). */
module Listing {
  import opened Bytes
  import opened Utf8
  import opened Paths
  import opened Stats
  import opened Tree
  import opened TreeLaws
  import opened Codec
  import opened Messages
  import opened Sorting
  import opened Server
  import opened Draining

  // ---------------------------------------------------------------- what is sent, and what should be

  /** The path the server gives a child of the directory at `path`. */
  function ChildPath(path: Str, name: Str): Str {
    match ResolveStep(path, name) case None => path case Some(child) => child
  }

  function ChildStat(h: Hasher, node: Inode, path: Str, name: Str): Stat
    requires name in node.children
  {
    StatOf(h, ChildPath(path, name), node.children[name].attr)
  }

  /** The stats of the named children. */
  function ChildStats(h: Hasher, node: Inode, path: Str, names: seq<Str>): seq<Stat>
    requires forall i :: 0 <= i < |names| ==> names[i] in node.children
  {
    seq(|names|, i requires 0 <= i < |names| => ChildStat(h, node, path, names[i]))
  }

  /** The stats of all children of the node at `path`, in name order: what a listing should show. */
  function ListingOf(h: Hasher, tree: Inode, path: Str): seq<Stat> {
    match Find(tree, path)
    case None => []
    case Some(node) => ChildStats(h, node, path, Sorted(node.children.Keys))
  }

  /** What is sent for an entry: the stat of whatever its path string leads to. */
  function SentFor(h: Hasher, t: Inode, path: Str, name: Str): Option<Stat> {
    match ResolveStep(path, name)
    case None => None
    case Some(child) =>
      match Find(t, child) case None => None case Some(n) => Some(StatOf(h, child, n.attr))
  }

  function SentStats(h: Hasher, t: Inode, path: Str, names: seq<Str>): seq<Stat> {
    if names == [] then []
    else
      match SentFor(h, t, path, names[0])
      case None => SentStats(h, t, path, names[1..])
      case Some(s) => [s] + SentStats(h, t, path, names[1..])
  }

  lemma EncodeStatsCons(s: Stat, ss: seq<Stat>)
    ensures EncodeStats([s] + ss) == EncodeStat(s) + EncodeStats(ss)
  {
    assert ([s] + ss)[1..] == ss;
  }

  lemma {:induction false} DirBytesAreSent(h: Hasher, t: Inode, path: Str, names: seq<Str>)
    ensures DirBytes(h, t, path, names) == EncodeStats(SentStats(h, t, path, names))
    decreases names
  {
    hide ResolveStep, Find, EncodeStat, StatOf, EncodeStats;
    if names == [] {
      assert EncodeStats([]) == [] by { NothingIsNothing(); }
    } else {
      DirBytesAreSent(h, t, path, names[1..]);
      match SentFor(h, t, path, names[0])
      case None => assert [] + DirBytes(h, t, path, names[1..]) == DirBytes(h, t, path, names[1..]);
      case Some(s) => EncodeStatsCons(s, SentStats(h, t, path, names[1..]));
    }
  }

  lemma NothingIsNothing()
    ensures EncodeStats([]) == []
  {
  }

  /** A directory is read as the stats sent for its entries. */
  lemma SourceIsSent(h: Hasher, t: Inode, path: Str)
    requires Find(t, path).Some? && IsDirMode(Find(t, path).value.attr.mode)
    ensures var names := Sorted(Find(t, path).value.children.Keys);
            SourceOf(h, t, path) == Data(EncodeStats(SentStats(h, t, path, names)))
  {
    hide Find, DirBytes, EncodeStats, SentStats, Sorted;
    DirBytesAreSent(h, t, path, Sorted(Find(t, path).value.children.Keys));
  }

  // ---------------------------------------------------------------- entry by entry

  /** What a path string leads to is named by its last component, or is the root: so the stat sent for an entry never
      has a name with a slash other than "/", and all its strings fit the wire. */
  lemma SentIsNamed(h: Hasher, t: Inode, path: Str, name: Str)
    requires TreeOk(t) && SentFor(h, t, path, name).Some?
    ensures var s := SentFor(h, t, path, name).value; StatIsWired(s) && (SlashFree(s.name) || s.name == ROOT)
  {
    var child := ResolveStep(path, name).value;
    var p := Components(child);
    assert NodeOk(p, At(t, p).value);
    ComponentsAreNameable(child);
    hide ResolveStep, Components, QidOf, ValidUtf8;
    if p != [] { assert Last(p) in p; }
  }

  /** For an ordinary name the child itself is sent. */
  lemma SentIsChild(h: Hasher, t: Inode, path: Str, name: Str)
    requires Find(t, path).Some? && Ordinary(name) && name in Find(t, path).value.children
    ensures SentFor(h, t, path, name) == Some(ChildStat(h, Find(t, path).value, path, name))
  {
    hide ResolveStep, Components, StatOf;
    ResolveStepRefines(path, name);
    ComponentsOfName(name);
    assert SLASH in ROOT;
    LookupConcat(t, Components(path), [name]);
  }

  /** For ".", ".." and "/" the directory itself, its parent (the root for the root) and the root are sent. */
  lemma SentForSpecials(h: Hasher, t: Inode, path: Str)
    requires Find(t, path).Some?
    ensures SentFor(h, t, path, DOT) == Some(StatOf(h, path, Find(t, path).value.attr))
    ensures var up := Pop(Components(path));
            && Lookup(t, up).Some?
            && SentFor(h, t, path, DOTDOT) == Some(StatOf(h, ChildPath(path, DOTDOT), Lookup(t, up).value.attr))
    ensures SentFor(h, t, path, ROOT) == Some(StatOf(h, ROOT, t.attr))
  {
    var p := Components(path);
    ResolveStepRefines(path, DOTDOT);
    ComponentsOfRoot();
    LookupPrefix(t, Pop(p), p);
    hide Components, StatOf;
    assert ResolveStep(path, DOT) == Some(path) && ResolveStep(path, ROOT) == Some(ROOT);
    hide ResolveStep;
  }

  /** The child is what its own entry shows: always for an ordinary name, never for a name with a slash, and for ".",
      ".." and "/" only if it looks like the node that is sent for them. */
  predicate ShowsItself(h: Hasher, t: Inode, path: Str, node: Inode, name: Str)
    requires name in node.children
  {
    Ordinary(name)
    || ((name == DOT || name == DOTDOT || name == ROOT)
        && SentFor(h, t, path, name) == Some(ChildStat(h, node, path, name)))
  }

  /** All that a stat shows but the name and the qid, which the path, the mode and the mtime decide. */
  predicate LooksLike(a: Attr, b: Attr) {
    && a.mode == b.mode && a.uid == b.uid && a.gid == b.gid && a.atime == b.atime && a.mtime == b.mtime
    && |a.data| % 0x1_0000_0000_0000_0000 == |b.data| % 0x1_0000_0000_0000_0000
  }

  lemma SameStat(h: Hasher, path: Str, a: Attr, b: Attr)
    ensures StatOf(h, path, a) == StatOf(h, path, b) <==> a.name == b.name && LooksLike(a, b)
  {
  }

  /** The node that stands for ".", ".." or "/": the directory, its parent, the root. */
  function StandIn(t: Inode, path: Str, name: Str): Option<Inode> {
    if name == DOT then Find(t, path)
    else if name == DOTDOT then Lookup(t, Pop(Components(path)))
    else Some(t)
  }

  /** On attributes: a child shows itself exactly when its name is ordinary, or is one of ".", ".." and "/" and the node
      that stands for it has that name too and the same mode, owners, times and length. */
  lemma ShowsExactly(h: Hasher, t: Inode, path: Str, name: Str)
    requires TreeOk(t) && Find(t, path).Some? && name in Find(t, path).value.children
    ensures ShowsItself(h, t, path, Find(t, path).value, name) <==>
            Ordinary(name)
            || ((name == DOT || name == DOTDOT || name == ROOT)
                && StandIn(t, path, name).Some? && StandIn(t, path, name).value.attr.name == name
                && LooksLike(Find(t, path).value.children[name].attr, StandIn(t, path, name).value.attr))
  {
    ChildName(t, path, name);
    SentForSpecials(h, t, path);
    ChildPathOf(path);
    hide Find, Lookup, Components, TreeOk, SentFor, StatOf, ChildPath, LooksLike, Ordinary;
    if (name == DOT || name == DOTDOT || name == ROOT) && StandIn(t, path, name).Some? {
      SameStat(h, ChildPath(path, name), Find(t, path).value.children[name].attr, StandIn(t, path, name).value.attr);
    }
  }

  lemma ChildPathOf(path: Str)
    ensures ChildPath(path, DOT) == path && ChildPath(path, ROOT) == ROOT
  {
  }

  /** The entry sends the stat of the child. */
  predicate SendsItself(h: Hasher, t: Inode, path: Str, node: Inode, name: Str) {
    name in node.children && SentFor(h, t, path, name) == Some(ChildStat(h, node, path, name))
  }

  lemma ShownIsSent(h: Hasher, t: Inode, path: Str, name: Str)
    requires TreeOk(t) && Find(t, path).Some? && name in Find(t, path).value.children
    ensures SendsItself(h, t, path, Find(t, path).value, name) <==>
            ShowsItself(h, t, path, Find(t, path).value, name)
  {
    ChildName(t, path, name);
    hide Find, ResolveStep, ChildPath, TreeOk, QidOf;
    if Ordinary(name) {
      SentIsChild(h, t, path, name);
    } else if SentFor(h, t, path, name).Some? && name != DOT && name != DOTDOT {
      SentIsNamed(h, t, path, name);
    }
  }

  lemma {:induction false} FewerAreSent(h: Hasher, t: Inode, path: Str, names: seq<Str>)
    ensures |SentStats(h, t, path, names)| <= |names|
    decreases names
  {
    hide SentFor;
    if names != [] { FewerAreSent(h, t, path, names[1..]); }
  }

  /** The stats sent are the children's exactly when each entry sends its child. */
  lemma {:induction false} SentAreChildren(h: Hasher, t: Inode, node: Inode, path: Str, names: seq<Str>)
    requires forall i :: 0 <= i < |names| ==> names[i] in node.children
    ensures SentStats(h, t, path, names) == ChildStats(h, node, path, names) <==>
            forall i :: 0 <= i < |names| ==> SendsItself(h, t, path, node, names[i])
    decreases names
  {
    hide SentFor, ChildStat, ChildStats;
    if names == [] {
      NoChildStats(h, node, path);
    } else {
      var rest := names[1..];
      var first := ChildStat(h, node, path, names[0]);
      SentAreChildren(h, t, node, path, rest);
      FewerAreSent(h, t, path, rest);
      FirstChildStat(h, node, path, names);
      match SentFor(h, t, path, names[0])
      case None =>
      case Some(s) => SameCons(s, SentStats(h, t, path, rest), first, ChildStats(h, node, path, rest));
      assert forall i :: 0 <= i < |rest| ==> rest[i] == names[i + 1];
      assert forall i :: 0 < i < |names| ==> names[i] == rest[i - 1];
    }
  }

  lemma NoChildStats(h: Hasher, node: Inode, path: Str)
    ensures ChildStats(h, node, path, []) == []
  {
  }

  lemma SameCons(a: Stat, s: seq<Stat>, b: Stat, t: seq<Stat>)
    ensures [a] + s == [b] + t <==> a == b && s == t
  {
    assert ([a] + s)[1..] == s && ([b] + t)[1..] == t && ([a] + s)[0] == a && ([b] + t)[0] == b;
  }

  lemma FirstChildStat(h: Hasher, node: Inode, path: Str, names: seq<Str>)
    requires names != [] && forall i :: 0 <= i < |names| ==> names[i] in node.children
    ensures ChildStats(h, node, path, names) ==
            [ChildStat(h, node, path, names[0])] + ChildStats(h, node, path, names[1..])
    ensures |ChildStats(h, node, path, names)| == |names|
  {
    hide ChildStat;
  }

  lemma {:induction false} SentAreWired(h: Hasher, t: Inode, path: Str, names: seq<Str>)
    requires TreeOk(t)
    ensures AllWired(SentStats(h, t, path, names))
    decreases names
  {
    hide SentFor, TreeOk, StatIsWired;
    if names != [] {
      SentAreWired(h, t, path, names[1..]);
      if SentFor(h, t, path, names[0]).Some? { SentIsNamed(h, t, path, names[0]); }
    }
  }

  // ---------------------------------------------------------------- when a listing is right

  /** Every child's stat fits, and every child shows itself. */
  ghost predicate Listed(h: Hasher, t: Inode, path: Str) {
    && Find(t, path).Some? && AllFit(ListingOf(h, t, path))
    && forall k :: k in Find(t, path).value.children ==> ShowsItself(h, t, path, Find(t, path).value, k)
  }

  lemma ChildrenShow(h: Hasher, t: Inode, path: Str)
    requires TreeOk(t) && Find(t, path).Some?
    ensures var node := Find(t, path).value;
            SentStats(h, t, path, Sorted(node.children.Keys)) == ListingOf(h, t, path) <==>
            forall k :: k in node.children ==> ShowsItself(h, t, path, node, k)
  {
    hide Find, SendsItself, SentStats, ShowsItself, TreeOk, Sorted, ListingOf;
    var node := Find(t, path).value;
    var names := Sorted(node.children.Keys);
    forall k | k in node.children
      ensures SendsItself(h, t, path, node, k) <==> ShowsItself(h, t, path, node, k)
    {
      ShownIsSent(h, t, path, k);
    }
    SentAreChildren(h, t, node, path, names);
    ListingIs(h, t, path);
    AllNames(h, t, path, node, names);
  }

  lemma AllNames(h: Hasher, t: Inode, path: Str, node: Inode, names: seq<Str>)
    requires forall k :: k in names <==> k in node.children
    ensures (forall i :: 0 <= i < |names| ==> SendsItself(h, t, path, node, names[i])) <==>
            (forall k :: k in node.children ==> SendsItself(h, t, path, node, k))
  {
    hide SendsItself;
    forall k | k in node.children ensures exists i :: 0 <= i < |names| && names[i] == k {
      assert k in names;
    }
  }

  lemma ListingIs(h: Hasher, t: Inode, path: Str)
    requires Find(t, path).Some?
    ensures ListingOf(h, t, path) ==
            ChildStats(h, Find(t, path).value, path, Sorted(Find(t, path).value.children.Keys))
  {
  }

  /** However a directory's bytes are cut into chunks, draining them yields exactly the children's stats, with nothing
      left, exactly when every child's stat fits and every child shows itself. */
  lemma ListedExactly(h: Hasher, t: Inode, path: Str, chunks: seq<seq<Byte>>)
    requires TreeOk(t) && Find(t, path).Some?
    requires Joined(chunks) == EncodeStats(SentStats(h, t, path, Sorted(Find(t, path).value.children.Keys)))
    ensures DrainChunks([], chunks) == Drained(ListingOf(h, t, path), []) <==> Listed(h, t, path)
  {
    hide Find, TreeOk, DrainChunks, ListingOf, SentStats, ShowsItself, Sorted, EncodeStats, StatFits;
    var sent := SentStats(h, t, path, Sorted(Find(t, path).value.children.Keys));
    SentAreWired(h, t, path, Sorted(Find(t, path).value.children.Keys));
    DrainsAll(sent, chunks);
    ChildrenShow(h, t, path);
  }

  /** With no child called ".", ".." or "/": exactly when every child's name is slash-free and every child's stat
      fits. */
  lemma ListedWhenSlashFree(h: Hasher, t: Inode, path: Str)
    requires TreeOk(t) && Find(t, path).Some?
    requires forall k :: k in Find(t, path).value.children ==> k != DOT && k != DOTDOT && k != ROOT
    ensures Listed(h, t, path) <==>
            AllFit(ListingOf(h, t, path)) && forall k :: k in Find(t, path).value.children ==> SlashFree(k)
  {
    forall k | k in Find(t, path).value.children ensures k != [] {
      ChildName(t, path, k);
    }
    hide Find, SentFor, ChildStat, ListingOf, AllFit;
  }

  /** On a path in normal form: exactly when every child's stat fits and every child has an ordinary name, but for one
      called "/" that has the root's mode, owners, times and length. */
  lemma ListedOnNormalPath(h: Hasher, t: Inode, path: Str)
    requires TreeOk(t) && Find(t, path).Some? && Normal(Components(path))
    ensures Listed(h, t, path) <==>
            && AllFit(ListingOf(h, t, path))
            && forall k :: k in Find(t, path).value.children ==>
                 Ordinary(k) || (k == ROOT && LooksLike(Find(t, path).value.children[k].attr, t.attr))
  {
    hide TreeOk, Find, ListingOf, AllFit, ShowsItself, Normal, Ordinary, LooksLike, Components;
    forall k | k in Find(t, path).value.children
      ensures ShowsItself(h, t, path, Find(t, path).value, k) <==>
              Ordinary(k) || (k == ROOT && LooksLike(Find(t, path).value.children[k].attr, t.attr))
    {
      ShowsOnNormalPath(h, t, path, k);
    }
  }

  lemma ShowsOnNormalPath(h: Hasher, t: Inode, path: Str, k: Str)
    requires TreeOk(t) && Find(t, path).Some? && Normal(Components(path)) && k in Find(t, path).value.children
    ensures ShowsItself(h, t, path, Find(t, path).value, k) <==>
            Ordinary(k) || (k == ROOT && LooksLike(Find(t, path).value.children[k].attr, t.attr))
  {
    ShowsExactly(h, t, path, k);
    RootIsNamed(t);
    if k == DOT || k == DOTDOT { DotNeverShows(h, t, path, k); }
    hide TreeOk, Find, ShowsItself, Normal, LooksLike, Components;
  }

  lemma RootIsNamed(t: Inode)
    requires TreeOk(t)
    ensures t.attr.name == ROOT
  {
    assert NodeOk([], At(t, []).value);
  }

  lemma OneHides(h: Hasher, t: Inode, path: Str, k: Str)
    requires Find(t, path).Some? && k in Find(t, path).value.children
    ensures !ShowsItself(h, t, path, Find(t, path).value, k) ==> !Listed(h, t, path)
  {
    hide Find, ShowsItself, ListingOf, AllFit;
  }

  lemma SlashNeverShows(h: Hasher, t: Inode, path: Str, k: Str)
    requires Find(t, path).Some? && k in Find(t, path).value.children && !SlashFree(k) && k != ROOT
    ensures !ShowsItself(h, t, path, Find(t, path).value, k)
  {
    hide Find, SentFor, ChildStat;
  }

  /** A child with a slash in its name, other than "/", is never listed, whatever else is there. */
  lemma SlashChildIsNotListed(h: Hasher, t: Inode, path: Str, k: Str, chunks: seq<seq<Byte>>)
    requires TreeOk(t) && Find(t, path).Some? && k in Find(t, path).value.children && !SlashFree(k) && k != ROOT
    ensures var sent := SentStats(h, t, path, Sorted(Find(t, path).value.children.Keys));
            Joined(chunks) == EncodeStats(sent) ==> DrainChunks([], chunks) != Drained(ListingOf(h, t, path), [])
  {
    hide TreeOk, Find, ListingOf, DrainChunks, EncodeStats, SentStats, Listed, ShowsItself, SlashFree;
    SlashNeverShows(h, t, path, k);
    OneHides(h, t, path, k);
    if Joined(chunks) == EncodeStats(SentStats(h, t, path, Sorted(Find(t, path).value.children.Keys))) {
      ListedExactly(h, t, path, chunks);
    }
  }

  /** Nor, on a path in normal form, is a child called "." or "..": the directory or its parent stands in its place. */
  lemma DotChildIsNotListed(h: Hasher, t: Inode, path: Str, k: Str, chunks: seq<seq<Byte>>)
    requires TreeOk(t) && Find(t, path).Some? && Normal(Components(path))
    requires k in Find(t, path).value.children && (k == DOT || k == DOTDOT)
    requires Joined(chunks) == EncodeStats(SentStats(h, t, path, Sorted(Find(t, path).value.children.Keys)))
    ensures DrainChunks([], chunks) != Drained(ListingOf(h, t, path), [])
  {
    hide TreeOk, Find, ListingOf, DrainChunks, EncodeStats, SentStats, ShowsItself, Normal, Listed;
    DotNeverShows(h, t, path, k);
    ListedExactly(h, t, path, chunks);
    OneHides(h, t, path, k);
  }

  lemma DotNeverShows(h: Hasher, t: Inode, path: Str, k: Str)
    requires TreeOk(t) && Find(t, path).Some? && Normal(Components(path))
    requires k in Find(t, path).value.children && (k == DOT || k == DOTDOT)
    ensures !ShowsItself(h, t, path, Find(t, path).value, k)
  {
    hide TreeOk, Components, Normal, SentFor, ChildPath, QidOf, Lookup;
    var p := Components(path);
    SentForSpecials(h, t, path);
    ChildName(t, path, k);
    NormalIsNotDotted(t, p);
    NormalIsNotDotted(t, Pop(p));
  }

  lemma NormalIsNotDotted(t: Inode, p: Path)
    requires TreeOk(t) && Lookup(t, p).Some? && Normal(p)
    ensures Lookup(t, p).value.attr.name != DOT && Lookup(t, p).value.attr.name != DOTDOT
    ensures Normal(Pop(p))
  {
    assert NodeOk(p, At(t, p).value);
    if p != [] { assert Last(p) in p; }
    assert forall c :: c in Pop(p) ==> c in p;
  }

  /** The tree after a file is made in the root and renamed to "a/b". */
  function RenamedToSlash(now: U32): Inode {
    var a := LeafAttr(Text("a/b"), File([]), now);
    NewRoot(now).(children := map[Text("a/b") := Inode(a, map[])])
  }

  /** Two operations on the tree lead there. */
  lemma SlashTakesTwoOperations(now: U32, stat: Stat)
    requires OnlyRenames(stat) && stat.name == Text("a/b")
    ensures Wstat(Make(NewRoot(now), [Text("x")], File([]), now), [Text("x")], stat) == Some(RenamedToSlash(now))
  {
    var x, ab := Text("x"), Text("a/b");
    assert |x| == 1 && |ab| == 3;
    var made := Make(NewRoot(now), [x], File([]), now);
    assert Last([x]) == x && Pop([x]) == [];
    assert (made.children - {x})[ab := Inode(LeafAttr(ab, File([]), now), map[])] ==
           map[ab := Inode(LeafAttr(ab, File([]), now), map[])];
  }

  /** There, nothing is sent for the file, and the listing of the root is wrong. */
  lemma SlashChildExample(h: Hasher, now: U32)
    ensures var t := RenamedToSlash(now);
            && Text("a/b") in t.children && SentFor(h, t, ROOT, Text("a/b")) == None
            && Find(t, ROOT) == Some(t) && !Listed(h, t, ROOT)
  {
    var t, ab := RenamedToSlash(now), Text("a/b");
    assert ab[1] == SLASH && |ab| == 3;
    assert ab != DOT && ab != DOTDOT && ab != ROOT && !Ordinary(ab);
    assert Find(t, ROOT) == Some(t) by { ComponentsOfRoot(); }
    NothingIsFound(now);
    hide Find, SentFor, ListingOf, ChildStat, AllFit, Ordinary;
    assert !ShowsItself(h, t, ROOT, t, ab);
  }

  lemma NothingIsFound(now: U32)
    ensures ResolveStep(ROOT, Text("a/b")).Some?
    ensures Find(RenamedToSlash(now), ResolveStep(ROOT, Text("a/b")).value) == None
  {
    var ab := Text("a/b");
    assert ab[1] == SLASH && |ab| == 3;
    assert ab != DOT && ab != DOTDOT && ab != ROOT;
    ComponentsOfRoot();
    ResolveStepRefines(ROOT, ab);
    SlashedComponents(ab);
    SlashedIsNotEmpty();
    hide ResolveStep, Components, LeafAttr;
    var p := Components(ab);
    assert [] + p == p && p[0] in p;
    assert p[0] !in RenamedToSlash(now).children;
  }

  lemma SlashedIsNotEmpty()
    ensures Components(Text("a/b")) != []
  {
    var a, b := Text("a"), Text("b");
    assert Text("a/b") == a + ROOT + b;
    ComponentsAtSlash(a, b);
    assert a[0] != SLASH && SlashFree(a);
    ComponentsOfName(a);
  }

  /** The components of a name with a slash are shorter than it. */
  lemma SlashedComponents(name: Str)
    requires !SlashFree(name)
    ensures Components(name) != [name] && forall c :: c in Components(name) ==> c != name
  {
    ComponentsAreNameable(name);
  }

  // ---------------------------------------------------------------- through the server

  /** The payload a client takes from an Rread body. */
  function ParsePayload(body: seq<Byte>): Parsed<seq<Byte>> {
    var (len, rest) :- ParseU32(body);
    ParseBytes(rest, len)
  }

  /** The payload of the Rread that answers a Tread, if that is what comes. */
  function Tread(h: Hasher, fids: FidTable, tree: Inode, fid: U32, offset: U64, count: U32): Option<seq<Byte>> {
    var reply := HandleRead(h, ReadBody(fid, offset, count), fids, tree).reply;
    if reply.Some? && reply.value.msgType == RREAD then
      match ParsePayload(reply.value.body) case Err(_) => None case Ok(data, _) => Some(data)
    else None
  }

  /** What chained Treads on one fid bring, while nothing else happens. */
  function ReadChain(h: Hasher, fids: FidTable, tree: Inode, fid: U32, offset: nat, counts: seq<U32>): seq<seq<Byte>>
    decreases counts
  {
    if counts == [] || offset >= 0x1_0000_0000_0000_0000 then []
    else match Tread(h, fids, tree, fid, offset, counts[0])
      case None => []
      case Some(c) => [c] + ReadChain(h, fids, tree, fid, offset + |c|, counts[1..])
  }

  predicate Readable(fids: FidTable, fid: U32) {
    fid in fids && fids[fid].openMode.Some? && ModeAllowsRead(fids[fid].openMode.value)
  }

  lemma TreadIsChunk(h: Hasher, fids: FidTable, tree: Inode, fid: U32, offset: U64, count: U32)
    requires Readable(fids, fid) && SourceOf(h, tree, fids[fid].path).Data?
    ensures var c := Chunk(SourceOf(h, tree, fids[fid].path).bytes, offset, count);
            && HandleRead(h, ReadBody(fid, offset, count), fids, tree) ==
               Answer(fids, tree, RREAD, U32Le(|c|) + c)
            && Tread(h, fids, tree, fid, offset, count) == Some(c)
  {
    ParseReadBody(fid, offset, count);
    hide ParseRead, ReadBody, SourceOf, ParseU32, U32Le, Chunk;
    var c := Chunk(SourceOf(h, tree, fids[fid].path).bytes, offset, count);
    ParseU32Le(|c|, c);
    assert c[..|c|] == c && c[|c|..] == [];
  }

  /** Chained Treads are the chained chunks of the file's bytes. */
  lemma {:induction false} ReadChainIsChain(h: Hasher, fids: FidTable, tree: Inode, fid: U32, offset: nat,
      counts: seq<U32>)
    requires Readable(fids, fid) && SourceOf(h, tree, fids[fid].path).Data?
    requires |SourceOf(h, tree, fids[fid].path).bytes| < 0x1_0000_0000_0000_0000
    requires offset <= |SourceOf(h, tree, fids[fid].path).bytes|
    ensures ReadChain(h, fids, tree, fid, offset, counts) ==
            Chain(SourceOf(h, tree, fids[fid].path).bytes, offset, counts)
    decreases counts
  {
    hide ModeAllowsRead, SourceOf, HandleRead, Tread, ReadBody, U32Le;
    if counts != [] {
      TreadIsChunk(h, fids, tree, fid, offset, counts[0]);
      var c := Chunk(SourceOf(h, tree, fids[fid].path).bytes, offset, counts[0]);
      ReadChainIsChain(h, fids, tree, fid, offset + |c|, counts[1..]);
    }
  }

  /** Reads chained from offset 0, of any sizes, until one of positive size comes back empty, return the whole file. */
  lemma WholeFileIsRead(h: Hasher, fids: FidTable, tree: Inode, fid: U32, counts: seq<U32>)
    requires Readable(fids, fid) && SourceOf(h, tree, fids[fid].path).Data?
    requires |SourceOf(h, tree, fids[fid].path).bytes| < 0x1_0000_0000_0000_0000
    ensures var chunks := ReadChain(h, fids, tree, fid, 0, counts);
            && |chunks| == |counts|
            && (counts != [] && counts[|counts| - 1] > 0 && chunks[|counts| - 1] == [] ==>
                  Joined(chunks) == SourceOf(h, tree, fids[fid].path).bytes)
            && (AllPositive(counts) && |counts| > |SourceOf(h, tree, fids[fid].path).bytes| ==>
                  chunks[|counts| - 1] == [])
  {
    hide SourceOf, ReadChain;
    var data := SourceOf(h, tree, fids[fid].path).bytes;
    ReadChainIsChain(h, fids, tree, fid, 0, counts);
    ChainIsData(data, 0, counts);
    if AllPositive(counts) && |counts| > |data| {
      ChainEnds(data, 0, counts);
    }
    assert data[0..] == data;
  }

  /** Reading an open directory in chunks of any sizes until one of positive size comes back empty, and draining whole
      stats as they complete, yields exactly the children's stats in name order, with nothing left, exactly when the
      directory can be listed. With positive sizes the empty read comes. */
  lemma DirectoryRoundTrip(h: Hasher, fids: FidTable, tree: Inode, fid: U32, counts: seq<U32>)
    requires Readable(fids, fid) && TreeOk(tree)
    requires Find(tree, fids[fid].path).Some? && IsDirMode(Find(tree, fids[fid].path).value.attr.mode)
    requires |SourceOf(h, tree, fids[fid].path).bytes| < 0x1_0000_0000_0000_0000
    requires counts != [] && counts[|counts| - 1] > 0
    ensures var chunks := ReadChain(h, fids, tree, fid, 0, counts);
            && |chunks| == |counts|
            && (chunks[|counts| - 1] == [] ==>
                  (DrainChunks([], chunks) == Drained(ListingOf(h, tree, fids[fid].path), []) <==>
                   Listed(h, tree, fids[fid].path)))
            && (AllPositive(counts) && |counts| > |SourceOf(h, tree, fids[fid].path).bytes| ==>
                  chunks[|counts| - 1] == [])
  {
    hide SourceOf, ReadChain, Find, DrainChunks, EncodeStats, ListingOf, Listed, SentStats, Sorted, TreeOk,
      ModeAllowsRead;
    SourceIsSent(h, tree, fids[fid].path);
    WholeFileIsRead(h, fids, tree, fid, counts);
    var chunks := ReadChain(h, fids, tree, fid, 0, counts);
    if chunks[|counts| - 1] == [] {
      ListedExactly(h, tree, fids[fid].path, chunks);
    }
  }

  /** A stat shows this child: its own name and every field of its own. */
  predicate ShowsChild(h: Hasher, path: Str, s: Stat, node: Inode, name: Str) {
    && name in node.children && s.name == name && s.typ == 0 && s.dev == 0
    && var a := node.children[name].attr;
    && s.length == |a.data| % 0x1_0000_0000_0000_0000 && s.mode == a.mode && s.atime == a.atime && s.mtime == a.mtime
    && s.uid == a.uid && s.gid == a.gid && s.muid == a.uid
    && s.qid == Qid(if IsDirMode(a.mode) then 0x80 else 0, a.mtime, h(ChildPath(path, name), a.mtime))
  }

  /** The stats show each child once, in name order, with the child's own fields. */
  ghost predicate ShowsAll(h: Hasher, path: Str, ss: seq<Stat>, node: Inode) {
    && |ss| == |node.children|
    && (forall i :: 0 <= i < |ss| ==> ShowsChild(h, path, ss[i], node, ss[i].name))
    && (forall i, j :: 0 <= i < j < |ss| ==> Le(ss[i].name, ss[j].name) && ss[i].name != ss[j].name)
    && (forall k :: k in node.children ==> exists i :: 0 <= i < |ss| && ss[i].name == k)
  }

  /** A listing is all the children, each once. */
  lemma ListingIsTheChildren(h: Hasher, tree: Inode, path: Str)
    requires TreeOk(tree) && Find(tree, path).Some?
    ensures ShowsAll(h, path, ListingOf(h, tree, path), Find(tree, path).value)
  {
    var node := Find(tree, path).value;
    forall k | k in node.children ensures node.children[k].attr.name == k {
      ChildName(tree, path, k);
    }
    hide Find, TreeOk, ShowsAll;
    StatsShowChildren(h, node, path, Sorted(node.children.Keys));
  }

  lemma StatsShowChildren(h: Hasher, node: Inode, path: Str, names: seq<Str>)
    requires forall k :: k in names <==> k in node.children
    requires forall k :: k in node.children ==> node.children[k].attr.name == k
    requires |names| == |node.children.Keys|
    requires forall i, j :: 0 <= i < j < |names| ==> Le(names[i], names[j]) && names[i] != names[j]
    ensures ShowsAll(h, path, ChildStats(h, node, path, names), node)
  {
    hide Le, ShowsChild, ChildStat, StatOf;
    var ss := ChildStats(h, node, path, names);
    assert |node.children.Keys| == |node.children|;
    forall i | 0 <= i < |ss| ensures ss[i].name == names[i] && ShowsChild(h, path, ss[i], node, ss[i].name) {
      ChildIsShown(h, node, path, names[i]);
    }
    forall k | k in node.children ensures exists i :: 0 <= i < |ss| && ss[i].name == k {
      assert k in names;
      var i :| 0 <= i < |names| && names[i] == k;
      assert ss[i].name == k;
    }
  }

  lemma ChildIsShown(h: Hasher, node: Inode, path: Str, name: Str)
    requires name in node.children && node.children[name].attr.name == name
    ensures ChildStat(h, node, path, name).name == name
    ensures ShowsChild(h, path, ChildStat(h, node, path, name), node, name)
  {
    hide ChildPath;
  }

  lemma ChildName(tree: Inode, path: Str, k: Str)
    requires TreeOk(tree) && Find(tree, path).Some? && k in Find(tree, path).value.children
    ensures Find(tree, path).value.children[k].attr.name == k && k != []
  {
    var q := Components(path) + [k];
    LookupConcat(tree, Components(path), [k]);
    assert NodeOk(q, At(tree, q).value);
  }
}
