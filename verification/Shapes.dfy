/** Inodes on the heap, and the ghost tree that says which object is where. */
module Shapes {
  import opened Bytes
  import opened Paths
  import opened Stats
  import opened Tree

  /** libs/planten_fs_core/src/lib.rs:3-13. In Rust each map owns its children; here separation says so. */
  class Node {
    var name: Str
    var data: seq<Byte>
    var children: map<Str, Node>
    var mode: U32
    var uid: Str
    var gid: Str
    var atime: U32
    var mtime: U32

    function Attrs(): Attr
      reads this
    {
      Attr(name, data, mode, uid, gid, atime, mtime)
    }

    /** `Inode::new` */
    constructor (name: Str, mode: U32, now: U32)
      ensures Attrs() == FreshAttr(name, mode, now) && children == map[]
    {
      this.name := name;
      this.data := [];
      this.children := map[];
      this.mode := mode;
      this.uid := USER;
      this.gid := GROUP;
      this.atime := now;
      this.mtime := now;
    }

    /** Grow with zeros up to the end of the write, copy the bytes in, stamp the time. */
    method WriteAt(offset: nat, bytes: seq<Byte>, now: U32)
      modifies this`data, this`mtime
      ensures Attrs() == WriteAttr(old(Attrs()), offset, bytes, now)
    {
      var end := offset + |bytes|;
      if end > |data| {
        data := Resize(data, end);
      }
      data := data[..offset] + bytes + data[end..];
      mtime := now;
    }

    /** The field updates of `wstat_from_stat` short of the name. */
    method Edit(stat: Stat)
      modifies this`mode, this`mtime, this`data, this`gid
      ensures Attrs() == EditAttr(old(Attrs()), stat)
    {
      if stat.mode != KEEP32 {
        mode := stat.mode;
      }
      if stat.mtime != KEEP32 {
        mtime := stat.mtime;
      }
      if stat.length != KEEP64 {
        data := Resize(data, stat.length);
      }
      if stat.gid != [] {
        gid := stat.gid;
      }
    }

    /** The root branch: mode, mtime and gid only. */
    method EditTop(stat: Stat)
      modifies this`mode, this`mtime, this`gid
      ensures Attrs() == EditRootAttr(old(Attrs()), stat)
    {
      if stat.mode != KEEP32 {
        mode := stat.mode;
      }
      if stat.mtime != KEEP32 {
        mtime := stat.mtime;
      }
      if stat.gid != [] {
        gid := stat.gid;
      }
    }

    /** `children.remove(filename)` and `children.insert(name, inode)`, or the assignment through `get_mut`
        when the two names are one. */
    method Exchange(filename: Str, name: Str, inode: Node)
      requires filename in children
      modifies this`children
      ensures children == (old(children) - {filename})[name := inode]
    {
      if name != filename {
        children := children - {filename};
        children := children[name := inode];
      } else {
        assert (children - {filename})[filename := inode] == children[filename := inode];
        children := children[filename := inode];
      }
    }

    /** The top of a `clone()`; the children move over, since the original is dropped. */
    constructor CloneOf(that: Node)
      ensures Attrs() == that.Attrs() && children == that.children
    {
      this.name := that.name;
      this.data := that.data;
      this.children := that.children;
      this.mode := that.mode;
      this.uid := that.uid;
      this.gid := that.gid;
      this.atime := that.atime;
      this.mtime := that.mtime;
    }
  }

  datatype Shape = Shape(node: Node, kids: map<Str, Shape>)

  ghost function Nodes(sh: Shape): set<Node> {
    {sh.node} + set k, n | k in sh.kids && n in Nodes(sh.kids[k]) :: n
  }

  /** No object occurs twice: the tree owns its nodes. */
  ghost predicate Separate(sh: Shape) {
    && (forall k :: k in sh.kids ==> sh.node !in Nodes(sh.kids[k]) && Separate(sh.kids[k]))
    && (forall j, k :: j in sh.kids && k in sh.kids && j != k ==> Nodes(sh.kids[j]) !! Nodes(sh.kids[k]))
  }

  /** What one node holds, and what a set of nodes holds: the heap as a value. */
  datatype Cell = Cell(attr: Attr, links: map<Str, Node>)

  type Heap = map<Node, Cell>

  ghost predicate Mirrors(h: Heap, ns: set<Node>)
    reads ns
  {
    forall n :: n in ns ==> n in h && h[n] == Cell(n.Attrs(), n.children)
  }

  /** The child map of the top node on the heap is that of the shape. */
  ghost predicate Wired(sh: Shape, h: Heap) {
    && sh.node in h
    && (forall k :: k in h[sh.node].links <==> k in sh.kids)
    && (forall k :: k in sh.kids ==> h[sh.node].links[k] == sh.kids[k].node)
  }

  /** And so on all the way down. */
  ghost predicate Linked(sh: Shape, h: Heap) {
    Wired(sh, h) && forall k :: k in sh.kids ==> Linked(sh.kids[k], h)
  }

  ghost function AttrIn(h: Heap, n: Node): Attr {
    if n in h then h[n].attr else FreshAttr([], 0, 0)
  }

  /** The tree that the heap holds. */
  ghost function Abs(sh: Shape, h: Heap): Inode {
    Inode(AttrIn(h, sh.node), map k | k in sh.kids :: Abs(sh.kids[k], h))
  }

  ghost predicate Agree(ns: set<Node>, h: Heap, h': Heap) {
    forall n :: n in ns && n in h ==> n in h' && h'[n] == h[n]
  }

  /** The tree depends on the nodes of the shape only. */
  lemma {:induction false} AgreeKeeps(sh: Shape, h: Heap, h': Heap)
    requires Linked(sh, h) && Agree(Nodes(sh), h, h')
    ensures Linked(sh, h') && Abs(sh, h') == Abs(sh, h)
    decreases sh
  {
    forall k | k in sh.kids ensures Linked(sh.kids[k], h') && Abs(sh.kids[k], h') == Abs(sh.kids[k], h) {
      AgreeKeeps(sh.kids[k], h, h');
    }
  }

  ghost function Sub(sh: Shape, p: Path): Option<Shape>
    decreases p
  {
    if p == [] then Some(sh)
    else if p[0] in sh.kids then Sub(sh.kids[p[0]], p[1..])
    else None
  }

  ghost function ReplaceSub(sh: Shape, p: Path, sub: Shape): Shape
    requires Sub(sh, p).Some?
    decreases p
  {
    if p == [] then sub
    else sh.(kids := sh.kids[p[0] := ReplaceSub(sh.kids[p[0]], p[1..], sub)])
  }

  lemma {:induction false} SubNodes(sh: Shape, p: Path)
    requires Sub(sh, p).Some?
    ensures Nodes(Sub(sh, p).value) <= Nodes(sh)
    ensures Separate(sh) ==> Separate(Sub(sh, p).value)
    decreases p
  {
    if p != [] {
      SubNodes(sh.kids[p[0]], p[1..]);
    }
  }

  lemma {:induction false} SubFacts(sh: Shape, h: Heap, p: Path)
    requires Linked(sh, h)
    ensures Sub(sh, p).Some? ==> Linked(Sub(sh, p).value, h)
    ensures Lookup(Abs(sh, h), p) ==
            match Sub(sh, p) case None => None case Some(s) => Some(Abs(s, h))
    decreases p
  {
    if p != [] && p[0] in sh.kids {
      SubFacts(sh.kids[p[0]], h, p[1..]);
    }
  }

  lemma {:induction false} SubStep(sh: Shape, p: Path, i: nat)
    requires i < |p| && Sub(sh, p[..i]).Some?
    ensures Sub(sh, p[..i + 1]) ==
            var here := Sub(sh, p[..i]).value; if p[i] in here.kids then Some(here.kids[p[i]]) else None
    decreases p
  {
    if i > 0 {
      assert p[..i][1..] == p[1..][..i - 1] && p[..i + 1][1..] == p[1..][..i];
      SubStep(sh.kids[p[0]], p[1..], i - 1);
    } else {
      assert p[..1][1..] == [];
    }
  }

  /** A cursor: object `n` is the node at path `p`. */
  ghost predicate Stands(sh: Shape, p: Path, n: Node) {
    Sub(sh, p).Some? && Sub(sh, p).value.node == n
  }

  /** A cursor starts at the root. */
  lemma Starting(sh: Shape, p: Path)
    ensures Stands(sh, p[..0], sh.node)
  {
  }

  /** What a cursor sees. */
  lemma Standing(sh: Shape, h: Heap, p: Path, n: Node)
    requires Linked(sh, h) && Stands(sh, p, n)
    ensures n in Nodes(sh) && n in h && Linked(Sub(sh, p).value, h)
    ensures Lookup(Abs(sh, h), p) == Some(Abs(Sub(sh, p).value, h))
    ensures Lookup(Abs(sh, h), p).value.attr == h[n].attr
    ensures forall k :: k in h[n].links <==> k in Lookup(Abs(sh, h), p).value.children
  {
    SubNodes(sh, p);
    SubFacts(sh, h, p);
  }

  /** The child under a cursor. */
  lemma ChildStanding(sh: Shape, h: Heap, p: Path, n: Node, name: Str)
    requires Linked(sh, h) && Stands(sh, p, n) && n in h && name in h[n].links
    ensures h[n].links[name] in Nodes(sh) && h[n].links[name] in h
    ensures Lookup(Abs(sh, h), p).Some? && name in Lookup(Abs(sh, h), p).value.children
    ensures Lookup(Abs(sh, h), p).value.children[name].attr == h[h[n].links[name]].attr
  {
    Standing(sh, h, p, n);
    SubNodes(sh, p);
    KidStanding(Sub(sh, p).value, h, name);
  }

  lemma KidStanding(sub: Shape, h: Heap, name: Str)
    requires Linked(sub, h) && name in h[sub.node].links
    ensures h[sub.node].links[name] in Nodes(sub) && h[sub.node].links[name] in h
    ensures name in Abs(sub, h).children
    ensures Abs(sub, h).children[name].attr == h[h[sub.node].links[name]].attr
  {
    AbsKid(sub, h, name);
    assert Wired(sub.kids[name], h) && sub.kids[name].node in Nodes(sub.kids[name]);
  }

  /** One move of a cursor along `p`. */
  lemma Moving(sh: Shape, h: Heap, p: Path, i: nat, n: Node)
    requires Linked(sh, h) && i < |p| && Stands(sh, p[..i], n)
    ensures n in Nodes(sh) && n in h
    ensures p[i] in h[n].links ==> Stands(sh, p[..i + 1], h[n].links[p[i]])
    ensures p[i] !in h[n].links ==> Lookup(Abs(sh, h), p[..i + 1]) == None && Lookup(Abs(sh, h), p) == None
  {
    SubNodes(sh, p[..i]);
    SubFacts(sh, h, p[..i]);
    SubStep(sh, p, i);
    SubFacts(sh, h, p[..i + 1]);
    if p[i] !in h[n].links && Lookup(Abs(sh, h), p).Some? {
      LookupPrefix(Abs(sh, h), p[..i + 1], p);
    }
  }

  lemma KidFacts(sh: Shape, k: Str)
    requires Separate(sh) && k in sh.kids
    ensures Separate(sh.kids[k]) && Nodes(sh.kids[k]) <= Nodes(sh) - {sh.node}
    ensures sh.node in Nodes(sh) && sh.node !in Nodes(sh.kids[k])
  {
  }

  lemma KidLinked(sh: Shape, h: Heap, k: Str)
    requires Linked(sh, h) && k in sh.kids
    ensures sh.node in h && Linked(sh.kids[k], h) && sh.kids[k].node in h
    ensures k in Abs(sh, h).children && Abs(sh, h).children[k] == Abs(sh.kids[k], h)
  {
    assert Wired(sh.kids[k], h);
    AbsKid(sh, h, k);
  }

  lemma AgreeLess(more: set<Node>, less: set<Node>, h: Heap, h': Heap)
    requires less <= more && Agree(more, h, h')
    ensures Agree(less, h, h')
  {
  }

  /** Changing the heap and the shape only at or below `p` replaces exactly the subtree at `p`. */
  lemma {:induction false} Updated(sh: Shape, h: Heap, p: Path, sub: Shape, h': Heap)
    requires Sub(sh, p).Some? && Separate(sh) && Linked(sh, h)
    requires sub.node == Sub(sh, p).value.node && Separate(sub) && Linked(sub, h')
    requires forall n :: n in Nodes(sub) && n in Nodes(sh) ==> n in Nodes(Sub(sh, p).value)
    requires Agree(Nodes(sh) - Nodes(Sub(sh, p).value), h, h')
    ensures Grafted(sh, p, sub, ReplaceSub(sh, p, sub))
    ensures Linked(ReplaceSub(sh, p, sub), h')
    ensures Lookup(Abs(sh, h), p).Some?
    ensures Abs(ReplaceSub(sh, p, sub), h') == ReplaceAt(Abs(sh, h), p, Abs(sub, h'))
    decreases p
  {
    hide Nodes, Separate, Linked, Wired, Abs, Agree;
    if p != [] {
      var kid := sh.kids[p[0]];
      KidFacts(sh, p[0]);
      KidLinked(sh, h, p[0]);
      SubNodes(kid, p[1..]);
      SubNodes(sh, p);
      AgreeLess(Nodes(sh) - Nodes(Sub(sh, p).value), Nodes(kid) - Nodes(Sub(sh, p).value), h, h');
      AgreeLess(Nodes(sh) - Nodes(Sub(sh, p).value), Nodes(sh) - Nodes(kid), h, h');
      Updated(kid, h, p[1..], sub, h');
      var kid' := ReplaceSub(kid, p[1..], sub);
      GraftStep(sh, p, sub, kid');
      var sh' := sh.(kids := sh.kids[p[0] := kid']);
      LinkedStep(sh, h, p[0], kid', h', sh');
      AbsStep(sh, h, p[0], kid', h', sh');
    }
  }

  lemma WiredStep(sh: Shape, h: Heap, name: Str, kid': Shape, h': Heap, sh': Shape)
    requires Wired(sh, h) && name in sh.kids && kid'.node == sh.kids[name].node
    requires sh' == sh.(kids := sh.kids[name := kid'])
    requires sh.node in h' && h'[sh.node] == h[sh.node]
    ensures Wired(sh', h')
  {
  }

  lemma LinkedKid(sh: Shape, h: Heap, name: Str, kid': Shape, h': Heap, k: Str)
    requires Separate(sh) && Linked(sh, h) && name in sh.kids
    requires Agree(Nodes(sh) - Nodes(sh.kids[name]), h, h')
    requires Linked(kid', h') && k in sh.kids[name := kid']
    ensures Linked(sh.kids[name := kid'][k], h')
  {
    var kid := sh.kids[name := kid'][k];
    if k == name {
      assert kid == kid';
    } else {
      assert kid == sh.kids[k];
      SiblingKeeps(sh, h, name, h', k);
    }
  }

  lemma LinkedStep(sh: Shape, h: Heap, name: Str, kid': Shape, h': Heap, sh': Shape)
    requires Separate(sh) && Linked(sh, h) && name in sh.kids
    requires Agree(Nodes(sh) - Nodes(sh.kids[name]), h, h')
    requires kid'.node == sh.kids[name].node && Linked(kid', h')
    requires sh' == sh.(kids := sh.kids[name := kid'])
    ensures Linked(sh', h') && h'[sh.node] == h[sh.node]
  {
    WiredStep(sh, h, name, kid', h', sh');
    forall k | k in sh'.kids ensures Linked(sh'.kids[k], h') {
      LinkedKid(sh, h, name, kid', h', k);
    }
  }

  /** Reading one level of the abstraction off, pointwise. */
  lemma AbsKid(sh: Shape, h: Heap, k: Str)
    requires Linked(sh, h)
    ensures k in Abs(sh, h).children <==> k in sh.kids
    ensures k in sh.kids ==> Abs(sh, h).children[k] == Abs(sh.kids[k], h)
    ensures Abs(sh, h).attr == h[sh.node].attr
  {
  }

  lemma SameTrees(t: Inode, u: Inode)
    requires t.attr == u.attr
    requires forall k :: k in t.children <==> k in u.children
    requires forall k :: k in t.children ==> t.children[k] == u.children[k]
    ensures t == u
  {
    assert t.children == u.children;
  }

  lemma AbsStep(sh: Shape, h: Heap, name: Str, kid': Shape, h': Heap, sh': Shape)
    requires Separate(sh) && Linked(sh, h) && name in sh.kids
    requires Agree(Nodes(sh) - Nodes(sh.kids[name]), h, h')
    requires sh' == sh.(kids := sh.kids[name := kid'])
    requires Linked(kid', h') && Linked(sh', h') && h'[sh.node] == h[sh.node]
    ensures Abs(sh', h') == Abs(sh, h).(children := Abs(sh, h).children[name := Abs(kid', h')])
  {
    hide Nodes, Separate, Linked, Wired, Abs, Agree;
    var t, u := Abs(sh', h'), Abs(sh, h).(children := Abs(sh, h).children[name := Abs(kid', h')]);
    AbsKid(sh, h, name);
    AbsKid(sh', h', name);
    forall k
      ensures k in t.children <==> k in u.children
      ensures k in t.children ==> t.children[k] == u.children[k]
    {
      AbsStepAt(sh, h, name, kid', h', sh', k);
    }
    SameTrees(t, u);
  }

  lemma AbsStepAt(sh: Shape, h: Heap, name: Str, kid': Shape, h': Heap, sh': Shape, k: Str)
    requires Separate(sh) && Linked(sh, h) && name in sh.kids
    requires Agree(Nodes(sh) - Nodes(sh.kids[name]), h, h')
    requires sh' == sh.(kids := sh.kids[name := kid'])
    requires Linked(kid', h') && Linked(sh', h')
    ensures k in Abs(sh', h').children <==> k == name || k in Abs(sh, h).children
    ensures k in Abs(sh', h').children ==>
              Abs(sh', h').children[k] == if k == name then Abs(kid', h') else Abs(sh, h).children[k]
  {
    AbsKid(sh, h, k);
    AbsKid(sh', h', k);
    if k != name && k in sh.kids { SiblingKeeps(sh, h, name, h', k); }
  }

  lemma SiblingKeeps(sh: Shape, h: Heap, name: Str, h': Heap, k: Str)
    requires Separate(sh) && Linked(sh, h) && name in sh.kids && k in sh.kids && k != name
    requires Agree(Nodes(sh) - Nodes(sh.kids[name]), h, h')
    ensures Linked(sh.kids[k], h') && Abs(sh.kids[k], h') == Abs(sh.kids[k], h)
  {
    assert Nodes(sh.kids[k]) <= Nodes(sh) - Nodes(sh.kids[name]);
    AgreeKeeps(sh.kids[k], h, h');
  }

  ghost predicate Grafted(sh: Shape, p: Path, sub: Shape, sh': Shape) {
    sh'.node == sh.node && Separate(sh') && Nodes(sh') <= Nodes(sh) + Nodes(sub) && Sub(sh', p) == Some(sub)
  }

  lemma GraftStep(sh: Shape, p: Path, sub: Shape, kid': Shape)
    requires p != [] && p[0] in sh.kids && Separate(sh)
    requires Sub(sh, p).Some? && Nodes(Sub(sh, p).value) <= Nodes(sh.kids[p[0]])
    requires forall n :: n in Nodes(sub) && n in Nodes(sh) ==> n in Nodes(Sub(sh, p).value)
    requires Grafted(sh.kids[p[0]], p[1..], sub, kid')
    ensures Grafted(sh, p, sub, sh.(kids := sh.kids[p[0] := kid']))
  {
    FitsKid(sh, p[0], kid');
    InsertedNodes(sh, p[0], kid', sh.(kids := sh.kids[p[0] := kid']));
    KidFacts(sh, p[0]);
    hide Nodes, Separate;
  }

  lemma FitsKid(sh: Shape, k: Str, kid': Shape)
    requires Separate(sh) && k in sh.kids
    requires forall n :: n in Nodes(kid') && n in Nodes(sh) ==> n in Nodes(sh.kids[k])
    ensures Fits(sh, k, kid')
  {
    KidFacts(sh, k);
    forall j | j in sh.kids && j != k ensures Nodes(sh.kids[j]) !! Nodes(kid') {
      KidFacts(sh, j);
    }
  }

  lemma {:induction false} ReplaceBySame(sh: Shape, p: Path)
    requires Sub(sh, p).Some?
    ensures ReplaceSub(sh, p, Sub(sh, p).value) == sh
    decreases p
  {
    if p != [] {
      ReplaceBySame(sh.kids[p[0]], p[1..]);
    }
  }

  /** Two trees that agree at the top and child by child. */
  lemma AbsIs(sh: Shape, h: Heap, t: Inode)
    requires Linked(sh, h) && t.attr == h[sh.node].attr
    requires forall k :: k in t.children <==> k in sh.kids
    requires forall k :: k in t.children ==> t.children[k] == Abs(sh.kids[k], h)
    ensures Abs(sh, h) == t
  {
    forall k
      ensures k in Abs(sh, h).children <==> k in t.children
      ensures k in t.children ==> Abs(sh, h).children[k] == t.children[k]
    {
      AbsKid(sh, h, k);
    }
    SameTrees(Abs(sh, h), t);
  }

  lemma KidKeeps(sub: Shape, h: Heap, h': Heap, k: Str)
    requires Separate(sub) && Linked(sub, h) && k in sub.kids
    requires Agree(Nodes(sub) - {sub.node}, h, h')
    ensures Linked(sub.kids[k], h') && Abs(sub.kids[k], h') == Abs(sub.kids[k], h)
    ensures k in Abs(sub, h).children && Abs(sub, h).children[k] == Abs(sub.kids[k], h)
  {
    hide Nodes, Separate, Linked, Wired, Abs, Agree;
    KidFacts(sub, k);
    KidLinked(sub, h, k);
    AgreeLess(Nodes(sub) - {sub.node}, Nodes(sub.kids[k]), h, h');
    AgreeKeeps(sub.kids[k], h, h');
  }

  // ---------------------------------------------------------------- one change under a cursor

  /** Putting a changed subtree back: everything around it stays. */
  lemma Graft(sh: Shape, h: Heap, p: Path, sub': Shape, h': Heap, extra: set<Node>) returns (sh': Shape)
    requires Separate(sh) && Linked(sh, h) && Sub(sh, p).Some?
    requires sub'.node == Sub(sh, p).value.node && Separate(sub') && Linked(sub', h')
    requires Nodes(sub') <= Nodes(Sub(sh, p).value) + extra && extra !! Nodes(sh)
    requires Agree(Nodes(sh) - {sub'.node}, h, h')
    ensures sh'.node == sh.node && Separate(sh') && Linked(sh', h') && Nodes(sh') <= Nodes(sh) + extra
    ensures Sub(sh', p) == Some(sub')
    ensures Lookup(Abs(sh, h), p).Some? && Abs(sh', h') == ReplaceAt(Abs(sh, h), p, Abs(sub', h'))
    ensures sub' == Sub(sh, p).value ==> sh' == sh
  {
    hide Nodes, Separate, Linked, Wired, Abs;
    NodeIn(Sub(sh, p).value);
    SubNodes(sh, p);
    Updated(sh, h, p, sub', h');
    sh' := ReplaceSub(sh, p, sub');
    ReplaceBySame(sh, p);
  }

  lemma NodeIn(s: Shape)
    ensures s.node in Nodes(s)
  {
  }

  /** Writing new fields into the node under the cursor. */
  lemma FieldsSet(sh: Shape, h: Heap, p: Path, n: Node, a: Attr)
    requires Separate(sh) && Linked(sh, h) && Stands(sh, p, n) && n in h
    ensures Linked(sh, h[n := Cell(a, h[n].links)]) && Lookup(Abs(sh, h), p).Some?
    ensures Abs(sh, h[n := Cell(a, h[n].links)]) ==
            ReplaceAt(Abs(sh, h), p, Lookup(Abs(sh, h), p).value.(attr := a))
  {
    Standing(sh, h, p, n);
    var sub, h' := Sub(sh, p).value, h[n := Cell(a, h[n].links)];
    SubNodes(sh, p);
    FieldsSetHere(sub, h, a, h');
    hide Nodes, Separate, Linked, Wired, Abs, Sub;
    var sh' := Graft(sh, h, p, sub, h', {});
  }

  lemma FieldsSetHere(sub: Shape, h: Heap, a: Attr, h': Heap)
    requires Separate(sub) && Linked(sub, h) && h' == h[sub.node := Cell(a, h[sub.node].links)]
    ensures Linked(sub, h') && Abs(sub, h') == Abs(sub, h).(attr := a)
  {
    LinkedIsWired(sub, h);
    forall k | k in sub.kids ensures Linked(sub.kids[k], h') {
      KidKeeps(sub, h, h', k);
    }
    assert Linked(sub, h');
    hide Nodes, Separate, Linked, Wired, Abs, Agree;
    var t := Abs(sub, h).(attr := a);
    forall k
      ensures k in t.children <==> k in sub.kids
      ensures k in sub.kids ==> t.children[k] == Abs(sub.kids[k], h')
    {
      AbsKid(sub, h, k);
      if k in sub.kids { KidKeeps(sub, h, h', k); }
    }
    AbsIs(sub, h', t);
  }

  lemma LinkedIsWired(sub: Shape, h: Heap)
    requires Linked(sub, h)
    ensures Wired(sub, h)
  {
  }

  /** `children.remove(name)` at the cursor. */
  lemma Dropped(sh: Shape, h: Heap, p: Path, n: Node, name: Str) returns (sh': Shape, h': Heap)
    requires Separate(sh) && Linked(sh, h) && Stands(sh, p, n) && n in h
    ensures h' == h[n := Cell(h[n].attr, h[n].links - {name})]
    ensures sh'.node == sh.node && Separate(sh') && Linked(sh', h') && Nodes(sh') <= Nodes(sh)
    ensures Lookup(Abs(sh, h), p).Some?
    ensures var t := Lookup(Abs(sh, h), p).value;
            Abs(sh', h') == ReplaceAt(Abs(sh, h), p, t.(children := t.children - {name}))
  {
    Standing(sh, h, p, n);
    var sub := Sub(sh, p).value;
    var sub' := Shape(n, sub.kids - {name});
    h' := h[n := Cell(h[n].attr, h[n].links - {name})];
    SubNodes(sh, p);
    DroppedNodes(sub, name, sub');
    DroppedHere(sub, h, name, sub', h');
    hide Nodes, Separate, Linked, Wired, Abs, Sub;
    sh' := Graft(sh, h, p, sub', h', {});
  }

  lemma DroppedNodes(sub: Shape, name: Str, sub': Shape)
    requires Separate(sub) && sub' == Shape(sub.node, sub.kids - {name})
    ensures Separate(sub') && Nodes(sub') <= Nodes(sub)
  {
  }

  lemma DroppedHere(sub: Shape, h: Heap, name: Str, sub': Shape, h': Heap)
    requires Separate(sub) && Linked(sub, h)
    requires sub' == Shape(sub.node, sub.kids - {name})
    requires h' == h[sub.node := Cell(h[sub.node].attr, h[sub.node].links - {name})]
    ensures Linked(sub', h')
    ensures Abs(sub', h') == Abs(sub, h).(children := Abs(sub, h).children - {name})
  {
    DroppedLinks(sub, h, name, sub', h');
    AttrOf(sub, h);
    LinkedIsWired(sub, h);
    DroppedWired(sub, h, name, sub', h');
    hide Nodes, Separate, Linked, Wired, Abs, Agree;
    var t := Abs(sub, h).(children := Abs(sub, h).children - {name});
    forall k
      ensures k in t.children <==> k in sub'.kids
      ensures k in sub'.kids ==> t.children[k] == Abs(sub'.kids[k], h')
    {
      AbsKid(sub, h, k);
      if k in sub'.kids { KidKeeps(sub, h, h', k); }
    }
    AbsIs(sub', h', t);
  }

  lemma DroppedLinks(sub: Shape, h: Heap, name: Str, sub': Shape, h': Heap)
    requires Separate(sub) && Linked(sub, h)
    requires sub' == Shape(sub.node, sub.kids - {name})
    requires h' == h[sub.node := Cell(h[sub.node].attr, h[sub.node].links - {name})]
    ensures Linked(sub', h')
  {
    LinkedIsWired(sub, h);
    DroppedWired(sub, h, name, sub', h');
    hide Nodes, Separate, Linked, Wired, Abs, Agree;
    forall k | k in sub'.kids ensures Linked(sub'.kids[k], h') {
      KidKeeps(sub, h, h', k);
    }
    LinkedAll(sub', h');
  }

  lemma DroppedWired(sub: Shape, h: Heap, name: Str, sub': Shape, h': Heap)
    requires Wired(sub, h) && sub' == Shape(sub.node, sub.kids - {name})
    requires h' == h[sub.node := Cell(h[sub.node].attr, h[sub.node].links - {name})]
    ensures Wired(sub', h') && Agree(Nodes(sub) - {sub.node}, h, h')
  {
    hide Nodes;
  }

  lemma LinkedAll(sh: Shape, h: Heap)
    requires Wired(sh, h) && forall k :: k in sh.kids ==> Linked(sh.kids[k], h)
    ensures Linked(sh, h)
  {
    hide Wired;
  }

  lemma AttrOf(sub: Shape, h: Heap)
    requires Linked(sub, h)
    ensures Abs(sub, h).attr == h[sub.node].attr
  {
  }

  lemma AgreeEdited(ns: set<Node>, h: Heap, other: Node, c: Cell, n: Node, top: Cell)
    requires other !in ns
    ensures Agree(ns - {n}, h, h[other := c][n := top])
  {
  }

  /** `children.insert(name, leaf)` at the cursor, for a node without children. */
  lemma Attached(sh: Shape, h: Heap, p: Path, n: Node, name: Str, leaf: Node, a: Attr)
    returns (sh': Shape, h': Heap)
    requires Separate(sh) && Linked(sh, h) && Stands(sh, p, n) && n in h && leaf !in Nodes(sh)
    ensures h' == h[leaf := Cell(a, map[])][n := Cell(h[n].attr, h[n].links[name := leaf])]
    ensures sh'.node == sh.node && Separate(sh') && Linked(sh', h') && Nodes(sh') <= Nodes(sh) + {leaf}
    ensures Stands(sh', p, n) && Lookup(Abs(sh, h), p).Some?
    ensures var t := Lookup(Abs(sh, h), p).value;
            Abs(sh', h') == ReplaceAt(Abs(sh, h), p, t.(children := t.children[name := Inode(a, map[])]))
  {
    hide Nodes, Separate, Linked, Wired, Abs, Sub, Agree, Fits;
    Standing(sh, h, p, n);
    SubNodes(sh, p);
    var sub, s := Sub(sh, p).value, Shape(leaf, map[]);
    var top := Cell(h[n].attr, h[n].links[name := leaf]);
    h' := h[leaf := Cell(a, map[])][n := top];
    LeafFacts(leaf, a, h');
    LeafFits(sub, leaf, name);
    AgreeEdited(Nodes(sh), h, leaf, Cell(a, map[]), n, top);
    AgreeLess(Nodes(sh) - {n}, Nodes(sub) - {n}, h, h');
    var sub' := Shape(n, sub.kids[name := s]);
    InsertedNodes(sub, name, s, sub');
    InsertedHere(sub, h, name, s, sub', h');
    sh' := Graft(sh, h, p, sub', h', {leaf});
  }

  lemma LeafFacts(leaf: Node, a: Attr, h: Heap)
    requires leaf in h && h[leaf] == Cell(a, map[])
    ensures var s := Shape(leaf, map[]);
            Nodes(s) == {leaf} && Separate(s) && Linked(s, h) && Abs(s, h) == Inode(a, map[])
  {
  }

  lemma LeafFits(sub: Shape, leaf: Node, name: Str)
    requires leaf !in Nodes(sub)
    ensures Fits(sub, name, Shape(leaf, map[]))
  {
    assert Nodes(Shape(leaf, map[])) == {leaf};
  }

  /** The inode shares no object with what stays around it. */
  ghost predicate Fits(sub: Shape, name: Str, s: Shape) {
    sub.node !in Nodes(s) && forall k :: k in sub.kids && k != name ==> Nodes(sub.kids[k]) !! Nodes(s)
  }

  lemma InsertedNodes(sub: Shape, name: Str, s: Shape, sub': Shape)
    requires Separate(sub) && Separate(s) && Fits(sub, name, s) && sub' == Shape(sub.node, sub.kids[name := s])
    ensures Separate(sub') && Nodes(sub') <= Nodes(sub) + Nodes(s)
  {
    forall k | k in sub'.kids
      ensures sub'.node !in Nodes(sub'.kids[k]) && Separate(sub'.kids[k])
      ensures Nodes(sub'.kids[k]) <= Nodes(sub) + Nodes(s)
    {
      assert sub'.kids[k] == if k == name then s else sub.kids[k];
    }
    forall j, k | j in sub'.kids && k in sub'.kids && j != k
      ensures Nodes(sub'.kids[j]) !! Nodes(sub'.kids[k])
    {
      assert sub'.kids[j] == if j == name then s else sub.kids[j];
      assert sub'.kids[k] == if k == name then s else sub.kids[k];
    }
  }

  lemma InsertedHere(sub: Shape, h: Heap, name: Str, s: Shape, sub': Shape, h': Heap)
    requires Separate(sub) && Linked(sub, h) && Linked(s, h')
    requires sub' == Shape(sub.node, sub.kids[name := s])
    requires Agree(Nodes(sub) - {sub.node}, h, h')
    requires sub.node in h' && h'[sub.node] == Cell(h[sub.node].attr, h[sub.node].links[name := s.node])
    ensures Linked(sub', h')
    ensures Abs(sub', h') == Abs(sub, h).(children := Abs(sub, h).children[name := Abs(s, h')])
  {
    InsertedLinks(sub, h, name, s, sub', h');
    AttrOf(sub, h);
    hide Nodes, Separate, Linked, Wired, Abs, Agree;
    var t := Abs(sub, h).(children := Abs(sub, h).children[name := Abs(s, h')]);
    forall k
      ensures k in t.children <==> k in sub'.kids
      ensures k in sub'.kids ==> t.children[k] == Abs(sub'.kids[k], h')
    {
      AbsKid(sub, h, k);
      if k in sub'.kids && k != name { KidKeeps(sub, h, h', k); }
    }
    AbsIs(sub', h', t);
  }

  lemma InsertedKid(sub: Shape, h: Heap, name: Str, s: Shape, h': Heap, k: Str)
    requires Separate(sub) && Linked(sub, h) && Linked(s, h')
    requires Agree(Nodes(sub) - {sub.node}, h, h')
    requires k in sub.kids[name := s]
    ensures Linked(sub.kids[name := s][k], h')
  {
    hide Nodes, Separate, Linked, Wired, Abs, Agree;
    var kid := sub.kids[name := s][k];
    if k == name {
      assert kid == s;
    } else {
      assert kid == sub.kids[k];
      KidKeeps(sub, h, h', k);
    }
  }

  lemma InsertedWires(sub: Shape, h: Heap, name: Str, s: Shape, h': Heap)
    requires Wired(sub, h) && sub.node in h'
    requires h'[sub.node] == Cell(h[sub.node].attr, h[sub.node].links[name := s.node])
    ensures Wired(Shape(sub.node, sub.kids[name := s]), h')
  {
  }

  lemma InsertedLinks(sub: Shape, h: Heap, name: Str, s: Shape, sub': Shape, h': Heap)
    requires Separate(sub) && Linked(sub, h) && Linked(s, h')
    requires sub' == Shape(sub.node, sub.kids[name := s])
    requires Agree(Nodes(sub) - {sub.node}, h, h')
    requires sub.node in h' && h'[sub.node] == Cell(h[sub.node].attr, h[sub.node].links[name := s.node])
    ensures Linked(sub', h')
  {
    LinkedIsWired(sub, h);
    hide Nodes, Separate, Abs, Agree, Wired;
    InsertedWires(sub, h, name, s, h');
    forall k | k in sub'.kids ensures Linked(sub'.kids[k], h') {
      InsertedKid(sub, h, name, s, h', k);
    }
  }

  // ---------------------------------------------------------------- a child edited on a clone

  /** The clone of child `kid`: a new top node over the same grandchildren. */
  lemma CloneShape(kid: Shape, h: Heap, inode: Node, c: Cell, h': Heap)
    requires Separate(kid) && Linked(kid, h) && inode !in Nodes(kid)
    requires inode in h' && h'[inode] == c && c.links == h[kid.node].links
    requires Agree(Nodes(kid) - {kid.node}, h, h')
    ensures Linked(Shape(inode, kid.kids), h')
    ensures Abs(Shape(inode, kid.kids), h') == Inode(c.attr, Abs(kid, h).children)
  {
    CloneLinks(kid, h, inode, c, h');
    hide Nodes, Separate, Linked, Wired, Abs, Agree;
    var s, t := Shape(inode, kid.kids), Inode(c.attr, Abs(kid, h).children);
    forall k
      ensures k in t.children <==> k in s.kids
      ensures k in t.children ==> t.children[k] == Abs(s.kids[k], h')
    {
      AbsKid(kid, h, k);
      if k in s.kids { KidKeeps(kid, h, h', k); }
    }
    AbsIs(s, h', t);
  }

  lemma CloneLinks(kid: Shape, h: Heap, inode: Node, c: Cell, h': Heap)
    requires Separate(kid) && Linked(kid, h)
    requires inode in h' && h'[inode] == c && c.links == h[kid.node].links
    requires Agree(Nodes(kid) - {kid.node}, h, h')
    ensures Linked(Shape(inode, kid.kids), h')
  {
    LinkedIsWired(kid, h);
    CloneWired(kid, h, inode, c, h');
    hide Nodes, Separate, Linked, Wired, Abs, Agree;
    forall k | k in kid.kids ensures Linked(kid.kids[k], h') {
      KidKeeps(kid, h, h', k);
    }
    LinkedAll(Shape(inode, kid.kids), h');
  }

  lemma CloneWired(kid: Shape, h: Heap, inode: Node, c: Cell, h': Heap)
    requires Wired(kid, h) && inode in h' && h'[inode] == c && c.links == h[kid.node].links
    ensures Wired(Shape(inode, kid.kids), h')
  {
  }

  lemma CloneNodes(kid: Shape, inode: Node)
    requires Separate(kid) && inode !in Nodes(kid)
    ensures Separate(Shape(inode, kid.kids))
    ensures Nodes(Shape(inode, kid.kids)) <= Nodes(kid) - {kid.node} + {inode}
  {
  }

  /** The clone fits next to the siblings of the original. */
  lemma CloneFits(sub: Shape, f: Str, inode: Node, name: Str)
    requires Separate(sub) && f in sub.kids && inode !in Nodes(sub)
    requires Nodes(Shape(inode, sub.kids[f].kids)) <= Nodes(sub.kids[f]) + {inode}
    ensures Fits(Shape(sub.node, sub.kids - {f}), name, Shape(inode, sub.kids[f].kids))
  {
  }

  lemma LinkMeansKid(sub: Shape, h: Heap, name: Str)
    requires Linked(sub, h) && name in h[sub.node].links
    ensures name in sub.kids && h[sub.node].links[name] == sub.kids[name].node
  {
  }

  /** The child taken out and its edited clone put back under the same or a free name. */
  lemma Swapped(sh: Shape, h: Heap, p: Path, n: Node, f: Str, name: Str, inode: Node, c: Cell)
    returns (sh': Shape, h': Heap)
    requires Separate(sh) && Linked(sh, h) && Stands(sh, p, n) && n in h && inode !in Nodes(sh)
    requires f in h[n].links && h[n].links[f] in h && c.links == h[h[n].links[f]].links
    ensures h' == h[inode := c][n := Cell(h[n].attr, (h[n].links - {f})[name := inode])]
    ensures sh'.node == sh.node && Separate(sh') && Linked(sh', h') && Nodes(sh') <= Nodes(sh) + {inode}
    ensures Lookup(Abs(sh, h), p).Some?
    ensures var t := Lookup(Abs(sh, h), p).value;
            && f in t.children
            && Abs(sh', h') ==
               ReplaceAt(Abs(sh, h), p,
                         t.(children := (t.children - {f})[name := Inode(c.attr, t.children[f].children)]))
  {
    hide Nodes, Separate, Linked, Wired, Abs, Sub, Agree;
    Standing(sh, h, p, n);
    SubNodes(sh, p);
    var sub := Sub(sh, p).value;
    LinkMeansKid(sub, h, f);
    var top := Cell(h[n].attr, (h[n].links - {f})[name := inode]);
    h' := h[inode := c][n := top];
    AgreeEdited(Nodes(sh), h, inode, c, n, top);
    var sub' := SwappedHere(sub, h, f, name, inode, c, h');
    sh' := Graft(sh, h, p, sub', h', {inode});
  }

  lemma SwappedAgree(sub: Shape, h: Heap, f: Str, inode: Node, c: Cell, top: Cell, h': Heap)
    requires Separate(sub) && f in sub.kids && inode !in Nodes(sub) && sub.node in h
    requires sub.node in h' && h' == h[inode := c][sub.node := h'[sub.node]]
    ensures Agree(Nodes(sub.kids[f]) - {sub.kids[f].node}, h, h')
    ensures Agree(Nodes(Shape(sub.node, sub.kids - {f})) - {sub.node}, h[sub.node := top], h')
  {
    KidFacts(sub, f);
    DroppedNodes(sub, f, Shape(sub.node, sub.kids - {f}));
  }

  lemma SwappedHere(sub: Shape, h: Heap, f: Str, name: Str, inode: Node, c: Cell, h': Heap) returns (sub': Shape)
    requires Separate(sub) && Linked(sub, h) && inode !in Nodes(sub)
    requires f in sub.kids && sub.kids[f].node in h && c.links == h[sub.kids[f].node].links
    requires h' == h[inode := c][sub.node := Cell(h[sub.node].attr, (h[sub.node].links - {f})[name := inode])]
    ensures sub'.node == sub.node && Separate(sub') && Linked(sub', h') && Nodes(sub') <= Nodes(sub) + {inode}
    ensures f in Abs(sub, h).children
    ensures var t := Abs(sub, h);
            Abs(sub', h') ==
            t.(children := (t.children - {f})[name := Inode(c.attr, t.children[f].children)])
  {
    KidFacts(sub, f);
    KidLinked(sub, h, f);
    var h1 := h[sub.node := Cell(h[sub.node].attr, h[sub.node].links - {f})];
    SwappedAgree(sub, h, f, inode, c, h1[sub.node], h');
    hide Nodes, Separate, Linked, Wired, Abs, Agree;
    var kid, sub1 := sub.kids[f], Shape(sub.node, sub.kids - {f});
    DroppedNodes(sub, f, sub1);
    DroppedHere(sub, h, f, sub1, h1);
    CloneNodes(kid, inode);
    CloneShape(kid, h, inode, c, h');
    var s := Shape(inode, kid.kids);
    CloneFits(sub, f, inode, name);
    sub' := Shape(sub.node, sub1.kids[name := s]);
    InsertedNodes(sub1, name, s, sub');
    InsertedHere(sub1, h1, name, s, sub', h');
  }
}
