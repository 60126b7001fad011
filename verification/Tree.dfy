/** The file tree as a value: what each RamFs operation computes
    (libs/planten_fs_core/src/lib.rs:3-32, libs/planten_fs_ramfs/src/lib.rs). */
module Tree {
  import opened Bytes
  import opened Paths
  import opened Stats

  const DMDIR: U32 := 0x8000_0000
  const FILE_MODE: U32 := 0x1A4         // 0o644
  const DIR_MODE: U32 := 0x8000_01ED    // 0o755 | DMDIR

  /** Every field of an inode but its children. */
  datatype Attr = Attr(
    name: Str,
    data: seq<Byte>,
    mode: U32,
    uid: Str,
    gid: Str,
    atime: U32,
    mtime: U32)

  datatype Inode = Inode(attr: Attr, children: map<Str, Inode>)

  /** `mode & 0x80000000 != 0` */
  predicate IsDirMode(mode: U32) { mode >= DMDIR }

  function FreshAttr(name: Str, mode: U32, now: U32): Attr {
    Attr(name, [], mode, USER, GROUP, now, now)
  }

  function NewRoot(now: U32): Inode {
    Inode(FreshAttr(ROOT, DIR_MODE, now), map[])
  }

  // ---------------------------------------------------------------- navigation

  function Last(p: Path): Str
    requires p != []
  {
    p[|p| - 1]
  }

  function Lookup(t: Inode, p: Path): Option<Inode>
    decreases p
  {
    if p == [] then Some(t)
    else if p[0] in t.children then Lookup(t.children[p[0]], p[1..])
    else None
  }

  /** `t` with the node at the existing path `p` exchanged for `sub`. */
  function ReplaceAt(t: Inode, p: Path, sub: Inode): Inode
    requires Lookup(t, p).Some?
    decreases p
  {
    if p == [] then sub
    else t.(children := t.children[p[0] := ReplaceAt(t.children[p[0]], p[1..], sub)])
  }

  // ---------------------------------------------------------------- operations

  /** What the last component of a creation becomes. */
  datatype Kind = File(data: seq<Byte>) | Dir

  /** `entry(name).or_insert_with(..)` on one directory. */
  function WithDir(t: Inode, name: Str, now: U32): Inode {
    if name in t.children then t
    else t.(children := t.children[name := Inode(FreshAttr(name, DIR_MODE, now), map[])])
  }

  function LeafAttr(name: Str, kind: Kind, now: U32): Attr {
    match kind
    case Dir => FreshAttr(name, DIR_MODE, now)
    case File(data) => FreshAttr(name, FILE_MODE, now).(data := data)
  }

  /** A directory yields to what is there already, a file takes its place. */
  function WithLeaf(t: Inode, name: Str, kind: Kind, now: U32): Inode {
    if kind.Dir? && name in t.children then t
    else t.(children := t.children[name := Inode(LeafAttr(name, kind, now), map[])])
  }

  /** `create_file` and `create_dir`: make the missing ancestors, then the leaf. */
  function Make(t: Inode, p: Path, kind: Kind, now: U32): Inode
    decreases p
  {
    if p == [] then t
    else if |p| == 1 then WithLeaf(t, p[0], kind, now)
    else
      var t' := WithDir(t, p[0], now);
      t'.(children := t'.children[p[0] := Make(t'.children[p[0]], p[1..], kind, now)])
  }

  function Remove(t: Inode, p: Path): Option<Inode> {
    if p == [] then None
    else match Lookup(t, Pop(p))
      case None => None
      case Some(parent) =>
        if Last(p) in parent.children
        then Some(ReplaceAt(t, Pop(p), parent.(children := parent.children - {Last(p)})))
        else None
  }

  function Zeros(n: nat): seq<Byte> { seq(n, _ => 0) }

  /** `Vec::resize(n, 0)` */
  function Resize(data: seq<Byte>, n: nat): (r: seq<Byte>)
    ensures |r| == n
  {
    if n <= |data| then data[..n] else data + Zeros(n - |data|)
  }

  /** The data after a write of `bytes` at `offset`: grown with zeros up to the end of the write, then overwritten. */
  function WriteData(data: seq<Byte>, offset: nat, bytes: seq<Byte>): (r: seq<Byte>)
    ensures |r| == if offset + |bytes| > |data| then offset + |bytes| else |data|
  {
    var end := offset + |bytes|;
    var room := if end > |data| then Resize(data, end) else data;
    room[..offset] + bytes + room[end..]
  }

  function WriteAttr(a: Attr, offset: nat, bytes: seq<Byte>, now: U32): Attr {
    a.(data := WriteData(a.data, offset, bytes), mtime := now)
  }

  function Write(t: Inode, p: Path, offset: nat, bytes: seq<Byte>, now: U32): Option<Inode> {
    if p == [] then None
    else match Lookup(t, p)
      case None => None
      case Some(node) => Some(ReplaceAt(t, p, node.(attr := WriteAttr(node.attr, offset, bytes, now))))
  }

  /** The fields a Twstat changes on the root: mode, mtime and gid, never length or name. */
  function EditRootAttr(a: Attr, stat: Stat): Attr {
    a.(mode := if stat.mode != KEEP32 then stat.mode else a.mode,
       mtime := if stat.mtime != KEEP32 then stat.mtime else a.mtime,
       gid := if stat.gid != [] then stat.gid else a.gid)
  }

  /** The fields a Twstat changes elsewhere: those and the length. */
  function EditAttr(a: Attr, stat: Stat): Attr {
    EditRootAttr(a, stat).(data := if stat.length != KEEP64 then Resize(a.data, stat.length) else a.data)
  }

  predicate Renames(stat: Stat, filename: Str) {
    stat.name != [] && stat.name != filename
  }

  /** The directory with its child edited, and moved to the new name when there is one. */
  function EditChild(parent: Inode, filename: Str, stat: Stat): Option<Inode> {
    if filename !in parent.children then None
    else
      var node := parent.children[filename];
      var edited := node.(attr := EditAttr(node.attr, stat));
      if Renames(stat, filename) then
        if stat.name in parent.children then None
        else
          var renamed := edited.(attr := edited.attr.(name := stat.name));
          Some(parent.(children := (parent.children - {filename})[stat.name := renamed]))
      else
        Some(parent.(children := parent.children[filename := edited]))
  }

  function Wstat(t: Inode, p: Path, stat: Stat): Option<Inode> {
    if p == [] then Some(t.(attr := EditRootAttr(t.attr, stat)))
    else match Lookup(t, Pop(p))
      case None => None
      case Some(parent) =>
        match EditChild(parent, Last(p), stat)
        case None => None
        case Some(parent') => Some(ReplaceAt(t, Pop(p), parent'))
  }

  // ---------------------------------------------------------------- lookups

  lemma {:induction false} LookupConcat(t: Inode, p: Path, q: Path)
    ensures Lookup(t, p + q) ==
            match Lookup(t, p) case None => None case Some(n) => Lookup(n, q)
    decreases p
  {
    if p == [] {
      assert p + q == q;
    } else {
      assert (p + q)[1..] == p[1..] + q;
      if p[0] in t.children {
        LookupConcat(t.children[p[0]], p[1..], q);
      }
    }
  }

  lemma LookupLast(t: Inode, p: Path)
    requires p != []
    ensures Lookup(t, p) ==
            match Lookup(t, Pop(p))
            case None => None
            case Some(n) => if Last(p) in n.children then Some(n.children[Last(p)]) else None
  {
    assert p == Pop(p) + [Last(p)];
    LookupConcat(t, Pop(p), [Last(p)]);
  }

  lemma LookupPrefix(t: Inode, p: Path, q: Path)
    requires p <= q && Lookup(t, q).Some?
    ensures Lookup(t, p).Some?
  {
    assert q == p + q[|p|..];
    LookupConcat(t, p, q[|p|..]);
  }

  /** Exchanging the node at `p` changes what is at or below `p`, and nothing else but the ancestors' children. */
  lemma {:induction false} LookupReplaced(t: Inode, p: Path, sub: Inode, q: Path)
    requires Lookup(t, p).Some?
    ensures p <= q ==> Lookup(ReplaceAt(t, p, sub), q) == Lookup(sub, q[|p|..])
    ensures !(p <= q) && !(q <= p) ==> Lookup(ReplaceAt(t, p, sub), q) == Lookup(t, q)
    ensures !(p <= q) ==> At(ReplaceAt(t, p, sub), q) == At(t, q)
    decreases p
  {
    if p == [] {
      assert q[0..] == q;
    } else if q != [] && q[0] == p[0] {
      LookupReplaced(t.children[p[0]], p[1..], sub, q[1..]);
      PrefixTails(p, q);
      PrefixTails(q, p);
    }
  }

  lemma PrefixTails(p: Path, q: Path)
    requires p != [] && q != [] && p[0] == q[0]
    ensures p <= q <==> p[1..] <= q[1..]
    ensures p <= q ==> q[1..][|p| - 1..] == q[|p|..]
  {
    assert p == [p[0]] + p[1..] && q == [q[0]] + q[1..];
  }

  // ---------------------------------------------------------------- node attributes

  /** What a stat of the component list `q` shows. */
  function At(t: Inode, q: Path): Option<Attr> {
    match Lookup(t, q)
    case None => None
    case Some(n) => Some(n.attr)
  }

  /** Making one missing directory on the way leaves the rest of a creation as it was. */
  lemma {:induction false} MakeStep(t: Inode, p: Path, i: nat, kind: Kind, now: U32)
    requires i + 1 < |p| && Lookup(t, p[..i]).Some?
    ensures var here := Lookup(t, p[..i]).value;
            && Make(ReplaceAt(t, p[..i], WithDir(here, p[i], now)), p, kind, now) == Make(t, p, kind, now)
            && (p[i] in here.children ==> WithDir(here, p[i], now) == here)
    decreases p
  {
    if i > 0 {
      assert p[..i][1..] == p[1..][..i - 1];
      MakeStep(t.children[p[0]], p[1..], i - 1, kind, now);
    }
  }
}
