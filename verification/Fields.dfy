/** What each operation on the tree does to every node, field by field
    (libs/planten_fs_core/src/lib.rs:15-32, libs/planten_fs_ramfs/src/lib.rs:14-85, 116-132, 149-183). */
module Fields {
  import opened Bytes
  import opened Paths
  import opened Stats
  import opened Tree
  import opened Flat
  import opened TreeLaws

  /** A node just made: owned by "user" and "group", both times those of its creation. */
  predicate JustMade(a: Attr, name: Str, data: seq<Byte>, mode: U32, now: U32) {
    && a.name == name && a.data == data && a.mode == mode
    && a.uid == Text("user") && a.gid == Text("group") && a.atime == now && a.mtime == now
  }

  /** `data` with `bytes` from `offset` on, and zeros in a gap between its end and there. */
  predicate Overwritten(data: seq<Byte>, offset: nat, bytes: seq<Byte>, after: seq<Byte>) {
    && |after| == (if |data| < offset + |bytes| then offset + |bytes| else |data|)
    && forall i :: 0 <= i < |after| ==>
         after[i] == if offset <= i < offset + |bytes| then bytes[i - offset] else if i < |data| then data[i] else 0
  }

  /** `data` cut or extended with zeros to `n` bytes. */
  predicate Resized(data: seq<Byte>, n: nat, after: seq<Byte>) {
    |after| == n && forall i :: 0 <= i < n ==> after[i] == if i < |data| then data[i] else 0
  }

  /** A fresh file system is a directory "/" of mode 0o755 and nothing else. */
  lemma RootIsMade(now: U32, q: Path)
    ensures var a := At(NewRoot(now), q);
            if q == [] then a.Some? && JustMade(a.value, Text("/"), [], 0x8000_01ED, now) else a == None
  {
    assert Text("/") == [0x2F];
  }

  // ---------------------------------------------------------------- create

  /** What a path shows after a creation: a file is new and empty of children whatever was there, of mode 0o644 and with
      the given data; a directory, and each ancestor that was missing, is new only where nothing was, empty and of mode
      0o755 with the directory bit. */
  lemma MadeFields(t: Inode, p: Path, kind: Kind, now: U32, q: Path)
    requires p != []
    ensures var before, after := At(t, q), At(Make(t, p, kind, now), q);
            if q == p && kind.File? then
              after.Some? && JustMade(after.value, p[|p| - 1], kind.data, 0x1A4, now)
            else if q != [] && q <= p && before.None? then
              after.Some? && JustMade(after.value, q[|q| - 1], [], 0x8000_01ED, now)
            else if p <= q && kind.File? then after.None?
            else after == before
  {
    MakeAt(t, p, kind, now, q);
    if p <= q && Lookup(t, p).None? && At(t, q).Some? { LookupPrefix(t, p, q); }
    if q <= p && Lookup(t, p).Some? { LookupPrefix(t, q, p); }
  }

  // ---------------------------------------------------------------- write

  /** A write is refused exactly when nothing is there, or for the root. It changes the data and sets the mtime of its
      file, keeps every other field of it, and every other node. */
  lemma WrittenFields(t: Inode, p: Path, offset: nat, bytes: seq<Byte>, now: U32, q: Path)
    ensures Tree.Write(t, p, offset, bytes, now).Some? <==> p != [] && At(t, p).Some?
    ensures Tree.Write(t, p, offset, bytes, now).Some? ==>
              var before, after := At(t, q), At(Tree.Write(t, p, offset, bytes, now).value, q);
              if q == p then
                && after.Some? && Overwritten(before.value.data, offset, bytes, after.value.data)
                && after.value.mtime == now
                && after.value.name == before.value.name && after.value.mode == before.value.mode
                && after.value.uid == before.value.uid && after.value.gid == before.value.gid
                && after.value.atime == before.value.atime
              else after == before
  {
    if p != [] && At(t, p).Some? {
      var node := Lookup(t, p).value;
      AttrChangeAt(t, p, WriteAttr(node.attr, offset, bytes, now), q);
    }
  }

  // ---------------------------------------------------------------- wstat

  /** What a granted wstat leaves of a node: mode, mtime and gid are set unless the stat leaves them alone, with all
      ones or the empty string; so is the length, but never the root's; owner and atime stay. */
  predicate Edited(a: Attr, b: Attr, stat: Stat, root: bool, name: Str) {
    && b.name == name && b.uid == a.uid && b.atime == a.atime
    && b.mode == (if stat.mode != 0xFFFF_FFFF then stat.mode else a.mode)
    && b.mtime == (if stat.mtime != 0xFFFF_FFFF then stat.mtime else a.mtime)
    && b.gid == (if stat.gid != [] then stat.gid else a.gid)
    && (if root || stat.length == 0xFFFF_FFFF_FFFF_FFFF then b.data == a.data
        else Resized(a.data, stat.length, b.data))
  }

  /** The stat gives the node at `p` another name: never the root. */
  predicate GivesName(stat: Stat, p: Path) {
    p != [] && stat.name != [] && stat.name != p[|p| - 1]
  }

  /** Where the node at `p` is after a wstat. */
  function Moved(p: Path, stat: Stat): Path {
    if GivesName(stat, p) then p[..|p| - 1] + [stat.name] else p
  }

  /** A wstat edits one node, where it is or under its new name; what was below it comes along as it was, nothing stays
      at the old name, and every other node is kept. */
  lemma WstatFields(t: Inode, p: Path, stat: Stat, q: Path)
    requires Wstat(t, p, stat).Some?
    ensures var before, after, p' := At(t, q), At(Wstat(t, p, stat).value, q), Moved(p, stat);
            && At(t, p).Some?
            && if q == p' then
                 && after.Some?
                 && Edited(At(t, p).value, after.value, stat, p == [],
                           if GivesName(stat, p) then stat.name else At(t, p).value.name)
               else if p' <= q && GivesName(stat, p) then after == At(t, p + q[|p'|..])
               else if p <= q && GivesName(stat, p) then after == None
               else after == before
  {
    WstatOutcome(t, p, stat);
    var node := Lookup(t, p).value;
    if p == [] {
      AttrChangeAt(t, p, EditRootAttr(t.attr, stat), q);
    } else if GivesName(stat, p) {
      RenameAt(t, p, stat, q);
    } else {
      EditIsReplace(t, p, node.(attr := EditAttr(node.attr, stat)));
      LookupLast(t, p);
      AttrChangeAt(t, p, EditAttr(node.attr, stat), q);
    }
  }

  // ---------------------------------------------------------------- remove

  /** A remove is refused exactly when nothing is there, or for the root; it takes the node with all below it, and keeps
      every other. */
  lemma RemovedFields(t: Inode, p: Path, q: Path)
    ensures Remove(t, p).Some? <==> p != [] && At(t, p).Some?
    ensures Remove(t, p).Some? ==> At(Remove(t, p).value, q) == if p <= q then None else At(t, q)
  {
    if p != [] {
      LookupLast(t, p);
      if Lookup(t, p).Some? { RemoveAt(t, p, q); }
    }
  }
}
