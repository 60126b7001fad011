/** The in-place tree of libs/planten_fs_ramfs/src/lib.rs, cursor by cursor, proved against the value tree. */
module RamFiles {
  import opened Bytes
  import opened Paths
  import opened Stats
  import opened Tree
  import T = Tree
  import opened Shapes
  import TreeLaws
  import Sorting

  /** `clone()` of a whole subtree. */
  function Snapshot(n: Node, ghost sh: Shape, ghost h: Heap): (t: Inode)
    requires n == sh.node && Linked(sh, h) && Mirrors(h, Nodes(sh))
    reads Nodes(sh)
    ensures t == Abs(sh, h)
    decreases sh
  {
    Inode(n.Attrs(), map k | k in n.children :: Snapshot(n.children[k], sh.kids[k], h))
  }

  /** A path that breaks off before its end has nothing to remove. */
  lemma MissingOnTheWay(t: Inode, p: Path, i: nat)
    requires i + 1 < |p| && Lookup(t, p[..i + 1]).None?
    ensures T.Remove(t, p).None?
  {
    TreeLaws.LookupPrefixes(t, Pop(p));
    assert Pop(p)[..i + 1] == p[..i + 1];
  }

  class RamFs {
    var root: Node
    ghost var shape: Shape
    ghost var heap: Heap

    ghost predicate Valid()
      reads this, Nodes(shape)
    {
      shape.node == root && Separate(shape) && Linked(shape, heap) && Mirrors(heap, Nodes(shape))
    }

    /** The tree held now. */
    ghost function Tree(): Inode
      reads this
    {
      Abs(shape, heap)
    }

    /** `RamFs::new` */
    constructor (now: U32)
      ensures Valid() && fresh(Nodes(shape)) && Tree() == NewRoot(now)
    {
      var node := new Node(ROOT, DIR_MODE, now);
      root := node;
      shape := Shape(node, map[]);
      heap := map[node := Cell(node.Attrs(), node.children)];
      new;
      assert Nodes(shape) == {node};
    }

    /** `stat`: the cursor walk and the clone. */
    method Stat(path: Str) returns (r: Option<Inode>)
      requires Valid()
      ensures r == Lookup(Tree(), Components(path))
    {
      var components := Components(path);
      var current := root;
      var i := 0;
      while i < |components|
        invariant i <= |components| && Stands(shape, components[..i], current)
      {
        Moving(shape, heap, components, i, current);
        if components[i] in current.children {
          current := current.children[components[i]];
        } else {
          return None;
        }
        i := i + 1;
      }
      assert components[..i] == components;
      Standing(shape, heap, components, current);
      ghost var sub := Sub(shape, components).value;
      SubNodes(shape, components);
      SubFacts(shape, heap, components);
      r := Some(Snapshot(current, sub, heap));
    }

    /** `read_file`: the data of the node at a path with at least one component. */
    method ReadFile(path: Str) returns (r: Option<seq<Byte>>)
      requires Valid()
      ensures r == if Components(path) == [] then None
                   else match Lookup(Tree(), Components(path)) case None => None case Some(n) => Some(n.attr.data)
    {
      var components := Components(path);
      var current := root;
      var i := 0;
      while i < |components|
        invariant i <= |components| && Stands(shape, components[..i], current)
        invariant i == |components| ==> i == 0
      {
        Moving(shape, heap, components, i, current);
        if components[i] in current.children {
          var node := current.children[components[i]];
          if i == |components| - 1 {
            assert components[..i + 1] == components;
            Standing(shape, heap, components, node);
            return Some(node.data);
          }
          current := node;
        } else {
          return None;
        }
        i := i + 1;
      }
      r := None;
    }

    /** `list_dir`: the names of the children in byte order. */
    method ListDir(path: Str) returns (r: Option<seq<Str>>)
      requires Valid()
      ensures r == match Lookup(Tree(), Components(path))
                   case None => None
                   case Some(n) => Some(Sorting.Sorted(n.children.Keys))
    {
      var components := Components(path);
      var current := root;
      var i := 0;
      while i < |components|
        invariant i <= |components| && Stands(shape, components[..i], current)
      {
        Moving(shape, heap, components, i, current);
        if components[i] in current.children {
          current := current.children[components[i]];
        } else {
          return None;
        }
        i := i + 1;
      }
      assert components[..i] == components;
      Standing(shape, heap, components, current);
      assert current.children.Keys == Lookup(Tree(), components).value.children.Keys;
      r := Some(Sorting.Sorted(current.children.Keys));
    }

    // -------------------------------------------------------------- changes at the cursor

    /** `children.insert(name, leaf)` on the node at `p`, for a node without children. */
    method Insert(current: Node, name: Str, leaf: Node, ghost p: Path)
      requires Valid() && Stands(shape, p, current)
      requires leaf !in Nodes(shape) && leaf.children == map[]
      modifies this`shape, this`heap, current`children
      ensures Valid() && Nodes(shape) <= old(Nodes(shape)) + {leaf}
      ensures Stands(shape, p, current) && current.children == old(current.children)[name := leaf]
      ensures Lookup(old(Tree()), p).Some?
      ensures var t := Lookup(old(Tree()), p).value;
              Tree() == ReplaceAt(old(Tree()), p, t.(children := t.children[name := Inode(old(leaf.Attrs()), map[])]))
    {
      hide Nodes, Separate, Linked, Wired, Abs, Sub;
      Standing(shape, heap, p, current);
      shape, heap := Attached(shape, heap, p, current, name, leaf, leaf.Attrs());
      current.children := current.children[name := leaf];
    }

    /** `children.remove(name)` on the node at `p`. */
    method Drop(current: Node, name: Str, ghost p: Path)
      requires Valid() && Stands(shape, p, current)
      modifies this`shape, this`heap, current`children
      ensures Valid() && Nodes(shape) <= old(Nodes(shape))
      ensures Lookup(old(Tree()), p).Some?
      ensures var t := Lookup(old(Tree()), p).value;
              Tree() == ReplaceAt(old(Tree()), p, t.(children := t.children - {name}))
    {
      hide Nodes, Separate, Linked, Wired, Abs, Sub;
      SubNodes(shape, p);
      Standing(shape, heap, p, current);
      shape, heap := Dropped(shape, heap, p, current, name);
      current.children := current.children - {name};
    }

    /** The data and the time of the node at `p`. */
    method Overwrite(current: Node, offset: nat, bytes: seq<Byte>, now: U32, ghost p: Path)
      requires Valid() && Stands(shape, p, current)
      modifies this`heap, current`data, current`mtime
      ensures Valid() && shape == old(shape) && Lookup(old(Tree()), p).Some?
      ensures var t := Lookup(old(Tree()), p).value;
              Tree() == ReplaceAt(old(Tree()), p, t.(attr := WriteAttr(t.attr, offset, bytes, now)))
    {
      hide Nodes, Separate, Linked, Wired, Abs, Sub;
      Standing(shape, heap, p, current);
      current.WriteAt(offset, bytes, now);
      FieldsSet(shape, heap, p, current, current.Attrs());
      heap := heap[current := Cell(current.Attrs(), current.children)];
    }

    /** `children.remove(..).map(..)` with the cursor at the parent of `p`. */
    method DropChild(current: Node, name: Str, ghost p: Path) returns (r: bool)
      requires Valid() && p != [] && name == Last(p) && Stands(shape, Pop(p), current)
      modifies this`shape, this`heap, current`children
      ensures Valid() && Nodes(shape) <= old(Nodes(shape))
      ensures match T.Remove(old(Tree()), p)
              case None => !r && Tree() == old(Tree())
              case Some(t) => r && Tree() == t
    {
      hide Nodes, Separate, Linked, Wired, Abs, Sub;
      Standing(shape, heap, Pop(p), current);
      r := name in current.children;
      if r {
        Drop(current, name, Pop(p));
      }
    }

    // -------------------------------------------------------------- mutating operations

    /** `write`: grow with zeros up to the end of the write, copy the bytes in, stamp the time. */
    method Write(path: Str, offset: U64, bytes: seq<Byte>, now: U32) returns (r: Option<U32>)
      requires Valid()
      modifies this, Nodes(shape)
      ensures Valid() && fresh(Nodes(shape) - old(Nodes(shape)))
      ensures match T.Write(old(Tree()), Components(path), offset, bytes, now)
              case None => r == None && Tree() == old(Tree())
              case Some(t) => r == Some(|bytes| % 0x1_0000_0000) && Tree() == t
    {
      hide Nodes, Separate, Linked, Wired, Abs, Sub;
      var components := Components(path);
      if components == [] {
        return None;
      }
      var current := root;
      Starting(shape, components);
      var i := 0;
      while i < |components|
        invariant i <= |components| && Stands(shape, components[..i], current)
        invariant Valid() && Tree() == old(Tree()) && shape == old(shape)
      {
        Moving(shape, heap, components, i, current);
        if components[i] in current.children {
          current := current.children[components[i]];
        } else {
          return None;
        }
        i := i + 1;
      }
      assert components[..i] == components;
      Standing(shape, heap, components, current);
      Overwrite(current, offset, bytes, now, components);
      r := Some(|bytes| % 0x1_0000_0000);
    }

    /** `remove`: the cursor stops at the parent and takes the child out of its map. */
    method Remove(path: Str) returns (r: bool)
      requires Valid()
      modifies this, Nodes(shape)
      ensures Valid() && fresh(Nodes(shape) - old(Nodes(shape)))
      ensures match T.Remove(old(Tree()), Components(path))
              case None => !r && Tree() == old(Tree())
              case Some(t) => r && Tree() == t
    {
      hide Nodes, Separate, Linked, Wired, Abs, Sub, Lookup;
      var components := Components(path);
      var current := root;
      Starting(shape, components);
      var i := 0;
      while i < |components|
        invariant i <= |components| && Stands(shape, components[..i], current)
        invariant i == |components| ==> i == 0
        invariant Valid() && Tree() == old(Tree()) && shape == old(shape)
      {
        Moving(shape, heap, components, i, current);
        if i == |components| - 1 {
          assert components[..i] == Pop(components);
          r := DropChild(current, components[i], components);
          return;
        }
        if components[i] in current.children {
          current := current.children[components[i]];
        } else {
          MissingOnTheWay(Tree(), components, i);
          return false;
        }
        i := i + 1;
      }
      r := false;
    }

    /** `create_file` and `create_dir`: missing ancestors are made on the way down, the leaf at the end. */
    method Create(path: Str, kind: Kind, now: U32)
      requires Valid()
      modifies this, Nodes(shape)
      ensures Valid() && fresh(Nodes(shape) - old(Nodes(shape)))
      ensures Tree() == Make(old(Tree()), Components(path), kind, now)
    {
      hide Nodes, Separate, Linked, Wired, Abs, Sub;
      var components := Components(path);
      var current := root;
      Starting(shape, components);
      for i := 0 to |components|
        invariant Valid() && fresh(Nodes(shape) - old(Nodes(shape)))
        invariant i < |components| ==> Stands(shape, components[..i], current)
        invariant i < |components| ==>
                    Make(Tree(), components, kind, now) == Make(old(Tree()), components, kind, now)
        invariant i == |components| ==> Tree() == Make(old(Tree()), components, kind, now)
      {
        var component := components[i];
        ghost var here := components[..i];
        Standing(shape, heap, here, current);
        if i == |components| - 1 {
          assert here == Pop(components);
          TreeLaws.MakeIsReplace(Tree(), components, kind, now);
          CreateLeaf(current, component, kind, now, here);
        } else {
          MakeStep(Tree(), components, i, kind, now);
          EnsureDir(current, component, now, here);
          Moving(shape, heap, components, i, current);
          current := current.children[component];
        }
      }
    }

    /** The last component: `insert` for a file, `entry(..).or_insert_with(..)` for a directory. */
    method CreateLeaf(current: Node, name: Str, kind: Kind, now: U32, ghost p: Path)
      requires Valid() && Stands(shape, p, current)
      modifies this`shape, this`heap, current`children
      ensures Valid() && fresh(Nodes(shape) - old(Nodes(shape)))
      ensures Lookup(old(Tree()), p).Some?
      ensures Tree() == ReplaceAt(old(Tree()), p, WithLeaf(Lookup(old(Tree()), p).value, name, kind, now))
    {
      hide Nodes, Separate, Linked, Wired, Abs, Sub;
      Standing(shape, heap, p, current);
      if kind.Dir? && name in current.children {
        TreeLaws.ReplaceTwice(Tree(), p, Lookup(Tree(), p).value, Lookup(Tree(), p).value);
      } else {
        var leaf := new Node(name, if kind.Dir? then DIR_MODE else FILE_MODE, now);
        if kind.File? {
          leaf.data := kind.data;
        }
        Insert(current, name, leaf, p);
      }
    }

    /** A component on the way: `entry(..).or_insert_with(..)`. */
    method EnsureDir(current: Node, name: Str, now: U32, ghost p: Path)
      requires Valid() && Stands(shape, p, current)
      modifies this`shape, this`heap, current`children
      ensures Valid() && fresh(Nodes(shape) - old(Nodes(shape)))
      ensures Stands(shape, p, current) && name in current.children
      ensures Lookup(old(Tree()), p).Some?
      ensures Tree() == ReplaceAt(old(Tree()), p, WithDir(Lookup(old(Tree()), p).value, name, now))
    {
      hide Nodes, Separate, Linked, Wired, Abs, Sub;
      Standing(shape, heap, p, current);
      if name in current.children {
        TreeLaws.ReplaceTwice(Tree(), p, Lookup(Tree(), p).value, Lookup(Tree(), p).value);
      } else {
        var dir := new Node(name, DIR_MODE, now);
        Insert(current, name, dir, p);
      }
    }

    /** `wstat_from_stat`: edit a clone of the child, then put it back under its old or its new name. */
    method WstatFromStat(path: Str, stat: Stat) returns (r: bool)
      requires Valid()
      modifies this, Nodes(shape)
      ensures Valid() && fresh(Nodes(shape) - old(Nodes(shape)))
      ensures match Wstat(old(Tree()), Components(path), stat)
              case None => !r && Tree() == old(Tree())
              case Some(t) => r && Tree() == t
    {
      hide Nodes, Separate, Linked, Wired, Abs, Sub;
      var components := Components(path);
      if components == [] {
        Starting(shape, []);
        Standing(shape, heap, [], root);
        EditRoot(stat);
        return true;
      }
      var filename, parts := Last(components), Pop(components);
      var current := root;
      Starting(shape, parts);
      var i := 0;
      while i < |parts|
        invariant i <= |parts| && Stands(shape, parts[..i], current)
        invariant Valid() && Tree() == old(Tree()) && shape == old(shape)
      {
        Moving(shape, heap, parts, i, current);
        if parts[i] !in current.children {
          return false;
        }
        current := current.children[parts[i]];
        i := i + 1;
      }
      assert parts[..i] == parts;
      Standing(shape, heap, parts, current);
      r := EditChildOf(current, filename, stat, parts);
    }

    /** The part of `wstat_from_stat` after the cursor has reached the parent. */
    method EditChildOf(current: Node, filename: Str, stat: Stat, ghost p: Path) returns (r: bool)
      requires Valid() && Stands(shape, p, current)
      modifies this`shape, this`heap, current`children
      ensures Valid() && fresh(Nodes(shape) - old(Nodes(shape)))
      ensures Lookup(old(Tree()), p).Some?
      ensures match EditChild(Lookup(old(Tree()), p).value, filename, stat)
              case None => !r && Tree() == old(Tree())
              case Some(parent) => r && Tree() == ReplaceAt(old(Tree()), p, parent)
    {
      hide Nodes, Separate, Linked, Wired, Abs, Sub;
      Standing(shape, heap, p, current);
      if filename !in current.children {
        return false;
      }
      ChildStanding(shape, heap, p, current, filename);
      var inode := new Node.CloneOf(current.children[filename]);
      inode.Edit(stat);
      var name := filename;
      if stat.name != [] && stat.name != filename {
        if stat.name in current.children {
          return false;
        }
        inode.name := stat.name;
        name := stat.name;
      }
      ghost var parent := Lookup(Tree(), p).value;
      ghost var node := Inode(inode.Attrs(), parent.children[filename].children);
      assert (parent.children - {filename})[filename := node] == parent.children[filename := node];
      Put(current, filename, name, inode, p);
      r := true;
    }

    /** The root branch of `wstat_from_stat`. */
    method EditRoot(stat: Stat)
      requires Valid()
      modifies this`heap, root
      ensures Valid() && shape == old(shape)
      ensures Tree() == old(Tree()).(attr := EditRootAttr(old(Tree()).attr, stat))
    {
      hide Nodes, Separate, Linked, Wired, Abs, Sub;
      Starting(shape, []);
      Standing(shape, heap, [], root);
      root.EditTop(stat);
      FieldsSet(shape, heap, [], root, root.Attrs());
      heap := heap[root := Cell(root.Attrs(), root.children)];
    }

    /** The edited clone takes the place of the child at the cursor. */
    method Put(current: Node, filename: Str, name: Str, inode: Node, ghost p: Path)
      requires Valid() && Stands(shape, p, current) && inode !in Nodes(shape)
      requires filename in current.children && (name == filename || name !in current.children)
      requires current.children[filename] in Nodes(shape) && inode.children == current.children[filename].children
      modifies this`shape, this`heap, current`children
      ensures Valid() && Nodes(shape) <= old(Nodes(shape)) + {inode}
      ensures Lookup(old(Tree()), p).Some?
      ensures var t := Lookup(old(Tree()), p).value;
              && filename in t.children
              && Tree() == ReplaceAt(old(Tree()), p,
                                     t.(children := (t.children - {filename})
                                                    [name := Inode(old(inode.Attrs()), t.children[filename].children)]))
    {
      hide Nodes, Separate, Linked, Wired, Abs, Sub;
      Standing(shape, heap, p, current);
      shape, heap := Swapped(shape, heap, p, current, filename, name, inode, Cell(inode.Attrs(), inode.children));
      current.Exchange(filename, name, inode);
    }
  }
}
