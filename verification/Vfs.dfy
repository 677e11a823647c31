// The operations on the tree of nodes (src/mock_libc/vfs.c).
module Vfs {
  import opened Common
  import opened FsModel
  import opened NodeLayout

  class FileSystem {
    var root: Node
    ghost var fs: Fs
    ghost var at: Nodes
    ghost var nodes: set<Node>

    ghost predicate Valid()
      reads this, nodes
    {
      Within(at, nodes) && Laid(fs, at, ViewsOf(at, nodes), root)
    }

    constructor ()
      ensures Valid() && fs == map[Root := Entry([], [])] && fresh(nodes)
    {
      var n := new Node(null, []);
      root := n;
      fs, at, nodes := map[Root := Entry([], [])], map[Root := n], {n};
    }

    ghost predicate StateBut(D: set<Path>)
      reads this, nodes
    {
      Within(at, nodes) && LaidBut(fs, at, ViewsOf(at, nodes), root, D)
    }

    lemma ValidIsState()
      ensures Valid() <==> StateBut({})
    {
      NothingDetached(fs);
    }

    lemma Sound()
      requires Valid()
      ensures WellFormed(fs) && fs.Keys == at.Keys && Root in fs && root == at[Root]
      ensures Within(at, nodes) && Injective(at)
    {
    }

    /** What the pointers of p's children say. */
    lemma Walk(p: Path, D: set<Path>)
      requires StateBut(D) && p in at
      ensures p in fs
      ensures var names := fs[p].names;
              && (forall x | x in names :: Child(p, x) in at)
              && at[p].child == (if names == [] then null else NodeAt(at, Child(p, names[0])))
              && (names != [] ==> at[Child(p, names[|names|-1])].sibling == null)
              && forall i, j | 0 <= i < j < |names| && j == i + 1 ::
                   at[Child(p, names[i])].sibling == at[Child(p, names[j])]
    {
      assert ChainOk(fs, at, ViewsOf(at, nodes), p);
      var names := fs[p].names;
      forall x | x in names ensures Child(p, x) in at { assert Listed(fs, p, x); }
      forall i, j | 0 <= i < j < |names| && j == i + 1
        ensures at[Child(p, names[i])].sibling == at[Child(p, names[j])]
      {
        assert SiblingAt(ViewsOf(at, nodes), Child(p, names[i])) == NodeAt(at, Child(p, names[j]));
        assert names[i] in names && names[j] in names;
      }
      if names != [] { assert names[|names|-1] in names; }
    }

    /** The last node of the sibling chain of p's children. */
    method LastChild(node: Node, ghost p: Path) returns (c: Node)
      requires Valid() && p in at && at[p] == node && fs[p].names != []
      ensures Child(p, fs[p].names[|fs[p].names|-1]) in at && c == at[Child(p, fs[p].names[|fs[p].names|-1])]
    {
      ghost var names := fs[p].names;
      ValidIsState();
      Walk(p, {});
      assert names[0] in names && (1 < |names| ==> names[1] in names);
      c := node.child;
      ghost var i := 0;
      while c.sibling != null
        invariant i < |names| && Child(p, names[i]) in at && c == at[Child(p, names[i])]
        invariant c.sibling == null <==> i == |names| - 1
        decreases |names| - i
      {
        assert names[i+1] in names;
        c := c.sibling;
        i := i + 1;
        assert i + 1 < |names| ==> names[i+1] in names;
      }
    }

    /** Set one pointer: the entry's first child, or its last child's sibling. */
    method LinkLast(node: Node, n: Node, ghost p: Path)
      requires Valid() && p in at && at[p] == node
      modifies nodes
      ensures fs[p].names != [] ==> Child(p, fs[p].names[|fs[p].names|-1]) in at
      ensures ViewsOf(at, nodes) == WithLast(fs, old(ViewsOf(at, nodes)), p, n)
    {
      hide Valid, StateBut;
      Sound();
      ValidIsState();
      Walk(p, {});
      if node.child == null {
        SetChild(at, nodes, p, node, n);
      } else {
        var c := LastChild(node, p);
        SetSibling(at, nodes, Child(p, fs[p].names[|fs[p].names|-1]), c, n);
      }
    }

    /** Allocate a node and link it behind p's last child. */
    method LinkNew(node: Node, file: Name, ghost p: Path) returns (n: Node)
      requires Valid() && p in at && p in fs && at[p] == node
      modifies nodes
      ensures fresh(n) && Within(at[Child(p, file) := n], nodes + {n})
      ensures fs[p].names != [] ==> Child(p, fs[p].names[|fs[p].names|-1]) in at
      ensures fs.Keys == at.Keys && forall q | q in at :: at[q] != n
      ensures ViewsOf(at[Child(p, file) := n], nodes + {n}) == Appended(fs, at, old(ViewsOf(at, nodes)), p, file, n)
    {
      hide ChainOk, ChildOk;
      n := new Node(node, file);
      LinkLast(node, n, p);
      ViewsExtended(at, nodes, Child(p, file), n);
    }

    /** Append a node to the children of p. */
    method Alloc(node: Node, file: Name, ghost p: Path) returns (n: Node)
      requires Valid() && p in at && p in fs && at[p] == node && file !in fs[p].names
      modifies this`fs, this`at, this`nodes, nodes
      ensures Valid() && root == old(root) && fs == Created(old(fs), p, file)
      ensures fresh(n) && at == old(at)[Child(p, file) := n] && nodes == old(nodes) + {n}
    {
      hide Laid;
      ghost var v := ViewsOf(at, nodes);
      n := LinkNew(node, file, p);
      AppendedLaid(fs, at, v, root, p, file, n);
      fs, at, nodes := Created(fs, p, file), at[Child(p, file) := n], nodes + {n};
    }

    /** Search the sibling chain for q's node and take it out. */
    method Unlink(node: Node, ghost q: Path, ghost D: set<Path>) returns (ghost i: nat)
      requires StateBut(D) && q in at && at[q] == node && q.Child? && q.parent in at && node.parent == at[q.parent]
      requires q.name in fs[q.parent].names
      modifies nodes
      ensures i < |fs[q.parent].names| && fs[q.parent].names[i] == q.name
      ensures i > 0 ==> Child(q.parent, fs[q.parent].names[i-1]) in at
      ensures ViewsOf(at, nodes) == Unlinked(fs, old(ViewsOf(at, nodes)), q, i)
    {
      hide ChainOk, ChildOk;
      ghost var p, names := q.parent, fs[q.parent].names;
      Walk(p, D);
      i :| 0 <= i < |names| && names[i] == q.name;
      var prev: Node? := null;
      var c := node.parent.child;
      ghost var j := 0;
      assert names[0] in names;
      while c != null
        invariant 0 <= j <= i && Child(p, names[j]) in at && c == at[Child(p, names[j])]
        invariant if j == 0 then prev == null else Child(p, names[j-1]) in at && prev == at[Child(p, names[j-1])]
        decreases i - j
      {
        if c == node {
          assert names[j] == q.name;
          break;
        }
        prev := c;
        c := c.sibling;
        assert names[j+1] in names;
        j := j + 1;
      }
      assert j == i;
      if prev != null {
        SetSibling(at, nodes, Child(p, names[i-1]), prev, node.sibling);
        assert ViewsOf(at, nodes) == Unlinked(fs, old(ViewsOf(at, nodes)), q, i);
      } else {
        SetChild(at, nodes, p, node.parent, node.sibling);
        assert ViewsOf(at, nodes) == Unlinked(fs, old(ViewsOf(at, nodes)), q, i);
      }
    }

    /** A node that is not detached points to its parent. */
    lemma ParentOf(q: Path, D: set<Path>)
      requires StateBut(D) && q in at && q.Child? && q !in D
      ensures q.parent in at && q.parent in fs && q in fs && at[q].parent == at[q.parent]
      ensures DistinctNames(fs[q.parent].names) && q.name in fs[q.parent].names
    {
      DelistedWellFormed(fs, q, D);
      assert ChildOk(at, ViewsOf(at, nodes), q.parent, q.name);
      assert q == Child(q.parent, q.name);
    }

    /** Take q off its parent's chain. */
    method Detach(node: Node, ghost q: Path, ghost D: set<Path>)
      requires StateBut(D) && q in at && at[q] == node && q.Child? && q !in D
      modifies this`fs, nodes
      ensures StateBut(D + {q}) && q.parent in old(fs) && fs == Delisted(old(fs), q)
    {
      hide Linked, WellFormedBut;
      ghost var v := ViewsOf(at, nodes);
      ParentOf(q, D);
      DelistedWellFormed(fs, q, D);
      if node.parent != null {
        ghost var i := Unlink(node, q, D);
        UnlinkedLinked(fs, at, v, q, i);
      }
      fs := Delisted(fs, q);
    }

    /** Give q's node back. */
    ghost method Release(node: Node, q: Path, D: set<Path>)
      requires StateBut(D + {q}) && q in at && at[q] == node && q.Child? && q in fs && fs[q].names == []
      requires forall d | d in D :: !Under(q, d)
      modifies this`fs, this`at, this`nodes
      ensures StateBut(D) && fs == Purged(old(fs), q) && at == old(at) - {q} && nodes == old(nodes) - {node}
    {
      assert Under(q, q);
      ReleasedLaid(fs, at, ViewsOf(at, nodes), root, D, q);
      ViewsReduced(at, nodes, q);
      fs, at, nodes := fs - {q}, at - {q}, nodes - {node};
    }

    /** Free a node and everything below it. */
    method Free(node: Node, ghost q: Path, ghost D: set<Path>)
      requires StateBut(D) && q in at && at[q] == node && q.Child?
      requires forall d | d in D :: !Under(q, d)
      modifies this`fs, this`at, this`nodes, nodes
      ensures StateBut(D) && fs == Removed(old(fs), q)
      ensures nodes <= old(nodes) && forall r | r in at :: r in old(at) && at[r] == old(at)[r]
      decreases Below(fs, q), 1
    {
      ghost var fs0 := fs;
      assert Under(q, q);
      Detach(node, q, D);
      PurgedDelisted(fs0, q);
      assert Below(fs, q) == Below(fs0, q);
      FreeChildren(node, q, D);
      Release(node, q, D);
    }

    /** The loop over the children. */
    method FreeChildren(node: Node, ghost q: Path, ghost D: set<Path>)
      requires StateBut(D + {q}) && q in at && at[q] == node && q.Child?
      requires forall d | d in D :: !Under(q, d)
      modifies this`fs, this`at, this`nodes, nodes
      ensures StateBut(D + {q}) && q in fs && fs[q].names == [] && Purged(fs, q) == Purged(old(fs), q)
      ensures q in at && at[q] == node
      ensures nodes <= old(nodes) && forall r | r in at :: r in old(at) && at[r] == old(at)[r]
      decreases Below(fs, q), 0
    {
      ghost var fs0, at0, nodes0 := fs, at, nodes;
      Walk(q, D + {q});
      var child := node.child;
      while child != null
        invariant StateBut(D + {q}) && q in at && at[q] == node && q in fs && child == node.child
        invariant child == null <==> fs[q].names == []
        invariant Purged(fs, q) == Purged(fs0, q) && fs.Keys <= fs0.Keys
        invariant nodes <= nodes0 && forall r | r in at :: r in at0 && at[r] == at0[r]
        decreases |fs[q].names|
      {
        var next := child.sibling;
        FreeFirst(node, child, q, D, fs0);
        child := next;
      }
    }

    /** One step of the loop. */
    method FreeFirst(node: Node, child: Node, ghost q: Path, ghost D: set<Path>, ghost fs0: Fs)
      requires StateBut(D + {q}) && q in at && at[q] == node && q.Child? && q in fs && q in fs0
      requires child == node.child && fs[q].names != [] && fs.Keys <= fs0.Keys
      requires forall d | d in D :: !Under(q, d)
      modifies this`fs, this`at, this`nodes, nodes
      ensures StateBut(D + {q}) && q in at && at[q] == node && q in fs && fs[q].names == old(fs)[q].names[1..]
      ensures node.child == old(child.sibling) && (node.child == null <==> fs[q].names == [])
      ensures Purged(fs, q) == Purged(old(fs), q) && fs.Keys <= old(fs).Keys
      ensures nodes <= old(nodes) && forall r | r in at :: r in old(at) && at[r] == old(at)[r]
      decreases Below(fs0, q), 0, 0
    {
      ghost var names := fs[q].names;
      Walk(q, D + {q});
      FirstChildRemoved(fs, q);
      ChildrenAreBelow(fs0, fs, q, names[0]);
      assert names[0] in names && (1 < |names| ==> names[1] in names);
      Free(child, Child(q, names[0]), D + {q});
      Walk(q, D + {q});
      assert 1 < |names| ==> names[1..][0] == names[1];
    }

    /** The children of an entry are those it lists, under their names. */
    lemma Children(p: Path, name: Name)
      requires Valid() && p in at
      ensures p in fs && (Child(p, name) in at <==> name in fs[p].names)
      ensures forall x | x in fs[p].names :: Child(p, x) in at && at[Child(p, x)].filename == x
    {
      assert Child(p, name) in fs <==> Listed(fs, p, name);
      forall x | x in fs[p].names ensures Child(p, x) in at && at[Child(p, x)].filename == x {
        assert Listed(fs, p, x);
        assert ChildOk(at, ViewsOf(at, nodes), p, x);
      }
    }

    /** The child of an entry that carries a name. */
    method FindChild(node: Node, name: Name, ghost p: Path) returns (c: Node?)
      requires Valid() && p in at && at[p] == node
      ensures c == NodeAt(at, Child(p, name)) && (c == null <==> p !in fs || name !in fs[p].names)
    {
      hide Valid, StateBut;
      ValidIsState();
      Walk(p, {});
      Children(p, name);
      ghost var names := fs[p].names;
      c := node.child;
      ghost var i := 0;
      assert names != [] ==> names[0] in names;
      while c != null
        invariant i <= |names| && name !in names[..i]
        invariant c == if i == |names| then null else NodeAt(at, Child(p, names[i]))
        decreases |names| - i
      {
        assert names[i] in names && (i + 1 < |names| ==> names[i+1] in names);
        if c.filename == name {
          break;
        }
        c := c.sibling;
        assert names[..i+1] == names[..i] + [names[i]];
        i := i + 1;
      }
    }

    /** Follow one component. */
    method Step(node: Node, name: Name, ghost p: Path) returns (next: Node?, ghost q: Option<Path>)
      requires Valid() && p in at && at[p] == node
      ensures q == Follow(fs, p, name) && (next == null <==> q == None)
      ensures q.Some? ==> q.value in at && next == at[q.value]
    {
      q := Follow(fs, p, name);
      if name == DOTDOT {
        if p != Root { assert ChildOk(at, ViewsOf(at, nodes), p.parent, p.name); }
        next := node.parent;
      } else if name == DOT || name == [] {
        next := node;
      } else {
        next := FindChild(node, name, p);
      }
    }

    /** The node a path leads to; without its last component if `base` is set. */
    method GetPath(path: seq<byte>, base: bool) returns (node: Node?, ghost p: Option<Path>)
      requires Valid() && |Split(path)| <= 32
      ensures p == Resolve(fs, Root, if base then Directory(Split(path)) else Split(path))
      ensures node == null <==> p == None
      ensures p.Some? ==> p.value in at && p.value in fs && node == at[p.value]
    {
      var sub := SplitPath(path);
      if base && |sub| >= 1 {
        sub := sub[..|sub|-1];
      }
      node, p := FollowAll(sub);
    }

    /** The loop that finds the path. */
    method FollowAll(sub: seq<Name>) returns (node: Node?, ghost p: Option<Path>)
      requires Valid()
      ensures p == Resolve(fs, Root, sub) && (node == null <==> p == None)
      ensures p.Some? ==> p.value in at && p.value in fs && node == at[p.value]
    {
      node := root;
      p := Some(Root);
      var i := 0;
      assert sub[0..] == sub;
      while i < |sub|
        invariant i <= |sub| && p.Some? && p.value in at && node == at[p.value]
        invariant Resolve(fs, p.value, sub[i..]) == Resolve(fs, Root, sub)
      {
        assert sub[i..][1..] == sub[i+1..];
        node, p := Step(node, sub[i], p.value);
        if node == null {
          return;
        }
        i := i + 1;
      }
    }

    method Exists(path: seq<byte>) returns (there: bool)
      requires Valid() && |Split(path)| <= 32
      ensures there <==> Resolve(fs, Root, Split(path)).Some?
    {
      var node, _ := GetPath(path, false);
      there := node != null;
    }

    /** Find an entry or make one. */
    method Create(path: seq<byte>) returns (node: Node?, ghost p: Option<Path>)
      requires Valid() && |Split(path)| <= 32
      requires Resolve(fs, Root, Split(path)) == None ==> Clean(path) && |Basename(path)| < 32
      modifies this`fs, this`at, this`nodes, nodes
      ensures Valid() && root == old(root) && fresh(nodes - old(nodes)) && old(nodes) <= nodes
      ensures p == CreatedAt(old(fs), path) && fs == AfterCreate(old(fs), path)
      ensures node == null <==> p == None
      ensures p.Some? ==> p.value in at && p.value in fs && node == at[p.value]
      ensures forall r | r in old(at) :: r in at && at[r] == old(at)[r]
    {
      hide ChainOk, ChildOk, Resolve, Split, Basename, Created;
      node, p := GetPath(path, false);
      if node != null {
        return;
      }
      node, p := GetPath(path, true);
      if node == null {
        return;
      }
      LastComponent(fs, path);
      var file := BasenameOf(path);
      node := Alloc(node, file, p.value);
      p := Some(Child(p.value, file));
    }

    /** Remove an entry other than the root, with everything below it. */
    method Remove(path: seq<byte>) returns (err: int)
      requires Valid() && |Split(path)| <= 32 && Resolve(fs, Root, Split(path)) != Some(Root)
      modifies this`fs, this`at, this`nodes, nodes
      ensures Valid() && root == old(root) && nodes <= old(nodes)
      ensures match Resolve(old(fs), Root, Split(path))
              case None => err == -1 && fs == old(fs) && at == old(at)
              case Some(q) =>
                && err == 0 && fs == Removed(old(fs), q)
                && forall r | r in at :: r in old(at) && at[r] == old(at)[r]
    {
      var node, p := GetPath(path, false);
      if node == null {
        return -1;
      }
      ValidIsState();
      Free(node, p.value, {});
      ValidIsState();
      err := 0;
    }

    lemma DataOf(p: Path)
      requires Valid() && p in at
      ensures p in fs && at[p].data == fs[p].data
    {
      assert ChainOk(fs, at, ViewsOf(at, nodes), p);
    }

    method StoreData(node: Node, data: seq<byte>, ghost p: Path)
      requires Valid() && p in at && p in fs && at[p] == node
      modifies this`fs, node
      ensures Valid() && fs == WithData(old(fs), p, data)
    {
      Sound();
      hide Laid;
      ghost var v := ViewsOf(at, nodes);
      DataLaid(fs, at, v, root, p, data);
      SetData(at, nodes, p, node, data);
      fs := WithData(fs, p, data);
    }

    method ClearData(node: Node, ghost p: Path)
      requires Valid() && p in at && p in fs && at[p] == node
      modifies this`fs, node
      ensures Valid() && fs == WithData(old(fs), p, [])
    {
      StoreData(node, [], p);
    }

    method AppendData(node: Node, data: seq<byte>, ghost p: Path)
      requires Valid() && p in at && p in fs && at[p] == node
      modifies this`fs, node
      ensures Valid() && fs == WithData(old(fs), p, node.data) && node.data == old(node.data) + data
    {
      ghost var all := node.data + data;
      StoreData(node, node.data + data, p);
      DataOf(p);
      assert fs[p].data == all;
    }
  }

  /** Where Create finds or makes the entry. */
  ghost function CreatedAt(fs: Fs, path: seq<byte>): Option<Path> {
    match Resolve(fs, Root, Split(path))
    case Some(p) => Some(p)
    case None =>
      match Resolve(fs, Root, Directory(Split(path)))
      case None => None
      case Some(p) => Some(Child(p, Basename(path)))
  }

  ghost function AfterCreate(fs: Fs, path: seq<byte>): Fs {
    match Resolve(fs, Root, Split(path))
    case Some(_) => fs
    case None =>
      match Resolve(fs, Root, Directory(Split(path)))
      case None => fs
      case Some(p) => if p in fs then Created(fs, p, Basename(path)) else fs
  }

  lemma CreateFinds(fs: Fs, path: seq<byte>)
    ensures Resolve(fs, Root, Split(path)).Some? ==>
              CreatedAt(fs, path) == Resolve(fs, Root, Split(path)) && AfterCreate(fs, path) == fs
  {
  }

  /** What creating means. An entry that is there is found. If only its directory is there, the path
      leads to a new, empty entry afterwards, and the others are as before but for the new name in
      the directory. Otherwise nothing changes. */
  lemma CreateMeans(fs: Fs, path: seq<byte>)
    requires WellFormed(fs) && Clean(path)
    ensures var before, dir := Resolve(fs, Root, Split(path)), Resolve(fs, Root, Directory(Split(path)));
            var fs', p := AfterCreate(fs, path), CreatedAt(fs, path);
            && (before.Some? ==> p == before && fs' == fs)
            && (before == None && dir == None ==> p == None && fs' == fs)
            && (before == None && dir.Some? && dir.value in fs ==>
                  && p == Some(Child(dir.value, Basename(path))) && p.value !in fs
                  && fs'.Keys == fs.Keys + {p.value} && fs'[p.value] == Entry([], [])
                  && Resolve(fs', Root, Split(path)) == p
                  && fs'[dir.value] == Entry(fs[dir.value].data, fs[dir.value].names + [Basename(path)])
                  && forall r | r in fs && r != dir.value :: fs'[r] == fs[r])
  {
    var dir := Resolve(fs, Root, Directory(Split(path)));
    LastComponent(fs, path);
    if Resolve(fs, Root, Split(path)) == None && dir.Some? && dir.value in fs {
      var name := Basename(path);
      CreatedAdds(fs, dir.value, name);
      hide Created;
      NewPathResolves(fs, dir.value, path);
    }
  }

  lemma NewPathResolves(fs: Fs, d: Path, path: seq<byte>)
    requires WellFormed(fs) && Clean(path) && d in fs && Resolve(fs, Root, Directory(Split(path))) == Some(d)
    requires Basename(path) !in fs[d].names
    ensures Resolve(Created(fs, d, Basename(path)), Root, Split(path)) == Some(Child(d, Basename(path)))
  {
    hide Split, Basename;
    var name, comps := Basename(path), Split(path);
    BasenameIsLast(path);
    assert comps == Directory(comps) + [name];
    CreatedKeepsResolving(fs, d, name, Root, Directory(comps));
    ResolveAppend(Created(fs, d, name), Root, Directory(comps), [name]);
    assert [name][1..] == comps[..0];
  }

  /** If a clean path leads nowhere but its directory is there, the directory lacks the name. */
  lemma LastComponent(fs: Fs, path: seq<byte>)
    requires Clean(path)
    ensures var dir := Resolve(fs, Root, Directory(Split(path)));
            dir.Some? && dir.value in fs ==>
              (Resolve(fs, Root, Split(path)) == None <==> Basename(path) !in fs[dir.value].names)
  {
    BasenameIsLast(path);
    var comps := Split(path);
    var dir := Resolve(fs, Root, Directory(comps));
    assert comps == Directory(comps) + [Basename(path)];
    ResolveAppend(fs, Root, Directory(comps), [Basename(path)]);
    if dir.Some? {
      assert [Basename(path)][1..] == [];
    }
  }

  /** Before position i the loop has found the components `sub` and n characters of another one. */
  predicate Scanned(path: seq<byte>, i: nat, sub: seq<Name>, n: nat) {
    && n <= i <= |path| && (n == 0 <==> i == 0 || path[i-1] == SLASH)
    && Split(path[..i]) == if n == 0 then sub else sub + [path[i-n..i]]
  }

  lemma ScanStep(path: seq<byte>, i: nat, sub: seq<Name>, n: nat)
    requires i < |path| && Scanned(path, i, sub, n)
    ensures if path[i] != SLASH then Scanned(path, i + 1, sub, n + 1)
            else Scanned(path, i + 1, if n == 0 then sub else sub + [path[i-n..i]], 0)
  {
    hide Split;
    var run := path[i-n..i];
    SplitStep(path[..i], path[i], sub, run);
    assert path[..i+1] == path[..i] + [path[i]] && path[i-n..i+1] == run + [path[i]];
  }

  /** The components of a path. */
  method SplitPath(path: seq<byte>) returns (sub: seq<Name>)
    ensures sub == Split(path)
  {
    sub := [];
    var n, i := 0, 0;
    while i < |path|
      invariant Scanned(path, i, sub, n)
    {
      ScanStep(path, i, sub, n);
      if path[i] == SLASH {
        if n > 0 {
          sub := sub + [path[i-n..i]];
          n := 0;
        }
      } else {
        n := n + 1;
      }
      i := i + 1;
    }
    assert path[..i] == path;
    if n > 0 {
      sub := sub + [path[|path|-n..]];
    }
  }

  method BasenameOf(path: seq<byte>) returns (name: Name)
    ensures name == Basename(path)
  {
    var base, i := 0, 0;
    while i < |path|
      invariant 0 <= base <= i <= |path| && path[base..i] == Basename(path[..i])
    {
      assert path[..i+1][..i] == path[..i] && path[base..i+1] == path[base..i] + [path[i]];
      if path[i] == SLASH {
        base := i + 1;
      }
      i := i + 1;
    }
    assert path[..i] == path;
    name := path[base..];
  }

  const STDIN: Name := [36, 115, 116, 100, 105, 110]
  const STDOUT: Name := [36, 115, 116, 100, 111, 117, 116]
  const STDERR: Name := [36, 115, 116, 100, 101, 114, 114]
  const STANDARD: seq<Name> := [STDIN, STDOUT, STDERR]

  /** A path of one component. */
  lemma {:induction false} OneComponent(name: Name)
    requires name != [] && SlashFree(name)
    ensures Split(name) == [name] && Basename(name) == name
  {
    var init, c := name[..|name|-1], name[|name|-1];
    assert c in name && name == init + [c];
    if init != [] {
      assert init[|init|-1] in name;
      assert SlashFree(init) by { forall k | k in init ensures k in name {} }
      OneComponent(init);
      assert [] + [init] == [init];
    }
    SplitStep(init, c, [], init);
  }

  /** Create an entry in the root. */
  method CreateInRoot(sys: FileSystem, name: Name)
    requires sys.Valid() && Root in sys.fs && name !in sys.fs[Root].names
    requires RealName(name) && SlashFree(name) && |name| < 32
    modifies sys`fs, sys`at, sys`nodes, sys.nodes
    ensures sys.Valid() && old(sys.nodes) <= sys.nodes && fresh(sys.nodes - old(sys.nodes))
    ensures sys.fs == Created(old(sys.fs), Root, name)
  {
    OneComponent(name);
    assert name[|name|-1] in name;
    assert Directory([name]) == [] && [name][1..] == [];
    var _, _ := sys.Create(name);
  }

  lemma StandardNames()
    ensures RealName(STDIN) && SlashFree(STDIN) && STDIN !in []
    ensures RealName(STDOUT) && SlashFree(STDOUT) && STDOUT !in [] + [STDIN]
    ensures RealName(STDERR) && SlashFree(STDERR) && STDERR !in [] + [STDIN] + [STDOUT]
    ensures [] + [STDIN] + [STDOUT] + [STDERR] == STANDARD
  {
    assert STDIN[4] != STDERR[4];
  }

  /** The file system at start: three files in the root. */
  method VfsInit() returns (sys: FileSystem)
    ensures fresh(sys) && sys.Valid() && fresh(sys.nodes)
    ensures sys.fs == InitialFs() && sys.fs[Root] == Entry([], STANDARD)
    ensures STANDARD == [[36, 115, 116, 100, 105, 110], [36, 115, 116, 100, 111, 117, 116],
                         [36, 115, 116, 100, 101, 114, 114]]
    ensures sys.fs.Keys == {Root} + (set name | name in STANDARD :: Child(Root, name))
    ensures forall name | name in STANDARD :: Child(Root, name) in sys.fs && sys.fs[Child(Root, name)] == Entry([], [])
  {
    hide FileSystem.Valid;
    StandardNames();
    sys := new FileSystem();
    CreateInRoot(sys, STDIN);
    CreateInRoot(sys, STDOUT);
    CreateInRoot(sys, STDERR);
  }

  ghost function InitialFs(): (fs: Fs)
    ensures Root in fs
  {
    Created(Created(Created(map[Root := Entry([], [])], Root, STDIN), Root, STDOUT), Root, STDERR)
  }
}
