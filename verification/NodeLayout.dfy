// How the nodes of the file system carry its entries: child, sibling and parent pointers, and what
// each pointer update means for them (src/mock_libc/vfs.c).
module NodeLayout {
  import opened Common
  import opened FsModel

  class Node {
    var data: seq<byte>
    var filename: Name
    var parent: Node?
    var child: Node?
    var sibling: Node?

    constructor (parent: Node?, file: Name)
      ensures View() == Fields([], file, parent, null, null)
    {
      data, filename := [], file;
      this.parent, child, sibling := parent, null, null;
    }

    ghost function View(): Fields
      reads this
    {
      Fields(data, filename, parent, child, sibling)
    }
  }

  /** The fields of a node at some moment. */
  datatype Fields = Fields(data: seq<byte>, filename: Name, parent: Node?, child: Node?, sibling: Node?)

  /** The nodes in memory by path, and what is in them. */
  type Nodes = map<Path, Node>
  type Views = map<Path, Fields>

  ghost predicate Within(at: Nodes, nodes: set<Node>) {
    forall p | p in at :: at[p] in nodes
  }

  ghost function ViewsOf(at: Nodes, nodes: set<Node>): Views
    requires Within(at, nodes)
    reads nodes
  {
    map p | p in at :: at[p].View()
  }

  ghost function NodeAt(at: Nodes, q: Path): Node? {
    if q in at then at[q] else null
  }

  ghost function SiblingAt(v: Views, q: Path): Node? {
    if q in v then v[q].sibling else null
  }

  /** The child and sibling pointers of an entry spell out its list of names. */
  ghost predicate ChainOk(fs: Fs, at: Nodes, v: Views, p: Path) {
    p in fs && p in v ==>
      var names := fs[p].names;
      && v[p].data == fs[p].data
      && v[p].child == (if names == [] then null else NodeAt(at, Child(p, names[0])))
      && (names != [] ==> SiblingAt(v, Child(p, names[|names|-1])) == null)
      && forall i, j | 0 <= i < j < |names| && j == i + 1 ::
           SiblingAt(v, Child(p, names[i])) == NodeAt(at, Child(p, names[j]))
  }

  /** A child's node carries its name and points to its parent. */
  ghost predicate ChildOk(at: Nodes, v: Views, p: Path, x: Name) {
    Child(p, x) in v ==> p in at && v[Child(p, x)].parent == at[p] && v[Child(p, x)].filename == x
  }

  ghost predicate Injective(at: Nodes) {
    forall p, q | p in at && q in at && p != q :: at[p] != at[q]
  }

  /** The nodes carry the entries of fs. */
  ghost predicate Linked(fs: Fs, at: Nodes, v: Views) {
    && at.Keys == fs.Keys == v.Keys && Injective(at)
    && (forall p {:trigger ChainOk(fs, at, v, p)} :: ChainOk(fs, at, v, p))
    && (forall p, x {:trigger ChildOk(at, v, p, x)} :: ChildOk(at, v, p, x))
  }

  /** The whole state: a well-formed file system, laid out in nodes, under a root node. */
  ghost predicate Laid(fs: Fs, at: Nodes, v: Views, root: Node) {
    && WellFormed(fs) && Linked(fs, at, v)
    && Root in at && at[Root] == root && v[Root].parent == null
  }

  /** The same while the entries D are detached. */
  ghost predicate LaidBut(fs: Fs, at: Nodes, v: Views, root: Node, D: set<Path>) {
    && WellFormedBut(fs, D) && Linked(fs, at, v)
    && Root in at && at[Root] == root && v[Root].parent == null
  }

  /** What linking a node n behind p's last child does to the fields of the others. */
  ghost function WithLast(fs: Fs, v: Views, p: Path, n: Node): Views
    requires p in fs && p in v
    requires fs[p].names != [] ==> Child(p, fs[p].names[|fs[p].names|-1]) in v
  {
    var names := fs[p].names;
    if names == [] then v[p := v[p].(child := n)]
    else v[Child(p, names[|names|-1]) := v[Child(p, names[|names|-1])].(sibling := n)]
  }

  /** What appending a new node n does to the nodes' fields. */
  ghost function Appended(fs: Fs, at: Nodes, v: Views, p: Path, file: Name, n: Node): Views
    requires p in fs && fs.Keys == at.Keys == v.Keys
    requires fs[p].names != [] ==> Child(p, fs[p].names[|fs[p].names|-1]) in v
  {
    WithLast(fs, v, p, n)[Child(p, file) := Fields([], file, at[p], null, null)]
  }

  lemma AppendedElsewhere(fs: Fs, at: Nodes, v: Views, p: Path, file: Name, n: Node, r: Path)
    requires fs.Keys == at.Keys == v.Keys && p in fs && ChainOk(fs, at, v, r) && r != p && r != Child(p, file)
    requires fs[p].names != [] ==> Child(p, fs[p].names[|fs[p].names|-1]) in v
    ensures ChainOk(Created(fs, p, file), at[Child(p, file) := n], Appended(fs, at, v, p, file, n), r)
  {
  }

  lemma AppendedHere(fs: Fs, at: Nodes, v: Views, p: Path, file: Name, n: Node)
    requires fs.Keys == at.Keys == v.Keys && p in fs && ChainOk(fs, at, v, p)
    requires DistinctNames(fs[p].names) && file !in fs[p].names
    requires fs[p].names != [] ==> Child(p, fs[p].names[|fs[p].names|-1]) in v
    ensures ChainOk(Created(fs, p, file), at[Child(p, file) := n], Appended(fs, at, v, p, file, n), p)
  {
    var fs', at', v' := Created(fs, p, file), at[Child(p, file) := n], Appended(fs, at, v, p, file, n);
    var names := fs[p].names;
    assert fs'[p].names == names + [file];
    forall i, j | 0 <= i < j < |names + [file]| && j == i + 1
      ensures SiblingAt(v', Child(p, (names + [file])[i])) == NodeAt(at', Child(p, (names + [file])[j]))
    {
      assert names[i] != file;
      if j < |names| {
        assert names[j] != file && names[i] != names[|names|-1];
        assert SiblingAt(v, Child(p, names[i])) == NodeAt(at, Child(p, names[j]));
      }
    }
  }

  lemma AppendedChains(fs: Fs, at: Nodes, v: Views, p: Path, file: Name, n: Node)
    requires Linked(fs, at, v) && p in fs && DistinctNames(fs[p].names) && file !in fs[p].names
    requires fs[p].names != [] ==> Child(p, fs[p].names[|fs[p].names|-1]) in v
    ensures var fs', at', v' := Created(fs, p, file), at[Child(p, file) := n], Appended(fs, at, v, p, file, n);
            forall r {:trigger ChainOk(fs', at', v', r)} :: ChainOk(fs', at', v', r)
  {
    var fs', at', v' := Created(fs, p, file), at[Child(p, file) := n], Appended(fs, at, v, p, file, n);
    forall r ensures ChainOk(fs', at', v', r) {
      assert ChainOk(fs, at, v, r);
      if r == p {
        AppendedHere(fs, at, v, p, file, n);
      } else if r != Child(p, file) {
        AppendedElsewhere(fs, at, v, p, file, n, r);
      }
    }
  }

  lemma AppendedChildren(fs: Fs, at: Nodes, v: Views, p: Path, file: Name, n: Node)
    requires Linked(fs, at, v) && p in fs
    requires fs[p].names != [] ==> Child(p, fs[p].names[|fs[p].names|-1]) in v
    requires Child(p, file) !in at
    ensures var at', v' := at[Child(p, file) := n], Appended(fs, at, v, p, file, n);
            forall r, x {:trigger ChildOk(at', v', r, x)} :: ChildOk(at', v', r, x)
  {
    var at', v' := at[Child(p, file) := n], Appended(fs, at, v, p, file, n);
    forall r, x ensures ChildOk(at', v', r, x) { assert ChildOk(at, v, r, x); }
  }

  lemma AppendedLaid(fs: Fs, at: Nodes, v: Views, root: Node, p: Path, file: Name, n: Node)
    requires Laid(fs, at, v, root) && p in fs && file !in fs[p].names && forall q | q in at :: at[q] != n
    ensures fs[p].names != [] ==> Child(p, fs[p].names[|fs[p].names|-1]) in v
    ensures Laid(Created(fs, p, file), at[Child(p, file) := n], Appended(fs, at, v, p, file, n), root)
  {
    assert fs[p].names != [] ==> Listed(fs, p, fs[p].names[|fs[p].names|-1]);
    CreatedWellFormed(fs, p, file);
    AppendedChains(fs, at, v, p, file, n);
    AppendedChildren(fs, at, v, p, file, n);
  }

  lemma DataChain(fs: Fs, at: Nodes, v: Views, p: Path, data: seq<byte>, r: Path)
    requires fs.Keys == at.Keys == v.Keys && p in fs && ChainOk(fs, at, v, r)
    ensures ChainOk(WithData(fs, p, data), at, v[p := v[p].(data := data)], r)
  {
  }

  /** What storing data in p's node does. */
  lemma DataLaid(fs: Fs, at: Nodes, v: Views, root: Node, p: Path, data: seq<byte>)
    requires Laid(fs, at, v, root) && p in fs
    ensures Laid(WithData(fs, p, data), at, v[p := v[p].(data := data)], root)
  {
    var fs', v' := WithData(fs, p, data), v[p := v[p].(data := data)];
    WithDataWellFormed(fs, p, data);
    forall r ensures ChainOk(fs', at, v', r) {
      assert ChainOk(fs, at, v, r);
      DataChain(fs, at, v, p, data, r);
    }
    forall r, x ensures ChildOk(at, v', r, x) { assert ChildOk(at, v, r, x); }
  }

  /** What unlinking q, the i-th child of its parent, does to the nodes' fields. */
  ghost function Unlinked(fs: Fs, v: Views, q: Path, i: nat): Views
    requires q.Child? && q.parent in fs && q.parent in v && q in v && i < |fs[q.parent].names|
    requires i > 0 ==> Child(q.parent, fs[q.parent].names[i-1]) in v
  {
    if i == 0 then v[q.parent := v[q.parent].(child := v[q].sibling)]
    else
      var prev := Child(q.parent, fs[q.parent].names[i-1]);
      v[prev := v[prev].(sibling := v[q].sibling)]
  }

  lemma UnlinkedHere(fs: Fs, at: Nodes, v: Views, q: Path, i: nat)
    requires fs.Keys == at.Keys == v.Keys && q.Child? && q.parent in fs && q in fs && ChainOk(fs, at, v, q.parent)
    requires DistinctNames(fs[q.parent].names) && i < |fs[q.parent].names| && fs[q.parent].names[i] == q.name
    requires i > 0 ==> Child(q.parent, fs[q.parent].names[i-1]) in v
    ensures ChainOk(Delisted(fs, q), at, Unlinked(fs, v, q, i), q.parent)
  {
    var p := q.parent;
    var names := fs[p].names;
    WithoutAt(names, i);
    var fs', v' := Delisted(fs, q), Unlinked(fs, v, q, i);
    var names' := fs'[p].names;
    assert q == Child(p, names[i]);
    assert i + 1 < |names| ==> v[q].sibling == NodeAt(at, Child(p, names[i+1]));
    assert i + 1 == |names| ==> v[q].sibling == null;
    forall j, k | 0 <= j < k < |names'| && k == j + 1
      ensures SiblingAt(v', Child(p, names'[j])) == NodeAt(at, Child(p, names'[k]))
    {
      var j' := if j < i then j else j + 1;
      assert names'[j] == names[j'];
      if j + 1 != i {
        assert names'[k] == names[j'+1];
        assert SiblingAt(v, Child(p, names[j'])) == NodeAt(at, Child(p, names[j'+1]));
      }
    }
  }

  lemma UnlinkedElsewhere(fs: Fs, at: Nodes, v: Views, q: Path, i: nat, r: Path)
    requires fs.Keys == at.Keys == v.Keys && q.Child? && q.parent in fs && q in fs && i < |fs[q.parent].names|
    requires i > 0 ==> Child(q.parent, fs[q.parent].names[i-1]) in v
    requires r != q.parent && ChainOk(fs, at, v, r)
    ensures ChainOk(Delisted(fs, q), at, Unlinked(fs, v, q, i), r)
  {
  }

  lemma UnlinkedLinked(fs: Fs, at: Nodes, v: Views, q: Path, i: nat)
    requires Linked(fs, at, v) && q.Child? && q.parent in fs && q in fs
    requires DistinctNames(fs[q.parent].names) && i < |fs[q.parent].names| && fs[q.parent].names[i] == q.name
    requires i > 0 ==> Child(q.parent, fs[q.parent].names[i-1]) in v
    ensures Linked(Delisted(fs, q), at, Unlinked(fs, v, q, i))
  {
    var fs', v' := Delisted(fs, q), Unlinked(fs, v, q, i);
    forall r ensures ChainOk(fs', at, v', r) {
      assert ChainOk(fs, at, v, r);
      if r == q.parent {
        UnlinkedHere(fs, at, v, q, i);
      } else {
        UnlinkedElsewhere(fs, at, v, q, i, r);
      }
    }
    forall r, x ensures ChildOk(at, v', r, x) { assert ChildOk(at, v, r, x); }
  }

  /** What freeing q's node leaves of another entry's chain. */
  lemma ReleasedChain(fs: Fs, at: Nodes, v: Views, q: Path, r: Path)
    requires fs.Keys == at.Keys == v.Keys && ChainOk(fs, at, v, r) && r != q
    requires r in fs ==> forall x | x in fs[r].names :: Child(r, x) != q
    ensures ChainOk(fs - {q}, at - {q}, v - {q}, r)
  {
  }

  lemma ReleasedLinked(fs: Fs, at: Nodes, v: Views, q: Path)
    requires Linked(fs, at, v) && q.Child? && q in fs && fs[q].names == [] && !Listed(fs, q.parent, q.name)
    requires forall r | r in fs && Under(q, r) :: r == q
    ensures Linked(fs - {q}, at - {q}, v - {q})
  {
    var fs', at', v' := fs - {q}, at - {q}, v - {q};
    forall r ensures ChainOk(fs', at', v', r) {
      assert ChainOk(fs, at, v, r);
      if r in fs && r != q {
        forall x | x in fs[r].names ensures Child(r, x) != q { assert Listed(fs, r, x); }
        ReleasedChain(fs, at, v, q, r);
      }
    }
    forall r, x ensures ChildOk(at', v', r, x) {
      assert ChildOk(at, v, r, x);
      assert Under(q, Child(q, x));
    }
  }

  lemma ReleasedLaid(fs: Fs, at: Nodes, v: Views, root: Node, D: set<Path>, q: Path)
    requires LaidBut(fs, at, v, root, D + {q}) && q !in D && q in fs && q.Child? && fs[q].names == []
    requires forall d | d in D && Under(q, d) :: d == q
    ensures LaidBut(fs - {q}, at - {q}, v - {q}, root, D)
    ensures fs - {q} == Purged(fs, q)
  {
    ReleasedWellFormed(fs, D, q);
    PurgedIsWithout(fs, D + {q}, q);
    assert q in D + {q};
    forall r | r in fs && Under(q, r) ensures r == q { NothingBelow(fs, D + {q}, q, r); }
    ReleasedLinked(fs, at, v, q);
  }

  /** The paths at and below q. */
  ghost function Below(fs: Fs, q: Path): set<Path> {
    set r | r in fs && Under(q, r)
  }

  lemma ChildrenAreBelow(fs: Fs, fs': Fs, q: Path, x: Name)
    requires fs'.Keys <= fs.Keys && q in fs
    ensures Below(fs', Child(q, x)) < Below(fs, q)
    ensures !Under(Child(q, x), q)
    ensures forall r {:trigger Under(Child(q, x), r)} :: Under(Child(q, x), r) ==> Under(q, r)
  {
    var c := Child(q, x);
    assert Under(q, c);
    forall r | Under(c, r) ensures Under(q, r) { UnderTransitive(q, c, r); }
    if Under(c, q) { UnderIsDeeper(c, q); }
    assert q in Below(fs, q);
  }

  /** What removing the first child of q does as seen from q. */
  lemma FirstChildRemoved(fs: Fs, q: Path)
    requires q in fs && fs[q].names != [] && DistinctNames(fs[q].names)
    ensures var c, names := Child(q, fs[q].names[0]), fs[q].names;
            && q in Removed(fs, c) && Removed(fs, c)[q].names == names[1..]
            && Purged(Removed(fs, c), q) == Purged(fs, q)
            && (1 < |names| ==> !Under(c, Child(q, names[1])))
  {
    var c, names := Child(q, fs[q].names[0]), fs[q].names;
    ChildrenAreBelow(fs, fs, q, names[0]);
    WithoutAt(names, 0);
    assert names[..0] + names[0+1..] == names[1..];
    PurgedAlike(fs, q, names[0]);
    if 1 < |names| {
      assert names[0] != names[1];
      assert Under(c, Child(q, names[1])) ==> Under(c, q);
    }
  }

  method SetChild(ghost at: Nodes, ghost nodes: set<Node>, ghost p: Path, node: Node, n: Node?)
    requires Within(at, nodes) && Injective(at) && p in at && at[p] == node
    modifies node
    ensures ViewsOf(at, nodes) == old(ViewsOf(at, nodes))[p := old(node.View()).(child := n)]
  {
    node.child := n;
  }

  method SetSibling(ghost at: Nodes, ghost nodes: set<Node>, ghost p: Path, node: Node, n: Node?)
    requires Within(at, nodes) && Injective(at) && p in at && at[p] == node
    modifies node
    ensures ViewsOf(at, nodes) == old(ViewsOf(at, nodes))[p := old(node.View()).(sibling := n)]
  {
    node.sibling := n;
  }

  method SetData(ghost at: Nodes, ghost nodes: set<Node>, ghost p: Path, node: Node, data: seq<byte>)
    requires Within(at, nodes) && Injective(at) && p in at && at[p] == node
    modifies node
    ensures ViewsOf(at, nodes) == old(ViewsOf(at, nodes))[p := old(node.View()).(data := data)]
  {
    node.data := data;
  }

  lemma ViewsExtended(at: Nodes, nodes: set<Node>, q: Path, n: Node)
    requires Within(at, nodes)
    ensures Within(at[q := n], nodes + {n})
    ensures ViewsOf(at[q := n], nodes + {n}) == ViewsOf(at, nodes)[q := n.View()]
  {
  }

  lemma ViewsReduced(at: Nodes, nodes: set<Node>, q: Path)
    requires Within(at, nodes) && Injective(at) && q in at
    ensures Within(at - {q}, nodes - {at[q]})
    ensures ViewsOf(at - {q}, nodes - {at[q]}) == ViewsOf(at, nodes) - {q}
  {
  }
}
