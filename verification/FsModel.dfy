// The file system as a map from paths to entries: what creating and removing do to it, and what a
// path string resolves to (src/mock_libc/vfs.c).
module FsModel {
  import opened Common

  type Name = seq<byte>

  /** The way from the root to an entry. */
  datatype Path = Root | Child(parent: Path, name: Name)

  const SLASH: byte := 47
  const DOT: Name := [46]
  const DOTDOT: Name := [46, 46]

  /** Files can contain other files; there are no directories apart. `names` lists the children in
      the order of the sibling chain. */
  datatype Entry = Entry(data: seq<byte>, names: seq<Name>)

  type Fs = map<Path, Entry>

  predicate DistinctNames(names: seq<Name>) {
    forall i, j | 0 <= i < j < |names| :: names[i] != names[j]
  }

  /** r is q or lies below it. */
  predicate Under(q: Path, r: Path) {
    r == q || (r.Child? && Under(q, r.parent))
  }

  ghost predicate Listed(fs: Fs, p: Path, x: Name) {
    p in fs && x in fs[p].names
  }

  /** The root is there; every other entry is there exactly if its parent lists it, once. */
  ghost predicate WellFormed(fs: Fs) {
    && Root in fs
    && (forall p, x {:trigger Child(p, x)} :: Child(p, x) in fs <==> Listed(fs, p, x))
    && (forall p | p in fs :: DistinctNames(fs[p].names))
  }

  function Created(fs: Fs, p: Path, name: Name): Fs
    requires p in fs
  {
    fs[p := fs[p].(names := fs[p].names + [name])][Child(p, name) := Entry([], [])]
  }

  function Without(names: seq<Name>, name: Name): (r: seq<Name>)
    ensures forall x :: x in r <==> x in names && x != name
  {
    if names == [] then []
    else if names[0] == name then Without(names[1..], name)
    else [names[0]] + Without(names[1..], name)
  }

  /** Removing an entry other than the root takes away everything below it. */
  function Removed(fs: Fs, q: Path): Fs
    requires q.Child?
  {
    map r | r in fs && !Under(q, r) ::
      if r == q.parent then fs[r].(names := Without(fs[r].names, q.name)) else fs[r]
  }

  /** Creating adds exactly one path. */
  lemma CreatedWellFormed(fs: Fs, p: Path, name: Name)
    requires WellFormed(fs) && p in fs && name !in fs[p].names
    ensures WellFormed(Created(fs, p, name))
    ensures Created(fs, p, name).Keys == fs.Keys + {Child(p, name)} && Child(p, name) !in fs
  {
    var fs', q := Created(fs, p, name), Child(p, name);
    assert !Listed(fs, p, name);
    forall r, x ensures Child(r, x) in fs' <==> Listed(fs', r, x) {
      assert Child(r, x) in fs <==> Listed(fs, r, x);
    }
  }

  /** The new entry is empty and the last of its directory; all others stay as they are. */
  lemma CreatedAdds(fs: Fs, p: Path, name: Name)
    requires WellFormed(fs) && p in fs && name !in fs[p].names
    ensures Created(fs, p, name).Keys == fs.Keys + {Child(p, name)} && Child(p, name) !in fs
    ensures Created(fs, p, name)[Child(p, name)] == Entry([], [])
    ensures Created(fs, p, name)[p] == Entry(fs[p].data, fs[p].names + [name])
    ensures forall r | r in fs && r != p :: Created(fs, p, name)[r] == fs[r]
  {
    assert !Listed(fs, p, name);
  }

  lemma {:induction false} WithoutDistinct(names: seq<Name>, name: Name)
    requires DistinctNames(names)
    ensures DistinctNames(Without(names, name))
  {
    if names != [] {
      assert forall i | 0 <= i < |names[1..]| :: names[1..][i] == names[i+1];
      WithoutDistinct(names[1..], name);
      assert names[0] !in names[1..];
    }
  }

  /** Taking out a name that occurs once. */
  lemma {:induction false} WithoutAt(names: seq<Name>, i: nat)
    requires DistinctNames(names) && i < |names|
    ensures Without(names, names[i]) == names[..i] + names[i+1..]
  {
    var rest := names[1..];
    assert DistinctNames(rest) by { assert forall k | 0 <= k < |rest| :: rest[k] == names[k+1]; }
    if i == 0 {
      WithoutAbsent(rest, names[0]);
    } else {
      WithoutAt(rest, i - 1);
      assert names[..i] + names[i+1..] == [names[0]] + (rest[..i-1] + rest[i..]);
    }
  }

  lemma {:induction false} WithoutAbsent(names: seq<Name>, name: Name)
    requires name !in names
    ensures Without(names, name) == names
  {
    if names != [] { WithoutAbsent(names[1..], name); }
  }

  lemma RemovedWellFormed(fs: Fs, q: Path)
    requires WellFormed(fs) && q.Child?
    ensures WellFormed(Removed(fs, q))
  {
    var fs' := Removed(fs, q);
    forall r, x ensures Child(r, x) in fs' <==> Listed(fs', r, x) {
      assert Child(r, x) in fs <==> Listed(fs, r, x);
      assert Under(q, Child(r, x)) <==> q == Child(r, x) || Under(q, r);
    }
    forall p | p in fs' ensures DistinctNames(fs'[p].names) {
      WithoutDistinct(fs[p].names, q.name);
    }
  }

  /** Everything that is not under the removed entry stays, with its data, and all directories but one
      list what they listed. */
  lemma RemovedKeeps(fs: Fs, q: Path)
    requires q.Child?
    ensures forall r | r in fs :: r in Removed(fs, q) <==> !Under(q, r)
    ensures forall r | r in Removed(fs, q) :: r in fs && Removed(fs, q)[r].data == fs[r].data
    ensures forall r | r in Removed(fs, q) && r != q.parent :: Removed(fs, q)[r].names == fs[r].names
  {
  }

  /** In its directory the removed name is taken out, and the others stay in their order. */
  lemma RemovedFromDirectory(fs: Fs, q: Path, i: nat)
    requires WellFormed(fs) && q.Child? && q.parent in fs && !Under(q, q.parent)
    requires i < |fs[q.parent].names| && fs[q.parent].names[i] == q.name
    ensures var names := fs[q.parent].names;
            q.parent in Removed(fs, q) && Removed(fs, q)[q.parent].names == names[..i] + names[i+1..]
  {
    WithoutAt(fs[q.parent].names, i);
  }

  /** What is under an entry is what can be reached downwards from it. */
  lemma {:induction false} UnderReached(q: Path, r: Path) returns (comps: seq<Name>)
    requires Under(q, r)
    ensures Down(q, comps) == r
  {
    if r == q {
      comps := [];
    } else {
      var above := UnderReached(q, r.parent);
      comps := above + [r.name];
      DownFurther(q, above, r.name);
    }
  }

  lemma {:induction false} DownFurther(q: Path, comps: seq<Name>, name: Name)
    ensures Down(q, comps + [name]) == Child(Down(q, comps), name)
    decreases |comps|
  {
    if comps == [] {
      assert [name][1..] == [];
    } else {
      assert (comps + [name])[1..] == comps[1..] + [name];
      DownFurther(Child(q, comps[0]), comps[1..], name);
    }
  }

  // ---------- removal, step by step ----------

  /** Like WellFormed, but for the detached entries D, which are still there and no longer listed. */
  ghost predicate WellFormedBut(fs: Fs, D: set<Path>) {
    && Root in fs
    && (forall p, x {:trigger Child(p, x)} :: Child(p, x) in fs <==> Listed(fs, p, x) || Child(p, x) in D)
    && (forall d | d in D :: d.Child? && !Listed(fs, d.parent, d.name))
    && (forall p | p in fs :: DistinctNames(fs[p].names))
  }

  lemma NothingDetached(fs: Fs)
    ensures WellFormedBut(fs, {}) <==> WellFormed(fs)
  {
  }

  /** q is taken off its parent's list. */
  function Delisted(fs: Fs, q: Path): Fs
    requires q.Child? && q.parent in fs
  {
    fs[q.parent := fs[q.parent].(names := Without(fs[q.parent].names, q.name))]
  }

  /** Everything but q and what lies below it. */
  function Purged(fs: Fs, q: Path): Fs {
    map r | r in fs && !Under(q, r) :: fs[r]
  }

  lemma DelistedWellFormed(fs: Fs, q: Path, D: set<Path>)
    requires WellFormedBut(fs, D) && q in fs && q.Child? && q !in D
    ensures q.parent in fs && q.name in fs[q.parent].names && q.parent != q
    ensures WellFormedBut(Delisted(fs, q), D + {q})
  {
    var c := Child(q.parent, q.name);
    assert c in fs <==> Listed(fs, c.parent, c.name) || c in D;
    var fs' := Delisted(fs, q);
    forall p, x ensures Child(p, x) in fs' <==> Listed(fs', p, x) || Child(p, x) in D + {q} {
      assert Child(p, x) in fs <==> Listed(fs, p, x) || Child(p, x) in D;
    }
    WithoutDistinct(fs[q.parent].names, q.name);
  }

  lemma {:induction false} UnderTransitive(p: Path, q: Path, r: Path)
    requires Under(p, q) && Under(q, r)
    ensures Under(p, r)
  {
    if r != q { UnderTransitive(p, q, r.parent); }
  }

  function Depth(p: Path): nat {
    if p == Root then 0 else 1 + Depth(p.parent)
  }

  lemma {:induction false} UnderIsDeeper(q: Path, r: Path)
    requires Under(q, r)
    ensures Depth(q) <= Depth(r) && (Depth(q) == Depth(r) ==> q == r)
  {
    if r != q { UnderIsDeeper(q, r.parent); }
  }

  /** Removing below q keeps what is not under q. */
  lemma PurgedAlike(fs: Fs, q: Path, x: Name)
    ensures Purged(Removed(fs, Child(q, x)), q) == Purged(fs, q)
  {
    var c := Child(q, x);
    assert Under(q, c);
    forall r | Under(c, r) ensures Under(q, r) { UnderTransitive(q, c, r); }
  }

  lemma PurgedDelisted(fs: Fs, q: Path)
    requires q.Child? && q.parent in fs
    ensures Purged(Delisted(fs, q), q) == Removed(fs, q)
  {
  }

  /** Once a detached entry has no children left, nothing lies below it. */
  lemma {:induction false} NothingBelow(fs: Fs, D: set<Path>, q: Path, r: Path)
    requires WellFormedBut(fs, D) && q in fs && fs[q].names == [] && r in fs && Under(q, r)
    requires forall d | d in D && Under(q, d) :: d == q
    ensures r == q
  {
    if r != q {
      var c := Child(r.parent, r.name);
      assert c in fs <==> Listed(fs, c.parent, c.name) || c in D;
      NothingBelow(fs, D, q, r.parent);
    }
  }

  lemma PurgedIsWithout(fs: Fs, D: set<Path>, q: Path)
    requires WellFormedBut(fs, D) && q in fs && fs[q].names == []
    requires forall d | d in D && Under(q, d) :: d == q
    ensures Purged(fs, q) == fs - {q}
  {
    forall r | r in fs && Under(q, r) ensures r == q { NothingBelow(fs, D, q, r); }
  }

  lemma ReleasedWellFormed(fs: Fs, D: set<Path>, q: Path)
    requires WellFormedBut(fs, D + {q}) && q !in D && q in fs && q.Child? && fs[q].names == []
    ensures WellFormedBut(fs - {q}, D)
  {
    var fs' := fs - {q};
    forall p, x ensures Child(p, x) in fs' <==> Listed(fs', p, x) || Child(p, x) in D {
      assert Child(p, x) in fs <==> Listed(fs, p, x) || Child(p, x) in D + {q};
    }
  }

  function WithData(fs: Fs, p: Path, data: seq<byte>): Fs
    requires p in fs
  {
    fs[p := fs[p].(data := data)]
  }

  lemma WithDataWellFormed(fs: Fs, p: Path, data: seq<byte>)
    requires WellFormed(fs) && p in fs
    ensures WellFormed(WithData(fs, p, data))
  {
    var fs' := WithData(fs, p, data);
    forall r, x ensures Child(r, x) in fs' <==> Listed(fs', r, x) {
      assert Child(r, x) in fs <==> Listed(fs, r, x);
    }
  }

  // ---------- path strings ----------

  predicate SlashFree(s: seq<byte>) {
    SLASH !in s
  }

  /** One more character after the components r, the last of which is `open` to it or ended. */
  function Grow(r: seq<Name>, open: bool, c: byte): seq<Name>
    requires open ==> r != []
  {
    if c == SLASH then r
    else if open then r[..|r|-1] + [r[|r|-1] + [c]]
    else r + [[c]]
  }

  /** The components of a path string: the longest runs without a slash. */
  function Split(s: seq<byte>): (r: seq<Name>)
    ensures s != [] && s[|s|-1] != SLASH ==> r != []
  {
    if s == [] then []
    else
      var init := s[..|s|-1];
      Grow(Split(init), init != [] && init[|init|-1] != SLASH, s[|s|-1])
  }

  lemma SplitSnoc(s: seq<byte>, c: byte)
    ensures Split(s + [c]) == Grow(Split(s), s != [] && s[|s|-1] != SLASH, c)
  {
    var t := s + [c];
    assert t[..|t|-1] == s;
  }

  lemma GrowRun(sub: seq<Name>, run: Name, c: byte)
    requires c != SLASH
    ensures Grow(sub + [run], true, c) == sub + [run + [c]]
  {
    assert (sub + [run])[..|sub|] == sub;
  }

  /** One more character, for the components `sub` and the `run` of characters after them. */
  lemma SplitStep(s: seq<byte>, c: byte, sub: seq<Name>, run: Name)
    requires run == [] <==> s == [] || s[|s|-1] == SLASH
    requires Split(s) == if run == [] then sub else sub + [run]
    ensures Split(s + [c]) == if c != SLASH then sub + [run + [c]] else Split(s)
  {
    SplitSnoc(s, c);
    if c != SLASH { GrowRun(sub, run, c); }
  }

  /** Components are not empty and have no slashes in them. */
  lemma {:induction false} SplitParts(s: seq<byte>)
    ensures forall k | 0 <= k < |Split(s)| :: Split(s)[k] != [] && SlashFree(Split(s)[k]) && 47 !in Split(s)[k]
  {
    if s != [] {
      SplitParts(s[..|s|-1]);
      var r := Split(s[..|s|-1]);
      if r != [] { assert SlashFree(r[|r|-1]); }
    }
  }

  /** What follows the last slash. */
  function Basename(s: seq<byte>): (r: Name)
    ensures SlashFree(r)
  {
    if s == [] || s[|s|-1] == SLASH then [] else Basename(s[..|s|-1]) + [s[|s|-1]]
  }

  /** Appending a component appends it. */
  lemma {:induction false} SplitAppend(s: seq<byte>, name: Name)
    requires name != [] && SlashFree(name)
    ensures Split(s + [47] + name) == Split(s) + [name]
    ensures Basename(s + [47] + name) == name
  {
    var t := s + [SLASH] + name;
    var init := t[..|t|-1];
    assert name[|name|-1] in name;
    if |name| == 1 {
      assert init == s + [SLASH];
      assert init[..|init|-1] == s;
      assert Split(init) == Split(s) && name == [t[|t|-1]];
    } else {
      var name' := name[..|name|-1];
      assert SlashFree(name') by { forall c | c in name' ensures c in name {} }
      assert init == s + [SLASH] + name';
      assert init[|init|-1] == name'[|name'|-1] && name'[|name'|-1] in name';
      SplitAppend(s, name');
      assert Split(init) == Split(s) + [name'];
      assert name == name' + [name[|name|-1]];
    }
  }

  /** The last component is the basename, unless the path ends on a slash. */
  lemma {:induction false} BasenameIsLast(s: seq<byte>)
    requires s != [] && s[|s|-1] != SLASH
    ensures Split(s) != [] && Split(s)[|Split(s)|-1] == Basename(s)
  {
    var init := s[..|s|-1];
    if init != [] && init[|init|-1] != SLASH {
      BasenameIsLast(init);
    } else {
      assert Basename(init) == [];
    }
  }

  predicate RealName(name: Name) {
    name != [] && name != DOT && name != DOTDOT
  }

  /** A path that does not end on a slash, and whose last component is a name. */
  predicate Clean(s: seq<byte>) {
    s != [] && s[|s|-1] != SLASH && RealName(Basename(s))
  }

  // ---------- resolution ----------

  /** Following one component from an entry. */
  function Follow(fs: Fs, at: Path, c: Name): Option<Path> {
    if c == DOTDOT then
      if at == Root then None else Some(at.parent)
    else if c == DOT || c == [] then Some(at)
    else if at in fs && c in fs[at].names then Some(Child(at, c))
    else None
  }

  /** Following components from an entry. */
  function Resolve(fs: Fs, at: Path, comps: seq<Name>): Option<Path>
    decreases |comps|
  {
    if comps == [] then Some(at)
    else
      match Follow(fs, at, comps[0])
      case None => None
      case Some(p) => Resolve(fs, p, comps[1..])
  }

  /** Following one list of components and then another. */
  lemma {:induction false} ResolveAppend(fs: Fs, at: Path, a: seq<Name>, b: seq<Name>)
    ensures Resolve(fs, at, a + b) ==
            match Resolve(fs, at, a) { case None => None case Some(p) => Resolve(fs, p, b) }
    decreases |a|
  {
    if a == [] {
      assert a + b == b;
    } else {
      assert (a + b)[1..] == a[1..] + b;
      if a[0] == DOTDOT {
        if at != Root { ResolveAppend(fs, at.parent, a[1..], b); }
      } else if a[0] == DOT || a[0] == [] {
        ResolveAppend(fs, at, a[1..], b);
      } else {
        ResolveAppend(fs, Child(at, a[0]), a[1..], b);
      }
    }
  }

  /** All components but the last. */
  function Directory(comps: seq<Name>): seq<Name> {
    if comps == [] then [] else comps[..|comps|-1]
  }

  /** The path that leads down from an entry along names. */
  function Down(at: Path, comps: seq<Name>): Path
    decreases |comps|
  {
    if comps == [] then at else Down(Child(at, comps[0]), comps[1..])
  }

  lemma ParentThere(fs: Fs, q: Path)
    requires WellFormed(fs) && q in fs && q.Child?
    ensures q.parent in fs && q.name in fs[q.parent].names
  {
    assert Child(q.parent, q.name) in fs ==> Listed(fs, q.parent, q.name);
  }

  lemma {:induction false} ResolvesInside(fs: Fs, at: Path, comps: seq<Name>)
    requires WellFormed(fs) && at in fs
    ensures Resolve(fs, at, comps).Some? ==> Resolve(fs, at, comps).value in fs
    decreases |comps|
  {
    if comps != [] {
      if comps[0] == DOTDOT {
        if at != Root {
          ParentThere(fs, at);
          ResolvesInside(fs, at.parent, comps[1..]);
        }
      } else if comps[0] == DOT || comps[0] == [] {
        ResolvesInside(fs, at, comps[1..]);
      } else if comps[0] in fs[at].names {
        assert Listed(fs, at, comps[0]);
        ResolvesInside(fs, Child(at, comps[0]), comps[1..]);
      }
    }
  }

  lemma {:induction false} AboveIsThere(fs: Fs, at: Path, comps: seq<Name>)
    requires WellFormed(fs) && Down(at, comps) in fs
    ensures at in fs
    decreases |comps|
  {
    if comps != [] {
      AboveIsThere(fs, Child(at, comps[0]), comps[1..]);
      ParentThere(fs, Child(at, comps[0]));
    }
  }

  /** A path of real names resolves to the entry it spells out if that is there, and not at all
      otherwise: on these paths the tree is a map. */
  lemma {:induction false} NormalPathsResolve(fs: Fs, at: Path, comps: seq<Name>)
    requires WellFormed(fs) && at in fs && forall k | 0 <= k < |comps| :: RealName(comps[k])
    ensures Resolve(fs, at, comps) == if Down(at, comps) in fs then Some(Down(at, comps)) else None
    decreases |comps|
  {
    if comps != [] {
      var c, rest := comps[0], comps[1..];
      assert forall k | 0 <= k < |rest| :: rest[k] == comps[k+1];
      if Child(at, c) in fs {
        assert Listed(fs, at, c);
        NormalPathsResolve(fs, Child(at, c), rest);
      } else {
        assert !Listed(fs, at, c);
        if Down(at, comps) in fs { AboveIsThere(fs, Child(at, c), rest); }
      }
    }
  }

  /** Everything that resolved before a creation resolves to the same entry after it. */
  lemma {:induction false} CreatedKeepsResolving(fs: Fs, p: Path, name: Name, at: Path, comps: seq<Name>)
    requires WellFormed(fs) && p in fs && name !in fs[p].names && at in fs && Resolve(fs, at, comps).Some?
    ensures Resolve(Created(fs, p, name), at, comps) == Resolve(fs, at, comps)
    decreases |comps|
  {
    if comps != [] {
      if comps[0] == DOTDOT {
        ParentThere(fs, at);
        CreatedKeepsResolving(fs, p, name, at.parent, comps[1..]);
      } else if comps[0] == DOT || comps[0] == [] {
        CreatedKeepsResolving(fs, p, name, at, comps[1..]);
      } else {
        assert Listed(fs, at, comps[0]);
        CreatedWellFormed(fs, p, name);
        CreatedKeepsResolving(fs, p, name, Child(at, comps[0]), comps[1..]);
      }
    }
  }

  lemma {:induction false} DataKeepsResolving(fs: Fs, p: Path, data: seq<byte>, at: Path, comps: seq<Name>)
    requires p in fs
    ensures Resolve(WithData(fs, p, data), at, comps) == Resolve(fs, at, comps)
    decreases |comps|
  {
    if comps != [] {
      var next := Follow(fs, at, comps[0]);
      assert Follow(WithData(fs, p, data), at, comps[0]) == next;
      if next.Some? { DataKeepsResolving(fs, p, data, next.value, comps[1..]); }
    }
  }

  /** What dots mean: one stays where one is, two lead to the parent, and above the root is nothing. */
  lemma DotsLead(fs: Fs, at: Path, rest: seq<Name>)
    ensures Resolve(fs, at, [[46]] + rest) == Resolve(fs, at, rest)
    ensures Resolve(fs, at, [[46, 46]] + rest) == if at == Root then None else Resolve(fs, at.parent, rest)
  {
    assert ([[46]] + rest)[1..] == rest && ([[46, 46]] + rest)[1..] == rest;
  }

  /** Following the components passes through no entry at or below q. */
  predicate Avoids(fs: Fs, q: Path, at: Path, comps: seq<Name>)
    decreases |comps|
  {
    && !Under(q, at)
    && (comps == [] ||
        match Follow(fs, at, comps[0])
        case None => true
        case Some(p) => Avoids(fs, q, p, comps[1..]))
  }

  /** Removing and looking up, for all paths: a path resolves after the removal exactly if it did
      before and never passed through what is removed; and then it leads where it did. */
  lemma {:induction false} RemovedResolves(fs: Fs, q: Path, at: Path, comps: seq<Name>)
    requires WellFormed(fs) && q.Child? && at in fs && !Under(q, at)
    ensures Resolve(Removed(fs, q), at, comps) ==
            if Avoids(fs, q, at, comps) then Resolve(fs, at, comps) else None
    decreases |comps|
  {
    var fs' := Removed(fs, q);
    if comps != [] {
      var c := comps[0];
      var next := Follow(fs, at, c);
      FollowRemoved(fs, q, at, c);
      if next.Some? && !Under(q, next.value) {
        FollowInside(fs, at, c);
        RemovedResolves(fs, q, next.value, comps[1..]);
      } else {
        assert next.Some? ==> !Avoids(fs, q, next.value, comps[1..]);
      }
    }
  }

  lemma FollowInside(fs: Fs, at: Path, c: Name)
    requires WellFormed(fs) && at in fs
    ensures Follow(fs, at, c).Some? ==> Follow(fs, at, c).value in fs
  {
    if c == DOTDOT {
      if at != Root { ParentThere(fs, at); }
    } else if c in fs[at].names {
      assert Listed(fs, at, c);
    }
  }

  /** One step after a removal: the same, unless it leads into what is removed. */
  lemma FollowRemoved(fs: Fs, q: Path, at: Path, c: Name)
    requires WellFormed(fs) && q.Child? && at in fs && !Under(q, at)
    ensures Follow(Removed(fs, q), at, c) ==
            var next := Follow(fs, at, c);
            if next.Some? && Under(q, next.value) then None else next
  {
    if c == DOTDOT {
    } else if c != DOT && c != [] {
      assert Under(q, Child(at, c)) <==> q == Child(at, c);
    }
  }

  /** In particular: what still resolves after a removal resolves to what it did before. */
  lemma RemovedAgrees(fs: Fs, q: Path, at: Path, comps: seq<Name>)
    requires WellFormed(fs) && q.Child? && at in Removed(fs, q) && Resolve(Removed(fs, q), at, comps).Some?
    ensures Resolve(fs, at, comps) == Resolve(Removed(fs, q), at, comps)
  {
    RemovedResolves(fs, q, at, comps);
  }

  lemma {:induction false} BelowIsUnder(q: Path, at: Path, comps: seq<Name>)
    requires Under(q, at)
    ensures Under(q, Down(at, comps))
    decreases |comps|
  {
    if comps != [] { BelowIsUnder(q, Child(at, comps[0]), comps[1..]); }
  }

  /** A normal path that resolves passes only through entries above the one it leads to. */
  lemma {:induction false} NormalPathAvoids(fs: Fs, q: Path, at: Path, comps: seq<Name>)
    requires WellFormed(fs) && at in fs && !Under(q, at) && forall k | 0 <= k < |comps| :: RealName(comps[k])
    requires Resolve(fs, at, comps).Some?
    ensures Avoids(fs, q, at, comps) <==> !Under(q, Down(at, comps))
    decreases |comps|
  {
    if comps != [] {
      var next, rest := Child(at, comps[0]), comps[1..];
      assert forall k | 0 <= k < |rest| :: rest[k] == comps[k+1];
      assert Follow(fs, at, comps[0]) == Some(next);
      FollowInside(fs, at, comps[0]);
      if Under(q, next) { BelowIsUnder(q, next, rest); } else { NormalPathAvoids(fs, q, next, rest); }
    }
  }

  /** So of the normal paths exactly those under the removed one are lost. */
  lemma RemovedExactly(fs: Fs, q: Path, comps: seq<Name>)
    requires WellFormed(fs) && q in fs && q.Child? && forall k | 0 <= k < |comps| :: RealName(comps[k])
    ensures Resolve(Removed(fs, q), Root, comps) ==
            if Under(q, Down(Root, comps)) then None else Resolve(fs, Root, comps)
  {
    RemovedResolves(fs, q, Root, comps);
    if Resolve(fs, Root, comps).Some? { NormalPathAvoids(fs, q, Root, comps); }
  }

  /** And every detour through the removed entry is lost, wherever it leads. */
  lemma DetourIsLost(fs: Fs, q: Path, rest: seq<Name>)
    requires WellFormed(fs) && q in fs && q.Child? && RealName(q.name)
    ensures Resolve(fs, q.parent, [q.name, DOTDOT] + rest) == Resolve(fs, q.parent, rest)
    ensures Resolve(Removed(fs, q), q.parent, [q.name, DOTDOT] + rest) == None
  {
    var comps := [q.name, DOTDOT] + rest;
    ParentThere(fs, q);
    assert q == Child(q.parent, q.name);
    assert comps[1..] == [DOTDOT] + rest && comps[1..][1..] == rest;
    assert Follow(fs, q.parent, q.name) == Some(q) && Follow(fs, q, DOTDOT) == Some(q.parent);
    if Under(q, q.parent) { UnderIsDeeper(q, q.parent); }
    assert !Avoids(fs, q, q, comps[1..]);
    RemovedResolves(fs, q, q.parent, comps);
  }

  /** Creating and looking up: of the normal paths exactly the new one is gained. */
  lemma CreatedExactly(fs: Fs, p: Path, name: Name, comps: seq<Name>)
    requires WellFormed(fs) && p in fs && name !in fs[p].names && forall k | 0 <= k < |comps| :: RealName(comps[k])
    ensures var q := Down(Root, comps);
            Resolve(Created(fs, p, name), Root, comps) ==
              if q == Child(p, name) then Some(q) else Resolve(fs, Root, comps)
  {
    CreatedWellFormed(fs, p, name);
    NormalPathsResolve(fs, Root, comps);
    NormalPathsResolve(Created(fs, p, name), Root, comps);
  }

  /** An entry created under a name that is empty, `.` or `..` cannot be reached by any path. */
  lemma {:induction false} OddNamesUnreachable(fs: Fs, q: Path, at: Path, comps: seq<Name>)
    requires q.Child? && !RealName(q.name) && !Under(q, at)
    ensures Resolve(fs, at, comps) != Some(q)
    decreases |comps|
  {
    if comps != [] {
      if comps[0] == DOTDOT {
        if at != Root { OddNamesUnreachable(fs, q, at.parent, comps[1..]); }
      } else if comps[0] == DOT || comps[0] == [] {
        OddNamesUnreachable(fs, q, at, comps[1..]);
      } else {
        OddNamesUnreachable(fs, q, Child(at, comps[0]), comps[1..]);
      }
    }
  }
}
