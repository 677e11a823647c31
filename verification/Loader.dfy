// Booting: the parser that builds the file system from the image (src/sys/main.c).
module Loader {
  import opened Common
  import opened FsModel
  import opened NodeLayout
  import opened Vfs
  import S = Streams
  import opened ImageFormat

  const MODE_WB: seq<byte> := [119, 98]

  /** The path is that of the entry. */
  ghost predicate Leads(fs: Fs, path: seq<byte>, at: Path) {
    at in fs && Resolve(fs, Root, Split(path)) == Some(at)
  }

  /** Where the path of a name in an entry leads, before and after it is created. */
  lemma EntryPath(fs: Fs, path: seq<byte>, at: Path, name: Name)
    requires Leads(fs, path, at) && RealName(name) && SlashFree(name)
    ensures var temp := path + [SLASH] + name;
            && Split(temp) == Split(path) + [name] && Basename(temp) == name && Clean(temp)
            && Directory(Split(temp)) == Split(path)
            && Resolve(fs, Root, Split(temp)) == if name in fs[at].names then Some(Child(at, name)) else None
  {
    var temp := path + [SLASH] + name;
    SplitAppend(path, name);
    assert temp[|temp|-1] == name[|name|-1] && name[|name|-1] in name;
    ResolveAppend(fs, Root, Split(path), [name]);
    assert [name][1..] == [];
  }

  lemma Rest(image: seq<byte>, p: nat, a: seq<byte>, b: seq<byte>)
    requires p <= |image| && image[p..] == a + b
    ensures p + |a| <= |image| && image[p..p+|a|] == a && image[p+|a|..] == b
  {
    assert image[p..][..|a|] == a && image[p..][|a|..] == b;
  }

  method StrLen(image: seq<byte>, p: nat, ghost name: Name, ghost after: seq<byte>) returns (l: nat)
    requires p <= |image| && image[p..] == name + [0] + after && 0 !in name
    ensures l == |name|
  {
    assert image[p..][0] == (name + [0])[0];
    l := 0;
    while image[p + l] != 0
      invariant l <= |name| && p + |name| < |image|
      invariant image[p + l] == (name + [0])[l]
      decreases |name| - l
    {
      l := l + 1;
      assert image[p..][l] == (name + [0])[l];
    }
  }

  /** Create an entry, which is not there yet. */
  method CreateEntry(sys: FileSystem, path: seq<byte>, name: Name, ghost at: Path)
    requires sys.Valid() && Leads(sys.fs, path, at) && |Split(path)| < 32
    requires RealName(name) && SlashFree(name) && |name| < 32 && name !in sys.fs[at].names
    modifies sys`fs, sys`at, sys`nodes, sys.nodes
    ensures sys.Valid() && fresh(sys.nodes - old(sys.nodes)) && sys.fs == Created(old(sys.fs), at, name)
  {
    EntryPath(sys.fs, path, at, name);
    var _, _ := sys.Create(path + [SLASH] + name);
  }

  /** Fill an empty file. */
  method FillFile(sys: FileSystem, path: seq<byte>, name: Name, data: seq<byte>, ghost at: Path)
    requires sys.Valid() && Leads(sys.fs, path, at) && |Split(path)| < 32
    requires RealName(name) && SlashFree(name) && name in sys.fs[at].names && |data| < WORD32
    modifies sys`fs, sys`at, sys`nodes, sys.nodes
    ensures sys.Valid() && fresh(sys.nodes - old(sys.nodes))
    ensures Child(at, name) in old(sys.fs) && sys.fs == WithData(old(sys.fs), Child(at, name), data)
  {
    hide FileSystem.Valid, S.OpenedAt, S.AfterOpen, WellFormed, Split, Resolve, Basename, Clean;
    sys.Sound();
    EntryPath(sys.fs, path, at, name);
    assert Listed(sys.fs, at, name);
    S.Reopened(sys.fs, path + [SLASH] + name);
    var s, p := S.Open(sys, path + [SLASH] + name, MODE_WB);
    assert p == Some(Child(at, name)) && sys.fs == WithData(old(sys.fs), p.value, []);
    sys.DataOf(p.value);
    sys.Sound();
    assert [] + data == data;
    var _ := s.Write(sys, data, p.value);
    assert WithData(WithData(old(sys.fs), p.value, []), p.value, data) == WithData(old(sys.fs), p.value, data);
  }

  method LoadFile(sys: FileSystem, image: seq<byte>, p: nat, path: seq<byte>,
                  ghost at: Path, ghost name: Name, ghost data: seq<byte>, ghost after: seq<byte>)
    returns (q: nat)
    requires sys.Valid() && Leads(sys.fs, path, at) && |Split(path)| < 32
    requires RealName(name) && SlashFree(name) && 0 !in name && |name| < 32 && |data| < WORD32
    requires name !in sys.fs[at].names
    requires p <= |image| && image[p..] == name + [0] + Le32(|data|) + data + after
    modifies sys`fs, sys`at, sys`nodes, sys.nodes
    ensures sys.Valid() && fresh(sys.nodes - old(sys.nodes))
    ensures sys.fs == FileAdded(old(sys.fs), at, name, data)
    ensures q <= |image| && image[q..] == after
  {
    hide FileSystem.Valid;
    sys.Sound();
    ghost var fs0 := sys.fs;
    var l, size := FileHeader(image, p, name, data, after);
    var file := image[p..p+l];
    CreateEntry(sys, path, file, at);
    CreatedStillLeads(fs0, path, at, name);
    q := p + l + 1 + 4;
    FillFile(sys, path, file, image[q..q+size], at);
    q := q + size;
  }

  lemma CreatedStillLeads(fs: Fs, path: seq<byte>, at: Path, name: Name)
    requires WellFormed(fs) && Leads(fs, path, at) && name !in fs[at].names
    ensures Leads(Created(fs, at, name), path, at) && name in Created(fs, at, name)[at].names
  {
    CreatedKeepsResolving(fs, at, name, Root, Split(path));
  }

  lemma Regroup(name: Name, size: seq<byte>, data: seq<byte>, after: seq<byte>)
    ensures name + [0] + size + data + after == name + [0] + (size + (data + after))
  {
  }

  /** The length of the name. */
  method NameHeader(image: seq<byte>, p: nat, ghost name: Name, ghost after: seq<byte>) returns (l: nat)
    requires p <= |image| && image[p..] == name + [0] + after && 0 !in name
    ensures l == |name| && p + l + 1 <= |image| && image[p..p+l] == name && image[p+l+1..] == after
  {
    l := StrLen(image, p, name, after);
    assert name + [0] + after == name + ([0] + after);
    Rest(image, p, name, [0] + after);
    Rest(image, p + l, [0], after);
  }

  /** The length of the name and the size of the data. */
  method FileHeader(image: seq<byte>, p: nat, ghost name: Name, ghost data: seq<byte>, ghost after: seq<byte>)
    returns (l: nat, size: nat)
    requires p <= |image| && image[p..] == name + [0] + Le32(|data|) + data + after && 0 !in name && |data| < WORD32
    ensures l == |name| && size == |data|
    ensures p + l + 1 + 4 + size <= |image|
    ensures image[p..p+l] == name && image[p+l+1+4..p+l+1+4+size] == data && image[p+l+1+4+size..] == after
  {
    Regroup(name, Le32(|data|), data, after);
    l := NameHeader(image, p, name, Le32(|data|) + (data + after));
    Rest(image, p + l + 1, Le32(|data|), data + after);
    Le32Undone(|data|);
    size := FromLe32(image[p+l+1..p+l+1+4]);
    Rest(image, p + l + 1 + 4, data, after);
  }

  method LoadDir(sys: FileSystem, image: seq<byte>, p: nat, path: seq<byte>,
                 ghost at: Path, ghost name: Name, ghost inner: Items, ghost after: seq<byte>)
    returns (q: nat)
    requires sys.Valid() && Leads(sys.fs, path, at) && name !in sys.fs[at].names
    requires RealName(name) && SlashFree(name) && 0 !in name && |name| < 32
    requires Nameable(inner) && DistinctNames(NamesOf(inner)) && |Split(path)| < 32
    requires Fits(inner, |path| + 1 + |name|, |Split(path)| + 1)
    requires p <= |image| && image[p..] == name + [0] + (Encode(inner) + ([TAG_POP] + after))
    modifies sys`fs, sys`at, sys`nodes, sys.nodes
    ensures sys.Valid() && fresh(sys.nodes - old(sys.nodes))
    ensures sys.fs == Loaded(Created(old(sys.fs), at, name), Child(at, name), inner)
    ensures q <= |image| && image[q..] == after
    decreases inner, 3
  {
    hide FileSystem.Valid, Encode, Split, Resolve;
    var l := NameHeader(image, p, name, Encode(inner) + ([TAG_POP] + after));
    var temp := CreateDir(sys, path, image[p..p+l], at);
    assert [] + NamesOf(inner) == NamesOf(inner);
    assert ([TAG_POP] + after)[1..] == after;
    q := LoadVfsImage(sys, image, p + l + 1, temp, Child(at, name), inner, [TAG_POP] + after);
  }

  /** Create an entry; the path to it. */
  method CreateDir(sys: FileSystem, path: seq<byte>, name: Name, ghost at: Path) returns (temp: seq<byte>)
    requires sys.Valid() && Leads(sys.fs, path, at) && |Split(path)| < 32
    requires RealName(name) && SlashFree(name) && |name| < 32 && name !in sys.fs[at].names
    modifies sys`fs, sys`at, sys`nodes, sys.nodes
    ensures sys.Valid() && fresh(sys.nodes - old(sys.nodes)) && sys.fs == Created(old(sys.fs), at, name)
    ensures Leads(sys.fs, temp, Child(at, name)) && sys.fs[Child(at, name)].names == []
    ensures |temp| == |path| + 1 + |name| && |Split(temp)| == |Split(path)| + 1
  {
    ghost var fs0 := sys.fs;
    temp := path + [SLASH] + name;
    CreateEntry(sys, path, name, at);
    CreatedStillLeads(fs0, path, at, name);
    EntryPath(sys.fs, path, at, name);
  }

  lemma AfterFile(fs: Fs, path: seq<byte>, at: Path, todo: Items)
    requires WellFormed(fs) && Leads(fs, path, at) && todo.File? && Nameable(todo)
    requires DistinctNames(fs[at].names + NamesOf(todo))
    ensures todo.name !in fs[at].names
    ensures var fs' := FileAdded(fs, at, todo.name, todo.data);
            Leads(fs', path, at) && DistinctNames(fs'[at].names + NamesOf(todo.rest))
  {
    var fs1 := Created(fs, at, todo.name);
    Prepended(fs[at].names, todo.name, NamesOf(todo.rest));
    CreatedStillLeads(fs, path, at, todo.name);
    DataKeepsResolving(fs1, Child(at, todo.name), todo.data, Root, Split(path));
  }

  lemma AfterDir(fs: Fs, path: seq<byte>, at: Path, todo: Items)
    requires WellFormed(fs) && Leads(fs, path, at) && todo.Dir? && Nameable(todo)
    requires DistinctNames(fs[at].names + NamesOf(todo))
    ensures todo.name !in fs[at].names
    ensures var fs' := Loaded(Created(fs, at, todo.name), Child(at, todo.name), todo.items);
            Leads(fs', path, at) && DistinctNames(fs'[at].names + NamesOf(todo.rest))
  {
    var c, fs1 := Child(at, todo.name), Created(fs, at, todo.name);
    Prepended(fs[at].names, todo.name, NamesOf(todo.rest));
    CreatedStillLeads(fs, path, at, todo.name);
    CreatedWellFormed(fs, at, todo.name);
    assert fs1[c].names + NamesOf(todo.items) == NamesOf(todo.items);
    LoadedHolds(fs1, c, todo.items);
    LoadedKeepsResolving(fs1, c, todo.items, Split(path));
    assert fs1[at].names == fs[at].names + [todo.name] && at != c;
  }

  lemma FileBytes(name: Name, size: seq<byte>, data: seq<byte>, rest: seq<byte>, tail: seq<byte>)
    ensures [TAG_FILE] + name + [0] + size + data + rest + tail ==
            [TAG_FILE] + (name + [0] + size + data + (rest + tail))
  {
  }

  lemma DirBytes(name: Name, inner: seq<byte>, rest: seq<byte>, tail: seq<byte>)
    ensures [TAG_DIR] + name + [0] + inner + [TAG_POP] + rest + tail ==
            [TAG_DIR] + (name + [0] + (inner + ([TAG_POP] + (rest + tail))))
  {
  }

  /** The tag tells the items apart. */
  function Tag(todo: Items): byte {
    match todo
    case Nil => TAG_POP
    case File(_, _, _) => TAG_FILE
    case Dir(_, _, _) => TAG_DIR
  }

  /** What follows the tag is the item and the rest. */
  function Body(todo: Items, tail: seq<byte>): seq<byte>
    requires todo == Nil ==> tail != []
  {
    match todo
    case Nil => tail[1..]
    case File(name, data, rest) => name + [0] + Le32(|data|) + data + (Encode(rest) + tail)
    case Dir(name, inner, rest) => name + [0] + (Encode(inner) + ([TAG_POP] + (Encode(rest) + tail)))
  }

  lemma Tagged(todo: Items, tail: seq<byte>)
    requires todo == Nil ==> tail != [] && tail[0] == TAG_POP
    ensures Encode(todo) + tail == [Tag(todo)] + Body(todo, tail)
  {
    match todo
    case Nil =>
    case File(name, data, rest) => FileBytes(name, Le32(|data|), data, Encode(rest), tail);
    case Dir(name, inner, rest) => DirBytes(name, Encode(inner), Encode(rest), tail);
  }

  /** One entry of the image. */
  method LoadItem(sys: FileSystem, image: seq<byte>, p: nat, path: seq<byte>,
                  ghost at: Path, ghost todo: Items, ghost tail: seq<byte>)
    returns (q: nat)
    requires todo != Nil && p < |image| && image[p] == Tag(todo) && image[p+1..] == Body(todo, tail)
    requires sys.Valid() && Leads(sys.fs, path, at)
    requires Nameable(todo) && Fits(todo, |path|, |Split(path)|) && DistinctNames(sys.fs[at].names + NamesOf(todo))
    modifies sys`fs, sys`at, sys`nodes, sys.nodes
    ensures sys.Valid() && fresh(sys.nodes - old(sys.nodes)) && Leads(sys.fs, path, at)
    ensures Loaded(sys.fs, at, todo.rest) == Loaded(old(sys.fs), at, todo)
    ensures DistinctNames(sys.fs[at].names + NamesOf(todo.rest))
    ensures q <= |image| && image[q..] == Encode(todo.rest) + tail
    decreases todo, 1
  {
    hide FileSystem.Valid, DistinctNames, Split, Resolve;
    sys.Sound();
    if image[p] == TAG_DIR {
      AfterDir(sys.fs, path, at, todo);
      q := LoadDir(sys, image, p + 1, path, at, todo.name, todo.items, Encode(todo.rest) + tail);
    } else {
      AfterFile(sys.fs, path, at, todo);
      q := LoadFile(sys, image, p + 1, path, at, todo.name, todo.data, Encode(todo.rest) + tail);
    }
  }

  method LoadVfsImage(sys: FileSystem, image: seq<byte>, p: nat, path: seq<byte>,
                      ghost at: Path, ghost items: Items, ghost tail: seq<byte>)
    returns (q: nat)
    requires p <= |image| && image[p..] == Encode(items) + tail && (tail == [] || tail[0] == TAG_POP)
    requires sys.Valid() && Leads(sys.fs, path, at)
    requires Nameable(items) && Fits(items, |path|, |Split(path)|) && DistinctNames(sys.fs[at].names + NamesOf(items))
    modifies sys`fs, sys`at, sys`nodes, sys.nodes
    ensures sys.Valid() && fresh(sys.nodes - old(sys.nodes))
    ensures sys.fs == Loaded(old(sys.fs), at, items)
    ensures q <= |image| && image[q..] == if tail == [] then [] else tail[1..]
    decreases items, 2
  {
    hide FileSystem.Valid;
    q := p;
    ghost var todo := items;
    while q < |image|
      invariant q <= |image| && image[q..] == Encode(todo) + tail
      invariant sys.Valid() && fresh(sys.nodes - old(sys.nodes)) && Leads(sys.fs, path, at)
      invariant Loaded(sys.fs, at, todo) == Loaded(old(sys.fs), at, items)
      invariant Nameable(todo) && Fits(todo, |path|, |Split(path)|) && DistinctNames(sys.fs[at].names + NamesOf(todo))
      invariant todo == items || todo < items
      decreases todo
    {
      Tagged(todo, tail);
      assert image[q..][0] == image[q] && image[q..][1..] == image[q+1..];
      if image[q] == TAG_POP {
        return q + 1;
      } else if image[q] == TAG_DIR || image[q] == TAG_FILE {
        q := LoadItem(sys, image, q, path, at, todo, tail);
        todo := todo.rest;
      } else {
        assert false;
      }
    }
  }

  /** Booting from the image of a tree: the file system holds the tree, behind the standard streams. */
  method Boot(image: seq<byte>, ghost items: Items) returns (sys: FileSystem)
    requires image == Encode(items)
    requires Nameable(items) && Fits(items, 0, 0) && DistinctNames(STANDARD + NamesOf(items))
    ensures sys.Valid() && Holds(sys.fs, Root, items) && sys.fs[Root] == Entry([], STANDARD + NamesOf(items))
  {
    sys := VfsInit();
    assert image[0..] == Encode(items) + [];
    assert Split([]) == [];
    LoadedHolds(sys.fs, Root, items);
    var _ := LoadVfsImage(sys, image, 0, [], Root, items, []);
  }
}
