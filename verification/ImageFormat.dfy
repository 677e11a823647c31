// The boot image: printed from a directory tree (mkfs.py), parsed back into the file system
// (src/sys/main.c).
module ImageFormat {
  import opened Common
  import opened FsModel

  const TAG_DIR: byte := 100
  const TAG_FILE: byte := 102
  const TAG_POP: byte := 112

  /** A directory's entries, in the order in which they are scanned. */
  datatype Items =
    | Nil
    | File(name: Name, data: seq<byte>, rest: Items)
    | Dir(name: Name, items: Items, rest: Items)

  function NamesOf(items: Items): seq<Name> {
    match items
    case Nil => []
    case File(name, _, rest) => [name] + NamesOf(rest)
    case Dir(name, _, rest) => [name] + NamesOf(rest)
  }

  // ---------- numbers ----------

  /** A number in four bytes, lowest first; what does not fit is lost. */
  function Le32(n: nat): (s: seq<byte>)
    ensures |s| == 4
  {
    [n % 256, n / 256 % 256, n / 256 / 256 % 256, n / 256 / 256 / 256 % 256]
  }

  function FromLe32(s: seq<byte>): (n: nat)
    requires |s| == 4
    ensures n < WORD32
  {
    var b0: int, b1: int, b2: int, b3: int := s[0], s[1], s[2], s[3];
    b0 + 256 * (b1 + 256 * (b2 + 256 * b3))
  }

  /** A size survives exactly if it fits. */
  lemma Le32Undone(n: nat)
    ensures FromLe32(Le32(n)) == n <==> n < WORD32
  {
    var a := n / 256;
    var b := a / 256;
    var c := b / 256;
    assert n == 256 * a + n % 256 && a == 256 * b + a % 256 && b == 256 * c + b % 256;
  }

  // ---------- printing ----------

  function Encode(items: Items): seq<byte>
    decreases items, 0
  {
    match items
    case Nil => []
    case File(name, data, rest) => PrintedFile(name, data) + Encode(rest)
    case Dir(name, inner, rest) => PrintedDir(name, inner) + Encode(rest)
  }

  function PrintedFile(name: Name, data: seq<byte>): seq<byte> {
    [TAG_FILE] + name + [0] + Le32(|data|) + data
  }

  function PrintedDir(name: Name, inner: Items): seq<byte>
    decreases inner, 1
  {
    [TAG_DIR] + name + [0] + Encode(inner) + [TAG_POP]
  }

  /** The bytes of a file record, wherever it is in the image. */
  lemma FileRecord(name: Name, data: seq<byte>, rest: Items)
    requires |data| < WORD32
    ensures var e, n, d := Encode(File(name, data, rest)), |name|, |data|;
            && |e| == n + 6 + d + |Encode(rest)|
            && e[0] == 102 && e[1..n+1] == name && e[n+1] == 0
            && d == e[n+2] as int + 0x100 * (e[n+3] as int) + 0x1_0000 * (e[n+4] as int) + 0x100_0000 * (e[n+5] as int)
            && e[n+6..n+6+d] == data && e[n+6+d..] == Encode(rest)
  {
    Le32Undone(|data|);
    var e, size, r := Encode(File(name, data, rest)), Le32(|data|), Encode(rest);
    assert e == [102] + name + [0] + size + data + r;
    hide Encode, Le32;
    Grouped([102] + name + [0], size, data, r);
    Header(102, name, size + data + r, e);
    Parts(size, data, r, e[|name|+2..]);
    assert e[|name|+2..|name|+6] == e[|name|+2..][..4];
  }

  /** The bytes of a directory record: its items, and the letter that leads out of it. */
  lemma DirRecord(name: Name, inner: Items, rest: Items)
    ensures var e, n, m := Encode(Dir(name, inner, rest)), |name|, |Encode(inner)|;
            && |e| == n + m + 3 + |Encode(rest)|
            && e[0] == 100 && e[1..n+1] == name && e[n+1] == 0
            && e[n+2..n+2+m] == Encode(inner) && e[n+2+m] == 112 && e[n+3+m..] == Encode(rest)
  {
    var e, i, r := Encode(Dir(name, inner, rest)), Encode(inner), Encode(rest);
    assert e == PrintedDir(name, inner) + r;
    hide Encode;
    assert PrintedDir(name, inner) == [100] + name + [0] + i + [112];
    Grouped([100] + name + [0], i, [112], r);
    Header(100, name, i + [112] + r, e);
    Parts(i, [112], r, e[|name|+2..]);
  }

  lemma Grouped(p: seq<byte>, a: seq<byte>, b: seq<byte>, c: seq<byte>)
    ensures p + a + b + c == p + (a + b + c)
  {
  }

  lemma Header(tag: byte, name: Name, rest: seq<byte>, e: seq<byte>)
    requires e == [tag] + name + [0] + rest
    ensures e[0] == tag && e[1..|name|+1] == name && e[|name|+1] == 0 && e[|name|+2..] == rest
  {
  }

  lemma Parts(a: seq<byte>, b: seq<byte>, c: seq<byte>, e: seq<byte>)
    requires e == a + b + c
    ensures e[..|a|] == a && e[|a|..|a|+|b|] == b && e[|a|+|b|..] == c
  {
  }

  class Mkfs {
    var image: seq<byte>

    constructor ()
      ensures image == []
    {
      image := [];
    }

    method EncodeDir(items: Items)
      modifies this
      ensures image == old(image) + Encode(items)
      decreases items, 0
    {
      var directory := items;
      ghost var done := [];
      while directory != Nil
        invariant image == old(image) + done && done + Encode(directory) == Encode(items)
        invariant directory == items || directory < items
        decreases directory
      {
        match directory
        case Dir(name, inner, rest) =>
          PutDir(name, inner);
          Associate(done, PrintedDir(name, inner), Encode(rest));
          Associate(old(image), done, PrintedDir(name, inner));
          done := done + PrintedDir(name, inner);
          directory := rest;
        case File(name, data, rest) =>
          PutFile(name, data);
          Associate(done, PrintedFile(name, data), Encode(rest));
          Associate(old(image), done, PrintedFile(name, data));
          done := done + PrintedFile(name, data);
          directory := rest;
      }
    }

    method PutDir(name: Name, inner: Items)
      modifies this
      ensures image == old(image) + PrintedDir(name, inner)
      decreases inner, 1
    {
      image := image + [TAG_DIR];
      image := image + name;
      image := image + [0];
      EncodeDir(inner);
      image := image + [TAG_POP];
    }

    method PutFile(name: Name, data: seq<byte>)
      modifies this
      ensures image == old(image) + PrintedFile(name, data)
    {
      image := image + [TAG_FILE];
      image := image + name;
      image := image + [0];
      image := image + Le32(|data|);
      image := image + data;
    }
  }

  lemma Associate(a: seq<byte>, b: seq<byte>, c: seq<byte>)
    ensures a + (b + c) == a + b + c
  {
  }

  // ---------- what loading makes of a tree ----------

  function FileAdded(fs: Fs, at: Path, name: Name, data: seq<byte>): Fs
    requires at in fs
  {
    WithData(Created(fs, at, name), Child(at, name), data)
  }

  /** The file system with the items added to an entry. */
  function Loaded(fs: Fs, at: Path, items: Items): (r: Fs)
    requires at in fs
    ensures fs.Keys <= r.Keys
    decreases items
  {
    match items
    case Nil => fs
    case File(name, data, rest) => Loaded(FileAdded(fs, at, name, data), at, rest)
    case Dir(name, inner, rest) => Loaded(Loaded(Created(fs, at, name), Child(at, name), inner), at, rest)
  }

  /** Names that can be stored, in every directory. */
  predicate Nameable(items: Items) {
    match items
    case Nil => true
    case File(name, _, rest) => RealName(name) && SlashFree(name) && 0 !in name && Nameable(rest)
    case Dir(name, inner, rest) =>
      && RealName(name) && SlashFree(name) && 0 !in name && Nameable(rest)
      && Nameable(inner) && DistinctNames(NamesOf(inner))
  }

  /** Paths and sizes within the parser's buffers. */
  predicate Fits(items: Items, length: nat, depth: nat) {
    match items
    case Nil => true
    case File(name, data, rest) =>
      |name| < 32 && length + 1 + |name| < 512 && depth < 32 && |data| < WORD32 && Fits(rest, length, depth)
    case Dir(name, inner, rest) =>
      && |name| < 32 && length + 1 + |name| < 512 && depth < 32
      && Fits(inner, length + 1 + |name|, depth + 1) && Fits(rest, length, depth)
  }

  /** The tree is in the file system at an entry: file contents, child order, and nothing more. */
  ghost predicate Holds(fs: Fs, at: Path, items: Items)
    decreases items
  {
    match items
    case Nil => true
    case File(name, data, rest) =>
      Child(at, name) in fs && fs[Child(at, name)] == Entry(data, []) && Holds(fs, at, rest)
    case Dir(name, inner, rest) =>
      var c := Child(at, name);
      c in fs && fs[c] == Entry([], NamesOf(inner)) && Holds(fs, c, inner) && Holds(fs, at, rest)
  }

  /** fs' has everything that fs has, unchanged, but for the entry `at`; what is new is below `at`. */
  ghost predicate Extends(fs: Fs, fs': Fs, at: Path) {
    && (forall r | r in fs :: r in fs' && (r != at ==> fs'[r] == fs[r]))
    && (forall r | r in fs' && r !in fs :: Under(at, r))
  }

  lemma {:induction false} HoldsFramed(fs: Fs, fs': Fs, at: Path, c: Path, items: Items)
    requires Extends(fs, fs', at) && Under(at, c) && Holds(fs, c, items)
    ensures Holds(fs', c, items)
    decreases items
  {
    if items != Nil {
      var q := Child(c, items.name);
      assert Under(c, q);
      UnderTransitive(at, c, q);
      UnderIsDeeper(at, c);
      assert Depth(q) > Depth(at);
      HoldsFramed(fs, fs', at, c, items.rest);
      if items.Dir? { HoldsFramed(fs, fs', at, q, items.items); }
    }
  }

  lemma ExtendsTransitive(a: Fs, b: Fs, c: Fs, at: Path, q: Path)
    requires Extends(a, b, at) && Extends(b, c, q) && Under(at, q) && q !in a
    ensures Extends(a, c, at)
  {
    forall r | r in c && r !in a ensures Under(at, r) {
      if r !in b { UnderTransitive(at, q, r); }
    }
  }

  lemma ExtendsAgain(a: Fs, b: Fs, c: Fs, at: Path)
    requires Extends(a, b, at) && Extends(b, c, at)
    ensures Extends(a, c, at)
  {
  }

  lemma Prepended(names: seq<Name>, name: Name, rest: seq<Name>)
    requires DistinctNames(names + ([name] + rest))
    ensures name !in names && DistinctNames(names + [name] + rest)
    ensures names + ([name] + rest) == names + [name] + rest
  {
    var all := names + ([name] + rest);
    assert all == names + [name] + rest;
    forall i | 0 <= i < |names| ensures names[i] != name {
      assert all[i] == names[i] && all[|names|] == name;
    }
  }

  /** Loading adds the tree to the entry and nothing else. */
  lemma {:induction false} LoadedHolds(fs: Fs, at: Path, items: Items)
    requires WellFormed(fs) && at in fs && Nameable(items) && DistinctNames(fs[at].names + NamesOf(items))
    ensures var fs' := Loaded(fs, at, items);
            && WellFormed(fs') && Extends(fs, fs', at) && Holds(fs', at, items)
            && fs'[at] == Entry(fs[at].data, fs[at].names + NamesOf(items))
    decreases items
  {
    hide WellFormed, DistinctNames, RealName, SlashFree;
    var fs' := Loaded(fs, at, items);
    match items
    case Nil =>
    case File(name, data, rest) =>
      var c, fs1 := Child(at, name), FileAdded(fs, at, name, data);
      Prepended(fs[at].names, name, NamesOf(rest));
      CreatedWellFormed(fs, at, name);
      WithDataWellFormed(Created(fs, at, name), c, data);
      assert Extends(fs, fs1, at) by { assert Under(at, c); }
      LoadedHolds(fs1, at, rest);
      ExtendsAgain(fs, fs1, fs', at);
    case Dir(name, inner, rest) =>
      var c, fs1 := Child(at, name), Created(fs, at, name);
      Prepended(fs[at].names, name, NamesOf(rest));
      CreatedWellFormed(fs, at, name);
      assert Extends(fs, fs1, at) by { assert Under(at, c); }
      assert fs1[c].names + NamesOf(inner) == NamesOf(inner);
      LoadedHolds(fs1, c, inner);
      var fs2 := Loaded(fs1, c, inner);
      assert Extends(fs, fs2, at) by { ExtendsTransitive(fs, fs1, fs2, at, c); }
      LoadedHolds(fs2, at, rest);
      assert Under(at, c);
      HoldsFramed(fs2, fs', at, c, inner);
      ExtendsAgain(fs, fs2, fs', at);
  }

  /** A tree up to what the file system cannot tell apart: an empty directory and an empty file. */
  function Shape(items: Items): Items {
    match items
    case Nil => Nil
    case File(name, data, rest) => File(name, data, Shape(rest))
    case Dir(name, Nil, rest) => File(name, [], Shape(rest))
    case Dir(name, inner, rest) => Dir(name, Shape(inner), Shape(rest))
  }

  /** What is in the file system determines the tree that was loaded. */
  lemma {:induction false} HeldOnce(fs: Fs, at: Path, items: Items, items': Items)
    requires Holds(fs, at, items) && Holds(fs, at, items') && NamesOf(items) == NamesOf(items')
    ensures Shape(items) == Shape(items')
    decreases items
  {
    if items == Nil {
      assert items' == Nil;
    } else {
      assert NamesOf(items)[0] == items.name && NamesOf(items)[1..] == NamesOf(items.rest);
      assert items' != Nil && NamesOf(items')[0] == items'.name && NamesOf(items')[1..] == NamesOf(items'.rest);
      HeldOnce(fs, at, items.rest, items'.rest);
      if items.Dir? && items'.Dir? {
        HeldOnce(fs, Child(at, items.name), items.items, items'.items);
      }
    }
  }

  /** Trees of the same shape load alike. */
  lemma {:induction false} LoadsAsItsShape(fs: Fs, at: Path, items: Items)
    requires at in fs
    ensures Loaded(fs, at, Shape(items)) == Loaded(fs, at, items)
    decreases items
  {
    match items
    case Nil =>
    case File(name, data, rest) =>
      LoadsAsItsShape(FileAdded(fs, at, name, data), at, rest);
    case Dir(name, inner, rest) =>
      var c, fs1 := Child(at, name), Created(fs, at, name);
      if inner == Nil {
        assert FileAdded(fs, at, name, []) == fs1;
        LoadsAsItsShape(fs1, at, rest);
      } else {
        LoadsAsItsShape(fs1, c, inner);
        LoadsAsItsShape(Loaded(fs1, c, inner), at, rest);
      }
  }

  /** What the round trip loses: two trees load to the same file system exactly if they differ only in
      empty directories in place of empty files. */
  lemma LoadedAlike(fs: Fs, at: Path, items: Items, items': Items)
    requires WellFormed(fs) && at in fs && Nameable(items) && Nameable(items')
    requires DistinctNames(fs[at].names + NamesOf(items)) && DistinctNames(fs[at].names + NamesOf(items'))
    ensures Loaded(fs, at, items) == Loaded(fs, at, items') <==> Shape(items) == Shape(items')
  {
    LoadedHolds(fs, at, items);
    LoadedHolds(fs, at, items');
    if Shape(items) == Shape(items') {
      LoadsAsItsShape(fs, at, items);
      LoadsAsItsShape(fs, at, items');
    } else if Loaded(fs, at, items) == Loaded(fs, at, items') {
      var names := fs[at].names;
      assert (names + NamesOf(items))[|names|..] == NamesOf(items);
      assert (names + NamesOf(items'))[|names|..] == NamesOf(items');
      HeldOnce(Loaded(fs, at, items), at, items, items');
    }
  }

  /** Loading an image keeps every path that resolved. */
  lemma {:induction false} LoadedKeepsResolving(fs: Fs, at: Path, items: Items, comps: seq<Name>)
    requires WellFormed(fs) && at in fs && Nameable(items) && DistinctNames(fs[at].names + NamesOf(items))
    requires Resolve(fs, Root, comps).Some?
    ensures Resolve(Loaded(fs, at, items), Root, comps) == Resolve(fs, Root, comps)
    decreases items
  {
    match items
    case Nil =>
    case File(name, data, rest) =>
      var c, fs1 := Child(at, name), FileAdded(fs, at, name, data);
      Prepended(fs[at].names, name, NamesOf(rest));
      CreatedWellFormed(fs, at, name);
      CreatedKeepsResolving(fs, at, name, Root, comps);
      WithDataWellFormed(Created(fs, at, name), c, data);
      DataKeepsResolving(Created(fs, at, name), c, data, Root, comps);
      LoadedKeepsResolving(fs1, at, rest, comps);
    case Dir(name, inner, rest) =>
      var c, fs1 := Child(at, name), Created(fs, at, name);
      Prepended(fs[at].names, name, NamesOf(rest));
      CreatedWellFormed(fs, at, name);
      CreatedKeepsResolving(fs, at, name, Root, comps);
      assert fs1[c].names + NamesOf(inner) == NamesOf(inner);
      LoadedHolds(fs1, c, inner);
      LoadedKeepsResolving(fs1, c, inner, comps);
      LoadedKeepsResolving(Loaded(fs1, c, inner), at, rest, comps);
  }
}
