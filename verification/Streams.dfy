// Byte streams over files: reading, appending, seeking, and the hook that is handed what was
// written (src/mock_libc/vfs.c).
module Streams {
  import opened Common
  import opened FsModel
  import opened NodeLayout
  import opened Vfs

  const LETTER_A: byte := 97
  const LETTER_W: byte := 119

  function Concat(parts: seq<seq<byte>>): seq<byte> {
    if parts == [] then [] else Concat(parts[..|parts|-1]) + parts[|parts|-1]
  }

  function Sum(sizes: seq<nat>): nat {
    if sizes == [] then 0 else sizes[0] + Sum(sizes[1..])
  }

  /** A stream without its file: the position, the hook, what the hook has got. */
  datatype Cursor = Cursor(i: nat, hooked: bool, flushindex: nat, chunks: seq<seq<byte>>)

  // ---------- writing ----------

  /** A flush reads only bytes of the file. */
  predicate CanFlush(data: seq<byte>, c: Cursor) {
    c.hooked && c.flushindex < c.i ==> c.i <= |data|
  }

  function Flushed(data: seq<byte>, c: Cursor): Cursor
    requires CanFlush(data, c)
  {
    if c.hooked && c.flushindex < c.i then
      c.(chunks := c.chunks + [data[c.flushindex..c.i]], flushindex := c.i)
    else c
  }

  /** Data always goes to the end of the file, wherever the position is. */
  function Written(data: seq<byte>, c: Cursor, part: seq<byte>): Cursor
    requires CanFlush(data + part, c.(i := c.i + |part|))
  {
    Flushed(data + part, c.(i := c.i + |part|))
  }

  function Hooked(c: Cursor): Cursor {
    c.(hooked := true, flushindex := 0, chunks := [])
  }

  /** What the hook has got is the file up to flushindex. */
  predicate Reported(data: seq<byte>, c: Cursor) {
    c.flushindex <= |data| && (c.hooked ==> Concat(c.chunks) == data[..c.flushindex])
  }

  /** A stream that has written the whole file. */
  predicate SoleWriter(data: seq<byte>, c: Cursor) {
    c.i == |data| && Reported(data, c)
  }

  lemma HookedIsSoleWriter(data: seq<byte>, c: Cursor)
    requires SoleWriter(data, c)
    ensures SoleWriter(data, Hooked(c))
  {
  }

  lemma WrittenIsReported(data: seq<byte>, c: Cursor, part: seq<byte>)
    requires Reported(data, c) && c.i <= |data|
    ensures Reported(data + part, Written(data, c, part))
  {
    var all, c' := data + part, Written(data, c, part);
    assert all[..c.flushindex] == data[..c.flushindex];
    if c.hooked && c.flushindex < c.i + |part| {
      assert c'.chunks[..|c'.chunks|-1] == c.chunks;
      assert all[..c'.flushindex] == all[..c.flushindex] + all[c.flushindex..c'.flushindex];
    }
  }

  /** After writing something the hook has got the whole file exactly if the stream was at its end. */
  lemma HookMissesNothing(data: seq<byte>, c: Cursor, part: seq<byte>)
    requires Reported(data, c) && c.i <= |data| && c.hooked && part != []
    ensures Concat(Written(data, c, part).chunks) == data + part <==> c.i == |data|
  {
    WrittenIsReported(data, c, part);
    var all, c' := data + part, Written(data, c, part);
    assert |all[..c'.flushindex]| == c'.flushindex;
    assert c.i == |data| ==> all[..c'.flushindex] == all;
  }

  /** A series of writes: the contents and the stream after them. */
  function Writes(data: seq<byte>, c: Cursor, parts: seq<seq<byte>>): (r: (seq<byte>, Cursor))
    requires SoleWriter(data, c)
    ensures SoleWriter(r.0, r.1)
    decreases |parts|
  {
    if parts == [] then (data, c)
    else
      WrittenIsReported(data, c, parts[0]);
      Writes(data + parts[0], Written(data, c, parts[0]), parts[1..])
  }

  /** Whatever the only writer writes, and in whatever parts: if the stream is hooked, the chunks the
      hook got are the file, and the file is what it was and the parts after it. */
  lemma {:induction false} HookSeesTheFile(data: seq<byte>, c: Cursor, parts: seq<seq<byte>>)
    requires SoleWriter(data, c) && c.hooked && (c.flushindex == c.i || parts != [])
    ensures var (all, c') := Writes(data, c, parts);
            Concat(c'.chunks) == all && all == data + Concat(parts) && c'.i == |all|
    decreases |parts|
  {
    if parts == [] {
      assert data[..c.flushindex] == data && data + Concat(parts) == data;
    } else {
      WrittenIsReported(data, c, parts[0]);
      HookSeesTheFile(data + parts[0], Written(data, c, parts[0]), parts[1..]);
      ConcatFirst(parts);
      assert data + (parts[0] + Concat(parts[1..])) == data + parts[0] + Concat(parts[1..]);
    }
  }

  lemma {:induction false} ConcatFirst(parts: seq<seq<byte>>)
    requires parts != []
    ensures Concat(parts) == parts[0] + Concat(parts[1..])
    decreases |parts|
  {
    var init := parts[..|parts|-1];
    if |parts| == 1 {
      assert init == [] && parts[1..] == [];
    } else {
      ConcatFirst(init);
      assert parts[1..][..|parts|-2] == init[1..];
      assert init[0] + (Concat(init[1..]) + parts[|parts|-1]) == init[0] + Concat(init[1..]) + parts[|parts|-1];
    }
  }

  lemma ConcatAfter(part: seq<byte>, parts: seq<seq<byte>>)
    ensures Concat([part] + parts) == part + Concat(parts)
  {
    ConcatFirst([part] + parts);
    assert ([part] + parts)[1..] == parts;
  }

  /** Data is appended but reported by position: after a seek back by n bytes the hook misses the
      last n bytes of the file, or what it had not got before if that is less. */
  lemma SeekBackLosesChunks(data: seq<byte>, c: Cursor, part: seq<byte>)
    requires Reported(data, c) && c.i <= |data| && c.hooked
    ensures var all, missed := data + part, Min(|data| - c.i, |data| + |part| - c.flushindex);
            Concat(Written(data, c, part).chunks) == all[..|all| - missed]
  {
    WrittenIsReported(data, c, part);
  }

  // ---------- reading ----------

  /** How much a read takes. The bytes left are an unsigned difference. */
  function ReadSize(datasize: nat, i: nat, size: nat): (r: nat)
    ensures r <= size && (i <= datasize < WORD32 ==> r == if datasize - i > size then size else datasize - i)
  {
    var left := (datasize - i) % WORD32;
    if left > size then size else left
  }

  /** A read stays inside the file exactly if the position does, or if nothing is asked for. */
  lemma ReadIsSafe(datasize: nat, i: nat, size: nat)
    requires datasize < WORD32 && i < WORD32
    ensures var r := ReadSize(datasize, i, size);
            (r > 0 ==> i + r <= datasize) <==> i <= datasize || size == 0
  {
    if i > datasize {
      assert (datasize - i) % WORD32 == datasize - i + WORD32;
    }
  }

  /** What reads of the given sizes return, one after the other, and where they end. */
  function Reads(data: seq<byte>, i: nat, sizes: seq<nat>): (r: (seq<seq<byte>>, nat))
    requires i <= |data| < WORD32
    ensures i <= r.1 <= |data|
    decreases |sizes|
  {
    if sizes == [] then ([], i)
    else
      var k := ReadSize(|data|, i, sizes[0]);
      var (parts, e) := Reads(data, i + k, sizes[1..]);
      ([data[i..i+k]] + parts, e)
  }

  lemma OneRead(data: seq<byte>, i: nat, size: nat)
    requires i <= |data| < WORD32
    ensures var k := ReadSize(|data|, i, size); Reads(data, i, [size]) == ([data[i..i+k]], i + k)
  {
    var k := ReadSize(|data|, i, size);
    assert [size][1..] == [] && [data[i..i+k]] + [] == [data[i..i+k]];
  }

  /** Reads of any sizes reassemble the file, and the end is reached exactly at its end. */
  lemma {:induction false} ReadsReassemble(data: seq<byte>, i: nat, sizes: seq<nat>)
    requires i <= |data| < WORD32
    ensures var (parts, e) := Reads(data, i, sizes);
            && Concat(parts) == data[i..e]
            && e == (if i + Sum(sizes) < |data| then i + Sum(sizes) else |data|)
            && |parts| == |sizes|
    decreases |sizes|
  {
    if sizes != [] {
      var k := ReadSize(|data|, i, sizes[0]);
      ReadsReassemble(data, i + k, sizes[1..]);
      var (parts, e) := Reads(data, i + k, sizes[1..]);
      ConcatAfter(data[i..i+k], parts);
      assert data[i..e] == data[i..i+k] + data[i+k..e];
    }
  }

  /** At the end of the file, and nowhere before it, no reads return anything. */
  lemma NothingLeft(data: seq<byte>, i: nat)
    requires i <= |data| < WORD32
    ensures i == |data| <==> forall sizes: seq<nat> :: Concat(Reads(data, i, sizes).0) == []
  {
    forall sizes: seq<nat> ensures Concat(Reads(data, i, sizes).0) == data[i..Reads(data, i, sizes).1] {
      ReadsReassemble(data, i, sizes);
    }
    var one: seq<nat> := [1];
    ReadsReassemble(data, i, one);
    assert one[1..] == [] && Sum(one) == 1;
    assert i < |data| ==> |data[i..Reads(data, i, one).1]| == 1;
  }

  /** Written through a hooked stream, then read back from 0 in any sizes that suffice: the chunks,
      the file and what was read are all the same. */
  lemma RoundTrip(data: seq<byte>, c: Cursor, parts: seq<seq<byte>>, sizes: seq<nat>)
    requires SoleWriter(data, c) && c.hooked && parts != []
    ensures var (all, c') := Writes(data, c, parts);
            |all| < WORD32 && |all| <= Sum(sizes) ==>
              Concat(Reads(all, 0, sizes).0) == Concat(c'.chunks) == data + Concat(parts)
  {
    HookSeesTheFile(data, c, parts);
    var (all, c') := Writes(data, c, parts);
    if |all| < WORD32 && |all| <= Sum(sizes) {
      ReadsReassemble(all, 0, sizes);
      assert all[0..|all|] == all;
    }
  }

  // ---------- seeking ----------

  datatype Whence = Set | Cur | End

  /** Where an offset is counted from. */
  function Origin(datasize: nat, i: nat, whence: Whence): nat {
    match whence
    case Set => 0
    case Cur => i
    case End => datasize
  }

  /** The unsigned number that a signed offset is passed as. */
  function Wrapped(offset: int): nat {
    offset % WORD32
  }

  function Sought(datasize: nat, i: nat, pos: nat, whence: Whence): nat {
    (Origin(datasize, i, whence) + pos) % WORD32
  }

  /** A seek by a signed offset arrives at the origin plus the offset exactly if there is such a
      position. */
  lemma SeeksBy(datasize: nat, i: nat, offset: int, whence: Whence)
    ensures var there := Origin(datasize, i, whence) + offset;
            Sought(datasize, i, Wrapped(offset), whence) == there <==> 0 <= there < WORD32
  {
    var origin, pos := Origin(datasize, i, whence), Wrapped(offset);
    var n := offset / WORD32;
    assert origin + offset == origin + pos + n * WORD32;
    if 0 <= origin + offset < WORD32 {
      assert (origin + pos) % WORD32 == origin + offset;
    }
  }

  /** A relative seek back over what was read makes the same reads return the same again. */
  lemma SeekBackRereads(data: seq<byte>, i: nat, sizes: seq<nat>, i': nat)
    requires i <= |data| < WORD32
    requires var (parts, e) := Reads(data, i, sizes); i' == Sought(|data|, e, Wrapped(-|Concat(parts)|), Cur)
    ensures i' == i && Reads(data, i', sizes) == Reads(data, i, sizes)
  {
    hide Wrapped, Sought;
    ReadsReassemble(data, i, sizes);
    var e := Reads(data, i, sizes).1;
    SeeksBy(|data|, e, i - e, Cur);
  }

  /** A seek to n bytes before the end, and reads of any sizes that suffice, return the last n bytes. */
  lemma SeekReadsTail(data: seq<byte>, i: nat, n: int, i': nat, sizes: seq<nat>)
    requires 0 <= n <= |data| < WORD32 && n <= Sum(sizes) && i' == Sought(|data|, i, Wrapped(-n), End)
    ensures i' <= |data| && Concat(Reads(data, i', sizes).0) == data[|data| - n..]
  {
    hide Wrapped, Sought;
    SeeksBy(|data|, i, -n, End);
    ReadsReassemble(data, |data| - n, sizes);
  }

  // ---------- streams in memory ----------

  class Stream {
    const node: Node
    var hooked: bool
    var flushindex: nat
    var i: nat
    /** What the hook was called with. */
    var chunks: seq<seq<byte>>

    constructor (node: Node)
      ensures this.node == node && View() == Cursor(0, false, 0, [])
    {
      this.node, hooked, flushindex, i, chunks := node, false, 0, 0, [];
    }

    ghost function View(): Cursor
      reads this
    {
      Cursor(i, hooked, flushindex, chunks)
    }

    method Read(size: nat) returns (dest: seq<byte>)
      requires |node.data| < WORD32 && i < WORD32 && (i <= |node.data| || size == 0)
      modifies this`i
      ensures dest == old(if size == 0 then [] else node.data[i..i + ReadSize(|node.data|, i, size)])
      ensures i == old(i) + |dest|
      ensures old(i) <= |node.data| ==> ([dest], i) == Reads(node.data, old(i), [size])
    {
      ReadIsSafe(|node.data|, i, size);
      var readsize := (|node.data| - i) % WORD32;
      if readsize > size {
        readsize := size;
      }
      dest := if readsize == 0 then [] else node.data[i..i+readsize];
      i := i + readsize;
      assert readsize == 0 && old(i) <= |node.data| ==> dest == node.data[old(i)..old(i)];
      if old(i) <= |node.data| { OneRead(node.data, old(i), size); }
    }

    method Write(sys: FileSystem, data: seq<byte>, ghost p: Path) returns (size: nat)
      requires sys.Valid() && p in sys.at && p in sys.fs && sys.at[p] == node
      requires |node.data| + |data| < WORD32 && i + |data| < WORD32
      requires CanFlush(node.data + data, View().(i := i + |data|))
      modifies this, sys`fs, node
      ensures sys.Valid() && sys.fs == WithData(old(sys.fs), p, node.data)
      ensures node.data == old(node.data) + data
      ensures View() == Written(old(node.data), old(View()), data) && size == |data|
      ensures i == old(i) + |data| && hooked == old(hooked)
    {
      hide FileSystem.Valid;
      sys.AppendData(node, data, p);
      Advance(|data|);
      size := |data|;
    }

    method Advance(size: nat)
      requires CanFlush(node.data, View().(i := i + size))
      modifies this
      ensures View() == Flushed(node.data, old(View()).(i := old(i) + size))
    {
      i := i + size;
      Flush();
    }

    method Flush()
      requires CanFlush(node.data, View())
      modifies this
      ensures View() == Flushed(node.data, old(View()))
      ensures i == old(i) && hooked == old(hooked)
      ensures if hooked && old(flushindex) < i
              then chunks == old(chunks) + [node.data[old(flushindex)..i]] && flushindex == i
              else chunks == old(chunks) && flushindex == old(flushindex)
    {
      if !hooked {
        return;
      }
      if flushindex < i {
        chunks := chunks + [node.data[flushindex..i]];
        flushindex := i;
      }
    }

    method HookFlush()
      modifies this
      ensures View() == Hooked(old(View())) && View() == Cursor(old(i), true, 0, [])
      ensures old(SoleWriter(node.data, View())) ==> SoleWriter(node.data, View())
    {
      if SoleWriter(node.data, View()) { HookedIsSoleWriter(node.data, View()); }
      hooked := true;
      flushindex := 0;
      chunks := [];
    }

    method Seek(pos: nat, whence: Whence)
      requires pos < WORD32 && i < WORD32 && |node.data| < WORD32
      modifies this`i
      ensures i < WORD32 && i == Sought(|node.data|, old(i), pos, whence)
      ensures whence == Set ==> i == pos
      ensures whence == Cur ==> i == (old(i) + pos) % 0x1_0000_0000
      ensures whence == End ==> i == (|node.data| + pos) % 0x1_0000_0000
      ensures forall offset | pos == Wrapped(offset) && 0 <= Origin(|node.data|, old(i), whence) + offset < WORD32 ::
                i == Origin(|node.data|, old(i), whence) + offset
    {
      forall offset | pos == Wrapped(offset) { SeeksBy(|node.data|, i, offset, whence); }
      if whence == Set {
        i := pos;
      } else if whence == Cur {
        i := (i + pos) % WORD32;
      } else if whence == End {
        i := (|node.data| + pos) % WORD32;
      }
    }

    /** At the end of the file nothing more can be read. Behind it this holds too, but reads would
        go on. */
    method Eof() returns (eof: bool)
      requires |node.data| < WORD32 && i < WORD32
      ensures i <= |node.data| ==> (eof <==> forall sizes: seq<nat> :: Concat(Reads(node.data, i, sizes).0) == [])
      ensures i > |node.data| ==> eof && forall size | size > 0 :: ReadSize(|node.data|, i, size) > 0
    {
      if i <= |node.data| { NothingLeft(node.data, i); }
      eof := i >= |node.data|;
    }
  }

  /** Reads from 0, of any sizes that suffice, reassemble the contents. */
  ghost predicate ReadsBack(data: seq<byte>, contents: seq<byte>) {
    |data| < WORD32 ==>
      forall sizes: seq<nat> | Sum(sizes) >= |data| :: Concat(Reads(data, 0, sizes).0) == contents
  }

  lemma AllReadsBack(data: seq<byte>)
    ensures ReadsBack(data, data)
  {
    if |data| < WORD32 {
      forall sizes: seq<nat> | Sum(sizes) >= |data| ensures Concat(Reads(data, 0, sizes).0) == data {
        ReadsReassemble(data, 0, sizes);
      }
    }
  }

  /** The letters of a mode: none if appending is asked for, otherwise whether to write. */
  method ParsePerm(perm: seq<byte>) returns (write: Option<bool>)
    ensures write == if 97 in perm then None else Some(119 in perm)
  {
    write := Some(false);
    var k := 0;
    while k < |perm|
      invariant k <= |perm| && LETTER_A !in perm[..k] && write == Some(LETTER_W in perm[..k])
    {
      if perm[k] == LETTER_W {
        write := Some(true);
      }
      if perm[k] == LETTER_A {
        return None;
      }
      k := k + 1;
    }
  }

  /** The file to open; a file that is written is made, and emptied. */
  method OpenNode(sys: FileSystem, path: seq<byte>, write: bool) returns (node: Node?, ghost p: Option<Path>)
    requires sys.Valid() && |Split(path)| <= 32
    requires write && Resolve(sys.fs, Root, Split(path)) == None ==> Clean(path) && |Basename(path)| < 32
    modifies sys`fs, sys`at, sys`nodes, sys.nodes
    ensures sys.Valid() && old(sys.nodes) <= sys.nodes && fresh(sys.nodes - old(sys.nodes))
    ensures p == OpenedAt(old(sys.fs), path, write) && sys.fs == AfterOpen(old(sys.fs), path, write)
    ensures node == null <==> p == None
    ensures p.Some? ==> p.value in sys.at && p.value in sys.fs && node == sys.at[p.value]
  {
    hide FileSystem.Valid, CreatedAt, AfterCreate;
    CreateFinds(sys.fs, path);
    node, p := sys.GetPath(path, false);
    if node == null {
      if write {
        node, p := sys.Create(path);
        if node == null {
          return;
        }
      } else {
        return;
      }
    }
    assert write ==> sys.fs == AfterCreate(old(sys.fs), path) && p == CreatedAt(old(sys.fs), path);
    if write {
      sys.Sound();
      sys.ClearData(node, p.value);
    }
  }

  ghost function OpenedAt(fs: Fs, path: seq<byte>, write: bool): Option<Path> {
    if write then CreatedAt(fs, path) else Resolve(fs, Root, Split(path))
  }

  ghost function AfterOpen(fs: Fs, path: seq<byte>, write: bool): Fs {
    if !write then fs
    else
      var fs' := AfterCreate(fs, path);
      match CreatedAt(fs, path)
      case None => fs'
      case Some(q) => if q in fs' then WithData(fs', q, []) else fs'
  }

  /** What opening does to the file system: nothing for reading; for writing, the data of the file is
      emptied, and all other data stays. */
  lemma OpenMeans(fs: Fs, path: seq<byte>, write: bool)
    requires WellFormed(fs) && (write && Resolve(fs, Root, Split(path)) == None ==> Clean(path))
    ensures !write ==> AfterOpen(fs, path, write) == fs && OpenedAt(fs, path, write) == Resolve(fs, Root, Split(path))
    ensures write && Resolve(fs, Root, Split(path)).Some? ==>
              OpenedAt(fs, path, write) == Resolve(fs, Root, Split(path))
    ensures var p, fs' := OpenedAt(fs, path, write), AfterOpen(fs, path, write);
            && (forall r | r in fs && p != Some(r) :: r in fs' && fs'[r].data == fs[r].data)
            && (write && p.Some? && p.value in fs' ==> fs'[p.value].data == [])
  {
    if write {
      if Resolve(fs, Root, Split(path)).Some? {
        CreateFinds(fs, path);
      } else {
        CreateMeans(fs, path);
      }
    }
  }

  /** Opening a file that is there for writing empties it. */
  lemma Reopened(fs: Fs, path: seq<byte>)
    requires Resolve(fs, Root, Split(path)).Some? && Resolve(fs, Root, Split(path)).value in fs
    ensures OpenedAt(fs, path, true) == Resolve(fs, Root, Split(path))
    ensures AfterOpen(fs, path, true) == WithData(fs, Resolve(fs, Root, Split(path)).value, [])
  {
  }

  /** Open a file for reading, or for writing from scratch; appending is refused. */
  method Open(sys: FileSystem, path: seq<byte>, perm: seq<byte>) returns (stream: Stream?, ghost p: Option<Path>)
    requires sys.Valid() && |Split(path)| <= 32
    requires LETTER_W in perm && Resolve(sys.fs, Root, Split(path)) == None ==> Clean(path) && |Basename(path)| < 32
    modifies sys`fs, sys`at, sys`nodes, sys.nodes
    ensures sys.Valid() && old(sys.nodes) <= sys.nodes && fresh(sys.nodes - old(sys.nodes))
    ensures p == if LETTER_A in perm then None else OpenedAt(old(sys.fs), path, LETTER_W in perm)
    ensures sys.fs == if LETTER_A in perm then old(sys.fs) else AfterOpen(old(sys.fs), path, LETTER_W in perm)
    ensures stream == null <==> p == None
    ensures p.Some? ==> p.value in sys.at && p.value in sys.fs && stream.node == sys.at[p.value]
    ensures p.Some? ==> fresh(stream) && stream.View() == Cursor(0, false, 0, [])
    ensures 97 in perm ==> stream == null
    ensures 97 in perm || 119 !in perm ==> sys.fs == old(sys.fs)
    ensures 97 !in perm && (119 !in perm || Resolve(old(sys.fs), Root, Split(path)).Some?) ==>
              p == Resolve(old(sys.fs), Root, Split(path))
    ensures p.Some? && 119 !in perm ==> ReadsBack(stream.node.data, old(sys.fs)[p.value].data)
    ensures p.Some? && 119 in perm ==> stream.node.data == []
    ensures forall r | r in old(sys.fs) && p != Some(r) :: r in sys.fs && sys.fs[r].data == old(sys.fs)[r].data
  {
    hide FileSystem.Valid, AfterOpen, OpenedAt;
    ghost var fs := sys.fs;
    Formed(sys);
    OpenMeans(fs, path, 119 in perm);
    var write := ParsePerm(perm);
    if write == None {
      return null, None;
    }
    var node: Node?;
    node, p := OpenNode(sys, path, write.value);
    if node == null {
      return null, None;
    }
    stream := new Stream(node);
    sys.DataOf(p.value);
    if 119 !in perm { AllReadsBack(node.data); }
  }

  lemma Formed(sys: FileSystem)
    requires sys.Valid()
    ensures WellFormed(sys.fs)
  {
    sys.Sound();
  }
}
