// How the allocator's blocks lie in memory, and the first-fit search (src/mock_libc/alloc.c).
module Arena {
  import opened Permutations

  const HEADER := 16
  const CHECK := 0x11FACADE

  /** A block: its header lies at addr, its payload of `size` bytes behind the header. */
  datatype Block = Block(addr: nat, size: nat) {
    function Data(): nat { addr + HEADER }
    function End(): nat { addr + HEADER + size }
  }

  /** The blocks lie one behind the other without gaps. */
  ghost predicate Tiled(blocks: seq<Block>) {
    forall j, k | 0 <= j < k < |blocks| && k == j + 1 :: blocks[k].addr == blocks[j].End()
  }

  lemma {:induction false} LaterIsHigher(blocks: seq<Block>, i: nat, j: nat)
    requires Tiled(blocks) && i < j < |blocks|
    ensures blocks[i].End() <= blocks[j].addr
    decreases j - i
  {
    if i + 1 < j { LaterIsHigher(blocks, i, j - 1); }
  }

  /** Every address between the first header and the end of the last block is in exactly one block. */
  lemma {:induction false} TilesCover(blocks: seq<Block>, a: nat) returns (k: nat)
    requires Tiled(blocks) && blocks != [] && blocks[0].addr <= a < blocks[|blocks|-1].End()
    ensures k < |blocks| && blocks[k].addr <= a < blocks[k].End()
    ensures forall j | 0 <= j < |blocks| && j != k :: !(blocks[j].addr <= a < blocks[j].End())
    decreases |blocks|
  {
    var last := |blocks| - 1;
    if blocks[last].addr <= a {
      k := last;
      forall j | 0 <= j < |blocks| && j != k ensures a >= blocks[j].End() {
        LaterIsHigher(blocks, j, k);
      }
    } else {
      k := TilesCover(blocks[..last], a);
    }
  }

  /** Blocks of a tiled arena are equal, or no byte is in both. */
  lemma BlocksApart(blocks: seq<Block>, b: Block, c: Block)
    requires Tiled(blocks) && b in blocks && c in blocks && b != c
    ensures b.End() <= c.addr || c.End() <= b.addr
  {
    var i :| 0 <= i < |blocks| && blocks[i] == b;
    var j :| 0 <= j < |blocks| && blocks[j] == c;
    if i < j { LaterIsHigher(blocks, i, j); } else { LaterIsHigher(blocks, j, i); }
  }

  /** The first block of the list that is large enough, or the length of the list. */
  function FirstFit(s: seq<Block>, size: nat): (i: nat)
    ensures i <= |s| && forall j | 0 <= j < i :: s[j].size < size
    ensures i < |s| ==> s[i].size >= size
  {
    if s == [] || s[0].size >= size then 0 else 1 + FirstFit(s[1..], size)
  }

  lemma {:induction false} FirstFitIs(s: seq<Block>, size: nat, i: nat)
    requires i <= |s| && (forall j | 0 <= j < i :: s[j].size < size) && (i < |s| ==> s[i].size >= size)
    ensures FirstFit(s, size) == i
  {
    if i > 0 { FirstFitIs(s[1..], size, i - 1); }
  }

  function Without(s: seq<Block>, i: nat): seq<Block>
    requires i < |s|
  {
    s[..i] + s[i+1..]
  }

  /** The rounding of a request: up to the next multiple of 16, and by at least one byte. */
  function Rounded(size: nat): (r: nat)
    ensures r % 16 == 0 && size < r <= size + 16
  {
    size + (16 - size % 16)
  }

  // ---------- blocks in memory ----------

  const NULL := 0

  /** A byte of payload, the first cell of a header with the header's fields, or one of the other
      cells a header occupies. */
  datatype Cell = Byte(value: int) | Header(check: int, next: nat, size: nat) | Occupied

  ghost predicate HeaderAt(m: seq<Cell>, b: Block, check: int) {
    b.addr < |m| && m[b.addr].Header? && m[b.addr].check == check && m[b.addr].size == b.size
  }

  /** The arena: a sentinel without payload at `start`, then the blocks ever handed out. */
  ghost predicate Sound(m: seq<Cell>, start: nat, blocks: seq<Block>) {
    && 0 < start && blocks != [] && blocks[0] == Block(start, 0)
    && Tiled(blocks) && blocks[|blocks|-1].End() <= |m|
    && forall k | 0 <= k < |blocks| ::
         && HeaderAt(m, blocks[k], if k == 0 then 0 else CHECK)
         && blocks[k].size % 16 == 0 && (k > 0 ==> blocks[k].size > 0)
  }

  /** The free list, read from its head along the links in the headers. */
  ghost predicate Linked(m: seq<Cell>, head: nat, list: seq<Block>)
    decreases |list|
  {
    if list == [] then head == NULL
    else 0 < head == list[0].addr && HeaderAt(m, list[0], CHECK) && Linked(m, m[head].next, list[1..])
  }

  /** The free blocks are blocks of the arena other than the sentinel, each listed once. */
  ghost predicate FreeBlocks(blocks: seq<Block>, list: seq<Block>) {
    Distinct(list) && forall b | b in list :: b in blocks && b.size > 0
  }

  function Payload(m: seq<Cell>, b: Block): seq<Cell>
    requires b.End() <= |m|
  {
    m[b.Data()..b.End()]
  }

  /** The beginning of one payload is another payload, cell by cell. */
  lemma SamePrefix(m: seq<Cell>, m': seq<Cell>, b: Block, c: Block)
    requires b.End() <= |m| && c.End() <= |m'| && b.size <= c.size && Payload(m', c)[..b.size] == Payload(m, b)
    ensures m'[c.addr + 16..c.addr + 16 + b.size] == m[b.addr + 16..b.addr + 16 + b.size]
  {
    assert m'[c.addr + 16..c.addr + 16 + b.size] == Payload(m', c)[..b.size];
  }

  lemma InMemory(m: seq<Cell>, start: nat, blocks: seq<Block>, b: Block)
    requires Sound(m, start, blocks) && b in blocks
    ensures start <= b.addr && b.End() <= blocks[|blocks|-1].End() <= |m|
  {
    var k :| 0 <= k < |blocks| && blocks[k] == b;
    if k > 0 { LaterIsHigher(blocks, 0, k); }
    if k < |blocks| - 1 { LaterIsHigher(blocks, k, |blocks| - 1); }
  }

  lemma BlockHeader(m: seq<Cell>, start: nat, blocks: seq<Block>, b: Block)
    requires Sound(m, start, blocks) && b in blocks && b.size > 0
    ensures HeaderAt(m, b, CHECK)
  {
    var k :| 0 <= k < |blocks| && blocks[k] == b;
  }

  /** Changing a link changes neither the arena nor any payload. */
  lemma LinkChanged(m: seq<Cell>, start: nat, blocks: seq<Block>, b: Block, next: nat)
    requires Sound(m, start, blocks) && b in blocks && b.size > 0
    ensures HeaderAt(m, b, CHECK)
    ensures var m' := m[b.addr := m[b.addr].(next := next)];
            && Sound(m', start, blocks)
            && forall c | c in blocks :: c.End() <= |m| && Payload(m', c) == Payload(m, c)
  {
    BlockHeader(m, start, blocks, b);
    var m' := m[b.addr := m[b.addr].(next := next)];
    forall k | 0 <= k < |blocks| ensures HeaderAt(m', blocks[k], if k == 0 then 0 else CHECK) {
      assert HeaderAt(m, blocks[k], if k == 0 then 0 else CHECK);
    }
    forall c | c in blocks ensures c.End() <= |m| && Payload(m', c) == Payload(m, c) {
      InMemory(m, start, blocks, c);
      if b != c { BlocksApart(blocks, b, c); }
    }
  }

  /** The head of a free list, and what its link leads to. */
  lemma LinkedHead(m: seq<Cell>, head: nat, list: seq<Block>)
    requires Linked(m, head, list)
    ensures list == [] <==> head == NULL
    ensures list != [] ==>
              && head == list[0].addr < |m| && m[head].Header? && m[head].size == list[0].size
              && Linked(m, m[head].next, list[1..])
  {
  }

  /** The free list depends on its own blocks' headers only. */
  lemma {:induction false} LinkedFrame(m: seq<Cell>, m': seq<Cell>, head: nat, list: seq<Block>)
    requires Linked(m, head, list) && forall b | b in list :: b.addr < |m| && b.addr < |m'| && m'[b.addr] == m[b.addr]
    ensures Linked(m', head, list)
    decreases |list|
  {
    if list != [] {
      assert list[0] in list;
      LinkedFrame(m, m', m[head].next, list[1..]);
    }
  }

  /** Redirecting the link of the block before it takes a block out of the list. */
  lemma {:induction false} Unlinked(m: seq<Cell>, head: nat, list: seq<Block>, i: nat, a: nat, c: Cell)
    requires Linked(m, head, list) && 0 < i < |list| && a == list[i-1].addr < |m|
    requires list[i].addr < |m| && m[list[i].addr].Header? && m[a].Header? && c == m[a].(next := m[list[i].addr].next)
    requires forall b | b in list :: b.addr < |m|
    requires forall j, k | 0 <= j < k < |list| :: list[j].addr != list[k].addr
    ensures Linked(m[a := c], head, Without(list, i))
    decreases |list|
  {
    assert list[0].addr == head;
    if i == 1 {
      var rest := list[2..];
      assert Linked(m, m[head].next, list[1..]) && list[1..][1..] == rest;
      forall b | b in rest ensures b.addr < |m| && b.addr != a {
        var j :| 0 <= j < |rest| && rest[j] == b;
        assert b == list[j+2];
      }
      LinkedFrame(m, m[a := c], m[list[1].addr].next, rest);
      assert Without(list, 1) == [list[0]] + rest;
    } else {
      forall b | b in list[1..] ensures b in list {}
      Unlinked(m, m[head].next, list[1..], i - 1, a, c);
      assert Without(list, i)[1..] == Without(list[1..], i - 1);
    }
  }

  /** A new block behind the last one. */
  lemma Extended(m: seq<Cell>, m': seq<Cell>, start: nat, blocks: seq<Block>, b: Block)
    requires Sound(m, start, blocks) && |m'| == |m|
    requires b.addr == blocks[|blocks|-1].End() && b.End() <= |m| && b.size > 0 && b.size % 16 == 0
    requires m'[b.addr] == Header(CHECK, NULL, b.size)
    requires forall k | 0 <= k < |m| && !(b.addr <= k < b.addr + HEADER) :: m'[k] == m[k]
    ensures Sound(m', start, blocks + [b])
    ensures forall c | c in blocks :: c.End() <= |m| && Payload(m', c) == Payload(m, c)
  {
    forall k | 0 <= k < |blocks| ensures HeaderAt(m', blocks[k], if k == 0 then 0 else CHECK) {
      InMemory(m, start, blocks, blocks[k]);
    }
    forall c | c in blocks ensures c.End() <= |m| && Payload(m', c) == Payload(m, c) {
      InMemory(m, start, blocks, c);
    }
  }

  /** Linking a block to the head of a list it is not in puts it in front. */
  lemma Pushed(m: seq<Cell>, start: nat, blocks: seq<Block>, head: nat, list: seq<Block>, b: Block)
    requires Sound(m, start, blocks) && Linked(m, head, list) && FreeBlocks(blocks, list)
    requires b in blocks && b.size > 0 && b !in list
    ensures HeaderAt(m, b, CHECK) && 0 < b.addr
    ensures Linked(m[b.addr := m[b.addr].(next := head)], b.addr, [b] + list)
    ensures FreeBlocks(blocks, [b] + list)
  {
    BlockHeader(m, start, blocks, b);
    InMemory(m, start, blocks, b);
    var m' := m[b.addr := m[b.addr].(next := head)];
    forall c | c in list ensures c.addr < |m| && c.addr != b.addr {
      InMemory(m, start, blocks, c);
      BlocksApart(blocks, b, c);
    }
    LinkedFrame(m, m', head, list);
    assert ([b] + list)[1..] == list;
  }

  /** Taking the first block off the list. */
  lemma Popped(m: seq<Cell>, blocks: seq<Block>, head: nat, list: seq<Block>)
    requires Linked(m, head, list) && FreeBlocks(blocks, list) && list != []
    ensures Linked(m, m[head].next, Without(list, 0)) && FreeBlocks(blocks, Without(list, 0))
  {
    assert Without(list, 0) == list[1..];
  }

  lemma WithoutFree(blocks: seq<Block>, list: seq<Block>, i: nat)
    requires FreeBlocks(blocks, list) && i < |list|
    ensures FreeBlocks(blocks, Without(list, i)) && list[i] !in Without(list, i)
    ensures forall b | b in list && b != list[i] :: b in Without(list, i)
  {
  }

  /** m' differs from m at most in the payload of b. */
  ghost predicate WrittenIn(m: seq<Cell>, m': seq<Cell>, b: Block) {
    |m'| == |m| && forall k | 0 <= k < |m| && !(b.Data() <= k < b.End()) :: m'[k] == m[k]
  }

  /** Writing into one payload leaves the other blocks alone. */
  lemma PayloadElsewhere(m: seq<Cell>, m': seq<Cell>, start: nat, blocks: seq<Block>, b: Block, d: Block)
    requires Sound(m, start, blocks) && b in blocks && d in blocks && d != b && WrittenIn(m, m', b)
    ensures d.End() <= |m| && Payload(m', d) == Payload(m, d) && m'[d.addr] == m[d.addr]
  {
    InMemory(m, start, blocks, d);
    BlocksApart(blocks, b, d);
  }

  lemma SoundWritten(m: seq<Cell>, m': seq<Cell>, start: nat, blocks: seq<Block>, b: Block)
    requires Sound(m, start, blocks) && b in blocks && WrittenIn(m, m', b)
    ensures Sound(m', start, blocks)
  {
    forall k | 0 <= k < |blocks| ensures HeaderAt(m', blocks[k], if k == 0 then 0 else CHECK) {
      InMemory(m, start, blocks, blocks[k]);
      if blocks[k] != b { PayloadElsewhere(m, m', start, blocks, b, blocks[k]); }
    }
  }

  /** Writing into a payload keeps the arena and the free list. */
  lemma PayloadWritten(m: seq<Cell>, m': seq<Cell>, start: nat, blocks: seq<Block>, head: nat, list: seq<Block>,
                       b: Block)
    requires Sound(m, start, blocks) && Linked(m, head, list) && FreeBlocks(blocks, list)
    requires b in blocks && WrittenIn(m, m', b)
    ensures b.End() <= |m| && Sound(m', start, blocks) && Linked(m', head, list)
  {
    InMemory(m, start, blocks, b);
    SoundWritten(m, m', start, blocks, b);
    forall d | d in list ensures d.addr < |m| && m'[d.addr] == m[d.addr] {
      InMemory(m, start, blocks, d);
      if d != b { PayloadElsewhere(m, m', start, blocks, b, d); }
    }
    LinkedFrame(m, m', head, list);
  }

  lemma TwoBlocks(m: seq<Cell>, start: nat, blocks: seq<Block>, b: Block, c: Block)
    requires Sound(m, start, blocks) && b in blocks && c in blocks && b != c && b.size > 0
    ensures b.End() <= |m| && c.End() <= |m| && (b.End() <= c.addr || c.End() <= b.addr)
    ensures HeaderAt(m, b, CHECK)
  {
    InMemory(m, start, blocks, b);
    InMemory(m, start, blocks, c);
    BlocksApart(blocks, b, c);
    BlockHeader(m, start, blocks, b);
  }
}
