// The free-list allocator (src/mock_libc/alloc.c). Memory is one array of cells; a header occupies
// sixteen of them, so a header written over a payload would destroy it.
module Alloc {
  import opened Arena

  class Allocator {
    const mem: array<Cell>
    const start: nat
    var tail: nat
    var free: nat
    ghost var blocks: seq<Block>    // the arena from start to tail, the sentinel first
    ghost var freeList: seq<Block>

    ghost predicate Valid()
      reads this, mem
    {
      && Sound(mem[..], start, blocks) && tail == blocks[|blocks|-1].addr
      && Linked(mem[..], free, freeList) && FreeBlocks(blocks, freeList)
    }

    /** The blocks handed out and not released: all but the sentinel and the free ones. */
    ghost predicate Live(b: Block)
      reads this`blocks, this`freeList
    {
      b in blocks && b.size > 0 && b !in freeList
    }

    ghost predicate Kept(bs: seq<Block>, m: seq<Cell>)
      reads mem
    {
      forall b | b in bs :: b.End() <= |m| == mem.Length && Payload(mem[..], b) == Payload(m, b)
    }

    /** What is kept is every cell behind the sixteen of a header. */
    lemma KeptExactly(bs: seq<Block>, m: seq<Cell>)
      requires |m| == mem.Length
      ensures Kept(bs, m) <==>
        forall b | b in bs ::
          && b.addr + 16 + b.size <= mem.Length
          && forall k | b.addr + 16 <= k < b.addr + 16 + b.size :: mem[k] == m[k]
    {
    }

    method PutHeader(a: nat, check: int, next: nat, size: nat)
      requires a + HEADER <= mem.Length
      modifies mem
      ensures mem[a] == Header(check, next, size)
      ensures forall k | 0 <= k < mem.Length && !(a <= k < a + HEADER) :: mem[k] == old(mem[k])
    {
      mem[a] := Header(check, next, size);
      for i := 1 to HEADER
        invariant mem[a] == Header(check, next, size)
        invariant forall k | 0 <= k < mem.Length && !(a <= k < a + HEADER) :: mem[k] == old(mem[k])
      {
        mem[a+i] := Occupied;
      }
    }

    /** allocatorInit: an empty sentinel at the start of the arena. */
    constructor (mem: array<Cell>, start: nat)
      requires 0 < start && start + HEADER <= mem.Length
      modifies mem
      ensures Valid() && this.mem == mem && this.start == start
      ensures blocks == [Block(start, 0)] && freeList == []
      ensures tail == start && free == 0 && mem[start] == Header(0, 0, 0)
    {
      this.mem, this.start := mem, start;
      tail, free := start, NULL;
      blocks, freeList := [Block(start, 0)], [];
      new;
      PutHeader(start, 0, NULL, 0);
    }

    /** Walk the free list to the first block that is large enough. */
    method FindFit(size: nat) returns (node: nat, prev: nat)
      requires Valid()
      ensures var i := FirstFit(freeList, size);
              && node == (if i < |freeList| then freeList[i].addr else NULL)
              && (0 < i < |freeList| ==> prev == freeList[i-1].addr)
    {
      hide Linked, Sound, FreeBlocks, FirstFit;
      node, prev := free, NULL;
      ghost var i := 0;
      LinkedHead(mem[..], node, freeList);
      if node == NULL {
        FirstFitIs(freeList, size, 0);
        return;
      }
      assert freeList[0..] == freeList;
      while mem[node].size < size
        invariant i < |freeList| && Linked(mem[..], node, freeList[i..])
        invariant node == freeList[i].addr < mem.Length && mem[node].Header? && mem[node].size == freeList[i].size
        invariant i > 0 ==> prev == freeList[i-1].addr
        invariant forall j | 0 <= j < i :: freeList[j].size < size
        decreases |freeList| - i
      {
        LinkedHead(mem[..], node, freeList[i..]);
        assert freeList[i..][1..] == freeList[i+1..];
        prev := node;
        LinkedHead(mem[..], mem[node].next, freeList[i+1..]);
        if mem[node].next == NULL {
          FirstFitIs(freeList, size, |freeList|);
          return NULL, prev;
        }
        node := mem[node].next;
        i := i + 1;
      }
      FirstFitIs(freeList, size, i);
    }

    lemma FreeApart()
      requires Valid()
      ensures forall j, k | 0 <= j < k < |freeList| :: freeList[j].addr != freeList[k].addr
      ensures forall b | b in freeList :: b.addr < mem.Length
    {
      forall j, k | 0 <= j < k < |freeList| ensures freeList[j].addr != freeList[k].addr {
        assert freeList[j] in freeList && freeList[k] in freeList;
        BlocksApart(blocks, freeList[j], freeList[k]);
      }
      forall b | b in freeList ensures b.addr < mem.Length {
        InMemory(mem[..], start, blocks, b);
      }
    }

    /** Change the link of a block other than the sentinel. */
    method SetNext(node: nat, next: nat, ghost b: Block)
      requires Sound(mem[..], start, blocks) && b in blocks && b.size > 0 && node == b.addr
      modifies mem
      ensures HeaderAt(old(mem[..]), b, CHECK)
      ensures mem[..] == old(mem[..])[node := old(mem[..])[node].(next := next)]
      ensures Sound(mem[..], start, blocks) && Kept(blocks, old(mem[..]))
    {
      ghost var m := mem[..];
      LinkChanged(m, start, blocks, b, next);
      mem[node] := mem[node].(next := next);
      assert mem[..] == m[node := m[node].(next := next)];
    }

    /** Take free block i, which the search found, out of the list. */
    method Unlink(node: nat, prev: nat, ghost i: nat)
      requires Valid() && i < |freeList| && node == freeList[i].addr && (i > 0 ==> prev == freeList[i-1].addr)
      modifies this`free, this`freeList, mem
      ensures Valid() && freeList == Without(old(freeList), i)
      ensures Kept(blocks, old(mem[..]))
    {
      ghost var f := freeList;
      FreeApart();
      BlockHeader(mem[..], start, blocks, f[i]);
      WithoutFree(blocks, f, i);
      if node == free {
        assert f[0].addr == free;
        Popped(mem[..], blocks, free, f);
        free := mem[node].next;
        forall b | b in blocks ensures b.End() <= mem.Length { InMemory(mem[..], start, blocks, b); }
      } else {
        BlockHeader(mem[..], start, blocks, f[i-1]);
        Unlinked(mem[..], free, f, i, prev, mem[prev].(next := mem[node].next));
        SetNext(prev, mem[node].next, f[i-1]);
      }
      freeList := Without(f, i);
    }

    /** Put a live block in front of the free list. */
    method Push(node: nat, ghost b: Block)
      requires Valid() && b in blocks && b.size > 0 && b !in freeList && node == b.addr
      modifies this`free, this`freeList, mem
      ensures Valid() && freeList == [b] + old(freeList)
      ensures free == node < mem.Length && mem[node].Header? && mem[node].next == old(free)
      ensures Kept(blocks, old(mem[..]))
    {
      hide Sound;
      ghost var list := [b] + freeList;
      Pushed(mem[..], start, blocks, free, freeList, b);
      ghost var m := mem[..][node := mem[..][node].(next := free)];
      SetNext(node, free, b);
      assert mem[..] == m;
      free, freeList := node, list;
    }

    /** Grow the arena by one block behind the tail. */
    method Extend(size: nat) returns (node: nat)
      requires Valid() && blocks[|blocks|-1].End() + HEADER + Rounded(size) <= mem.Length
      modifies this`tail, this`blocks, mem
      ensures Valid() && node == old(blocks[|blocks|-1]).End()
      ensures blocks == old(blocks) + [Block(node, Rounded(size))]
      ensures Kept(old(blocks), old(mem[..]))
    {
      ghost var m, bs := mem[..], blocks;
      assert HeaderAt(m, bs[|bs|-1], if |bs| == 1 then 0 else CHECK);
      node := tail + mem[tail].size + HEADER;
      PutHeader(node, CHECK, NULL, size + (16 - size % 16));
      tail := node;
      Extended(m, mem[..], start, bs, Block(node, Rounded(size)));
      blocks := bs + [Block(node, Rounded(size))];
      forall b | b in freeList ensures b.addr < |m| && mem[..][b.addr] == m[b.addr] {
        InMemory(m, start, bs, b);
      }
      LinkedFrame(m, mem[..], free, freeList);
    }

    /** Hand out free block i. */
    method TakeFree(node: nat, prev: nat, ghost i: nat) returns (p: nat, ghost b: Block)
      requires Valid() && i < |freeList| && node == freeList[i].addr && (i > 0 ==> prev == freeList[i-1].addr)
      modifies this`free, this`freeList, mem
      ensures Valid() && b == old(freeList)[i] && p == b.Data() && freeList == Without(old(freeList), i)
      ensures forall c :: Live(c) <==> old(Live(c)) || c == b
      ensures !old(Live(b)) && Kept(blocks, old(mem[..]))
    {
      b := freeList[i];
      BlockHeader(mem[..], start, blocks, b);
      WithoutFree(blocks, freeList, i);
      Unlink(node, prev, i);
      assert mem[..][node].check == CHECK;
      p := node + HEADER;
    }

    /** Hand out a new block. */
    method TakeNew(size: nat) returns (p: nat, ghost b: Block)
      requires Valid() && blocks[|blocks|-1].End() + HEADER + Rounded(size) <= mem.Length
      modifies this`tail, this`blocks, mem
      ensures Valid() && b.size == Rounded(size) && p == b.Data() && blocks == old(blocks) + [b]
      ensures forall c :: Live(c) <==> old(Live(c)) || c == b
      ensures !old(Live(b)) && Kept(old(blocks), old(mem[..]))
    {
      forall c | c in blocks ensures c.addr != blocks[|blocks|-1].End() { InMemory(mem[..], start, blocks, c); }
      var node := Extend(size);
      b := Block(node, Rounded(size));
      p := node + HEADER;
    }

    lemma FoundIsFree(i: nat)
      requires Valid() && i < |freeList|
      ensures freeList[i].addr != NULL
    {
      InMemory(mem[..], start, blocks, freeList[i]);
    }

    /** First fit from the free list, else a new block: the arena grows only when no free block is
        large enough. `b` is the block handed out. */
    method Alloc(size: nat) returns (p: nat, ghost b: Block)
      requires Valid()
      requires FirstFit(freeList, size) == |freeList| ==>
        blocks[|blocks|-1].End() + HEADER + Rounded(size) <= mem.Length
      modifies this`tail, this`free, this`blocks, this`freeList, mem
      ensures Valid() && Live(b) && !old(Live(b)) && p == b.Data() && b.size >= size
      ensures var i := FirstFit(old(freeList), size);
              if i < |old(freeList)|
              then b == old(freeList)[i] && freeList == Without(old(freeList), i) && blocks == old(blocks)
              else b.size == Rounded(size) && freeList == old(freeList) && blocks == old(blocks) + [b]
      ensures forall c :: Live(c) <==> old(Live(c)) || c == b
      ensures p == b.addr + 16 && b.addr < mem.Length && mem[b.addr].Header?
      ensures mem[b.addr].check == 0x11FACADE && mem[b.addr].size == b.size
      ensures Kept(old(blocks), old(mem[..]))
    {
      hide Sound, Linked, FreeBlocks, FirstFit, Rounded;
      var node, prev := FindFit(size);
      ghost var i := FirstFit(freeList, size);
      if i < |freeList| { FoundIsFree(i); }
      if node != NULL {
        p, b := TakeFree(node, prev, i);
      } else {
        p, b := TakeNew(size);
      }
      BlockHeader(mem[..], start, blocks, b);
    }

    /** Release a live block; releasing NULL does nothing. */
    method Free(p: nat, ghost b: Block)
      requires Valid() && (p != NULL ==> Live(b) && p == b.Data())
      modifies this`free, this`freeList, mem
      ensures Valid() && Kept(blocks, old(mem[..]))
      ensures if p == NULL then freeList == old(freeList) else freeList == [b] + old(freeList)
      ensures p != NULL ==> forall c :: Live(c) <==> old(Live(c)) && c != b
      ensures p != 0 ==> free == p - 16 && mem[free].Header? && mem[free].next == old(free)
    {
      if p == NULL {
        forall c | c in blocks ensures c.End() <= mem.Length { InMemory(mem[..], start, blocks, c); }
        return;
      }
      var node := p - HEADER;
      BlockHeader(mem[..], start, blocks, b);
      assert mem[node].check == CHECK;
      Push(node, b);
    }

    method StoreCell(a: nat, c: Cell)
      requires a < mem.Length
      modifies mem
      ensures mem[..] == old(mem[..])[a := c]
    {
      mem[a] := c;
    }

    /** A client's write into a live block. */
    method Store(p: nat, i: nat, c: Cell, ghost b: Block)
      requires Valid() && Live(b) && p == b.Data() && i < b.size
      modifies mem
      ensures Valid() && p + i < mem.Length && mem[..] == old(mem[..])[p + i := c]
      ensures WrittenIn(old(mem[..]), mem[..], b)
    {
      ghost var m := mem[..];
      InMemory(m, start, blocks, b);
      StoreCell(p + i, c);
      PayloadWritten(m, mem[..], start, blocks, free, freeList, b);
    }

    /** Copy the payload of one live block to the beginning of another. */
    method CopyPayload(from: nat, to: nat, ghost b: Block, ghost c: Block)
      requires Valid() && Live(b) && Live(c) && b != c && b.size <= c.size && from == b.Data() && to == c.Data()
      modifies mem
      ensures Valid() && b.End() <= |old(mem[..])| && c.End() <= mem.Length
      ensures WrittenIn(old(mem[..]), mem[..], c)
      ensures Payload(mem[..], c)[..b.size] == Payload(old(mem[..]), b)
    {
      ghost var m := mem[..];
      TwoBlocks(m, start, blocks, b, c);
      CopyCells(from, to, b, c);
      PayloadWritten(m, mem[..], start, blocks, free, freeList, c);
    }

    method CopyCells(from: nat, to: nat, ghost b: Block, ghost c: Block)
      requires from == b.Data() && to == c.Data() && b.size <= c.size && b.End() <= mem.Length && c.End() <= mem.Length
      requires b.End() <= c.addr || c.End() <= b.addr
      requires mem[b.addr].Header? && mem[b.addr].size == b.size
      modifies mem
      ensures WrittenIn(old(mem[..]), mem[..], c)
      ensures Payload(mem[..], c)[..b.size] == Payload(old(mem[..]), b)
    {
      ghost var source := mem[from..b.End()];
      var i := 0;
      while i < mem[from - HEADER].size
        invariant i <= b.size && mem[b.addr] == old(mem[b.addr])
        invariant forall k | 0 <= k < mem.Length && !(to <= k < to + i) :: mem[k] == old(mem[k])
        invariant forall k | 0 <= k < i :: mem[to+k] == source[k]
        decreases b.size - i
      {
        assert mem[from+i] == source[i];
        mem[to+i] := mem[from+i];
        i := i + 1;
      }
      assert mem[to..to + b.size] == source;
      assert Payload(mem[..], c)[..b.size] == mem[to..to + b.size];
    }

    /** Move a live block's payload to a new block and release the old one. */
    method Move(p: nat, size: nat, ghost b: Block) returns (r: nat, ghost c: Block)
      requires Valid() && Live(b) && p == b.Data() && b.size < size
      requires FirstFit(freeList, size) == |freeList| ==>
        blocks[|blocks|-1].End() + HEADER + Rounded(size) <= mem.Length
      modifies this`tail, this`free, this`blocks, this`freeList, mem
      ensures Valid() && c != b && c in blocks && b in blocks && r == c.Data() && c.size >= size
      ensures c.End() <= mem.Length && b.End() <= |old(mem[..])|
      ensures Payload(mem[..], c)[..b.size] == Payload(old(mem[..]), b)
      ensures forall d :: Live(d) <==> (old(Live(d)) && d != b) || d == c
      ensures forall d | old(Live(d)) && d != b ::
        d.End() <= mem.Length && Payload(mem[..], d) == Payload(old(mem[..]), d)
    {
      hide Sound, Linked, FreeBlocks;
      r, c := Alloc(size);
      ghost var m := mem[..];
      CopyPayload(p, r, b, c);
      forall d | d in blocks && d != c ensures d.End() <= |m| && Payload(mem[..], d) == Payload(m, d) {
        PayloadElsewhere(m, mem[..], start, blocks, c, d);
      }
      Free(p, b);
    }

    /** Resizing keeps the whole old payload and every other live payload. The pointer stays the
        same exactly when the old block is already large enough. */
    method Realloc(p: nat, size: nat, ghost b: Block) returns (r: nat, ghost c: Block)
      requires Valid() && (p != NULL ==> Live(b) && p == b.Data())
      requires (p == NULL || b.size < size) && FirstFit(freeList, size) == |freeList| ==>
        blocks[|blocks|-1].End() + HEADER + Rounded(size) <= mem.Length
      modifies this`tail, this`free, this`blocks, this`freeList, mem
      ensures Valid() && Live(c) && r == c.Data() && c.size >= size && c.End() <= mem.Length
      ensures p == NULL ==> !old(Live(c)) && Kept(old(blocks), old(mem[..]))
      ensures p != NULL ==> (r == p <==> b.size >= size)
      ensures p != NULL && r == p ==> mem[..] == old(mem[..]) && blocks == old(blocks)
      ensures p != NULL ==> b.size <= c.size && b.End() <= |old(mem[..])|
      ensures p != NULL ==> Payload(mem[..], c)[..b.size] == Payload(old(mem[..]), b)
      ensures p != NULL ==> p == b.addr + 16 && r == c.addr + 16
      ensures p != NULL ==> mem[..][r..r + b.size] == old(mem[..])[p..p + b.size]
      ensures p != NULL ==> forall d :: Live(d) <==> (old(Live(d)) && d != b) || d == c
      ensures p != NULL ==> forall d | old(Live(d)) && d != b ::
        d.End() <= mem.Length && Payload(mem[..], d) == Payload(old(mem[..]), d)
    {
      hide Linked, FreeBlocks, Sound, FirstFit, Rounded;
      if p == NULL {
        r, c := Alloc(size);
        InMemory(mem[..], start, blocks, c);
        return;
      }
      var node := p - HEADER;
      BlockHeader(mem[..], start, blocks, b);
      if mem[node].size >= size {
        forall d | d in blocks ensures d.End() <= mem.Length { InMemory(mem[..], start, blocks, d); }
        return p, b;
      }
      r, c := Move(p, size, b);
      TwoBlocks(mem[..], start, blocks, b, c);
      SamePrefix(old(mem[..]), mem[..], b, c);
    }
  }
}
