// The 32-bit FNV-1a hash and the per-cell chains built from it (src/sys/gfx.c).
module Hashing {
  import opened Common
  import opened Painting
  import Powers

  type word = x: int | 0 <= x < WORD32

  const FNV_INIT: word := 0x811c9dc5

  /** The exclusive or of the lowest `bits` bits of two numbers. */
  function Xor(a: nat, b: nat, bits: nat): (r: nat)
    ensures r < Powers.Pow2(bits)
  {
    if bits == 0 then 0
    else (if a % 2 == b % 2 then 0 else 1) + 2 * Xor(a / 2, b / 2, bits - 1)
  }

  lemma {:induction false} XorInjective(a: nat, a': nat, b: nat, bits: nat)
    requires a < Powers.Pow2(bits) && a' < Powers.Pow2(bits)
    requires Xor(a, b, bits) == Xor(a', b, bits)
    ensures a == a'
  {
    if bits > 0 {
      XorInjective(a / 2, a' / 2, b / 2, bits - 1);
    }
  }

  /** Bit by bit: it is set where exactly one of the two is. */
  lemma {:induction false} XorBitwise(a: nat, b: nat, bits: nat, k: nat)
    requires k < bits
    ensures var p := Powers.Pow2(k); Xor(a, b, bits) / p % 2 == (a / p % 2 + b / p % 2) % 2
  {
    hide Xor, Powers.Pow2;
    if k == 0 {
      LowXor(a, b, bits);
      LowestBit(Xor(a, b, bits));
      LowestBit(a);
      LowestBit(b);
    } else {
      XorBitwise(a / 2, b / 2, bits - 1, k - 1);
      HalfXor(a, b, bits);
      BitOfHalf(Xor(a, b, bits), k);
      BitOfHalf(a, k);
      BitOfHalf(b, k);
    }
  }

  lemma LowestBit(x: nat)
    ensures x / Powers.Pow2(0) % 2 == x % 2
  {
    assert Powers.Pow2(0) == 1;
  }

  lemma BitOfHalf(x: nat, k: nat)
    requires k > 0
    ensures x / Powers.Pow2(k) % 2 == x / 2 / Powers.Pow2(k - 1) % 2
  {
    assert Powers.Pow2(k) == 2 * Powers.Pow2(k - 1);
    hide Powers.Pow2;
    Powers.DivideTwice(x, 2, Powers.Pow2(k - 1));
  }

  lemma LowXor(a: nat, b: nat, bits: nat)
    requires bits > 0
    ensures Xor(a, b, bits) % 2 == (a % 2 + b % 2) % 2
  {
  }

  lemma HalfXor(a: nat, b: nat, bits: nat)
    requires bits > 0
    ensures Xor(a, b, bits) / 2 == Xor(a / 2, b / 2, bits - 1)
  {
    var x := Xor(a / 2, b / 2, bits - 1);
    Powers.QuotientUnique(Xor(a, b, bits), 2, x, if a % 2 == b % 2 then 0 else 1);
  }

  /** `hval ^= b`: the exclusive or reaches the low byte only. */
  function XorLowByte(h: word, b: byte): (r: word)
    ensures r / 0x100 == h / 0x100
    ensures r % 0x100 == Xor(h % 0x100, b, 8)
  {
    assert Powers.Pow2(8) == 0x100;
    h - h % 0x100 + Xor(h % 0x100, b, 8)
  }

  /** `hval += (hval << 1) + (hval << 4) + ...`, in 32 bits. */
  function Spread(x: word): word {
    (x + ((x * 2) + (x * 0x10) + (x * 0x80) + (x * 0x100) + (x * 0x100_0000))) % WORD32
  }

  function FnvStep(h: word, b: byte): word {
    Spread(XorLowByte(h, b))
  }

  function Fnv32(buf: seq<byte>, h: word): word {
    if buf == [] then h else FnvStep(Fnv32(buf[..|buf|-1], h), buf[|buf|-1])
  }

  method Fnv32Buf(buf: seq<byte>, hval: word) returns (h: word)
    ensures h == Fnv32(buf, hval)
  {
    h := hval;
    for i := 0 to |buf|
      invariant h == Fnv32(buf[..i], hval)
    {
      assert buf[..i+1][..i] == buf[..i];
      h := XorLowByte(h, buf[i]);
      h := (h + ((h * 2) + (h * 0x10) + (h * 0x80) + (h * 0x100) + (h * 0x100_0000))) % WORD32;
    }
    assert buf[..|buf|] == buf;
  }

  /** Spread multiplies by an odd number; multiplying by that number's inverse undoes it. */
  lemma SpreadUndone(x: word)
    ensures Spread(x) * 0x359c449b % WORD32 == x
  {
    var q := x * 0x0100_0193 / WORD32;
    assert Spread(x) == x * 0x0100_0193 - q * WORD32;
    InverseUndoes(x, q, Spread(x));
  }

  lemma InverseUndoes(x: word, q: int, r: int)
    requires r == x * 0x0100_0193 - q * WORD32
    ensures r * 0x359c449b % WORD32 == x
  {
    var k := x * 0x359c99 - q * 0x359c449b;
    assert r * 0x359c449b == k * WORD32 + x;
    Powers.QuotientUniqueInt(r * 0x359c449b, WORD32, k, x);
  }

  lemma FnvStepInjective(h: word, h': word, b: byte)
    requires FnvStep(h, b) == FnvStep(h', b)
    ensures h == h'
  {
    SpreadUndone(XorLowByte(h, b));
    SpreadUndone(XorLowByte(h', b));
    assert Powers.Pow2(8) == 0x100;
    XorInjective(h % 0x100, h' % 0x100, b, 8);
  }

  /** Hashing the same bytes keeps different hashes different. */
  lemma {:induction false} Fnv32Injective(buf: seq<byte>, h: word, h': word)
    requires h != h'
    ensures Fnv32(buf, h) != Fnv32(buf, h')
  {
    if buf != [] {
      var init := buf[..|buf|-1];
      Fnv32Injective(init, h, h');
      if Fnv32(buf, h) == Fnv32(buf, h') {
        FnvStepInjective(Fnv32(init, h), Fnv32(init, h'), buf[|buf|-1]);
      }
    }
  }

  /** The published values for the empty string and for the letter a. */
  lemma FnvTestVectors()
    ensures Fnv32([], FNV_INIT) == 0x811c9dc5 && Fnv32([97], FNV_INIT) == 0xe40c292c
  {
    var h: word := 0x811c9dc5;
    assert [97][..0] == [] && h % 0x100 == 0xc5;
    assert Xor(0x3, 0x1, 2) == 2;
    assert Xor(0xc, 0x6, 4) == 0xa;
    assert Xor(0xc5 / 8, 0x61 / 8, 5) == 0x14;
    assert Xor(0xc5, 0x61, 8) == 0xa4;
  }

  /** A word as it lies in memory, low byte first. */
  function Bytes4(h: word): seq<byte> {
    [h % 0x100, h / 0x100 % 0x100, h / 0x1_0000 % 0x100, h / 0x100_0000 % 0x100]
  }

  lemma BytesHoldWord(h: word)
    ensures var b := Bytes4(h);
            |b| == 4 &&
            h == b[0] as int + 0x100 * (b[1] as int) + 0x1_0000 * (b[2] as int) + 0x100_0000 * (b[3] as int)
  {
    var q1, q2, q3 := h / 0x100, h / 0x1_0000, h / 0x100_0000;
    Powers.DivideTwice(h, 0x100, 0x100);
    Powers.DivideTwice(h, 0x1_0000, 0x100);
    assert h == 0x100 * q1 + h % 0x100 && q1 == 0x100 * q2 + q1 % 0x100 && q2 == 0x100 * q3 + q2 % 0x100;
    assert q3 < 0x100;
  }

  function CommandHash(a: Assets, cmd: Command): word {
    Fnv32(a.image(cmd), FNV_INIT)
  }

  /** The hash of cell (i, j) after the first n commands, starting from `seed`. */
  function Chain(a: Assets, seed: word, cmds: seq<Command>, n: nat, i: int, j: int): word
    requires n <= |cmds|
  {
    if n == 0 then seed
    else if Touches(cmds[n-1], i, j)
    then Fnv32(Bytes4(CommandHash(a, cmds[n-1])), Chain(a, seed, cmds, n - 1, i, j))
    else Chain(a, seed, cmds, n - 1, i, j)
  }

  /** A cell that one command touches: the hash of its bytes, chained onto what was there. */
  lemma ChainOfOne(a: Assets, seed: word, cmd: Command, i: int, j: int)
    ensures Chain(a, seed, [cmd], 1, i, j) ==
            if Touches(cmd, i, j) then Fnv32(Bytes4(Fnv32(a.image(cmd), 0x811c9dc5)), seed) else seed
  {
  }

  lemma ChainOfLast(a: Assets, seed: word, cmds: seq<Command>, last: Command, i: int, j: int)
    ensures Chain(a, seed, cmds + [last], |cmds| + 1, i, j)
         == if Touches(last, i, j)
            then Fnv32(Bytes4(CommandHash(a, last)), Chain(a, seed, cmds, |cmds|, i, j))
            else Chain(a, seed, cmds, |cmds|, i, j)
  {
    ChainOfPrefix(a, seed, cmds, [last], |cmds|, i, j);
  }

  lemma {:induction false} ChainOfPrefix(a: Assets, seed: word, cmds: seq<Command>, more: seq<Command>,
                                         n: nat, i: int, j: int)
    requires n <= |cmds|
    ensures Chain(a, seed, cmds + more, n, i, j) == Chain(a, seed, cmds, n, i, j)
  {
    if n > 0 { ChainOfPrefix(a, seed, cmds, more, n - 1, i, j); }
  }

  lemma LastKeepsDifference(a: Assets, seed: word, seed': word, cmds: seq<Command>, cmds': seq<Command>,
                            last: Command, i: int, j: int)
    requires Chain(a, seed, cmds, |cmds|, i, j) != Chain(a, seed', cmds', |cmds'|, i, j)
    ensures Chain(a, seed, cmds + [last], |cmds| + 1, i, j) != Chain(a, seed', cmds' + [last], |cmds'| + 1, i, j)
  {
    var h, h' := Chain(a, seed, cmds, |cmds|, i, j), Chain(a, seed', cmds', |cmds'|, i, j);
    ChainOfLast(a, seed, cmds, last, i, j);
    ChainOfLast(a, seed', cmds', last, i, j);
    Fnv32Injective(Bytes4(CommandHash(a, last)), h, h');
  }

  /** A collision cannot come from commands two frames have in common at the end. */
  lemma {:induction false} CommonTailKeepsDifference(a: Assets, seed: word, seed': word, cmds: seq<Command>,
                                                     cmds': seq<Command>, tail: seq<Command>, i: int, j: int)
    requires Chain(a, seed, cmds, |cmds|, i, j) != Chain(a, seed', cmds', |cmds'|, i, j)
    ensures var c, c' := cmds + tail, cmds' + tail;
            Chain(a, seed, c, |c|, i, j) != Chain(a, seed', c', |c'|, i, j)
    decreases |tail|
  {
    if tail == [] {
      assert cmds + tail == cmds && cmds' + tail == cmds';
    } else {
      var last := tail[0];
      LastKeepsDifference(a, seed, seed', cmds, cmds', last, i, j);
      CommonTailKeepsDifference(a, seed, seed', cmds + [last], cmds' + [last], tail[1..], i, j);
      assert cmds + tail == cmds + [last] + tail[1..] && cmds' + tail == cmds' + [last] + tail[1..];
    }
  }

  // ---------- runs of frames ----------

  /** The chains of the first frame start from 0 (gfxInit), those of later frames from FNV_INIT. */
  function Seed(k: nat): word {
    if k == 0 then 0 else FNV_INIT
  }

  /** The hash a cell is compared with when frame k is shown: the previous frame's, or the fill
      pattern of gfxInit before any frame. */
  function PreviousHash(a: Assets, frames: seq<seq<Command>>, k: nat, i: int, j: int): word
    requires k <= |frames|
  {
    if k == 0 then 0x01010101
    else Chain(a, Seed(k - 1), frames[k-1], |frames[k-1]|, i, j)
  }

  /** No cell's hash collides when `cmds` is shown after `frames`. */
  ghost predicate NoCollision(a: Assets, frames: seq<seq<Command>>, cmds: seq<Command>) {
    forall i, j | IsCell(i, j) &&
                  Chain(a, Seed(|frames|), cmds, |cmds|, i, j) == PreviousHash(a, frames, |frames|, i, j) ::
      |frames| > 0 && Touching(frames[|frames|-1], |frames[|frames|-1]|, i, j) == Touching(cmds, |cmds|, i, j)
  }

  /** The second frame starts its chains from another seed than the first, so repeating the first
      frame repaints every cell. */
  lemma RepeatedFirstFrameIsRepainted(a: Assets, cmds: seq<Command>, i: int, j: int)
    ensures Chain(a, Seed(1), cmds, |cmds|, i, j) != PreviousHash(a, [cmds], 1, i, j)
  {
    assert Chain(a, Seed(0), [], 0, i, j) != Chain(a, Seed(1), [], 0, i, j);
    CommonTailKeepsDifference(a, Seed(1), Seed(0), [], [], cmds, i, j);
    assert [] + cmds == cmds;
  }
}
