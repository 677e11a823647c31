// The mouse decoder of the kernel (fs/kernel/input.um): three bytes make an event.
module Mouse {
  import opened Common
  import opened Interrupts
  import Powers

  datatype MousePacket = MousePacket(dx: int, dy: int, lmb: bool, rmb: bool, mmb: bool)

  /** What a mouse can report without setting an overflow bit. */
  predicate Reportable(e: MousePacket) {
    -256 <= e.dx < 256 && -256 <= e.dy < 256
  }

  function Bit(b: byte, weight: nat): bool
    requires weight > 0
  {
    b / weight % 2 == 1
  }

  // ---------- what the mouse sends ----------

  function Flag(b: bool, weight: nat): nat {
    if b then weight else 0
  }

  /** Buttons, the bit that is always set, and the signs; then the low bytes of the movements. */
  function Encode(e: MousePacket): (s: seq<byte>)
    requires Reportable(e)
    ensures |s| == 3
  {
    [ Flag(e.lmb, 1) + Flag(e.rmb, 2) + Flag(e.mmb, 4) + 8 + Flag(e.dx < 0, 16) + Flag(e.dy < 0, 32),
      e.dx % 256,
      e.dy % 256 ]
  }

  function EncodeAll(events: seq<MousePacket>): seq<byte>
    requires forall k | 0 <= k < |events| :: Reportable(events[k])
  {
    if events == [] then [] else Encode(events[0]) + EncodeAll(events[1..])
  }

  // ---------- the decoder ----------

  datatype Decoder = Decoder(cycle: nat, b0: byte, b1: byte, b2: byte, packets: seq<MousePacket>)

  const FRESH: Decoder := Decoder(0, 0, 0, 0, [])

  /** The byte starts an event if one is due, and the event it ends has no overflow. */
  predicate Expected(d: Decoder, byte: byte) {
    match d.cycle
    case 0 => Bit(byte, 8)
    case 1 => true
    case 2 => !Bit(d.b0, 0x80) && !Bit(d.b0, 0x40)
    case _ => false
  }

  function Decoded(b0: byte, b1: byte, b2: byte): MousePacket {
    MousePacket(b1 as int - Flag(Bit(b0, 16), 0x100), b2 as int - Flag(Bit(b0, 32), 0x100),
                Bit(b0, 1), Bit(b0, 2), Bit(b0, 4))
  }

  /** What the three bytes of a packet mean: buttons in the low bits of the first, the signs of the
      movements in two others, the movements themselves in the second and the third. */
  lemma DecodedExactly(b0: byte, b1: byte, b2: byte)
    ensures var e := Decoded(b0, b1, b2);
            && (e.lmb <==> b0 % 2 == 1) && (e.rmb <==> b0 % 4 >= 2) && (e.mmb <==> b0 % 8 >= 4)
            && e.dx == (if b0 % 32 >= 16 then b1 as int - 256 else b1 as int)
            && e.dy == (if b0 % 64 >= 32 then b2 as int - 256 else b2 as int)
  {
    assert Bit(b0, 1) <==> b0 % 2 == 1;
    BitInside(b0, 2);
    BitInside(b0, 4);
    BitInside(b0, 16);
    BitInside(b0, 32);
    hide Bit;
  }

  /** What can be reported is what three bytes can mean. */
  lemma ReportableExactly(e: MousePacket)
    ensures Reportable(e) <==> exists b0: byte, b1: byte, b2: byte :: Decoded(b0, b1, b2) == e
  {
    forall b0: byte, b1: byte, b2: byte | Decoded(b0, b1, b2) == e ensures Reportable(e) {
      DecodedExactly(b0, b1, b2);
    }
    if Reportable(e) {
      var b0 := Flag(e.lmb, 1) + Flag(e.rmb, 2) + Flag(e.mmb, 4) + 8 + Flag(e.dx < 0, 16) + Flag(e.dy < 0, 32);
      DecodedExactly(b0, e.dx % 256, e.dy % 256);
      assert Decoded(b0, e.dx % 256, e.dy % 256) == e;
    }
  }

  lemma BitInside(b: byte, weight: nat)
    requires weight > 0
    ensures Bit(b, weight) <==> b % (2 * weight) >= weight
  {
    var q, r := b / weight, b % weight;
    Powers.Division(b, weight);
    var low := q % 2 * weight + r;
    Regroup(b, weight, q, r);
    Powers.QuotientUnique(b, 2 * weight, q / 2, low);
  }

  lemma Regroup(b: nat, weight: nat, q: nat, r: nat)
    requires b == q * weight + r && r < weight
    ensures b == q / 2 * (2 * weight) + (q % 2 * weight + r) && q % 2 * weight + r < 2 * weight
    ensures q % 2 * weight + r >= weight <==> q % 2 == 1
  {
    var h, l := q / 2, q % 2;
    assert q == 2 * h + l;
    assert q * weight == h * (2 * weight) + l * weight;
  }

  /** The first byte of a packet has bit 3 set; of a packet that is used, the overflow bits are not. */
  lemma ExpectedExactly(d: Decoder, byte: byte)
    ensures d.cycle == 0 ==> (Expected(d, byte) <==> byte % 16 >= 8)
    ensures d.cycle == 1 ==> Expected(d, byte)
    ensures d.cycle == 2 ==> (Expected(d, byte) <==> d.b0 < 64)
  {
  }

  function Feed(d: Decoder, byte: byte): Decoder
    requires Expected(d, byte)
  {
    match d.cycle
    case 0 => d.(b0 := byte, cycle := 1)
    case 1 => d.(b1 := byte, cycle := 2)
    case _ => d.(b2 := byte, cycle := 0, packets := d.packets + [Decoded(d.b0, d.b1, byte)])
  }

  /** A stream the decoder accepts byte by byte. */
  predicate Good(d: Decoder, bytes: seq<byte>)
    decreases |bytes|
  {
    bytes == [] || (Expected(d, bytes[0]) && Good(Feed(d, bytes[0]), bytes[1..]))
  }

  function FeedAll(d: Decoder, bytes: seq<byte>): Decoder
    requires Good(d, bytes)
    decreases |bytes|
  {
    if bytes == [] then d else FeedAll(Feed(d, bytes[0]), bytes[1..])
  }

  /** How the bytes are cut does not matter. */
  lemma {:induction false} FeedInParts(d: Decoder, a: seq<byte>, b: seq<byte>)
    ensures Good(d, a + b) <==> Good(d, a) && Good(FeedAll(d, a), b)
    ensures Good(d, a + b) ==> FeedAll(d, a + b) == FeedAll(FeedAll(d, a), b)
    decreases |a|
  {
    if a == [] {
      assert a + b == b;
    } else {
      assert (a + b)[1..] == a[1..] + b;
      if Expected(d, a[0]) { FeedInParts(Feed(d, a[0]), a[1..], b); }
    }
  }

  /** The decoder undoes the encoding of one event. */
  lemma EventDecoded(d: Decoder, e: MousePacket)
    requires d.cycle == 0 && Reportable(e)
    ensures Good(d, Encode(e))
    ensures FeedAll(d, Encode(e)).cycle == 0 && FeedAll(d, Encode(e)).packets == d.packets + [e]
  {
    var s := Encode(e);
    BitsOfHeader(e);
    var d1 := Feed(d, s[0]);
    var d2 := Feed(d1, s[1]);
    assert s[1..] == [s[1], s[2]] && s[1..][1..] == [s[2]] && s[1..][1..][1..] == [];
    assert Expected(d2, s[2]);
    assert Good(d2, [s[2]]) && Good(d1, [s[1], s[2]]);
    assert FeedAll(d2, [s[2]]) == Feed(d2, s[2]);
    assert FeedAll(d1, [s[1], s[2]]) == Feed(d2, s[2]);
  }

  lemma BitsOfHeader(e: MousePacket)
    requires Reportable(e)
    ensures var b := Encode(e)[0];
            && Bit(b, 1) == e.lmb && Bit(b, 2) == e.rmb && Bit(b, 4) == e.mmb && Bit(b, 8)
            && Bit(b, 16) == (e.dx < 0) && Bit(b, 32) == (e.dy < 0) && !Bit(b, 0x40) && !Bit(b, 0x80)
    ensures Decoded(Encode(e)[0], Encode(e)[1], Encode(e)[2]) == e
  {
  }

  /** Decoding undoes encoding, for every list of events. */
  lemma {:induction false} EventsDecoded(d: Decoder, events: seq<MousePacket>)
    requires d.cycle == 0 && forall k | 0 <= k < |events| :: Reportable(events[k])
    ensures Good(d, EncodeAll(events))
    ensures FeedAll(d, EncodeAll(events)).cycle == 0 && FeedAll(d, EncodeAll(events)).packets == d.packets + events
    decreases |events|
  {
    if events != [] {
      var s := Encode(events[0]);
      assert EncodeAll(events) == s + EncodeAll(events[1..]);
      hide Encode, EncodeAll, Expected, Feed, Decoded, Bit, Good, FeedAll;
      EventDecoded(d, events[0]);
      EventsDecoded(FeedAll(d, s), events[1..]);
      FeedInParts(d, s, EncodeAll(events[1..]));
      assert events == [events[0]] + events[1..];
    }
  }

  /** The cycle counts bytes modulo 3, and a packet comes out of every third. */
  lemma {:induction false} Counted(d: Decoder, bytes: seq<byte>)
    requires Good(d, bytes) && d.cycle < 3
    ensures var d' := FeedAll(d, bytes);
            && d'.cycle < 3 && d.packets <= d'.packets
            && 3 * |d'.packets| + d'.cycle == 3 * |d.packets| + d.cycle + |bytes|
    decreases |bytes|
  {
    if bytes != [] { Counted(Feed(d, bytes[0]), bytes[1..]); }
  }

  /** After any part of the bytes of some events, exactly the events that are complete have been
      decoded. */
  lemma PrefixDecoded(events: seq<MousePacket>, a: seq<byte>, b: seq<byte>)
    requires forall k | 0 <= k < |events| :: Reportable(events[k])
    requires a + b == EncodeAll(events)
    ensures Good(FRESH, a) && |a| / 3 <= |events|
    ensures FeedAll(FRESH, a).packets == events[..|a| / 3]
  {
    EventsDecoded(FRESH, events);
    FeedInParts(FRESH, a, b);
    Counted(FRESH, a);
    Counted(FeedAll(FRESH, a), b);
    var d, d' := FeedAll(FRESH, a), FeedAll(FRESH, a + b);
    assert d'.packets == events;
    assert d.packets == d'.packets[..|d.packets|];
  }

  // ---------- the code ----------

  class Input {
    var mouseCycle: nat
    const mouseBytes: array<byte>
    var packets: seq<MousePacket>

    ghost predicate Valid()
      reads this
    {
      mouseBytes.Length == 3
    }

    ghost function View(): Decoder
      requires Valid()
      reads this, mouseBytes
    {
      Decoder(mouseCycle, mouseBytes[0], mouseBytes[1], mouseBytes[2], packets)
    }

    constructor ()
      ensures Valid() && View() == FRESH && fresh(mouseBytes)
    {
      mouseCycle, mouseBytes, packets := 0, new byte[3](_ => 0), [];
    }

    method HandleMouseIrq(bytes: seq<byte>)
      requires Valid() && Good(View(), bytes)
      modifies this, mouseBytes
      ensures Valid() && View() == FeedAll(old(View()), bytes)
    {
      var i := 0;
      assert bytes[0..] == bytes;
      while i < |bytes|
        invariant i <= |bytes| && Good(View(), bytes[i..])
        invariant FeedAll(View(), bytes[i..]) == FeedAll(old(View()), bytes)
      {
        var byte := bytes[i];
        ghost var d := View();
        assert bytes[i..][0] == byte && bytes[i..][1..] == bytes[i+1..];
        if mouseCycle == 0 {
          mouseBytes[0] := byte;
          mouseCycle := mouseCycle + 1;
        } else if mouseCycle == 1 {
          mouseBytes[1] := byte;
          mouseCycle := mouseCycle + 1;
        } else {
          mouseBytes[2] := byte;
          mouseCycle := 0;
          var dx := mouseBytes[1] as int - Flag(Bit(mouseBytes[0], 16), 0x100);
          var dy := mouseBytes[2] as int - Flag(Bit(mouseBytes[0], 32), 0x100);
          var packet := MousePacket(dx, dy, Bit(mouseBytes[0], 1), Bit(mouseBytes[0], 2), Bit(mouseBytes[0], 4));
          packets := packets + [packet];
        }
        assert View() == Feed(d, byte);
        i := i + 1;
      }
    }

    /** Pass the decoded events on. */
    method Relay() returns (events: seq<MousePacket>)
      requires Valid()
      modifies this`packets
      ensures events == old(packets) && View() == old(View()).(packets := [])
    {
      events := [];
      for i := 0 to |packets|
        invariant events == packets[..i] && packets == old(packets)
      {
        events := events + [packets[i]];
      }
      packets := [];
    }
  }
}
