// From the mouse to the events: the interrupt queue (src/sys/umka.c) and the decoder behind it
// (fs/kernel/input.um) together.
module InputPath {
  import opened Common
  import opened Interrupts
  import opened Mouse

  /** The bytes of the mouse in a list of packets. */
  function MouseBytes(ps: seq<Packet>): seq<byte> {
    BytesOf(12, ps)
  }

  lemma {:induction false} MouseBytesSum(a: seq<Packet>, b: seq<Packet>)
    ensures MouseBytes(a + b) == MouseBytes(a) + MouseBytes(b)
    decreases |b|
  {
    if b == [] {
      assert a + b == a;
    } else {
      var init := b[..|b|-1];
      assert (a + b)[..|a + b|-1] == a + init;
      MouseBytesSum(a, init);
      assert MouseBytes(a) + (MouseBytes(init) + if b[|b|-1].irq == MOUSE then b[|b|-1].bytes else []) ==
             MouseBytes(a) + MouseBytes(init) + if b[|b|-1].irq == MOUSE then b[|b|-1].bytes else [];
    }
  }

  /** Skipping empty packets skips no bytes. */
  lemma NoBytesSkipped(ps: seq<Packet>)
    ensures MouseBytes(NonEmpty(ps)) == MouseBytes(ps)
  {
    NoByteLeftOut(ps, MOUSE);
  }

  /** What the kernel makes of the packets it is handed, one after the other. */
  ghost function Handled(d: Decoder, ps: seq<Packet>): (r: Decoder)
    requires Good(d, MouseBytes(ps))
    ensures r == FeedAll(d, MouseBytes(ps))
    decreases |ps|
  {
    if ps == [] then d
    else
      var init, last := ps[..|ps|-1], ps[|ps|-1];
      var bytes := if last.irq == MOUSE then last.bytes else [];
      FeedInParts(d, MouseBytes(init), bytes);
      FeedAll(Handled(d, init), bytes)
  }

  /** In every run in which no input lands in the critical section and no buffer overflows: if what
      the mouse sent, in whatever parts, encodes some events, then the kernel has decoded exactly
      those of them whose bytes it has been handed, in order, and all of them once nothing is
      queued. */
  lemma MouseEventsArrive(actions: seq<Action>, events: seq<MousePacket>)
    requires !Run(actions).panicked && Run(actions).lost == []
    requires forall k | 0 <= k < |events| :: Reportable(events[k])
    requires MouseBytes(Arrived(actions)) == EncodeAll(events)
    ensures var s := Run(actions);
            && Good(FRESH, MouseBytes(s.delivered)) && |MouseBytes(s.delivered)| / 3 <= |events|
            && Handled(FRESH, s.delivered).packets == events[..|MouseBytes(s.delivered)| / 3]
            && (Pending(s) == [] && Queue(s) == [] ==> Handled(FRESH, s.delivered).packets == events)
  {
    hide Run, Inv, Pending, Queue, NonEmpty, Arrived, Handled, Good, FeedAll, EncodeAll, MouseBytes;
    var s := Run(actions);
    AllAccepted(actions);
    NothingLostOrDoubled(actions);
    NoBytesSkipped(s.taken);
    var p, q := Pending(s), Queue(s);
    assert s.accepted == s.taken + (p + q);
    MouseBytesSum(s.taken, p + q);
    Arrival(MouseBytes(s.delivered), MouseBytes(p + q), events);
    if p == [] && q == [] { NoMouseBytes(); }
  }

  lemma NoMouseBytes()
    ensures MouseBytes([] + []) == []
  {
  }

  lemma Arrival(seen: seq<byte>, rest: seq<byte>, events: seq<MousePacket>)
    requires (forall k | 0 <= k < |events| :: Reportable(events[k])) && seen + rest == EncodeAll(events)
    ensures Good(FRESH, seen) && |seen| / 3 <= |events|
    ensures FeedAll(FRESH, seen).packets == events[..|seen| / 3]
    ensures rest == [] ==> FeedAll(FRESH, seen).packets == events
  {
    PrefixDecoded(events, seen, rest);
    EventsDecoded(FRESH, events);
    assert rest == [] ==> seen + rest == seen;
  }

  /** What the kernel does in turn: it handles an interrupt, or passes on the events it holds. */
  datatype Turn = Interrupt(bytes: seq<byte>) | RelayAll

  function Bytes(turns: seq<Turn>): seq<byte> {
    if turns == [] then []
    else Bytes(turns[..|turns|-1]) + match turns[|turns|-1] { case Interrupt(b) => b case RelayAll => [] }
  }

  /** The decoder and what has been passed on. With what is still held that is what was decoded. */
  ghost function Served(turns: seq<Turn>): (r: (Decoder, seq<MousePacket>))
    requires Good(FRESH, Bytes(turns))
    ensures r.0.(packets := r.1 + r.0.packets) == FeedAll(FRESH, Bytes(turns))
    decreases |turns|
  {
    if turns == [] then (FRESH, [])
    else
      var init, last := turns[..|turns|-1], turns[|turns|-1];
      match last
      case Interrupt(b) =>
        FeedInParts(FRESH, Bytes(init), b);
        var (d, out) := Served(init);
        Shifted(d, out, b);
        (FeedAll(d, b), out)
      case RelayAll =>
        assert Bytes(turns) == Bytes(init);
        var (d, out) := Served(init);
        (d.(packets := []), out + d.packets)
  }

  /** Packets held before do not influence the decoding. */
  lemma {:induction false} Shifted(d: Decoder, out: seq<MousePacket>, b: seq<byte>)
    requires Good(d.(packets := out + d.packets), b)
    ensures Good(d, b)
    ensures FeedAll(d.(packets := out + d.packets), b) == FeedAll(d, b).(packets := out + FeedAll(d, b).packets)
    decreases |b|
  {
    if b != [] {
      var d', c := d.(packets := out + d.packets), b[0];
      assert Expected(d, c);
      assert Feed(d', c) == Feed(d, c).(packets := out + Feed(d, c).packets);
      Shifted(Feed(d, c), out, b[1..]);
    }
  }

  /** No event is lost or passed on twice, however interrupts and relays are interleaved. */
  lemma RelayConserves(turns: seq<Turn>, events: seq<MousePacket>)
    requires (forall k | 0 <= k < |events| :: Reportable(events[k])) && Bytes(turns) == EncodeAll(events)
    ensures Good(FRESH, Bytes(turns))
    ensures var (d, out) := Served(turns); out + d.packets == events
  {
    EventsDecoded(FRESH, events);
  }
}
