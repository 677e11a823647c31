// The queue between the interrupt handler and the scheduler (src/sys/umka.c). An interrupt may land
// between any two steps of the scheduler; the handler itself is not interrupted, since its gate
// keeps interrupts off (fs/kernel/idt.um).
module Interrupts {
  import opened Common

  const SLOTS: nat := 128
  const ROOM: nat := 128
  const KEYBOARD: nat := 1
  const MOUSE: nat := 12

  /** What one interrupt brought. */
  datatype Packet = Packet(irq: nat, bytes: seq<byte>)

  /** Where the scheduler is: the next thing it will do. */
  datatype Pc =
    | Idle            // called
    | Tested          // take the lock
    | Entered         // read the count
    | Copying(k: nat) // copy the k-th slot
    | Copied          // reset the count
    | Cleared         // release the lock
    | Dispatching(i: nat)

  datatype State = State(
    pc: Pc,
    lock: bool,
    packets: seq<Packet>,   // all slots, the first `count` of them in use
    count: nat,
    lpackets: seq<Packet>,  // the scheduler's copy
    lcount: nat,
    taken: seq<Packet>,     // what the scheduler has gone through
    delivered: seq<Packet>, // what it handed to the kernel
    accepted: seq<Packet>,  // what the handler put in the queue
    lost: seq<Packet>,      // input that was read and dropped
    before: nat,            // how much had been accepted when the scheduler took the lock
    panicked: bool)

  datatype Action = Sched | Irq(packet: Packet)

  ghost function Start(): State {
    var empty := seq(SLOTS, _ => Packet(0, []));
    State(Idle, false, empty, 0, empty, 0, [], [], [], [], 0, false)
  }

  /** The scheduler's next step. */
  function SchedStep(s: State): State
    requires |s.packets| == SLOTS && |s.lpackets| == SLOTS && s.lcount <= SLOTS
  {
    match s.pc
    case Idle => if s.lock then s else s.(pc := Tested)
    case Tested => s.(pc := Entered, lock := true, before := |s.accepted|)
    case Entered => s.(pc := Copying(0), lcount := s.count)
    case Copying(k) =>
      if k < SLOTS then s.(pc := Copying(k + 1), lpackets := s.lpackets[k := s.packets[k]])
      else s.(pc := Copied)
    case Copied => s.(pc := Cleared, count := 0)
    case Cleared => s.(pc := Dispatching(0), lock := false)
    case Dispatching(i) =>
      if i < s.lcount then
        var p := s.lpackets[i];
        s.(pc := Dispatching(i + 1), taken := s.taken + [p],
           delivered := if p.bytes == [] then s.delivered else s.delivered + [p])
      else s.(pc := Idle)
  }

  /** The handler, as one step. */
  function IrqStep(s: State, p: Packet): State
    requires |s.packets| == SLOTS
  {
    if s.lock || (p.irq != MOUSE && p.irq != KEYBOARD) then s.(lost := s.lost + [p])
    else if s.count >= SLOTS || |p.bytes| > ROOM then s.(panicked := true)
    else s.(packets := s.packets[s.count := p], count := s.count + 1, accepted := s.accepted + [p])
  }

  function Step(s: State, a: Action): State
    requires |s.packets| == SLOTS && |s.lpackets| == SLOTS && s.lcount <= SLOTS
  {
    if s.panicked then s
    else match a
      case Sched => SchedStep(s)
      case Irq(p) => IrqStep(s, p)
  }

  // ---------- the invariant ----------

  /** The scheduler is between taking and releasing the lock. */
  predicate InCriticalSection(pc: Pc) {
    pc.Entered? || pc.Copying? || pc.Copied? || pc.Cleared?
  }

  function Queue(s: State): seq<Packet>
    requires s.count <= |s.packets|
  {
    s.packets[..s.count]
  }

  /** What the scheduler has copied and still has to go through. */
  function Pending(s: State): seq<Packet>
    requires s.lcount <= |s.lpackets|
  {
    match s.pc
    case Cleared => s.lpackets[..s.lcount]
    case Dispatching(i) => if i <= s.lcount then s.lpackets[i..s.lcount] else []
    case _ => []
  }

  function NonEmpty(ps: seq<Packet>): seq<Packet> {
    if ps == [] then []
    else NonEmpty(ps[..|ps|-1]) + if ps[|ps|-1].bytes == [] then [] else [ps[|ps|-1]]
  }

  /** The bytes that came with interrupts of one number. */
  function BytesOf(irq: nat, ps: seq<Packet>): seq<byte> {
    if ps == [] then []
    else BytesOf(irq, ps[..|ps|-1]) + if ps[|ps|-1].irq == irq then ps[|ps|-1].bytes else []
  }

  /** Leaving out the empty packets leaves out no byte, whatever the interrupt number. */
  lemma {:induction false} NoByteLeftOut(ps: seq<Packet>, irq: nat)
    ensures BytesOf(irq, NonEmpty(ps)) == BytesOf(irq, ps)
  {
    if ps != [] {
      var init, last := ps[..|ps|-1], ps[|ps|-1];
      NoByteLeftOut(init, irq);
      var kept := NonEmpty(init);
      assert (kept + [last])[..|kept|] == kept;
      assert last.bytes == [] ==> NonEmpty(ps) == kept;
    }
  }

  /** Every packet with bytes is there as often as before, and no empty one. */
  lemma {:induction false} PacketsKept(ps: seq<Packet>, p: Packet)
    ensures multiset(NonEmpty(ps))[p] == if p.bytes == [] then 0 else multiset(ps)[p]
  {
    if ps != [] {
      var init, last := ps[..|ps|-1], ps[|ps|-1];
      PacketsKept(init, p);
      assert ps == init + [last];
    }
  }

  /** And they are in the same order: the place of a packet is the number of those before it. */
  lemma {:induction false} PacketPlaces(ps: seq<Packet>, k: nat)
    requires k <= |ps|
    ensures var before := |set m | 0 <= m < k && ps[m].bytes != []|;
            && before == |NonEmpty(ps[..k])| <= |NonEmpty(ps)|
            && NonEmpty(ps[..k]) <= NonEmpty(ps)
            && (k < |ps| && ps[k].bytes != [] ==> before < |NonEmpty(ps)| && NonEmpty(ps)[before] == ps[k])
  {
    CountedBefore(ps, k);
    KeptPrefix(ps, k);
    if k < |ps| {
      KeptPrefix(ps, k + 1);
      assert ps[..k+1][..k] == ps[..k];
    }
  }

  lemma {:induction false} CountedBefore(ps: seq<Packet>, k: nat)
    requires k <= |ps|
    ensures |set m | 0 <= m < k && ps[m].bytes != []| == |NonEmpty(ps[..k])|
  {
    var counted := set m | 0 <= m < k && ps[m].bytes != [];
    if k == 0 {
      assert counted == {} && ps[..0] == [];
    } else {
      CountedBefore(ps, k - 1);
      var before := set m | 0 <= m < k - 1 && ps[m].bytes != [];
      assert counted == if ps[k-1].bytes != [] then before + {k - 1} else before;
      assert ps[..k][..k-1] == ps[..k-1];
    }
  }

  lemma {:induction false} KeptPrefix(ps: seq<Packet>, k: nat)
    requires k <= |ps|
    ensures NonEmpty(ps[..k]) <= NonEmpty(ps)
    decreases |ps|
  {
    if k == |ps| {
      assert ps[..k] == ps;
    } else {
      KeptPrefix(ps[..|ps|-1], k);
      assert ps[..|ps|-1][..k] == ps[..k];
    }
  }

  /** The copy so far. */
  predicate CopyOk(s: State)
    requires |s.packets| == |s.lpackets| == SLOTS
  {
    match s.pc
    case Copying(k) => k <= SLOTS && s.lcount == s.count && s.lpackets[..k] == s.packets[..k]
    case Copied => s.lcount == s.count && s.lpackets == s.packets
    case Cleared => s.count == 0
    case Dispatching(i) => i <= s.lcount
    case _ => true
  }

  /** What had been accepted when the lock was taken is behind the scheduler or in its copy. */
  predicate PassOk(s: State)
    requires s.lcount <= |s.lpackets|
  {
    && s.before <= |s.accepted|
    && (InCriticalSection(s.pc) ==> s.before == |s.accepted|)
    && (s.pc.Dispatching? ==> s.before == |s.taken| + |Pending(s)|)
  }

  predicate Inv(s: State) {
    && |s.packets| == SLOTS && |s.lpackets| == SLOTS && s.lcount <= SLOTS && s.count <= SLOTS
    && (s.lock <==> InCriticalSection(s.pc))
    && CopyOk(s) && PassOk(s)
    && s.accepted == s.taken + Pending(s) + Queue(s)
    && s.delivered == NonEmpty(s.taken)
    && (forall k | 0 <= k < |s.accepted| :: |s.accepted[k].bytes| <= ROOM && s.accepted[k].irq in {KEYBOARD, MOUSE})
  }

  lemma StartInv()
    ensures Inv(Start())
  {
  }

  /** Going through one packet of the copy. */
  lemma DispatchConserves(s: State)
    requires Inv(s) && s.pc.Dispatching? && s.pc.i < s.lcount
    ensures var s' := SchedStep(s);
            && s'.taken + Pending(s') == s.taken + Pending(s)
            && s'.delivered == NonEmpty(s'.taken)
  {
    hide CopyOk, PassOk, Queue;
    var i, p := s.pc.i, s.lpackets[s.pc.i];
    assert s.lpackets[i..s.lcount] == [p] + s.lpackets[i+1..s.lcount];
    var taken := s.taken + [p];
    assert taken[..|taken|-1] == s.taken && taken[|taken|-1] == p;
    Regrouped(s.taken, [p], s.lpackets[i+1..s.lcount]);
  }

  /** Copying and clearing the queue moves it to the scheduler's side. */
  lemma CopyConserves(s: State)
    requires Inv(s) && !s.pc.Dispatching?
    ensures var s' := SchedStep(s);
            && CopyOk(s') && s'.count <= SLOTS && s'.lcount <= SLOTS
            && Pending(s') + Queue(s') == Pending(s) + Queue(s)
  {
    match s.pc
    case Copying(k) =>
      if k < SLOTS { assert s.lpackets[k := s.packets[k]][..k+1] == s.packets[..k+1]; }
      else { assert s.lpackets == s.lpackets[..SLOTS] == s.packets[..SLOTS] == s.packets; }
    case Cleared => assert s.lpackets[0..s.lcount] == s.lpackets[..s.lcount];
    case _ =>
  }

  lemma DispatchKeepsInv(s: State)
    requires Inv(s) && s.pc.Dispatching?
    ensures Inv(SchedStep(s))
  {
    if s.pc.i < s.lcount {
      DispatchConserves(s);
      assert Queue(SchedStep(s)) == Queue(s);
    } else {
      assert Pending(s) == [];
    }
    hide NonEmpty;
  }

  lemma CopyKeepsInv(s: State)
    requires Inv(s) && !s.pc.Dispatching?
    ensures Inv(SchedStep(s))
  {
    hide NonEmpty;
    var s' := SchedStep(s);
    CopyConserves(s);
    Regrouped(s.taken, Pending(s), Queue(s));
    Regrouped(s.taken, Pending(s'), Queue(s'));
  }

  lemma Regrouped(a: seq<Packet>, b: seq<Packet>, c: seq<Packet>)
    ensures a + b + c == a + (b + c)
  {
  }

  lemma SchedKeepsInv(s: State)
    requires Inv(s)
    ensures Inv(SchedStep(s))
  {
    hide *;
    if s.pc.Dispatching? { DispatchKeepsInv(s); } else { CopyKeepsInv(s); }
  }

  lemma IrqKeepsInv(s: State, p: Packet)
    requires Inv(s)
    ensures Inv(IrqStep(s, p))
  {
    var s' := IrqStep(s, p);
    if s'.accepted != s.accepted {
      assert Queue(s') == Queue(s) + [p];
      assert Pending(s') == Pending(s);
    }
  }

  /** Every run, with interrupts wherever they like. */
  ghost function Run(actions: seq<Action>): (s: State)
    ensures Inv(s)
  {
    if actions == [] then StartInv(); Start()
    else
      var before := Run(actions[..|actions|-1]);
      StepKeepsInv(before, actions[|actions|-1]);
      Step(before, actions[|actions|-1])
  }

  lemma StepKeepsInv(s: State, a: Action)
    requires Inv(s)
    ensures Inv(Step(s, a))
  {
    if !s.panicked {
      match a
      case Sched => SchedKeepsInv(s);
      case Irq(p) => IrqKeepsInv(s, p);
    }
  }

  // ---------- what the invariant gives ----------

  /** All input of a run, in order. */
  function Arrived(actions: seq<Action>): seq<Packet> {
    if actions == [] then []
    else Arrived(actions[..|actions|-1]) + match actions[|actions|-1] { case Sched => [] case Irq(p) => [p] }
  }

  /** In every run nothing that was accepted is lost, doubled or reordered. */
  lemma NothingLostOrDoubled(actions: seq<Action>)
    ensures var s := Run(actions);
            && s.lcount <= |s.lpackets| && s.count <= |s.packets|
            && s.accepted == s.taken + Pending(s) + Queue(s)
            && s.delivered == NonEmpty(s.taken)
  {
  }

  /** Input is dropped exactly if it lands between the scheduler's taking and releasing the lock, or
      is not from the keyboard or the mouse. */
  lemma DroppedExactly(actions: seq<Action>, p: Packet)
    requires !Run(actions).panicked
    ensures var s, s' := Run(actions), Run(actions + [Irq(p)]);
            && (s'.lost == s.lost + [p] <==> InCriticalSection(s.pc) || (p.irq != 12 && p.irq != 1))
            && (s'.panicked <==> !InCriticalSection(s.pc) && (p.irq == 12 || p.irq == 1) &&
                                 (s.count >= 128 || |p.bytes| > 128))
            && (s'.lost == s.lost + [p] || s'.accepted == s.accepted + [p] || s'.panicked)
  {
    assert (actions + [Irq(p)])[..|actions|] == actions;
    assert Run(actions + [Irq(p)]) == Step(Run(actions), Irq(p));
    hide Run, CopyOk, PassOk, NonEmpty, Pending;
  }

  lemma StepAccepts(s: State, a: Action)
    requires |s.packets| == SLOTS && |s.lpackets| == SLOTS && s.lcount <= SLOTS
    ensures var s' := Step(s, a);
            !s'.panicked && s'.lost == [] ==>
              && !s.panicked && s.lost == []
              && s'.accepted == s.accepted + match a { case Sched => [] case Irq(p) => [p] }
  {
    assert a.Irq? ==> s.lost + [a.packet] != [];
  }

  /** With nothing dropped, the accepted packets are all that arrived. */
  lemma {:induction false} AllAccepted(actions: seq<Action>)
    ensures var s := Run(actions);
            !s.panicked && s.lost == [] ==> s.accepted == Arrived(actions)
  {
    if actions != [] {
      AllAccepted(actions[..|actions|-1]);
      StepAccepts(Run(actions[..|actions|-1]), actions[|actions|-1]);
    }
  }

  /** When a pass of the scheduler ends, everything that was accepted before it took the lock has
      been gone through. */
  lemma PassDeliversAll(actions: seq<Action>)
    ensures var s := Run(actions);
            s.pc.Dispatching? && s.pc.i == s.lcount ==> s.taken == s.accepted[..s.before]
  {
    var s := Run(actions);
    if s.pc.Dispatching? && s.pc.i == s.lcount {
      assert Pending(s) == [];
    }
  }

  // ---------- the code ----------

  /** The kernel's variables, and the run that led to them. */
  class Kernel {
    const packets: array<Packet>
    var packet_count: nat
    var umkaLock: bool
    var halted: bool
    /** The calls made into the interpreter. */
    var calls: seq<Packet>
    ghost var trace: seq<Action>

    ghost function St(): State
      reads this
    {
      Run(trace)
    }

    ghost predicate Valid()
      reads this, packets
    {
      Matches(St(), packets[..], packet_count, umkaLock, halted, calls)
    }

    constructor ()
      ensures Valid() && trace == [] && !halted
    {
      packets := new Packet[SLOTS](_ => Packet(0, []));
      packet_count, umkaLock, halted, calls, trace := 0, false, false, [], [];
    }

    /** The interrupt handler; `port` is what the controller has to be read. */
    method HandleIRQ(irq: nat, port: seq<byte>)
      requires Valid() && !halted
      modifies this, packets
      ensures Valid() && trace == old(trace) + [Irq(Packet(irq, port))]
    {
      ghost var p := Packet(irq, port);
      RunStep(trace, Irq(p));
      IrqMatches(St(), packets[..], packet_count, umkaLock, calls, p);
      hide Run, Inv, Step;
      trace := trace + [Irq(p)];
      if !umkaLock && (irq == MOUSE || irq == KEYBOARD) {
        umkaLock := true;
        Accept(irq, port);
        umkaLock := false;
      } else {
        var inb := 0;
        while inb < |port|
          modifies {}
        {
          inb := inb + 1;
        }
      }
    }

    /** Put a packet in the queue, or panic. */
    method Accept(irq: nat, port: seq<byte>)
      requires packets.Length == SLOTS && packet_count <= SLOTS && !halted
      modifies this`packet_count, this`halted, packets
      ensures packet_count <= SLOTS
      ensures halted <==> old(packet_count) >= SLOTS || |port| > ROOM
      ensures !halted ==> packet_count == old(packet_count) + 1
      ensures !halted ==> packets[..] == old(packets[..])[old(packet_count) := Packet(irq, port)]
    {
      if packet_count >= SLOTS {
        halted := true;
        return;
      }
      packets[packet_count] := Packet(irq, []);
      packet_count := packet_count + 1;
      var inb := 0;
      while inb < |port|
        invariant inb <= |port| && inb <= ROOM && packet_count == old(packet_count) + 1 && !halted
        invariant packets[..] == old(packets[..])[packet_count-1 := Packet(irq, port[..inb])]
      {
        var p := packets[packet_count-1];
        if |p.bytes| >= ROOM {
          halted := true;
          return;
        }
        assert port[..inb+1] == port[..inb] + [port[inb]];
        packets[packet_count-1] := p.(bytes := p.bytes + [port[inb]]);
        inb := inb + 1;
      }
      assert port[..inb] == port;
    }

    lemma Sizes()
      ensures |St().packets| == |St().lpackets| == SLOTS && St().lcount <= SLOTS
      ensures St().lock <==> InCriticalSection(St().pc)
    {
    }

    lemma PassEnds()
      requires St().pc.Dispatching? && St().pc.i == St().lcount
      ensures |St().taken| == St().before
    {
    }

    /** One step of the scheduler is done. */
    ghost method Advance()
      modifies this`trace
      ensures trace == old(trace) + [Sched] && St() == Step(old(St()), Sched)
    {
      RunStep(trace, Sched);
      trace := trace + [Sched];
    }

    /** Any interrupts land here. */
    method Window()
      requires Valid() && !halted
      modifies this, packets
      ensures Valid() && St().pc == old(St().pc) && Quiet(old(St()), St())
    {
      hide Valid, Run, Inv;
      var irqs: seq<Packet> := *;
      var n := 0;
      while n < |irqs| && !halted
        invariant Valid() && Quiet(old(St()), St())
      {
        ghost var s := St();
        QuietStep(trace, irqs[n]);
        HandleIRQ(irqs[n].irq, irqs[n].bytes);
        QuietTransitive(old(St()), s, St());
        n := n + 1;
      }
    }

    /** A pass of the scheduler, with interrupts between any two steps. When it ends, everything that
        had been accepted before it has been gone through. */
    method Schedule()
      requires Valid() && !halted && St().pc == Idle
      modifies this, packets
      ensures Valid() && (halted || St().pc == Idle)
      ensures !halted ==> |St().taken| >= |old(St()).accepted|
      ensures !halted ==> forall irq :: BytesOf(irq, calls) == BytesOf(irq, St().taken)
      ensures !halted ==> forall p :: multiset(calls)[p] == if p.bytes == [] then 0 else multiset(St().taken)[p]
    {
      Pass();
      if !halted { CallsMade(); }
    }

    /** The calls are those for the packets taken that have bytes, and for nothing else. */
    lemma CallsMade()
      requires Valid() && !halted
      ensures forall irq :: BytesOf(irq, calls) == BytesOf(irq, St().taken)
      ensures forall p :: multiset(calls)[p] == if p.bytes == [] then 0 else multiset(St().taken)[p]
    {
      var taken := St().taken;
      assert calls == NonEmpty(taken) by { NothingLostOrDoubled(trace); }
      hide NonEmpty, BytesOf;
      forall irq ensures BytesOf(irq, calls) == BytesOf(irq, taken) { NoByteLeftOut(taken, irq); }
      forall p ensures multiset(calls)[p] == if p.bytes == [] then 0 else multiset(taken)[p] { PacketsKept(taken, p); }
    }

    method Pass()
      requires Valid() && !halted && St().pc == Idle
      modifies this, packets
      ensures Valid() && (halted || St().pc == Idle)
      ensures !halted ==> |St().taken| >= |old(St()).accepted|
    {
      hide Run, Inv;
      Window();
      if halted { return; }
      Sizes();
      if umkaLock { return; }
      Lock();
      if halted { return; }
      var lpackets := new Packet[SLOTS](_ => Packet(0, []));
      var lpacket_count := packet_count;
      Advance();
      var ok := Copy(lpackets);
      if !ok { return; }
      Unlock();
      if halted { return; }
      DispatchAll(lpackets, lpacket_count);
    }

    method Lock()
      requires Valid() && !halted && !umkaLock && St().pc == Idle
      modifies this, packets
      ensures Valid() && (!halted ==> St().pc == Entered && |old(St()).accepted| <= St().before)
    {
      hide Run, Inv;
      Advance();
      Window();
      if halted { return; }
      umkaLock := true;
      Advance();
      Window();
    }

    method Unlock()
      requires Valid() && !halted && St().pc == Copied
      modifies this, packets
      ensures Valid()
      ensures !halted ==> St().pc == Dispatching(0) && St().before == old(St()).before
      ensures !halted ==> St().lpackets == old(St()).lpackets && St().lcount == old(St()).lcount
    {
      hide Run, Inv;
      Sizes();
      packet_count := 0;
      Advance();
      Window();
      if halted { return; }
      umkaLock := false;
      Advance();
      Window();
    }

    /** Copy all slots. */
    method Copy(lpackets: array<Packet>) returns (ok: bool)
      requires Valid() && !halted && St().pc == Copying(0) && lpackets.Length == SLOTS && lpackets != packets
      modifies this, packets, lpackets
      ensures Valid() && (ok <==> !halted)
      ensures ok ==> St().pc == Copied && St().lcount == old(St()).lcount && lpackets[..] == St().lpackets
      ensures ok ==> St().before == old(St()).before
    {
      hide Run, Inv;
      Window();
      if halted { return false; }
      Sizes();
      var k := 0;
      while k < SLOTS
        invariant k <= SLOTS && Valid() && !halted && St().pc == Copying(k) && St().lcount == old(St()).lcount
        invariant St().before == old(St()).before
        invariant |St().lpackets| == SLOTS && lpackets[..k] == St().lpackets[..k]
      {
        lpackets[k] := packets[k];
        Advance();
        Window();
        if halted { return false; }
        k := k + 1;
      }
      assert lpackets[..] == lpackets[..k] && St().lpackets == St().lpackets[..k];
      Advance();
      Window();
      ok := !halted;
    }

    /** Hand the copied packets to the kernel; empty ones are skipped. */
    method DispatchAll(lpackets: array<Packet>, lpacket_count: nat)
      requires Valid() && !halted && St().pc == Dispatching(0) && St().lcount == lpacket_count
      requires lpackets.Length == SLOTS && lpackets != packets && lpackets[..] == St().lpackets
      modifies this, packets
      ensures Valid() && (halted || St().pc == Idle) && (!halted ==> |St().taken| == old(St()).before)
    {
      hide Run, Inv;
      Sizes();
      var i := 0;
      while i < lpacket_count
        invariant i <= lpacket_count && Valid() && !halted
        invariant St().pc == Dispatching(i) && St().lcount == lpacket_count <= SLOTS
        invariant lpackets[..] == St().lpackets && St().before == old(St()).before
      {
        var packet := lpackets[i];
        if |packet.bytes| != 0 {
          calls := calls + [packet];
        }
        Advance();
        Window();
        if halted { return; }
        i := i + 1;
      }
      PassEnds();
      Advance();
    }
  }

  /** The variables have the values of the state. */
  ghost predicate Matches(s: State, slots: seq<Packet>, count: nat, lock: bool, halted: bool, calls: seq<Packet>) {
    && |slots| == SLOTS && count <= SLOTS && halted == s.panicked
    && (!halted ==> slots == s.packets && count == s.count && lock == s.lock && calls == s.delivered)
  }

  lemma IrqMatches(s: State, slots: seq<Packet>, count: nat, lock: bool, calls: seq<Packet>, p: Packet)
    requires Inv(s) && Matches(s, slots, count, lock, false, calls)
    ensures var s' := Step(s, Irq(p));
            if lock || (p.irq != MOUSE && p.irq != KEYBOARD) then Matches(s', slots, count, lock, false, calls)
            else if count >= SLOTS || |p.bytes| > ROOM then
              forall slots': seq<Packet>, count': nat, lock' |
                |slots'| == SLOTS && count' <= SLOTS :: Matches(s', slots', count', lock', true, calls)
            else Matches(s', slots[count := p], count + 1, lock, false, calls)
  {
  }

  /** What interrupts leave alone. */
  ghost predicate Quiet(s: State, s': State) {
    && s'.pc == s.pc && s'.lock == s.lock && s'.lpackets == s.lpackets && s'.lcount == s.lcount
    && s'.delivered == s.delivered
    && s'.before == s.before && s'.taken == s.taken && s.accepted <= s'.accepted
    && (s.panicked ==> s'.panicked)
    && (s.lock && !s'.panicked ==> s'.packets == s.packets && s'.count == s.count)
  }

  lemma QuietStep(trace: seq<Action>, p: Packet)
    ensures Quiet(Run(trace), Run(trace + [Irq(p)]))
  {
    RunStep(trace, Irq(p));
    hide Run, CopyOk, PassOk, NonEmpty, Pending, Queue;
  }

  lemma QuietTransitive(a: State, b: State, c: State)
    requires Quiet(a, b) && Quiet(b, c)
    ensures Quiet(a, c)
  {
  }

  lemma RunStep(trace: seq<Action>, a: Action)
    ensures Run(trace + [a]) == Step(Run(trace), a)
  {
    assert (trace + [a])[..|trace|] == trace;
  }
}
