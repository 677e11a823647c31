// What recording root containers does to the command list, as a state machine of its own. Its
// invariant says that every root's body can be walked, nested roots being stepped over.
module Recording {
  import opened Threading

  /** The list so far, the roots being recorded (outermost first) and the finished ones. */
  datatype Record = Record(cmds: seq<Command>, open: seq<Root>, closed: seq<Root>)

  const EMPTY := Record([], [], [])

  /** beginRootContainer: a head jump. */
  function Opened(s: Record): Record {
    Record(s.cmds + [LOOSE], s.open + [Root(|s.cmds|, 0, [], [])], s.closed)
  }

  /** A drawing command goes to the innermost open root. */
  function Painted(s: Record, what: int): Record
    requires s.open != []
  {
    var top := s.open[|s.open|-1];
    s.(cmds := s.cmds + [Draw(what)],
       open := s.open[|s.open|-1 := top.(visits := top.visits + [|s.cmds|], own := top.own + [Draw(what)])])
  }

  /** Some root is open, and its head is in the list. */
  predicate Closable(s: Record) {
    s.open != [] && s.open[|s.open|-1].head < |s.cmds|
  }

  /** endRootContainer: a tail jump, and the head now jumps over the whole root. A surrounding
      root's walk takes that jump. */
  function Closed(s: Record): Record
    requires Closable(s)
  {
    var top, outer := s.open[|s.open|-1], s.open[..|s.open|-1];
    Record((s.cmds + [LOOSE])[top.head := Jump(|s.cmds| + 1)],
           if outer == [] then []
           else outer[|outer|-1 := outer[|outer|-1].(visits := outer[|outer|-1].visits + [top.head])],
           s.closed + [top.(tail := |s.cmds|)])
  }

  /** How far open root k has been recorded. */
  function EndOf(s: Record, k: nat): int
    requires k < |s.open|
  {
    if k + 1 < |s.open| then s.open[k+1].head else |s.cmds|
  }

  ghost predicate OpenOk(s: Record, k: nat)
    requires k < |s.open|
  {
    && s.open[k].head < EndOf(s, k) <= |s.cmds|
    && s.cmds[s.open[k].head] == LOOSE
    && BodyTo(s.cmds, s.open[k], EndOf(s, k))
  }

  ghost predicate ClosedOk(s: Record, k: nat)
    requires k < |s.closed|
  {
    WalksBody(s.cmds, s.closed[k]) && s.cmds[s.closed[k].tail] == LOOSE
  }

  ghost predicate Ok(s: Record) {
    && (forall k | 0 <= k < |s.open| :: OpenOk(s, k))
    && (forall k | 0 <= k < |s.closed| :: ClosedOk(s, k))
    && (forall m, n | 0 <= m < n < |s.closed| :: s.closed[m].tail != s.closed[n].tail)
    && (forall m, n | 0 <= m < |s.closed| && 0 <= n < |s.open| :: s.closed[m].tail != s.open[n].head)
    && (s.open == [] && s.closed == [] ==> s.cmds == [])
    && (s.cmds != [] ==> s.cmds[0].Jump?)
  }

  lemma {:induction false} HeadsIncrease(s: Record, m: nat, n: nat)
    requires m < n < |s.open| && forall k | 0 <= k < |s.open| :: OpenOk(s, k)
    ensures s.open[m].head < s.open[n].head
    decreases n - m
  {
    assert OpenOk(s, m);
    if m + 1 < n { HeadsIncrease(s, m + 1, n); }
  }

  lemma ClosedStayOk(s: Record, cmds': seq<Command>, k: nat)
    requires k < |s.closed| && ClosedOk(s, k) && Settled(s.cmds, cmds')
    requires cmds'[s.closed[k].tail] == LOOSE
    ensures WalksBody(cmds', s.closed[k]) && cmds'[s.closed[k].tail] == LOOSE
  {
    BodyFrame(s.cmds, cmds', s.closed[k], s.closed[k].tail);
  }

  lemma OpenedOk(s: Record)
    requires Ok(s)
    ensures Ok(Opened(s))
  {
    var t := Opened(s);
    forall k | 0 <= k < |s.closed| ensures ClosedOk(t, k) {
      assert ClosedOk(s, k);
      ClosedStayOk(s, t.cmds, k);
    }
    forall k | 0 <= k < |t.open| ensures OpenOk(t, k) {
      if k < |s.open| {
        assert OpenOk(s, k);
        BodyFrame(s.cmds, t.cmds, s.open[k], EndOf(s, k));
      }
    }
    forall m | 0 <= m < |s.closed| ensures s.closed[m].tail < |s.cmds| { assert ClosedOk(s, m); }
  }

  lemma PaintedOk(s: Record, what: int)
    requires Ok(s) && s.open != []
    ensures Ok(Painted(s, what))
  {
    var t := Painted(s, what);
    assert OpenOk(s, 0);
    forall k | 0 <= k < |s.closed| ensures ClosedOk(t, k) {
      assert ClosedOk(s, k);
      ClosedStayOk(s, t.cmds, k);
    }
    forall k | 0 <= k < |t.open| ensures OpenOk(t, k) {
      assert OpenOk(s, k);
      BodyFrame(s.cmds, t.cmds, s.open[k], EndOf(s, k));
      if k == |s.open| - 1 {
        BodyGrows(t.cmds, s.open[k], |s.cmds|);
      }
    }
  }

  lemma ClosedHere(s: Record)
    requires Ok(s) && s.open != []
    ensures Closable(s)
    ensures Settled(s.cmds, Closed(s).cmds)
  {
    assert OpenOk(s, |s.open| - 1);
  }

  lemma ClosedOuterOk(s: Record, k: nat)
    requires Ok(s) && k + 1 < |s.open|
    ensures Closable(s)
    ensures OpenOk(Closed(s), k)
  {
    ClosedHere(s);
    var t, n := Closed(s), |s.open|;
    assert OpenOk(s, k) && OpenOk(s, n - 1);
    HeadsIncrease(s, k, n - 1);
    BodyFrame(s.cmds, t.cmds, s.open[k], EndOf(s, k));
    if k + 2 == n {
      BodyGrows(t.cmds, s.open[k], s.open[n-1].head);
    } else {
      assert EndOf(t, k) == EndOf(s, k);
    }
  }

  lemma ClosedRootsOk(s: Record, k: nat)
    requires Ok(s) && s.open != [] && k <= |s.closed|
    ensures Closable(s)
    ensures ClosedOk(Closed(s), k)
  {
    ClosedHere(s);
    var t, n := Closed(s), |s.open|;
    if k < |s.closed| {
      assert ClosedOk(s, k);
      ClosedStayOk(s, t.cmds, k);
    } else {
      assert OpenOk(s, n - 1);
      BodyFrame(s.cmds, t.cmds, s.open[n-1], |s.cmds|);
      assert BodyTo(t.cmds, t.closed[k], |s.cmds|);
    }
  }

  lemma ClosingOk(s: Record)
    requires Ok(s) && s.open != []
    ensures Closable(s)
    ensures Ok(Closed(s))
  {
    ClosedHere(s);
    var t, n := Closed(s), |s.open|;
    forall k | 0 <= k < |t.closed| ensures ClosedOk(t, k) { ClosedRootsOk(s, k); }
    forall k | 0 <= k < |t.open| ensures OpenOk(t, k) { ClosedOuterOk(s, k); }
    forall m | 0 <= m < |s.closed| ensures s.closed[m].tail < |s.cmds| { assert ClosedOk(s, m); }
    forall m | 0 <= m < n ensures s.open[m].head < |s.cmds| { assert OpenOk(s, m); }
  }

  // ---------- frames as trees ----------

  /** What happens inside a root container: drawing, and further root containers. */
  datatype Item = Leaf(what: int) | Nested(body: seq<Item>)

  /** The drawing done directly in a container, nested roots left out. */
  function Direct(items: seq<Item>): seq<Command> {
    if items == [] then []
    else (if items[0].Leaf? then [Draw(items[0].what)] else []) + Direct(items[1..])
  }

  /** The direct drawing of every root nested in the items, a root after those nested in it. */
  function Bodies(items: seq<Item>): seq<seq<Command>> {
    if items == [] then []
    else (if items[0].Leaf? then [] else Bodies(items[0].body) + [Direct(items[0].body)]) + Bodies(items[1..])
  }

  function Owns(roots: seq<Root>): (r: seq<seq<Command>>)
    ensures |r| == |roots|
  {
    seq(|roots|, k requires 0 <= k < |roots| => roots[k].own)
  }

  /** Outside all roots nothing is drawn. */
  predicate Playable(s: Record, items: seq<Item>) {
    s.open == [] ==> forall k | 0 <= k < |items| :: items[k].Nested?
  }

  ghost predicate Headed(s: Record) {
    forall k | 0 <= k < |s.open| :: s.open[k].head < |s.cmds|
  }

  /** t continues s: the innermost open root has drawn `own` since, and roots with the bodies
      `finished` have been finished. */
  ghost predicate Continues(s: Record, t: Record, own: seq<Command>, finished: seq<seq<Command>>) {
    && |t.open| == |s.open|
    && (s.open != [] ==>
          && t.open[..|s.open|-1] == s.open[..|s.open|-1]
          && t.open[|s.open|-1].own == s.open[|s.open|-1].own + own)
    && Owns(t.closed) == Owns(s.closed) + finished
  }

  /** Recording a tree of items, as a frame of its own or into the innermost open root. Every root
      is finished with exactly its direct drawing. */
  ghost function Play(s: Record, items: seq<Item>): (r: Record)
    requires Headed(s) && Playable(s, items)
    ensures Headed(r) && Continues(s, r, Direct(items), Bodies(items))
    decreases items
  {
    if items == [] then
      s
    else if items[0].Leaf? then
      var t := Painted(s, items[0].what);
      var r := Play(t, items[1..]);
      ContinuesTransitive(s, t, r, [Draw(items[0].what)], [], Direct(items[1..]), Bodies(items[1..]));
      r
    else
      var inner := Play(Opened(s), items[0].body);
      NestedContinues(s, inner, Direct(items[0].body), Bodies(items[0].body));
      var t := Closed(inner);
      var r := Play(t, items[1..]);
      ContinuesTransitive(s, t, r, [], Bodies(items[0].body) + [Direct(items[0].body)],
                          Direct(items[1..]), Bodies(items[1..]));
      r
  }

  lemma ContinuesTransitive(s: Record, t: Record, r: Record, own: seq<Command>, finished: seq<seq<Command>>,
                            own': seq<Command>, finished': seq<seq<Command>>)
    requires Continues(s, t, own, finished) && Continues(t, r, own', finished')
    ensures Continues(s, r, own + own', finished + finished')
  {
    var n := |s.open|;
    assert n > 0 ==> r.open[n-1].own == s.open[n-1].own + (own + own');
    assert Owns(r.closed) == Owns(s.closed) + (finished + finished');
  }

  /** A nested root, begun, recorded and ended, leaves the surrounding root's drawing alone. */
  lemma NestedContinues(s: Record, inner: Record, own: seq<Command>, finished: seq<seq<Command>>)
    requires Headed(s) && Headed(inner) && Continues(Opened(s), inner, own, finished)
    ensures Headed(Closed(inner)) && Continues(s, Closed(inner), [], finished + [own])
  {
    var t, n := Closed(inner), |s.open|;
    assert inner.open[..n] == Opened(s).open[..n] == s.open;
    assert inner.open[n].own == Opened(s).open[n].own + own == own;
    assert t.closed[|inner.closed|].own == own;
    assert Owns(t.closed) == Owns(inner.closed) + [own];
    assert Owns(t.closed) == Owns(s.closed) + (finished + [own]);
  }

  /** Recording keeps the invariant, so the list of the finished frame can be spliced and walked. */
  lemma {:induction false} PlayOk(s: Record, items: seq<Item>)
    requires Ok(s) && Playable(s, items)
    ensures Headed(s) && Ok(Play(s, items))
    decreases items
  {
    OkHeaded(s);
    if items != [] {
      if items[0].Leaf? {
        PaintedOk(s, items[0].what);
        PlayOk(Painted(s, items[0].what), items[1..]);
      } else {
        OpenedOk(s);
        PlayOk(Opened(s), items[0].body);
        var inner := Play(Opened(s), items[0].body);
        ClosingOk(inner);
        PlayOk(Closed(inner), items[1..]);
      }
    }
  }

  lemma OkHeaded(s: Record)
    requires Ok(s)
    ensures Headed(s)
  {
    forall k | 0 <= k < |s.open| ensures s.open[k].head < |s.cmds| { assert OpenOk(s, k); }
  }

  // ---------- the end of the frame ----------

  lemma ClosedTailsLoose(s: Record)
    requires Ok(s)
    ensures forall r | r in s.closed :: 0 < r.tail < |s.cmds| && s.cmds[r.tail] == LOOSE
    ensures s.closed != [] ==> s.cmds != []
  {
    forall r | r in s.closed ensures 0 < r.tail < |s.cmds| && s.cmds[r.tail] == LOOSE {
      var k :| 0 <= k < |s.closed| && s.closed[k] == r;
      assert ClosedOk(s, k);
    }
    if s.closed != [] { assert ClosedOk(s, 0); }
  }

  /** The roots' tails and the first command have been directed so as to visit the roots in the
      given order; no other command has changed. */
  ghost predicate Spliced(cmds: seq<Command>, cmds': seq<Command>, order: seq<Root>)
    requires order != [] && forall m | 0 <= m < |order| :: order[m].tail < |cmds|
  {
    && |cmds'| == |cmds| > 0
    && Settled(cmds, cmds')
    && cmds'[0] == Jump(order[0].head + 1)
    && forall m | 0 <= m < |order| :: cmds'[order[m].tail] == Jump(After(cmds', order, m))
  }

  /** The walk of a finished frame: it ends, having drawn each root's own commands in order. */
  ghost function FrameVisits(order: seq<Root>): seq<nat> {
    if order == [] then [] else [0] + AllVisits(order)
  }

  lemma SplicedBody(s: Record, cmds': seq<Command>, r: Root)
    requires Ok(s) && r in s.closed && Settled(s.cmds, cmds')
    ensures WalksBody(cmds', r)
  {
    var k :| 0 <= k < |s.closed| && s.closed[k] == r;
    assert ClosedOk(s, k);
    BodyFrame(s.cmds, cmds', r, r.tail);
  }

  lemma SplicedWalk(s: Record, cmds': seq<Command>, order: seq<Root>)
    requires Ok(s) && s.open == [] && |order| == |s.closed|
    requires forall m | 0 <= m < |order| :: order[m] in s.closed && order[m].tail < |s.cmds|
    requires if order == [] then cmds' == s.cmds else Spliced(s.cmds, cmds', order)
    ensures Trace(cmds', 0, FrameVisits(order), |cmds'|)
    ensures Drawn(cmds', FrameVisits(order)) == AllOwn(order)
  {
    if order != [] {
      forall m | 0 <= m < |order| ensures WalksBody(cmds', order[m]) {
        SplicedBody(s, cmds', order[m]);
      }
      ThreadedWalk(cmds', order);
      assert ([0] + AllVisits(order))[1..] == AllVisits(order);
    }
  }
}
