// The threaded command list of microui: drawing commands in one array, with jump commands that
// splice it together (fs/user/microui.um).
module Threading {

  /** A drawing command is known here only by what it draws. */
  datatype Command = Jump(dst: int) | Draw(what: int)

  function Step(cmds: seq<Command>, i: nat): int
    requires i < |cmds|
  {
    if cmds[i].Jump? then cmds[i].dst else i + 1
  }

  /** Walking the list from i visits exactly the indices in `visits`, in order, and arrives at j. */
  ghost predicate Trace(cmds: seq<Command>, i: int, visits: seq<nat>, j: int)
    decreases |visits|
  {
    if visits == [] then i == j
    else visits[0] == i && i < |cmds| && Trace(cmds, Step(cmds, i), visits[1..], j)
  }

  /** The drawing commands met on the way. */
  ghost function Drawn(cmds: seq<Command>, visits: seq<nat>): seq<Command> {
    if visits == [] then []
    else (if visits[0] < |cmds| && cmds[visits[0]].Draw? then [cmds[visits[0]]] else []) + Drawn(cmds, visits[1..])
  }

  lemma {:induction false} TraceConcat(cmds: seq<Command>, i: int, a: seq<nat>, j: int, b: seq<nat>, k: int)
    requires Trace(cmds, i, a, j) && Trace(cmds, j, b, k)
    ensures Trace(cmds, i, a + b, k)
    decreases |a|
  {
    if a == [] {
      assert a + b == b;
    } else {
      TraceConcat(cmds, Step(cmds, i), a[1..], j, b, k);
      assert (a + b)[1..] == a[1..] + b;
    }
  }

  lemma {:induction false} DrawnConcat(cmds: seq<Command>, a: seq<nat>, b: seq<nat>)
    ensures Drawn(cmds, a + b) == Drawn(cmds, a) + Drawn(cmds, b)
  {
    if a == [] {
      assert a + b == b;
    } else {
      assert (a + b)[1..] == a[1..] + b;
      DrawnConcat(cmds, a[1..], b);
    }
  }

  /** Changing or adding commands the walk does not visit changes nothing. */
  lemma {:induction false} TraceFrame(cmds: seq<Command>, cmds': seq<Command>, i: int, visits: seq<nat>, j: int)
    requires Trace(cmds, i, visits, j)
    requires forall n | 0 <= n < |visits| ::
      visits[n] < |cmds| ==> visits[n] < |cmds'| && cmds'[visits[n]] == cmds[visits[n]]
    ensures Trace(cmds', i, visits, j)
    ensures Drawn(cmds', visits) == Drawn(cmds, visits)
    decreases |visits|
  {
    if visits != [] {
      assert forall n | 0 <= n < |visits[1..]| :: visits[1..][n] == visits[n+1];
      TraceFrame(cmds, cmds', Step(cmds, i), visits[1..], j);
    }
  }

  /** A root container: its bracketing jumps, the walk through its body, what that walk draws. */
  datatype Root = Root(head: nat, tail: nat, visits: seq<nat>, own: seq<Command>)

  /** Jumps that are yet to be directed somewhere. */
  const LOOSE := Jump(-1)

  /** The walk from behind the head to `end` draws the root's own commands; it meets neither a
      loose jump nor the first command of the list. */
  ghost predicate BodyTo(cmds: seq<Command>, r: Root, end: int) {
    && Trace(cmds, r.head + 1, r.visits, end)
    && Drawn(cmds, r.visits) == r.own
    && forall n | 0 <= n < |r.visits| :: 0 < r.visits[n] < |cmds| && cmds[r.visits[n]] != LOOSE
  }

  /** Every command but the loose jumps and the first one is still in its place. */
  ghost predicate Settled(cmds: seq<Command>, cmds': seq<Command>) {
    |cmds| <= |cmds'| && forall k | 0 < k < |cmds| && cmds[k] != LOOSE :: cmds'[k] == cmds[k]
  }

  lemma BodyFrame(cmds: seq<Command>, cmds': seq<Command>, r: Root, end: int)
    requires BodyTo(cmds, r, end) && Settled(cmds, cmds')
    ensures BodyTo(cmds', r, end)
  {
    TraceFrame(cmds, cmds', r.head + 1, r.visits, end);
  }

  /** A body grows by the command at its end. */
  lemma BodyGrows(cmds: seq<Command>, r: Root, end: nat)
    requires BodyTo(cmds, r, end) && 0 < end < |cmds| && cmds[end] != LOOSE
    ensures BodyTo(cmds, r.(visits := r.visits + [end],
                            own := r.own + if cmds[end].Draw? then [cmds[end]] else []),
                   Step(cmds, end))
  {
    assert [end][1..] == [];
    assert Trace(cmds, end, [end], Step(cmds, end));
    TraceConcat(cmds, r.head + 1, r.visits, end, [end], Step(cmds, end));
    assert Drawn(cmds, [end]) == if cmds[end].Draw? then [cmds[end]] else [];
    DrawnConcat(cmds, r.visits, [end]);
  }

  ghost predicate WalksBody(cmds: seq<Command>, r: Root) {
    r.head < r.tail < |cmds| && BodyTo(cmds, r, r.tail)
  }

  /** Where the walk goes after root m: behind the next root's head, or off the end of the list. */
  ghost function After(cmds: seq<Command>, roots: seq<Root>, m: nat): int
    requires m < |roots|
  {
    if m + 1 < |roots| then roots[m+1].head + 1 else |cmds|
  }

  ghost predicate Threaded(cmds: seq<Command>, roots: seq<Root>) {
    && (forall m | 0 <= m < |roots| :: WalksBody(cmds, roots[m]))
    && (forall m | 0 <= m < |roots| :: cmds[roots[m].tail] == Jump(After(cmds, roots, m)))
  }

  lemma ThreadedRest(cmds: seq<Command>, roots: seq<Root>)
    requires roots != [] && Threaded(cmds, roots)
    ensures Threaded(cmds, roots[1..])
  {
    var rest := roots[1..];
    forall m | 0 <= m < |rest|
      ensures WalksBody(cmds, rest[m]) && cmds[rest[m].tail] == Jump(After(cmds, rest, m))
    {
      assert rest[m] == roots[m+1] && After(cmds, rest, m) == After(cmds, roots, m + 1);
    }
  }

  ghost function AllVisits(roots: seq<Root>): seq<nat> {
    if roots == [] then [] else (roots[0].visits + [roots[0].tail]) + AllVisits(roots[1..])
  }

  ghost function AllOwn(roots: seq<Root>): seq<Command> {
    if roots == [] then [] else roots[0].own + AllOwn(roots[1..])
  }

  /** One root: its body, then the jump in its tail. */
  lemma RootWalk(cmds: seq<Command>, r: Root, next: int)
    requires WalksBody(cmds, r) && cmds[r.tail] == Jump(next)
    ensures Trace(cmds, r.head + 1, r.visits + [r.tail], next)
    ensures Drawn(cmds, r.visits + [r.tail]) == r.own
  {
    assert Trace(cmds, r.tail, [r.tail], next) by {
      assert [r.tail][1..] == [];
    }
    TraceConcat(cmds, r.head + 1, r.visits, r.tail, [r.tail], next);
    assert Drawn(cmds, [r.tail]) == [];
    DrawnConcat(cmds, r.visits, [r.tail]);
  }

  /** Walking a threaded list draws every root's own commands, root after root, and ends. */
  lemma {:induction false} ThreadedWalk(cmds: seq<Command>, roots: seq<Root>)
    requires roots != [] && Threaded(cmds, roots)
    ensures Trace(cmds, roots[0].head + 1, AllVisits(roots), |cmds|)
    ensures Drawn(cmds, AllVisits(roots)) == AllOwn(roots)
  {
    var r, rest := roots[0], roots[1..];
    var next := After(cmds, roots, 0);
    assert WalksBody(cmds, r);
    RootWalk(cmds, r, next);
    if rest == [] {
      assert AllVisits(rest) == [];
    } else {
      ThreadedRest(cmds, roots);
      ThreadedWalk(cmds, rest);
    }
    TraceConcat(cmds, r.head + 1, r.visits + [r.tail], next, AllVisits(rest), |cmds|);
    DrawnConcat(cmds, r.visits + [r.tail], AllVisits(rest));
  }
}
