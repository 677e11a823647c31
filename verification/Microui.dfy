// The microui context: root containers recorded into the command list, sorted by z-index and
// spliced together at the end of the frame (fs/user/microui.um).
module Microui {
  import opened Common
  import opened Threading
  import opened Recording
  import opened Permutations

  const ROOTLIST_SIZE := 32
  const CONTAINERSTACK_SIZE := 32

  class Container {
    var head: int
    var tail: int
    var zindex: int

    constructor ()
      ensures head == 0 && tail == 0 && zindex == 0
    {
      head, tail, zindex := 0, 0, 0;
    }
  }

  ghost predicate Filled(a: array<Container?>, lo: int, hi: int)
    requires 0 <= lo && hi <= a.Length
    reads a
  {
    forall k | lo <= k < hi :: a[k] != null
  }

  /** All z-indices in a[lo..hi] lie between two bounds. */
  ghost predicate Between(a: array<Container?>, lo: int, hi: int, lower: int, upper: int)
    requires 0 <= lo && hi <= a.Length
    reads a, set k | lo <= k < hi :: a[k]
  {
    forall k | lo <= k < hi :: a[k] != null && lower <= a[k].zindex <= upper
  }

  ghost predicate Sorted(a: array<Container?>, lo: int, hi: int)
    requires 0 <= lo && hi <= a.Length && Filled(a, lo, hi)
    reads a, set k | lo <= k < hi :: a[k]
  {
    forall m, n | lo <= m < n < hi :: a[m].zindex <= a[n].zindex
  }

  /** The array holds the same containers, moved about between lo and hi only. */
  twostate predicate Shuffled(a: array<Container?>, lo: int, hi: int)
    reads a
  {
    && multiset(a[..]) == multiset(old(a[..]))
    && forall k | 0 <= k < a.Length && !(lo <= k < hi) :: a[k] == old(a[k])
  }

  method Swap(a: array<Container?>, i: int, j: int)
    requires 0 <= i < a.Length && 0 <= j < a.Length
    modifies a
    ensures a[i] == old(a[j]) && a[j] == old(a[i])
    ensures forall k | 0 <= k < a.Length && k != i && k != j :: a[k] == old(a[k])
    ensures multiset(a[..]) == multiset(old(a[..]))
  {
    var t := a[i];
    a[i] := a[j];
    a[j] := t;
  }

  method Partition(a: array<Container?>, lo: int, hi: int, ghost lower: int, ghost upper: int) returns (p: int)
    requires 0 <= lo < hi < a.Length && Between(a, lo, hi + 1, lower, upper)
    modifies a
    ensures lo <= p <= hi && Between(a, lo, hi + 1, lower, upper)
    ensures Between(a, lo, p, lower, a[p].zindex) && Between(a, p + 1, hi + 1, a[p].zindex, upper)
    ensures Shuffled(a, lo, hi + 1)
  {
    var z := a[hi].zindex;
    var i := lo - 1;
    for j := lo to hi
      invariant lo - 1 <= i < j
      invariant a[hi] == old(a[hi])
      invariant Between(a, lo, i + 1, lower, z)
      invariant Between(a, i + 1, hi + 1, lower, upper)
      invariant Between(a, i + 1, j, z, upper)
      invariant Shuffled(a, lo, hi + 1)
    {
      if a[j].zindex < z {
        i := i + 1;
        Swap(a, i, j);
      }
    }
    Swap(a, i + 1, hi);
    p := i + 1;
  }

  method QSort(a: array<Container?>, lo: int, hi: int, ghost lower: int, ghost upper: int)
    requires 0 <= lo <= hi + 1 <= a.Length && Between(a, lo, hi + 1, lower, upper)
    modifies a
    ensures Between(a, lo, hi + 1, lower, upper) && Sorted(a, lo, hi + 1)
    ensures Shuffled(a, lo, hi + 1)
    decreases hi - lo + 1
  {
    if lo < hi {
      var p := Partition(a, lo, hi, lower, upper);
      var pivot := a[p];
      QSort(a, lo, p - 1, lower, pivot.zindex);
      QSort(a, p + 1, hi, pivot.zindex, upper);
      JoinSorted(a, lo, p, hi + 1, lower, upper);
    }
  }

  lemma JoinSorted(a: array<Container?>, lo: int, p: int, hi: int, lower: int, upper: int)
    requires 0 <= lo <= p < hi <= a.Length && a[p] != null && lower <= a[p].zindex <= upper
    requires Between(a, lo, p, lower, a[p].zindex) && Sorted(a, lo, p)
    requires Between(a, p + 1, hi, a[p].zindex, upper) && Sorted(a, p + 1, hi)
    ensures Between(a, lo, hi, lower, upper) && Sorted(a, lo, hi)
  {
  }

  class Context {
    var commandList: seq<Command>
    const rootItems: array<Container?>
    var rootCount: nat
    var containerStack: seq<Container>
    var lastZIndex: int
    var nextHoverRoot: Container?
    ghost var record: Record               // what has been recorded this frame
    ghost var finished: seq<Container>     // the containers of record.closed
    ghost var rootOf: map<Container, Root> // what each finished container recorded
    ghost var known: set<Container>        // the containers that were ever brought to the front
    ghost var underMouse: set<Container>   // this frame's roots under the mouse

    constructor ()
      ensures Valid() && Layered() && fresh(rootItems) && record == EMPTY && rootCount == 0
      ensures lastZIndex == 0 && known == {} && containerStack == [] && rootItems.Length == 32
    {
      commandList, containerStack := [], [];
      rootItems := new Container?[ROOTLIST_SIZE](_ => null);
      rootCount, lastZIndex, nextHoverRoot := 0, 0, null;
      record, finished, rootOf := EMPTY, [], map[];
      known, underMouse := {}, {};
    }

    /** The root containers begun this frame, in the order of their slots. */
    ghost function Roots(): seq<Container?>
      requires rootCount <= rootItems.Length
      reads this`rootCount, rootItems
    {
      rootItems[..rootCount]
    }

    /** The context has recorded `record`, the open roots being those of the given stack. */
    ghost predicate Tied(stack: seq<Container>)
      reads this`commandList, this`record, this`finished, this`rootOf, stack, finished
    {
      && commandList == record.cmds
      && |stack| == |record.open| && |finished| == |record.closed|
      && (forall k | 0 <= k < |stack| :: stack[k].head == record.open[k].head)
      && (forall k | 0 <= k < |finished| ::
            && finished[k].head == record.closed[k].head && finished[k].tail == record.closed[k].tail
            && finished[k] in rootOf && rootOf[finished[k]] == record.closed[k])
      && Ok(record)
    }

    /** The root list holds the open and the finished containers, each once. */
    ghost predicate Accounted()
      reads this`rootCount, this`containerStack, this`finished, rootItems
    {
      && rootItems.Length == ROOTLIST_SIZE && rootCount == |containerStack| + |finished| <= ROOTLIST_SIZE
      && (forall k | 0 <= k < rootCount :: rootItems[k] in containerStack || rootItems[k] in finished)
      && (forall k | 0 <= k < |containerStack| :: containerStack[k] in Roots())
      && (forall k | 0 <= k < |finished| :: finished[k] in Roots())
      && (forall m, n | 0 <= m < n < rootCount :: rootItems[m] != rootItems[n])
      && (forall m, n | 0 <= m < n < |containerStack| :: containerStack[m] != containerStack[n])
      && (forall m, n | 0 <= m < n < |finished| :: finished[m] != finished[n])
      && (forall m, n | 0 <= m < |containerStack| && 0 <= n < |finished| :: containerStack[m] != finished[n])
    }

    ghost predicate Valid()
      reads this, rootItems, containerStack, finished
    {
      Accounted() && Tied(containerStack)
    }

    /** Every container has a z-index of its own, none above the last one given out. */
    ghost predicate Stacked()
      reads this`known, this`lastZIndex, known`zindex
    {
      && lastZIndex >= 0 && (forall c | c in known :: 0 < c.zindex <= lastZIndex)
      && (forall c, d | c in known && d in known && c != d :: c.zindex != d.zindex)
    }

    /** The hovered root is the topmost of those under the mouse. */
    ghost predicate Topmost()
      reads this`known, this`underMouse, this`nextHoverRoot, known`zindex
    {
      && underMouse <= known && (nextHoverRoot == null <==> underMouse == {})
      && (nextHoverRoot != null ==> nextHoverRoot in underMouse)
      && (forall c | c in underMouse :: c.zindex <= nextHoverRoot.zindex)
    }

    /** The roots are known, and those under the mouse are roots. */
    ghost predicate Placing()
      reads this`known, this`underMouse, this`rootCount, rootItems
    {
      && rootCount <= rootItems.Length
      && (forall c | c in Roots() :: c in known)
      && (forall c | c in underMouse :: c in Roots())
    }

    ghost predicate Layered()
      reads this`known, this`lastZIndex, this`underMouse, this`nextHoverRoot, this`rootCount, rootItems, known`zindex
    {
      Stacked() && Topmost() && Placing()
    }

    /** Start of a frame. */
    method Begin()
      requires rootItems.Length == ROOTLIST_SIZE && containerStack == [] && Stacked()
      modifies this`commandList, this`rootCount, this`nextHoverRoot
      modifies this`record, this`finished, this`rootOf, this`underMouse
      ensures Valid() && Layered() && record == EMPTY && rootCount == 0 && nextHoverRoot == null && finished == []
      ensures containerStack == [] && lastZIndex == old(lastZIndex) && known == old(known) && underMouse == {}
    {
      hide Stacked, Topmost, Placing, Accounted, Tied;
      commandList := [];
      rootCount := 0;
      nextHoverRoot := null;
      record, finished, rootOf := EMPTY, [], map[];
      underMouse := {};
      NothingRecorded();
    }

    /** The conditions on what was recorded hold when there is nothing yet. */
    lemma NothingRecorded()
      requires rootItems.Length == ROOTLIST_SIZE && commandList == [] && containerStack == [] && rootCount == 0
      requires record == EMPTY && finished == [] && underMouse == {} && nextHoverRoot == null
      ensures Accounted() && Tied(containerStack) && Topmost() && Placing()
    {
    }

    /** Put a container above all others. */
    method BringToFront(cnt: Container)
      requires Stacked()
      modifies this`lastZIndex, this`known, cnt`zindex
      ensures Stacked() && known == old(known) + {cnt} && lastZIndex == old(lastZIndex) + 1
      ensures forall c | c in known && c != cnt :: c.zindex == old(c.zindex) < cnt.zindex
      ensures old(Layered()) && cnt !in underMouse ==> Layered()
    {
      lastZIndex := lastZIndex + 1;
      cnt.zindex := lastZIndex;
      known := known + {cnt};
    }

    method PushJump(dst: int) returns (i: nat)
      modifies this`commandList
      ensures i == old(|commandList|) && commandList == old(commandList) + [Jump(dst)]
    {
      i := |commandList|;
      commandList := commandList + [Jump(dst)];
    }

    /** Push a container on the container stack and on the root list; the code asserts that both
        have room. */
    method PushBoth(cnt: Container)
      requires Accounted() && cnt !in Roots()
      requires |containerStack| < CONTAINERSTACK_SIZE && rootCount < ROOTLIST_SIZE
      modifies this`containerStack, this`rootCount, rootItems
      ensures Accounted()
      ensures containerStack == old(containerStack) + [cnt] && Roots() == old(Roots()) + [cnt]
      ensures containerStack[..|containerStack|-1] == old(containerStack)
      ensures cnt !in old(containerStack) && cnt !in finished
    {
      containerStack := containerStack + [cnt];
      rootItems[rootCount] := cnt;
      rootCount := rootCount + 1;
      assert Roots() == old(Roots()) + [cnt];
    }

    /** Leave the head jump of a container just pushed, and note it if it is the topmost under the
        mouse so far. */
    method PushHead(cnt: Container, under: bool)
      requires containerStack != [] && GetCurrentContainer() == cnt
      requires Tied(containerStack[..|containerStack|-1])
      requires cnt !in containerStack[..|containerStack|-1] && cnt !in finished
      modifies this`commandList, this`record, this`nextHoverRoot, cnt`head
      ensures Tied(containerStack) && record == Opened(old(record))
      ensures commandList == old(commandList) + [Jump(-1)] && cnt.head == |old(commandList)|
      ensures nextHoverRoot == if under && (old(nextHoverRoot) == null || cnt.zindex > old(nextHoverRoot).zindex)
                               then cnt else old(nextHoverRoot)
    {
      var head := PushJump(-1);
      cnt.head := head;
      if under && (nextHoverRoot == null || cnt.zindex > nextHoverRoot.zindex) {
        nextHoverRoot := cnt;
      }
      OpenedOk(record);
      record := Opened(record);
    }

    /** `under` is the outcome of the test of the mouse position against the container's rectangle. */
    method BeginRootContainer(cnt: Container, under: bool)
      requires Valid() && Layered() && cnt in known && cnt !in Roots()
      requires |containerStack| < CONTAINERSTACK_SIZE && rootCount < ROOTLIST_SIZE
      modifies this, rootItems, cnt`head
      ensures Valid() && Layered() && record == Opened(old(record))
      ensures commandList == old(commandList) + [Jump(-1)] && cnt.head == |old(commandList)|
      ensures containerStack == old(containerStack) + [cnt] && Roots() == old(Roots()) + [cnt]
      ensures underMouse == old(underMouse) + if under then {cnt} else {}
      ensures lastZIndex == old(lastZIndex) && known == old(known)
      ensures finished == old(finished) && rootOf == old(rootOf)
    {
      hide Ok, Opened, Stacked, Accounted, Tied, Roots;
      PushBoth(cnt);
      PushHead(cnt, under);
      underMouse := underMouse + if under then {cnt} else {};
    }

    /** Any drawing call. It needs an open container, whose clip rectangle it consults. */
    method Paint(what: int)
      requires Valid() && containerStack != []
      modifies this`commandList, this`record
      ensures Valid() && record == Painted(old(record), what)
      ensures commandList == old(commandList) + [Draw(what)]
      ensures containerStack == old(containerStack) && Roots() == old(Roots())
    {
      hide Ok, Accounted;
      commandList := commandList + [Draw(what)];
      PaintedOk(record, what);
      record := Painted(record, what);
    }

    function GetCurrentContainer(): Container
      requires containerStack != []
      reads this
    {
      containerStack[|containerStack|-1]
    }

    /** Leave the tail jump of the innermost root and direct its head over it. */
    method PushTail(cnt: Container)
      requires containerStack != [] && GetCurrentContainer() == cnt
      requires Tied(containerStack) && cnt !in containerStack[..|containerStack|-1] && cnt !in finished
      modifies this`commandList, this`record, this`finished, this`rootOf, cnt`tail
      ensures finished == old(finished) + [cnt]
      ensures Closable(old(record))
      ensures record == Closed(old(record))
      ensures cnt.head < |old(commandList)| == cnt.tail
      ensures commandList == (old(commandList) + [Jump(-1)])[cnt.head := Jump(|old(commandList)| + 1)]
      ensures Tied(containerStack[..|containerStack|-1])
    {
      hide Ok;
      ClosingOk(record);
      var tail := PushJump(-1);
      cnt.tail := tail;
      commandList := commandList[cnt.head := Jump(|commandList|)];
      record := Closed(record);
      finished := finished + [cnt];
      rootOf := rootOf[cnt := record.closed[|record.closed|-1]];
    }

    method EndRootContainer()
      requires Valid() && containerStack != []
      modifies this`commandList, this`record, this`finished, this`rootOf, this`containerStack
      modifies GetCurrentContainer()`tail
      ensures Valid() && Roots() == old(Roots()) && finished == old(finished) + [old(GetCurrentContainer())]
      ensures Closable(old(record))
      ensures record == Closed(old(record))
      ensures var cnt := old(GetCurrentContainer());
              && cnt.head < |old(commandList)| == cnt.tail
              && commandList == (old(commandList) + [Jump(-1)])[cnt.head := Jump(|old(commandList)| + 1)]
      ensures containerStack == old(containerStack)[..|old(containerStack)|-1]
    {
      hide Ok, Closed;
      var cnt := GetCurrentContainer();
      PushTail(cnt);
      containerStack := containerStack[..|containerStack|-1];
      assert old(containerStack) == containerStack + [cnt];
    }

    // ---------- the end of the frame ----------

    /** The containers in `order` are finished roots of this frame, each once. */
    ghost predicate Ordered(order: seq<Container>)
      reads this`record, this`rootOf, order
    {
      && |order| == |record.closed|
      && (forall k | 0 <= k < |order| ::
            && order[k] in rootOf && rootOf[order[k]] in record.closed
            && order[k].head == rootOf[order[k]].head && order[k].tail == rootOf[order[k]].tail)
    }

    /** The containers in the root list lie where the given roots were recorded. */
    ghost predicate Placed(roots: seq<Root>)
      reads this`rootCount, rootItems, set k | 0 <= k < rootItems.Length :: rootItems[k]
    {
      && rootCount == |roots| <= rootItems.Length
      && forall k | 0 <= k < rootCount ::
           rootItems[k] != null && rootItems[k].head == roots[k].head && rootItems[k].tail == roots[k].tail
    }

    /** Direct each root's tail behind the head of the next root in z-order. The code asserts that
        the commands it redirects are jumps. */
    method Splice(ghost roots: seq<Root>)
      requires Placed(roots)
      requires forall k | 0 <= k < |roots| :: 0 < roots[k].tail < |commandList| && commandList[roots[k].tail] == LOOSE
      requires forall m, n | 0 <= m < n < |roots| :: roots[m].tail != roots[n].tail
      requires roots != [] ==> commandList != [] && commandList[0].Jump?
      modifies this`commandList
      ensures if roots == [] then commandList == old(commandList) else Spliced(old(commandList), commandList, roots)
    {
      var n := rootCount;
      for i := 0 to n
        invariant |commandList| == |old(commandList)| && Settled(old(commandList), commandList)
        invariant roots != [] ==> commandList != [] && commandList[0].Jump?
        invariant i == 0 ==> commandList == old(commandList)
        invariant i > 0 ==> commandList[0] == Jump(roots[0].head + 1)
        invariant forall m | 0 <= m < i - 1 :: commandList[roots[m].tail] == Jump(roots[m+1].head + 1)
        invariant forall m | Max(i - 1, 0) <= m < n && !(i == n && m == n - 1) :: commandList[roots[m].tail] == LOOSE
        invariant 0 < i == n ==> commandList[roots[n-1].tail] == Jump(|commandList|)
      {
        var cnt := rootItems[i];
        if i == 0 {
          assert commandList[0].Jump?;
          commandList := commandList[0 := Jump(cnt.head + 1)];
        } else {
          var prev := rootItems[i-1];
          assert prev.tail == roots[i-1].tail;
          assert commandList[prev.tail].Jump?;
          commandList := commandList[prev.tail := Jump(cnt.head + 1)];
        }
        if i == n - 1 {
          assert commandList[cnt.tail].Jump?;
          commandList := commandList[cnt.tail := Jump(|commandList|)];
        }
      }
    }

    /** Bounds on the z-indices, for the sort's contract. */
    lemma ZBounds(n: nat) returns (lower: int, upper: int)
      requires n <= rootItems.Length && Filled(rootItems, 0, n)
      ensures Between(rootItems, 0, n, lower, upper)
    {
      lower, upper := 0, 0;
      for k := 0 to n
        invariant Between(rootItems, 0, k, lower, upper)
      {
        lower := if rootItems[k].zindex < lower then rootItems[k].zindex else lower;
        upper := Max(upper, rootItems[k].zindex);
      }
    }

    /** Sort the root list by z-index. */
    method SortRoots() returns (ghost order: seq<Container>)
      requires rootCount <= rootItems.Length && Filled(rootItems, 0, rootCount) && Distinct(Roots())
      modifies rootItems
      ensures order == Roots() && Distinct(order) && multiset(order) == multiset(old(Roots()))
      ensures forall m, n | 0 <= m < n < |order| :: order[m].zindex <= order[n].zindex
    {
      ghost var lower, upper := ZBounds(rootCount);
      QSort(rootItems, 0, rootCount - 1, lower, upper);
      RearrangedPrefix(old(rootItems[..]), rootItems[..], rootCount);
      assert old(rootItems[..])[..rootCount] == old(Roots()) && rootItems[..][..rootCount] == Roots();
      RearrangedDistinct(old(Roots()), Roots());
      order := Roots();
    }

    ghost function Hovered(): set<Container>
      reads this`nextHoverRoot
    {
      if nextHoverRoot == null then {} else {nextHoverRoot}
    }

    ghost predicate Raises(mousePressed: bool)
      reads this`nextHoverRoot, this`lastZIndex, Hovered()
    {
      mousePressed && nextHoverRoot != null && 0 <= nextHoverRoot.zindex < lastZIndex
    }

    /** A click leaves the hovered root above all other containers. */
    method RaiseHovered(mousePressed: bool)
      requires Valid() && Layered()
      modifies this`lastZIndex, this`known, Hovered()`zindex
      ensures Valid() && Layered() && known == old(known)
      ensures forall c | c in known && !(old(Raises(mousePressed)) && c == nextHoverRoot) :: c.zindex == old(c.zindex)
      ensures mousePressed && nextHoverRoot != null ==>
                nextHoverRoot in known && forall c | c in known && c != nextHoverRoot :: c.zindex < nextHoverRoot.zindex
      ensures !old(Raises(mousePressed)) ==> lastZIndex == old(lastZIndex)
    {
      if mousePressed && nextHoverRoot != null && nextHoverRoot.zindex < lastZIndex && nextHoverRoot.zindex >= 0 {
        BringToFront(nextHoverRoot);
      }
    }

    /** A rearrangement of the finished containers can be spliced. */
    lemma RearrangedOrdered(roots: seq<Container>, order: seq<Container>)
      requires Tied([]) && |roots| == |finished| && Distinct(roots) && Distinct(finished)
      requires (forall k | 0 <= k < |roots| :: roots[k] in finished) && multiset(order) == multiset(roots)
      ensures Ordered(order) && Distinct(order) && forall k | 0 <= k < |order| :: order[k] in finished
    {
      SameLength(order, roots);
      RearrangedDistinct(roots, order);
      forall k | 0 <= k < |order| ensures order[k] in finished {
        assert order[k] in multiset(order);
        assert order[k] in roots;
      }
    }

    /** The tails of what the containers recorded are loose jumps, each its own. */
    lemma OrderedTails(order: seq<Container>)
      requires Tied([]) && Ordered(order) && Distinct(order)
      requires forall k | 0 <= k < |order| :: order[k] in finished
      ensures var roots := RootsOf(rootOf, order);
              && (forall k | 0 <= k < |roots| ::
                    0 < roots[k].tail < |commandList| && commandList[roots[k].tail] == LOOSE)
              && (forall m, n | 0 <= m < n < |roots| :: roots[m].tail != roots[n].tail)
              && (roots != [] ==> commandList != [] && commandList[0].Jump?)
    {
      ClosedTailsLoose(record);
      var roots := RootsOf(rootOf, order);
      forall m, n | 0 <= m < n < |roots| ensures roots[m].tail != roots[n].tail {
        var i :| 0 <= i < |finished| && finished[i] == order[m];
        var j :| 0 <= j < |finished| && finished[j] == order[n];
        assert i != j;
      }
    }

    /** Walking the list from its start draws the given roots' own commands, root after root, and
        then ends. */
    ghost predicate Renders(order: seq<Container>)
      reads this`commandList, this`rootOf
    {
      && (forall k | 0 <= k < |order| :: order[k] in rootOf)
      && var roots := RootsOf(rootOf, order);
         && Trace(commandList, 0, FrameVisits(roots), |commandList|)
         && Drawn(commandList, FrameVisits(roots)) == AllOwn(roots)
    }

    /** Sort the finished roots by their z-indices. */
    method SortFinished() returns (ghost order: seq<Container>)
      requires Valid() && Layered() && containerStack == []
      modifies rootItems
      ensures multiset(order) == multiset(old(Roots())) && rootCount <= rootItems.Length && order == Roots()
      ensures Tied([]) && Ordered(order) && Distinct(order) && forall k | 0 <= k < |order| :: order[k] in finished
      ensures Layered() && Ascending(order)
    {
      hide Ok, Ordered, Tied, Accounted, Stacked, Topmost;
      ghost var roots := FinishedRoots();
      order := SortRoots();
      RearrangedOrdered(roots, order);
      SameMembers(roots, order);
      StrictlyAscending(order);
    }

    /** With all containers ended, the roots are the finished containers. */
    lemma FinishedRoots() returns (roots: seq<Container>)
      requires Valid() && containerStack == [] && Placing()
      ensures roots == Roots() && Distinct(roots) && Distinct(finished) && |roots| == |finished|
      ensures Tied([]) && Filled(rootItems, 0, rootCount) && Distinct(Roots())
      ensures (forall k | 0 <= k < |roots| :: roots[k] in finished)
      ensures (forall c | c in roots :: c in known) && (forall c | c in underMouse :: c in roots)
    {
      hide Ok, Tied;
      roots := Roots();
    }

    /** As the z-indices differ, the order is strict. */
    lemma StrictlyAscending(order: seq<Container>)
      requires Stacked() && Distinct(order) && forall c | c in order :: c in known
      requires forall m, n | 0 <= m < n < |order| :: order[m].zindex <= order[n].zindex
      ensures Ascending(order)
    {
    }

    lemma TopmostIsLast(order: seq<Container>, top: Container)
      requires Ascending(order) && top in order
      requires forall c | c in order && c != top :: c.zindex < top.zindex
      ensures order[|order|-1] == top
    {
      var k :| 0 <= k < |order| && order[k] == top;
      if k < |order| - 1 { assert order[k].zindex < order[|order|-1].zindex; }
    }

    /** In strictly ascending order of z-index. */
    ghost predicate Ascending(order: seq<Container>)
      reads order
    {
      forall m, n | 0 <= m < n < |order| :: order[m].zindex < order[n].zindex
    }

    /** Splice the finished roots and say what walking the list now does. */
    method SpliceFinished(ghost order: seq<Container>)
      requires rootCount <= rootItems.Length && order == Roots()
      requires Tied([]) && Ordered(order) && Distinct(order) && forall k | 0 <= k < |order| :: order[k] in finished
      modifies this`commandList
      ensures Renders(order)
    {
      ghost var roots := RootsOf(rootOf, order);
      OrderedTails(order);
      assert Placed(roots) by {
        assert forall k | 0 <= k < rootCount :: rootItems[k] == order[k];
      }
      Splice(roots);
      SplicedWalk(record, commandList, roots);
    }

    /** The end of a frame. The finished list, walked from its start, draws every root's own
        commands, the roots in ascending order of z-index, and then ends. A click puts the hovered
        root last; the z-indices of all other containers stay. */
    method End(mousePressed: bool) returns (ghost order: seq<Container>)
      requires Valid() && Layered() && containerStack == []
      modifies this`commandList, this`lastZIndex, this`known, rootItems, Hovered()`zindex
      ensures multiset(order) == multiset(old(Roots())) && Ascending(order)
      ensures rootOf == old(rootOf) && Renders(order)
      ensures Layered() && known == old(known)
      ensures forall c | c in known && !(old(Raises(mousePressed)) && c == nextHoverRoot) :: c.zindex == old(c.zindex)
      ensures mousePressed && nextHoverRoot != null ==> order != [] && order[|order|-1] == nextHoverRoot
    {
      hide Renders, Ordered, Raises, Ascending, Ok, Accounted, Tied, Stacked;
      RaiseHovered(mousePressed);
      order := SortFinished();
      if mousePressed && nextHoverRoot != null { TopmostIsLast(order, nextHoverRoot); }
      SpliceFinished(order);
    }

    // ---------- reading the list ----------

    /** The next drawing command at or after idx. `visits` is the walk that lies ahead; it is what
        makes the loop end, as the jumps go backwards as well as forwards. */
    method NextCommand(idx: nat, ghost visits: seq<nat>)
      returns (cmd: Option<Command>, next: int, ghost ahead: seq<nat>)
      requires Trace(commandList, idx, visits, |commandList|)
      ensures if Drawn(commandList, visits) == [] then cmd == None
              else cmd == Some(Drawn(commandList, visits)[0])
      ensures cmd.Some? ==> next >= 0 && |ahead| < |visits|
      ensures cmd.Some? ==> Trace(commandList, next, ahead, |commandList|)
      ensures cmd.Some? ==> Drawn(commandList, ahead) == Drawn(commandList, visits)[1..]
    {
      var i: int := idx;
      ahead := visits;
      while i < |commandList|
        invariant i >= 0 && |ahead| <= |visits|
        invariant Trace(commandList, i, ahead, |commandList|)
        invariant Drawn(commandList, ahead) == Drawn(commandList, visits)
        decreases |ahead|
      {
        var c := commandList[i];
        ahead := ahead[1..];
        if c.Draw? {
          return Some(c), i + 1, ahead;
        }
        i := c.dst;
      }
      return None, i, [];
    }

    /** The loop of the desktop over a finished frame: it draws exactly the roots' own commands, in
        z-order. */
    method DrawFrame(ghost order: seq<Container>) returns (out: seq<Command>)
      requires Renders(order)
      ensures out == AllOwn(RootsOf(rootOf, order))
    {
      hide FrameVisits, AllOwn, RootsOf, Trace, Drawn;
      ghost var visits := FrameVisits(RootsOf(rootOf, order));
      ghost var all := Drawn(commandList, visits);
      out := [];
      var cmd, idx, ahead := NextCommand(0, visits);
      while cmd.Some?
        invariant cmd.Some? ==> idx >= 0 && Trace(commandList, idx, ahead, |commandList|)
        invariant out + (if cmd.Some? then [cmd.value] + Drawn(commandList, ahead) else []) == all
        decreases cmd.Some?, |ahead|
      {
        out := out + [cmd.value];
        cmd, idx, ahead := NextCommand(idx, ahead);
      }
    }
  }

  // The roots recorded by a list of containers.
  ghost function RootsOf(rootOf: map<Container, Root>, order: seq<Container>): (r: seq<Root>)
    requires forall k | 0 <= k < |order| :: order[k] in rootOf
    ensures |r| == |order| && forall k | 0 <= k < |order| :: r[k] == rootOf[order[k]]
  {
    seq(|order|, k requires 0 <= k < |order| => rootOf[order[k]])
  }
}
