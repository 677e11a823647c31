// Whole frames of the user interface: a tree of windows played through the microui context draws,
// window by window in z-order, what each window draws itself (fs/user/microui.um).
module Frames {
  import opened Threading
  import opened Recording
  import opened Permutations
  import opened Microui

  /** A drawing call, or a window with what goes on between its begin and its end. `under` says
      that the mouse is over the window's rectangle. */
  datatype Widget = Shape(what: int) | Window(cnt: Container, under: bool, body: seq<Widget>)

  /** The same tree without the containers. */
  function Items(ws: seq<Widget>): (r: seq<Item>)
    ensures |r| == |ws| && forall k | 0 <= k < |ws| :: r[k].Nested? == ws[k].Window?
  {
    if ws == [] then []
    else [match ws[0] case Shape(what) => Leaf(what) case Window(_, _, body) => Nested(Items(body))] + Items(ws[1..])
  }

  /** The containers in the order in which they are ended. */
  function Closing(ws: seq<Widget>): seq<Container> {
    if ws == [] then []
    else (match ws[0] case Shape(_) => [] case Window(cnt, _, body) => Closing(body) + [cnt]) + Closing(ws[1..])
  }

  /** The containers under the mouse. */
  function Pointed(ws: seq<Widget>): set<Container> {
    if ws == [] then {}
    else (match ws[0]
          case Shape(_) => {}
          case Window(cnt, under, body) => (if under then {cnt} else {}) + Pointed(body)) + Pointed(ws[1..])
  }

  /** How deeply the windows are nested. */
  function Depth(ws: seq<Widget>): nat {
    if ws == [] then 0
    else
      var rest := Depth(ws[1..]);
      var first := match ws[0] case Shape(_) => 0 case Window(_, _, body) => 1 + Depth(body);
      if first < rest then rest else first
  }

  /** The depth is at most d if the windows' own depths are below d. */
  lemma {:induction false} DepthExactly(ws: seq<Widget>, d: nat)
    ensures Depth(ws) <= d <==> forall k | 0 <= k < |ws| && ws[k].Window? :: Depth(ws[k].body) < d
  {
    if ws != [] {
      DepthExactly(ws[1..], d);
      assert forall k | 0 < k < |ws| :: ws[k] == ws[1..][k-1];
    }
  }

  /** What a container of the tree draws itself. */
  function Own(ws: seq<Widget>, c: Container): seq<Command> {
    if ws == [] then []
    else
      match ws[0]
      case Shape(_) => Own(ws[1..], c)
      case Window(cnt, _, body) =>
        if c == cnt then Direct(Items(body))
        else if c in Closing(body) then Own(body, c)
        else Own(ws[1..], c)
  }

  /** What the containers draw themselves, one container after another. */
  function InOrder(ws: seq<Widget>, order: seq<Container>): seq<Command> {
    if order == [] then [] else Own(ws, order[0]) + InOrder(ws, order[1..])
  }

  /** Whatever is drawn for a container stands between what is drawn for those before and behind it. */
  lemma {:induction false} InOrderParts(ws: seq<Widget>, before: seq<Container>, c: Container, behind: seq<Container>)
    ensures InOrder(ws, before + [c] + behind) == InOrder(ws, before) + Own(ws, c) + InOrder(ws, behind)
  {
    var order := before + [c] + behind;
    if before != [] {
      assert order[1..] == before[1..] + [c] + behind;
      InOrderParts(ws, before[1..], c, behind);
    }
  }

  // ---------- what the windows of a tree are ----------

  /** The containers that are ended are those of the windows and of the windows in them. */
  lemma {:induction false} ClosingExactly(ws: seq<Widget>, c: Container)
    ensures c in Closing(ws) <==>
              exists k | 0 <= k < |ws| && ws[k].Window? :: c == ws[k].cnt || c in Closing(ws[k].body)
  {
    if ws != [] {
      var rest := ws[1..];
      ClosingExactly(rest, c);
      assert forall k | 0 <= k < |rest| :: rest[k] == ws[k+1];
      if k :| 0 <= k < |ws| && ws[k].Window? && (c == ws[k].cnt || c in Closing(ws[k].body)) {
        if k > 0 { assert rest[k-1] == ws[k]; }
      }
    }
  }

  /** The window of a tree that a container belongs to, if it is not inside another one. */
  lemma {:induction false} OwnWindow(ws: seq<Widget>, k: nat)
    requires Distinct(Closing(ws)) && k < |ws| && ws[k].Window?
    ensures Own(ws, ws[k].cnt) == Direct(Items(ws[k].body))
    ensures ws[k].cnt in Pointed(ws) <==> ws[k].under
    ensures forall c | c in Closing(ws[k].body) ::
              Own(ws, c) == Own(ws[k].body, c) && (c in Pointed(ws) <==> c in Pointed(ws[k].body))
  {
    hide Distinct, Items, Direct;
    var rest := ws[1..];
    if ws[0].Shape? {
      assert Closing(ws) == Closing(rest);
      OwnWindow(rest, k - 1);
    } else {
      var inner, cnt := Closing(ws[0].body), ws[0].cnt;
      assert Closing(ws) == inner + [cnt] + Closing(rest);
      DistinctParts(inner + [cnt], Closing(rest));
      DistinctParts(inner, [cnt]);
      assert cnt in [cnt] && cnt in inner + [cnt];
      PointedEnded(ws[0].body);
      PointedEnded(rest);
      if k > 0 {
        OwnWindow(rest, k - 1);
        ClosingExactly(rest, ws[k].cnt);
        assert rest[k-1] == ws[k];
        forall c | c in Closing(ws[k].body) ensures c in Closing(rest) { ClosingExactly(rest, c); }
        forall c | c in Closing(rest) ensures c !in inner && c != cnt { assert c !in inner + [cnt]; }
      }
    }
  }

  lemma {:induction false} PointedEnded(ws: seq<Widget>)
    ensures forall c | c in Pointed(ws) :: c in Closing(ws)
  {
    if ws != [] {
      PointedEnded(ws[1..]);
      if ws[0].Window? { PointedEnded(ws[0].body); }
    }
  }

  /** What a window draws itself: a command for each of its shapes, in order. */
  lemma OwnShapes(ws: seq<Widget>, k: nat, m: nat)
    requires Distinct(Closing(ws)) && k < |ws| && ws[k].Window? && m <= |ws[k].body|
    ensures var body, own := ws[k].body, Own(ws, ws[k].cnt);
            var before := |set n | 0 <= n < m && body[n].Shape?|;
            && before <= |own|
            && (m == |body| ==> before == |own|)
            && (m < |body| && body[m].Shape? ==> before < |own| && own[before] == Draw(body[m].what))
  {
    hide Direct, Items, Own, Closing, Distinct;
    OwnWindow(ws, k);
    var body := ws[k].body;
    DirectCounts(body, m);
    DirectPrefix(body, m);
    if m < |body| {
      DirectPrefix(body, m + 1);
      DirectLast(body, m + 1);
    }
    assert body[..|body|] == body;
  }

  /** One widget more. */
  lemma DirectLast(body: seq<Widget>, m: nat)
    requires 0 < m <= |body|
    ensures Direct(Items(body[..m])) ==
            Direct(Items(body[..m-1])) + if body[m-1].Shape? then [Draw(body[m-1].what)] else []
  {
    var w := body[m-1];
    assert body[..m] == body[..m-1] + [w];
    DirectParts(body[..m-1], [w]);
    assert [w][1..] == [];
    assert Direct(Items([w])) == if w.Shape? then [Draw(w.what)] else [];
  }

  lemma ShapesBefore(body: seq<Widget>, m: nat)
    requires 0 < m <= |body|
    ensures |set n | 0 <= n < m && body[n].Shape?| ==
              |set n | 0 <= n < m - 1 && body[n].Shape?| + if body[m-1].Shape? then 1 else 0
  {
    var shapes := set n | 0 <= n < m && body[n].Shape?;
    var before := set n | 0 <= n < m - 1 && body[n].Shape?;
    assert shapes == if body[m-1].Shape? then before + {m - 1} else before;
  }

  /** As many commands as shapes among the first m widgets. */
  lemma {:induction false} DirectCounts(body: seq<Widget>, m: nat)
    requires m <= |body|
    ensures |set n | 0 <= n < m && body[n].Shape?| == |Direct(Items(body[..m]))|
  {
    var shapes := set n | 0 <= n < m && body[n].Shape?;
    if m == 0 {
      assert shapes == {} && body[..0] == [];
    } else {
      hide Direct, Items;
      ShapesBefore(body, m);
      DirectCounts(body, m - 1);
      DirectLast(body, m);
    }
  }

  /** The direct drawing of the first m widgets is the beginning of that of all. */
  lemma DirectPrefix(body: seq<Widget>, m: nat)
    requires m <= |body|
    ensures Direct(Items(body[..m])) <= Direct(Items(body))
  {
    hide Direct, Items;
    DirectParts(body[..m], body[m..]);
    assert body == body[..m] + body[m..];
  }

  lemma {:induction false} DirectParts(a: seq<Widget>, b: seq<Widget>)
    ensures Direct(Items(a + b)) == Direct(Items(a)) + Direct(Items(b))
  {
    if a == [] {
      assert a + b == b;
    } else {
      assert (a + b)[1..] == a[1..] + b;
      DirectParts(a[1..], b);
      assert Items(a + b)[1..] == Items(a[1..] + b) && Items(a)[1..] == Items(a[1..]);
    }
  }

  ghost function OwnOf(ws: seq<Widget>, cs: seq<Container>): (r: seq<seq<Command>>)
    ensures |r| == |cs| && forall k | 0 <= k < |cs| :: r[k] == Own(ws, cs[k])
  {
    seq(|cs|, k requires 0 <= k < |cs| => Own(ws, cs[k]))
  }

  lemma {:induction false} OwnOfParts(ws: seq<Widget>, a: seq<Container>, c: Container, b: seq<Container>)
    ensures OwnOf(ws, a + [c] + b) == OwnOf(ws, a) + [Own(ws, c)] + OwnOf(ws, b)
  {
  }

  /** The bodies finished are what the containers draw, in the order in which they are ended. */
  lemma {:induction false} BodiesAreOwn(ws: seq<Widget>)
    requires Distinct(Closing(ws))
    ensures Bodies(Items(ws)) == OwnOf(ws, Closing(ws))
  {
    hide Distinct;
    if ws != [] {
      var rest := ws[1..];
      assert Items(ws)[1..] == Items(rest);
      if ws[0].Shape? {
        assert Closing(ws) == Closing(rest);
        BodiesAreOwn(rest);
        assert OwnOf(ws, Closing(ws)) == OwnOf(rest, Closing(rest));
      } else {
        var body, inner, cnt := ws[0].body, Closing(ws[0].body), ws[0].cnt;
        assert Closing(ws) == inner + [cnt] + Closing(rest);
        DistinctParts(inner + [cnt], Closing(rest));
        DistinctParts(inner, [cnt]);
        BodiesAreOwn(body);
        BodiesAreOwn(rest);
        assert cnt in [cnt] && cnt in inner + [cnt];
        forall c | c in Closing(rest) ensures Own(ws, c) == Own(rest, c) { assert c !in inner + [cnt]; }
        assert OwnOf(ws, inner) == OwnOf(body, inner);
        assert OwnOf(ws, Closing(rest)) == OwnOf(rest, Closing(rest));
        OwnOfParts(ws, inner, cnt, Closing(rest));
      }
    }
  }

  // ---------- what showing a tree does to the context ----------

  /** The parts of a context that recording changes. */
  datatype State = State(record: Record, finished: seq<Container>, stack: seq<Container>,
                         roots: seq<Container?>, underMouse: set<Container>)

  ghost function StateOf(ctx: Context): State
    requires ctx.rootCount <= ctx.rootItems.Length
    reads ctx, ctx.rootItems
  {
    State(ctx.record, ctx.finished, ctx.containerStack, ctx.Roots(), ctx.underMouse)
  }

  /** What a tree needs: containers that are known and not yet among the roots, and room on the
      stack and the root list. Outside all windows nothing is drawn. */
  ghost predicate Fits(s: State, ws: seq<Widget>, known: set<Container>) {
    && Headed(s.record) && Playable(s.record, Items(ws)) && |s.stack| == |s.record.open|
    && Distinct(Closing(ws)) && (forall c | c in Closing(ws) :: c in known && c !in s.roots)
    && |s.stack| + Depth(ws) <= CONTAINERSTACK_SIZE && |s.roots| + |Closing(ws)| <= ROOTLIST_SIZE
  }

  /** t is s after the tree: its record grew as that of the tree does, and the tree's containers
      are finished and among the roots. */
  ghost predicate Shows(s: State, ws: seq<Widget>, t: State) {
    && Headed(s.record) && Playable(s.record, Items(ws)) && t.record == Play(s.record, Items(ws))
    && t.finished == s.finished + Closing(ws) && t.stack == s.stack
    && |t.roots| == |s.roots| + |Closing(ws)|
    && (forall c | c in t.roots :: c in s.roots || c in Closing(ws))
    && t.underMouse == s.underMouse + Pointed(ws)
  }

  /** A tree is its first widget followed by the rest. */
  lemma {:induction false} FirstAndRest(ws: seq<Widget>)
    requires ws != []
    ensures Items([ws[0]]) == [Items(ws)[0]] && Items(ws[1..]) == Items(ws)[1..]
    ensures Closing(ws) == Closing([ws[0]]) + Closing(ws[1..])
    ensures Pointed(ws) == Pointed([ws[0]]) + Pointed(ws[1..])
    ensures Depth([ws[0]]) <= Depth(ws) && Depth(ws[1..]) <= Depth(ws)
  {
    assert [ws[0]][1..] == [];
  }

  lemma {:induction false} FitsFirst(s: State, ws: seq<Widget>, known: set<Container>)
    requires Fits(s, ws, known) && ws != []
    ensures Fits(s, [ws[0]], known)
  {
    FirstAndRest(ws);
    DistinctParts(Closing([ws[0]]), Closing(ws[1..]));
  }

  lemma {:induction false} PlayFirst(s: Record, items: seq<Item>)
    requires items != [] && Headed(s) && Playable(s, items)
    ensures Playable(s, [items[0]]) && Playable(Play(s, [items[0]]), items[1..])
    ensures Play(s, items) == Play(Play(s, [items[0]]), items[1..])
  {
    assert [items[0]][1..] == [];
  }

  lemma {:induction false} FitsRest(s: State, ws: seq<Widget>, t: State, known: set<Container>)
    requires Fits(s, ws, known) && ws != [] && Shows(s, [ws[0]], t)
    ensures Fits(t, ws[1..], known)
  {
    hide Play, Distinct;
    FirstAndRest(ws);
    PlayFirst(s.record, Items(ws));
    hide Items, Closing, Depth, Pointed, Headed, Playable;
    var first, rest := Closing([ws[0]]), Closing(ws[1..]);
    DistinctParts(first, rest);
    forall c | c in rest ensures c in known && c !in t.roots { assert c in Closing(ws) && c !in first; }
    assert Continues(s.record, t.record, Direct(Items([ws[0]])), Bodies(Items([ws[0]])));
  }

  lemma {:induction false} ShowsAll(s: State, ws: seq<Widget>, t: State, u: State)
    requires ws != [] && Shows(s, [ws[0]], t) && Shows(t, ws[1..], u) && Playable(s.record, Items(ws))
    ensures Shows(s, ws, u)
  {
    hide Play, Items, Closing, Depth, Pointed, Headed, Playable, Continues;
    FirstAndRest(ws);
    PlayFirst(s.record, Items(ws));
  }

  /** The state inside a window just begun. */
  ghost function Begun(s: State, cnt: Container, under: bool): State {
    State(Opened(s.record), s.finished, s.stack + [cnt], s.roots + [cnt],
          s.underMouse + if under then {cnt} else {})
  }

  lemma {:induction false} OneWindow(w: Widget)
    requires w.Window?
    ensures Items([w]) == [Nested(Items(w.body))] && Closing([w]) == Closing(w.body) + [w.cnt]
    ensures Pointed([w]) == (if w.under then {w.cnt} else {}) + Pointed(w.body)
    ensures Depth([w]) == 1 + Depth(w.body)
  {
    assert [w][1..] == [];
  }

  lemma {:induction false} FitsBody(s: State, w: Widget, known: set<Container>)
    requires w.Window? && Fits(s, [w], known)
    ensures w.cnt in known && w.cnt !in s.roots && |s.stack| < CONTAINERSTACK_SIZE && |s.roots| < ROOTLIST_SIZE
    ensures Fits(Begun(s, w.cnt, w.under), w.body, known)
  {
    OneWindow(w);
    DistinctParts(Closing(w.body), [w.cnt]);
  }

  /** The state after the innermost window has been ended. */
  ghost function Ended(s: State, cnt: Container): State
    requires s.stack != [] && Closable(s.record)
  {
    State(Closed(s.record), s.finished + [cnt], s.stack[..|s.stack|-1], s.roots, s.underMouse)
  }

  lemma PlayWindow(s: Record, body: seq<Item>)
    requires Headed(s) && Playable(Opened(s), body)
    ensures Headed(Opened(s)) && Closable(Play(Opened(s), body))
    ensures Play(s, [Nested(body)]) == Closed(Play(Opened(s), body))
  {
    assert [Nested(body)][1..] == [];
  }

  lemma {:induction false} ShowsWindow(s: State, w: Widget, t: State)
    requires w.Window? && Headed(s.record) && Shows(Begun(s, w.cnt, w.under), w.body, t) && Closable(t.record)
    ensures Shows(s, [w], Ended(t, w.cnt))
  {
    hide Play, Headed, Closable, Opened, Closed;
    PlayWindow(s.record, Items(w.body));
    OneWindow(w);
    hide Items, Closing, Pointed;
    assert t.finished + [w.cnt] == s.finished + Closing([w]);
  }

  lemma {:induction false} ShowsShape(s: State, what: int)
    requires Headed(s.record) && s.record.open != []
    ensures Shows(s, [Shape(what)], s.(record := Painted(s.record, what)))
  {
    assert [Shape(what)][1..] == [];
  }

  // ---------- the calls ----------

  function Windows(ws: seq<Widget>): set<Container> {
    set c | c in Closing(ws)
  }

  lemma {:induction false} InnerWindows(ws: seq<Widget>)
    requires ws != []
    ensures Windows(ws) == Windows([ws[0]]) + Windows(ws[1..])
    ensures ws[0].Window? ==> Windows([ws[0]]) == {ws[0].cnt} + Windows(ws[0].body)
  {
    FirstAndRest(ws);
    assert [ws[0]][1..] == [];
  }

  lemma {:induction false} PointedWindows(ws: seq<Widget>)
    ensures Pointed(ws) <= Windows(ws)
  {
    if ws != [] {
      PointedWindows(ws[1..]);
      if ws[0].Window? { PointedWindows(ws[0].body); }
    }
  }

  /** Show a tree: begin and end its windows, and draw what is in them. */
  method Show(ctx: Context, ws: seq<Widget>)
    requires ctx.Valid() && ctx.Layered() && Fits(StateOf(ctx), ws, ctx.known)
    modifies ctx, ctx.rootItems, Windows(ws)`head, Windows(ws)`tail
    ensures ctx.Valid() && ctx.Layered() && Shows(old(StateOf(ctx)), ws, StateOf(ctx))
    ensures ctx.known == old(ctx.known) && ctx.lastZIndex == old(ctx.lastZIndex)
    decreases ws, 2
  {
    if ws != [] {
      InnerWindows(ws);
      hide Context.Valid, Context.Layered, Context.Roots, Fits, Shows, Windows, StateOf;
      ghost var s := StateOf(ctx);
      FitsFirst(s, ws, ctx.known);
      ShowFirst(ctx, ws);
      ghost var t := StateOf(ctx);
      FitsRest(s, ws, t, ctx.known);
      Show(ctx, ws[1..]);
      ShowsAll(s, ws, t, StateOf(ctx));
    }
  }

  method ShowFirst(ctx: Context, ws: seq<Widget>)
    requires ws != []
    requires ctx.Valid() && ctx.Layered() && Fits(StateOf(ctx), [ws[0]], ctx.known)
    modifies ctx, ctx.rootItems, Windows([ws[0]])`head, Windows([ws[0]])`tail
    ensures ctx.Valid() && ctx.Layered() && Shows(old(StateOf(ctx)), [ws[0]], StateOf(ctx))
    ensures ctx.known == old(ctx.known) && ctx.lastZIndex == old(ctx.lastZIndex)
    decreases ws, 1
  {
    match ws[0]
    case Shape(what) =>
      ShowShape(ctx, what);
    case Window(cnt, under, body) =>
      InnerWindows(ws);
      hide Windows, Shows, Fits, Context.Valid, Context.Layered, Context.Roots, StateOf;
      FitsBody(StateOf(ctx), ws[0], ctx.known);
      ghost var s := StateOf(ctx);
      BeginWindow(ctx, cnt, under);
      Show(ctx, body);
      ghost var t := StateOf(ctx);
      InsideWindow(s, ws[0], t);
      EndWindow(ctx, cnt);
      ShowsWindow(s, ws[0], t);
  }

  method ShowShape(ctx: Context, what: int)
    requires ctx.Valid() && ctx.Layered() && Fits(StateOf(ctx), [Shape(what)], ctx.known)
    modifies ctx
    ensures ctx.Valid() && ctx.Layered() && Shows(old(StateOf(ctx)), [Shape(what)], StateOf(ctx))
    ensures ctx.known == old(ctx.known) && ctx.lastZIndex == old(ctx.lastZIndex)
  {
    ShowsShape(StateOf(ctx), what);
    ctx.Paint(what);
  }

  method BeginWindow(ctx: Context, cnt: Container, under: bool)
    requires ctx.Valid() && ctx.Layered() && cnt in ctx.known && cnt !in StateOf(ctx).roots
    requires |StateOf(ctx).stack| < CONTAINERSTACK_SIZE && |StateOf(ctx).roots| < ROOTLIST_SIZE
    modifies ctx, ctx.rootItems, cnt`head
    ensures ctx.Valid() && ctx.Layered() && StateOf(ctx) == Begun(old(StateOf(ctx)), cnt, under)
    ensures ctx.known == old(ctx.known) && ctx.lastZIndex == old(ctx.lastZIndex)
  {
    hide Context.Accounted, Context.Tied, Context.Stacked, Context.Topmost;
    ctx.BeginRootContainer(cnt, under);
  }

  method EndWindow(ctx: Context, cnt: Container)
    requires ctx.Valid() && ctx.Layered() && StateOf(ctx).stack != []
    requires cnt == StateOf(ctx).stack[|StateOf(ctx).stack|-1]
    modifies ctx, cnt`tail
    ensures ctx.Valid() && ctx.Layered() && Closable(old(StateOf(ctx)).record)
    ensures StateOf(ctx) == Ended(old(StateOf(ctx)), cnt)
    ensures ctx.known == old(ctx.known) && ctx.lastZIndex == old(ctx.lastZIndex)
  {
    hide Context.Accounted, Context.Tied, Context.Stacked, Context.Topmost;
    ctx.EndRootContainer();
  }

  /** Before a window is ended it is the innermost one. */
  lemma {:induction false} InsideWindow(s: State, w: Widget, t: State)
    requires w.Window? && Headed(s.record) && Shows(Begun(s, w.cnt, w.under), w.body, t)
    ensures t.stack != [] && t.stack[|t.stack|-1] == w.cnt
  {
  }

  // ---------- whole frames ----------

  /** A frame is a tree of known containers, each at most once, with nothing drawn outside. */
  ghost predicate FrameFits(ws: seq<Widget>, known: set<Container>) {
    && (forall k | 0 <= k < |ws| :: ws[k].Window?)
    && Distinct(Closing(ws)) && Windows(ws) <= known
    && Depth(ws) <= CONTAINERSTACK_SIZE && |Closing(ws)| <= ROOTLIST_SIZE
  }

  lemma FrameFitsEmpty(ws: seq<Widget>, known: set<Container>)
    requires FrameFits(ws, known)
    ensures Fits(State(EMPTY, [], [], [], {}), ws, known)
  {
    ItemsNest(ws);
    forall c | c in Closing(ws) ensures c in known { assert c in Windows(ws); }
  }

  lemma {:induction false} ItemsNest(ws: seq<Widget>)
    requires forall k | 0 <= k < |ws| :: ws[k].Window?
    ensures forall k | 0 <= k < |Items(ws)| :: Items(ws)[k].Nested?
  {
    if ws != [] { ItemsNest(ws[1..]); }
  }

  /** Once all windows are ended, the roots are the tree's containers, and each has recorded what
      it draws itself. */
  lemma {:induction false} Recorded(ctx: Context, ws: seq<Widget>)
    requires ctx.Valid() && ctx.containerStack == [] && Distinct(Closing(ws))
    requires Shows(State(EMPTY, [], [], [], {}), ws, StateOf(ctx))
    ensures multiset(ctx.Roots()) == multiset(Closing(ws))
    ensures forall c | c in Closing(ws) :: c in ctx.rootOf && ctx.rootOf[c].own == Own(ws, c)
  {
    assert ctx.finished == Closing(ws);
    assert Distinct(ctx.Roots());
    var closing: seq<Container?> := Closing(ws);
    SameElements(ctx.Roots(), closing);
    BodiesAreOwn(ws);
    assert Owns(ctx.record.closed) == OwnOf(ws, Closing(ws));
    forall c | c in Closing(ws) ensures c in ctx.rootOf && ctx.rootOf[c].own == Own(ws, c) {
      var k :| 0 <= k < |Closing(ws)| && Closing(ws)[k] == c;
      assert OwnOf(ws, Closing(ws))[k] == ctx.record.closed[k].own;
    }
  }

  lemma {:induction false} DrawnInOrder(rootOf: map<Container, Root>, ws: seq<Widget>, order: seq<Container>)
    requires forall k | 0 <= k < |order| :: order[k] in rootOf && rootOf[order[k]].own == Own(ws, order[k])
    ensures AllOwn(RootsOf(rootOf, order)) == InOrder(ws, order)
  {
    if order != [] {
      assert RootsOf(rootOf, order)[1..] == RootsOf(rootOf, order[1..]);
      DrawnInOrder(rootOf, ws, order[1..]);
    }
  }

  /** The part of a frame between begin and end. */
  method RecordFrame(ctx: Context, ws: seq<Widget>)
    requires ctx.rootItems.Length == ROOTLIST_SIZE && ctx.containerStack == [] && ctx.Stacked()
    requires FrameFits(ws, ctx.known)
    modifies ctx, ctx.rootItems, Windows(ws)`head, Windows(ws)`tail
    ensures ctx.Valid() && ctx.Layered() && ctx.containerStack == [] && ctx.known == old(ctx.known)
    ensures ctx.underMouse == Pointed(ws)
    ensures ctx.rootCount <= ctx.rootItems.Length && multiset(ctx.Roots()) == multiset(Closing(ws))
    ensures forall c | c in Closing(ws) :: c in ctx.rootOf && ctx.rootOf[c].own == Own(ws, c)
  {
    ctx.Begin();
    FrameFitsEmpty(ws, ctx.known);
    assert StateOf(ctx) == State(EMPTY, [], [], [], {});
    hide FrameFits, Windows, Context.Valid, Context.Layered, Context.Roots, Fits;
    Show(ctx, ws);
    Recorded(ctx, ws);
  }

  /** The hovered root is the topmost container under the mouse. */
  lemma HoveredIsTopmost(ctx: Context, pointed: set<Container>)
    requires ctx.Layered() && ctx.underMouse == pointed
    ensures pointed <= ctx.known && (pointed != {} <==> ctx.nextHoverRoot != null)
    ensures pointed != {} ==> ctx.nextHoverRoot in pointed
    ensures forall c | c in pointed :: c.zindex <= ctx.nextHoverRoot.zindex
  {
  }

  /** The part of a frame from end to the loop that reads the command list. */
  method FinishFrame(ctx: Context, ws: seq<Widget>, mousePressed: bool)
    returns (out: seq<Command>, ghost order: seq<Container>)
    requires ctx.Valid() && ctx.Layered() && ctx.containerStack == []
    requires multiset(ctx.Roots()) == multiset(Closing(ws))
    requires forall c | c in Closing(ws) :: c in ctx.rootOf && ctx.rootOf[c].own == Own(ws, c)
    modifies ctx, ctx.rootItems, ctx.Hovered()`zindex
    ensures out == InOrder(ws, order)
    ensures multiset(order) == multiset(Closing(ws)) && ctx.Ascending(order)
    ensures ctx.known == old(ctx.known) && ctx.containerStack == [] && ctx.Layered()
    ensures mousePressed && old(ctx.nextHoverRoot) != null ==>
              order != [] && order[|order|-1] == old(ctx.nextHoverRoot)
    ensures forall c | c in ctx.known && !(mousePressed && c == old(ctx.nextHoverRoot)) :: c.zindex == old(c.zindex)
  {
    hide Closing, Own, InOrder, AllOwn, RootsOf;
    hide Context.Valid, Context.Layered, Context.Roots, Context.Ascending;
    order := ctx.End(mousePressed);
    out := ctx.DrawFrame(order);
    SameMembers(Closing(ws), order);
    DrawnInOrder(ctx.rootOf, ws, order);
  }

  /** A whole frame, from begin to the loop that reads the command list. What comes out are the
      tree's windows, each once and in ascending z-order, and of every window exactly what it draws
      itself. A click brings the topmost window under the mouse to the front. */
  method Frame(ctx: Context, ws: seq<Widget>, mousePressed: bool)
    returns (out: seq<Command>, ghost order: seq<Container>)
    requires ctx.rootItems.Length == ROOTLIST_SIZE && ctx.containerStack == [] && ctx.Stacked()
    requires FrameFits(ws, ctx.known)
    modifies ctx, ctx.rootItems, Windows(ws)
    ensures out == InOrder(ws, order)
    ensures multiset(order) == multiset(Closing(ws)) && ctx.Ascending(order)
    ensures ctx.known == old(ctx.known) && ctx.containerStack == [] && ctx.Layered()
    ensures mousePressed && Pointed(ws) != {} ==>
              && order != [] && order[|order|-1] in Pointed(ws) && order[|order|-1] in old(ctx.known)
              && forall c | c in old(ctx.known) && c in Pointed(ws) :: old(c.zindex) <= old(order[|order|-1].zindex)
    ensures forall c | c in old(ctx.known) && !(mousePressed && Pointed(ws) != {} && c == order[|order|-1]) ::
              c.zindex == old(c.zindex)
  {
    hide Windows, Closing, Pointed, Own, InOrder, FrameFits;
    RecordFrame(ctx, ws);
    HoveredIsTopmost(ctx, Pointed(ws));
    PointedWindows(ws);
    hide Context.Valid, Context.Layered, Context.Roots, Context.Ascending;
    out, order := FinishFrame(ctx, ws, mousePressed);
  }
}
