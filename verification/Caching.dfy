// What the hash cache redraws and what it keeps, over whole runs of frames, and when the picture it
// shows is that of a full redraw (src/sys/gfx.c).
module Caching {
  import opened Common
  import opened Painting
  import opened Hashing
  import opened Clipping

  /** The three bytes a colour becomes in video memory. */
  function Channels(c: bv32): (bv8, bv8, bv8) {
    ((c & 0xFF) as bv8, ((c >> 8) & 0xFF) as bv8, ((c >> 16) & 0xFF) as bv8)
  }

  /** Read as a number, lowest byte first, they are the low 24 bits of the colour. */
  lemma ChannelsHoldColour(c: bv32)
    ensures var (blue, green, red) := Channels(c);
            blue as bv32 + (green as bv32 << 8) + (red as bv32 << 16) == c & 0xFF_FFFF
  {
  }

  /** The frames for which the cache is promised to work: nothing but drawing, every pixel drawn. */
  ghost predicate Plain(a: Assets, cmds: seq<Command>) {
    AllWellFormed(a, cmds) && ClipFree(cmds) && Covers(a, cmds)
  }

  /** The cells whose hash changes when `cmds` is shown after `frames`. */
  ghost function ChangedCells(a: Assets, frames: seq<seq<Command>>, cmds: seq<Command>): set<(int, int)> {
    set i, j | 0 <= i < CELLS_X && 0 <= j < CELLS_Y &&
               Chain(a, Seed(|frames|), cmds, |cmds|, i, j) != PreviousHash(a, frames, |frames|, i, j) :: (i, j)
  }

  /** A pixel whose cell hash is unchanged already has this frame's colour. */
  lemma UnchangedCellKeepsPicture(a: Assets, frames: seq<seq<Command>>, cmds: seq<Command>, u: int, v: int)
    requires |frames| > 0 ==> Plain(a, frames[|frames|-1])
    requires Plain(a, cmds) && NoCollision(a, frames, cmds)
    requires OnScreen(u, v) && (u / CELL_SIZE, v / CELL_SIZE) !in ChangedCells(a, frames, cmds)
    ensures |frames| > 0
    ensures FullReplay(a, frames[|frames|-1], u, v, 0) == FullReplay(a, cmds, u, v, 0)
  {
    var i, j := u / CELL_SIZE, v / CELL_SIZE;
    assert IsCell(i, j);
    assert Chain(a, Seed(|frames|), cmds, |cmds|, i, j) == PreviousHash(a, frames, |frames|, i, j);
    SameTouchingSamePicture(a, frames[|frames|-1], cmds, u, v, i, j, 0, 0);
  }

  /** A pixel that a swap redraws gets the full redraw's colour exactly if the command on top in its
      run is the background, or the clip command in force before it meets the run, or the colours
      happen to be the same. */
  lemma CachedPixelExactly(a: Assets, cmds: seq<Command>, changed: set<(int, int)>, u: int, v: int)
    requires AllWellFormed(a, cmds) && PaintsAnyRegion(a, cmds) && OnScreen(u, v)
    ensures var run := RunArea(changed, u / CELL_SIZE, v / CELL_SIZE);
            var part, full := Top(a, cmds, |cmds|, run, u, v), Top(a, cmds, |cmds|, SCREEN, u, v);
            && part >= 0
            && (Channels(Cached(a, cmds, changed, u, v)) == Channels(FullReplay(a, cmds, u, v, 0)) <==>
                 || cmds[part].kind.Background? || ClipSeen(cmds, part, run)
                 || Channels(Colour(a, cmds, part, u, v, 0)) == Channels(Colour(a, cmds, full, u, v, 0)))
  {
    hide Channels;
    assert InCell(u, v, u / CELL_SIZE, v / CELL_SIZE) && SCREEN.Has(u, v);
    var run := RunArea(changed, u / CELL_SIZE, v / CELL_SIZE);
    TopsCompared(a, cmds, |cmds|, run, u, v);
    ReplayShowsTop(a, cmds, |cmds|, run, u, v, 0);
    ReplayShowsTop(a, cmds, |cmds|, SCREEN, u, v, 0);
  }

  const BACKDROP: Command := Command(Rect, 0, 0, SCREEN)

  /** A frame that clips to the lower part of the screen and then draws in the upper one. */
  const CLIPPED_FRAME: seq<Command> :=
    [BACKDROP, Command(Clip, 0, 0, Area(0, 512, WIDTH, 256)), Command(Rect, 0, 0xFF0000, Area(1008, 0, 8, 8))]

  /** With clip commands the cache does fail, as the first frame or after one without the drawing:
      the cell is redrawn, its run lies in a row that the clip command misses, and so the screen gets
      a rectangle that the full redraw clips off. */
  lemma ClipBreaksCache(a: Assets, frames: seq<seq<Command>>)
    requires frames == [] || frames == [[BACKDROP]]
    requires NoCollision(a, frames, CLIPPED_FRAME)
    ensures AllWellFormed(a, CLIPPED_FRAME) && PaintsAnyRegion(a, CLIPPED_FRAME)
    ensures var changed := ChangedCells(a, frames, CLIPPED_FRAME);
            && (1010 / CELL_SIZE, 5 / CELL_SIZE) in changed
            && Channels(Cached(a, CLIPPED_FRAME, changed, 1010, 5))
               != Channels(FullReplay(a, CLIPPED_FRAME, 1010, 5, 0))
  {
    var f, changed := CLIPPED_FRAME, ChangedCells(a, frames, CLIPPED_FRAME);
    assert OnScreen(1010, 5) && IsCell(63, 0);
    FullRectPaintsAnyRegion(a, f);
    assert Touching(f, 1, 63, 0) == [f[0]] && Touching(f, 2, 63, 0) == [f[0]];
    assert Touching(f, 3, 63, 0) == [f[0], f[2]];
    if frames != [] {
      assert Touching([BACKDROP], 1, 63, 0) == [BACKDROP];
      assert |Touching(f, 3, 63, 0)| == 2;
    }
    var run := RunArea(changed, 63, 0);
    assert run.y == 0 && run.h == 16 && run.Has(1010, 5);
    assert !Overlap(run, f[1].area);
    assert Replay(a, f, 3, run, 1010, 5, 0) == 0xFF0000 by {
      assert ClipAfter(f, 0, run) == SCREEN == ClipAfter(f, 1, run) == ClipAfter(f, 2, run);
    }
    assert FullReplay(a, f, 1010, 5, 0) == 0 by {
      assert ClipAfter(f, 2, SCREEN) == f[1].area;
      assert Replay(a, f, 1, SCREEN, 1010, 5, 0) == 0;
      assert Replay(a, f, 2, SCREEN, 1010, 5, 0) == 0;
    }
  }

  /** A pixel of a plain frame gets the full redraw's colour if its cell is redrawn, and has it already
      if not. */
  lemma PlainPixel(a: Assets, frames: seq<seq<Command>>, cmds: seq<Command>, u: int, v: int)
    requires |frames| > 0 ==> Plain(a, frames[|frames|-1])
    requires Plain(a, cmds) && NoCollision(a, frames, cmds) && OnScreen(u, v)
    ensures var changed := ChangedCells(a, frames, cmds);
            if (u / CELL_SIZE, v / CELL_SIZE) in changed
            then Cached(a, cmds, changed, u, v) == FullReplay(a, cmds, u, v, 0)
            else |frames| > 0 && FullReplay(a, frames[|frames|-1], u, v, 0) == FullReplay(a, cmds, u, v, 0)
  {
    var changed := ChangedCells(a, frames, cmds);
    var i, j := u / CELL_SIZE, v / CELL_SIZE;
    assert IsCell(i, j) && InCell(u, v, i, j);
    if (i, j) in changed {
      RegionAgreesWithFullReplay(a, cmds, RunArea(changed, i, j), u, v, 0);
    } else {
      UnchangedCellKeepsPicture(a, frames, cmds, u, v);
    }
  }

  // ---------- runs of frames ----------

  /** The last frame of a run in which the hash of cell (i, j) changed, or -1. */
  ghost function LastChanged(a: Assets, run: seq<seq<Command>>, i: int, j: int): (m: int)
    ensures -1 <= m < |run|
    ensures m >= 0 ==> (i, j) in ChangedCells(a, run[..m], run[m])
    decreases |run|
  {
    if run == [] then -1
    else
      var k := |run| - 1;
      if (i, j) in ChangedCells(a, run[..k], run[k]) then k
      else
        assert forall m | 0 <= m < k :: run[..k][..m] == run[..m];
        LastChanged(a, run[..k], i, j)
  }

  /** What a pixel shows after a run: what the swap of the last frame that changed its cell put there. */
  ghost function Kept(a: Assets, run: seq<seq<Command>>, m: nat, u: int, v: int): bv32
    requires m < |run| && OnScreen(u, v)
  {
    Cached(a, run[m], ChangedCells(a, run[..m], run[m]), u, v)
  }

  /** One frame more: a pixel of a cell that it changes is redrawn, all others stay. */
  lemma KeptAfter(a: Assets, run: seq<seq<Command>>, cmds: seq<Command>, u: int, v: int)
    requires OnScreen(u, v)
    ensures var i, j, more := u / CELL_SIZE, v / CELL_SIZE, run + [cmds];
            var changed, m := ChangedCells(a, run, cmds), LastChanged(a, more, i, j);
            if (i, j) in changed then m == |run| && Kept(a, more, m, u, v) == Cached(a, cmds, changed, u, v)
            else m == LastChanged(a, run, i, j) && (m >= 0 ==> Kept(a, more, m, u, v) == Kept(a, run, m, u, v))
  {
    var more, m := run + [cmds], LastChanged(a, run, u / CELL_SIZE, v / CELL_SIZE);
    assert more[..|run|] == run && (m >= 0 ==> more[..m] == run[..m]);
  }

  ghost predicate PlainRun(a: Assets, run: seq<seq<Command>>) {
    forall k | 0 <= k < |run| :: Plain(a, run[k])
  }

  /** No frame of the run collides with the one before it in any cell. */
  ghost predicate CollisionFree(a: Assets, run: seq<seq<Command>>) {
    forall k | 0 <= k < |run| :: NoCollision(a, run[..k], run[k])
  }

  /** Without collisions every cell changes at first, and the frame that changed it last chains the
      same commands into it as the last frame does. */
  lemma {:induction false} LastChangedChainsAlike(a: Assets, run: seq<seq<Command>>, i: int, j: int)
    requires run != [] && CollisionFree(a, run) && IsCell(i, j)
    ensures var m, k := LastChanged(a, run, i, j), |run| - 1;
            m >= 0 && Touching(run[m], |run[m]|, i, j) == Touching(run[k], |run[k]|, i, j)
    decreases |run|
  {
    var k := |run| - 1;
    assert NoCollision(a, run[..k], run[k]);
    if (i, j) !in ChangedCells(a, run[..k], run[k]) {
      assert forall n | 0 <= n < k :: run[..k][..n] == run[..n];
      LastChangedChainsAlike(a, run[..k], i, j);
    }
  }

  /** The commands chained into a cell before command k are its rank among those chained. */
  lemma {:induction false} RankedCommand(cmds: seq<Command>, k: nat, n: nat, i: int, j: int)
    requires k < n <= |cmds| && Touches(cmds[k], i, j)
    ensures |Touching(cmds, k, i, j)| < |Touching(cmds, n, i, j)|
    ensures Touching(cmds, n, i, j)[|Touching(cmds, k, i, j)|] == cmds[k]
  {
    if k < n - 1 { RankedCommand(cmds, k, n - 1, i, j); }
  }

  /** What is on top of a pixel is chained into its cell. */
  lemma TopTouches(a: Assets, cmds: seq<Command>, region: Area, u: int, v: int, i: int, j: int)
    requires AllWellFormed(a, cmds) && IsCell(i, j) && InCell(u, v, i, j)
    ensures var k := Top(a, cmds, |cmds|, region, u, v); k >= 0 ==> Touches(cmds[k], i, j)
  {
    var k := Top(a, cmds, |cmds|, region, u, v);
    ReplayShowsTop(a, cmds, |cmds|, region, u, v, 0);
    if k >= 0 { InkTouchesCell(a, cmds[k], u, v, i, j); }
  }

  /** A pixel drawn for one frame and kept for another with the same commands chained into its cell:
      it has the full redraw's colour exactly if what is on top has the same place among the chained
      commands both times, or the colours happen to be the same. */
  lemma KeptPixelExactly(a: Assets, drawn: seq<Command>, cmds: seq<Command>, changed: set<(int, int)>,
                         u: int, v: int, i: int, j: int)
    requires AllWellFormed(a, drawn) && PaintsAnyRegion(a, drawn)
    requires AllWellFormed(a, cmds) && PaintsAnyRegion(a, cmds)
    requires OnScreen(u, v) && i == u / CELL_SIZE && j == v / CELL_SIZE
    requires Touching(drawn, |drawn|, i, j) == Touching(cmds, |cmds|, i, j)
    ensures var part := Top(a, drawn, |drawn|, RunArea(changed, i, j), u, v);
            var full := Top(a, cmds, |cmds|, SCREEN, u, v);
            && part >= 0 && full >= 0
            && (Channels(Cached(a, drawn, changed, u, v)) == Channels(FullReplay(a, cmds, u, v, 0)) <==>
                 || |Touching(drawn, part, i, j)| == |Touching(cmds, full, i, j)|
                 || Channels(Colour(a, drawn, part, u, v, 0)) == Channels(Colour(a, cmds, full, u, v, 0)))
  {
    hide Channels;
    var run := RunArea(changed, i, j);
    assert IsCell(i, j) && InCell(u, v, i, j) && SCREEN.Has(u, v);
    var part, full := Top(a, drawn, |drawn|, run, u, v), Top(a, cmds, |cmds|, SCREEN, u, v);
    ReplayShowsTop(a, drawn, |drawn|, run, u, v, 0);
    ReplayShowsTop(a, cmds, |cmds|, SCREEN, u, v, 0);
    TopTouches(a, drawn, run, u, v, i, j);
    TopTouches(a, cmds, SCREEN, u, v, i, j);
    RankedCommand(drawn, part, |drawn|, i, j);
    RankedCommand(cmds, full, |cmds|, i, j);
  }

  /** The exact condition for whole runs: `m` is the last frame that changed the cell of the pixel,
      which may be the last frame of all. */
  lemma RunPixelExactly(a: Assets, run: seq<seq<Command>>, u: int, v: int)
    requires run != [] && CollisionFree(a, run) && OnScreen(u, v)
    requires forall k | 0 <= k < |run| :: AllWellFormed(a, run[k]) && PaintsAnyRegion(a, run[k])
    ensures var i, j := u / CELL_SIZE, v / CELL_SIZE;
            var m, last := LastChanged(a, run, i, j), run[|run|-1];
            && m >= 0
            && var part := Top(a, run[m], |run[m]|, RunArea(ChangedCells(a, run[..m], run[m]), i, j), u, v);
               var full := Top(a, last, |last|, SCREEN, u, v);
               && part >= 0 && full >= 0
               && (Channels(Kept(a, run, m, u, v)) == Channels(FullReplay(a, last, u, v, 0)) <==>
                    || |Touching(run[m], part, i, j)| == |Touching(last, full, i, j)|
                    || Channels(Colour(a, run[m], part, u, v, 0)) == Channels(Colour(a, last, full, u, v, 0)))
  {
    hide Channels;
    var i, j := u / CELL_SIZE, v / CELL_SIZE;
    LastChangedChainsAlike(a, run, i, j);
    var m, last := LastChanged(a, run, i, j), run[|run|-1];
    KeptPixelExactly(a, run[m], last, ChangedCells(a, run[..m], run[m]), u, v, i, j);
  }

  // ---------- clip commands that are chained ----------

  /** Every clip command on the screen is chained into the cell. */
  predicate ClipsChained(cmds: seq<Command>, i: int, j: int) {
    forall k | 0 <= k < |cmds| && cmds[k].kind.Clip? && Overlap(SCREEN, cmds[k].area) :: Touches(cmds[k], i, j)
  }

  lemma {:induction false} RedrawOfPrefix(a: Assets, cmds: seq<Command>, more: seq<Command>, n: nat, u: int, v: int,
                                          base: bv32)
    requires n <= |cmds|
    ensures ClipAfter(cmds + more, n, SCREEN) == ClipAfter(cmds, n, SCREEN)
    ensures Replay(a, cmds + more, n, SCREEN, u, v, base) == Replay(a, cmds, n, SCREEN, u, v, base)
  {
    if n > 0 { RedrawOfPrefix(a, cmds, more, n - 1, u, v, base); }
  }

  /** Then the full redraw of a pixel of the cell depends on the chained commands only. */
  lemma {:induction false} RedrawDependsOnTouching(a: Assets, cmds: seq<Command>, n: nat, u: int, v: int,
                                                   i: int, j: int, base: bv32)
    requires n <= |cmds| && AllWellFormed(a, cmds) && ClipsChained(cmds, i, j)
    requires IsCell(i, j) && InCell(u, v, i, j)
    ensures var t := Touching(cmds, n, i, j);
            && ClipAfter(t, |t|, SCREEN) == ClipAfter(cmds, n, SCREEN)
            && Replay(a, t, |t|, SCREEN, u, v, base) == Replay(a, cmds, n, SCREEN, u, v, base)
  {
    hide Ink;
    if n > 0 {
      RedrawDependsOnTouching(a, cmds, n - 1, u, v, i, j, base);
      var t, last := Touching(cmds, n - 1, i, j), cmds[n-1];
      if Touches(last, i, j) {
        RedrawOfPrefix(a, t, [last], |t|, u, v, base);
      } else if Ink(a, last, u, v).Some? {
        InkTouchesCell(a, last, u, v, i, j);
      }
    }
  }

  /** So keeping a cell is right, clip commands or not, if both frames chain all theirs into it: the
      full redraws of the two frames agree there, and the pixel is right for the one if it was for
      the other. */
  lemma ChainedClipsKeepPicture(a: Assets, drawn: seq<Command>, cmds: seq<Command>, u: int, v: int, i: int, j: int,
                                base: bv32)
    requires AllWellFormed(a, drawn) && AllWellFormed(a, cmds) && IsCell(i, j) && InCell(u, v, i, j)
    requires ClipsChained(drawn, i, j) && ClipsChained(cmds, i, j)
    requires Touching(drawn, |drawn|, i, j) == Touching(cmds, |cmds|, i, j)
    ensures FullReplay(a, drawn, u, v, base) == FullReplay(a, cmds, u, v, base)
  {
    RedrawDependsOnTouching(a, drawn, |drawn|, u, v, i, j, base);
    RedrawDependsOnTouching(a, cmds, |cmds|, u, v, i, j, base);
  }

  // ---------- and one that is not ----------

  const MARK: Command := Command(Rect, 0, 0xFF0000, Area(1008, 0, 8, 8))

  /** A clip rectangle two cells away from what it clips. */
  const CLIPPED_MARK: seq<Command> := [BACKDROP, Command(Clip, 0, 0, Area(976, 0, 16, 16)), MARK]

  /** The second way in which clip commands break the cache: a clip command is not chained into the
      cells it clips. The clipped frame is shown right, as its clip rectangle meets the run; but the
      frame after it, which has no clip command, leaves the cell as it is. */
  lemma UnchainedClipBreaksCache(a: Assets)
    requires NoCollision(a, [[BACKDROP]], CLIPPED_MARK)
    ensures AllWellFormed(a, CLIPPED_MARK) && PaintsAnyRegion(a, CLIPPED_MARK) && Plain(a, [BACKDROP, MARK])
    ensures var run := [[BACKDROP], CLIPPED_MARK, [BACKDROP, MARK]];
            && LastChanged(a, run, 1010 / CELL_SIZE, 5 / CELL_SIZE) == 1
            && Kept(a, run, 1, 1010, 5) == FullReplay(a, CLIPPED_MARK, 1010, 5, 0)
            && Channels(Kept(a, run, 1, 1010, 5)) != Channels(FullReplay(a, [BACKDROP, MARK], 1010, 5, 0))
  {
    var f, g := CLIPPED_MARK, [BACKDROP, MARK];
    var run := [[BACKDROP], f, g];
    assert OnScreen(1010, 5) && run[..1] == [[BACKDROP]] && run[..2] == [[BACKDROP], f];
    FullRectPaintsAnyRegion(a, f);
    FullRectCovers(a, g);
    MarkKept(a);
    MarkDrawn(a);
    assert Replay(a, g, 1, SCREEN, 1010, 5, 0) == 0;
    assert FullReplay(a, g, 1010, 5, 0) == 0xFF0000;
  }

  /** The frame without the clip command chains the same into the mark's cell. */
  lemma MarkKept(a: Assets)
    ensures (63, 0) !in ChangedCells(a, [[BACKDROP], CLIPPED_MARK], [BACKDROP, MARK])
  {
    var f, g := CLIPPED_MARK, [BACKDROP, MARK];
    assert !Touches(f[1], 63, 0);
    assert Chain(a, Seed(1), f, 1, 63, 0) == Chain(a, Seed(1), g, 1, 63, 0);
    assert Chain(a, Seed(1), f, 2, 63, 0) == Chain(a, Seed(1), g, 1, 63, 0);
    assert Chain(a, Seed(1), f, 3, 63, 0) == Chain(a, Seed(2), g, 2, 63, 0);
  }

  /** The clipped frame is drawn in a run that its clip rectangle meets, so the mark is clipped off. */
  lemma MarkDrawn(a: Assets)
    requires NoCollision(a, [[BACKDROP]], CLIPPED_MARK)
    ensures var changed := ChangedCells(a, [[BACKDROP]], CLIPPED_MARK);
            && (63, 0) in changed && Cached(a, CLIPPED_MARK, changed, 1010, 5) == 0
    ensures FullReplay(a, CLIPPED_MARK, 1010, 5, 0) == 0
  {
    var f, changed := CLIPPED_MARK, ChangedCells(a, [[BACKDROP]], CLIPPED_MARK);
    forall i | 61 <= i <= 63 ensures (i, 0) in changed {
      assert IsCell(i, 0) && Touching([BACKDROP], 1, i, 0) == [BACKDROP];
      assert |Touching(f, 1, i, 0)| == 1 && |Touching(f, 3, i, 0)| == 2;
    }
    assert RunStart(changed, 63, 0) <= 61;
    MarkClipped(a, RunArea(changed, 63, 0));
  }

  lemma MarkClipped(a: Assets, run: Area)
    requires Inside(run) && run.y == 0 && run.h == 16 && run.x <= 976 && run.Has(1010, 5)
    ensures Replay(a, CLIPPED_MARK, 3, run, 1010, 5, 0) == 0 == FullReplay(a, CLIPPED_MARK, 1010, 5, 0)
  {
    var f := CLIPPED_MARK;
    assert Overlap(run, f[1].area);
    assert ClipAfter(f, 2, run) == f[1].area == ClipAfter(f, 2, SCREEN);
    assert Replay(a, f, 1, run, 1010, 5, 0) == 0 == Replay(a, f, 1, SCREEN, 1010, 5, 0);
    assert Replay(a, f, 2, run, 1010, 5, 0) == 0 == Replay(a, f, 2, SCREEN, 1010, 5, 0);
  }

  // ---------- frames that are repeated ----------

  /** A frame that is shown again repaints nothing, except for the first one, which repaints every
      cell: its chains start from another value than those of all later frames. */
  lemma RepeatedFrameExactly(a: Assets, frames: seq<seq<Command>>, cmds: seq<Command>, i: int, j: int)
    requires IsCell(i, j)
    ensures (i, j) in ChangedCells(a, frames + [cmds], cmds) <==> frames == []
  {
    if frames == [] {
      assert frames + [cmds] == [cmds];
      RepeatedFirstFrameIsRepainted(a, cmds, i, j);
    }
  }
}
