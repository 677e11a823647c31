// Clip commands and region redraws: when a region redraw, which skips the clip commands that miss
// the region, still agrees with the full redraw (src/sys/gfx.c).
module Clipping {
  import opened Common
  import opened Painting

  /** Which of the first n commands is on top of pixel (u, v) after a redraw of `region`, or -1. */
  function Top(a: Assets, cmds: seq<Command>, n: nat, region: Area, u: int, v: int): (k: int)
    requires n <= |cmds|
    ensures -1 <= k < n
  {
    if n == 0 then -1
    else if Overlap(region, cmds[n-1].area) && ClippedInk(a, cmds[n-1], ClipAfter(cmds, n - 1, region), u, v).Some?
    then n - 1
    else Top(a, cmds, n - 1, region, u, v)
  }

  /** The colour that command k gives the pixel, or what was there if there is no command. */
  function Colour(a: Assets, cmds: seq<Command>, k: int, u: int, v: int, base: bv32): bv32
    requires k < |cmds|
  {
    if k < 0 then base else Over(Ink(a, cmds[k], u, v), base)
  }

  lemma {:induction false} ReplayShowsTop(a: Assets, cmds: seq<Command>, n: nat, region: Area,
                                          u: int, v: int, base: bv32)
    requires n <= |cmds|
    ensures Replay(a, cmds, n, region, u, v, base) == Colour(a, cmds, Top(a, cmds, n, region, u, v), u, v, base)
    ensures var k := Top(a, cmds, n, region, u, v); k >= 0 ==> Ink(a, cmds[k], u, v).Some?
  {
    if n > 0 { ReplayShowsTop(a, cmds, n - 1, region, u, v, base); }
  }

  /** The last clip command on the screen before command n, if there is any, meets the region. */
  predicate ClipSeen(cmds: seq<Command>, n: nat, region: Area)
    requires n <= |cmds|
  {
    if n == 0 then true
    else if cmds[n-1].kind.Clip? && Overlap(SCREEN, cmds[n-1].area) then Overlap(region, cmds[n-1].area)
    else ClipSeen(cmds, n - 1, region)
  }

  /** A region redraw has the clip rectangle of the full redraw where it has seen the clip command,
      and it has seen it wherever that rectangle leaves a pixel of the region visible. */
  lemma {:induction false} SameClip(cmds: seq<Command>, n: nat, region: Area, u: int, v: int)
    requires n <= |cmds| && Inside(region) && region.Has(u, v)
    ensures ClipSeen(cmds, n, region) ==> ClipAfter(cmds, n, region) == ClipAfter(cmds, n, SCREEN)
    ensures ClipAfter(cmds, n, SCREEN).Has(u, v) ==> ClipSeen(cmds, n, region)
  {
    if n > 0 { SameClip(cmds, n - 1, region, u, v); }
  }

  /** The region redraw never shows less than the full redraw: what is on top of a pixel comes no
      earlier in the list. The same command is on top of both exactly if there is none, or it is the
      background, which is not clipped, or the clip command in force before it meets the region. */
  lemma {:induction false} TopsCompared(a: Assets, cmds: seq<Command>, n: nat, region: Area, u: int, v: int)
    requires n <= |cmds| && AllWellFormed(a, cmds) && Inside(region) && region.Has(u, v)
    ensures var full, part := Top(a, cmds, n, SCREEN, u, v), Top(a, cmds, n, region, u, v);
            && full <= part
            && (full == part <==> part == -1 || cmds[part].kind.Background? || ClipSeen(cmds, part, region))
  {
    if n > 0 {
      TopsCompared(a, cmds, n - 1, region, u, v);
      SameClip(cmds, n - 1, region, u, v);
      if Ink(a, cmds[n-1], u, v).Some? { InkStaysInArea(a, cmds[n-1], u, v); }
    }
  }

  /** With any clip commands, a region redraw agrees with the full redraw on a pixel exactly if the
      command on top in the region is on top in both, or by chance has the colour that the full
      redraw shows there. */
  lemma RegionAgreesExactly(a: Assets, cmds: seq<Command>, region: Area, u: int, v: int, base: bv32)
    requires AllWellFormed(a, cmds) && Inside(region) && region.Has(u, v)
    ensures var full, part := Top(a, cmds, |cmds|, SCREEN, u, v), Top(a, cmds, |cmds|, region, u, v);
            Replay(a, cmds, |cmds|, region, u, v, base) == FullReplay(a, cmds, u, v, base) <==>
              || part == -1 || cmds[part].kind.Background? || ClipSeen(cmds, part, region)
              || Colour(a, cmds, part, u, v, base) == Colour(a, cmds, full, u, v, base)
  {
    TopsCompared(a, cmds, |cmds|, region, u, v);
    ReplayShowsTop(a, cmds, |cmds|, region, u, v, base);
    ReplayShowsTop(a, cmds, |cmds|, SCREEN, u, v, base);
  }

  /** In particular where every clip command meets the region. */
  lemma ClipsThatMeetAgree(a: Assets, cmds: seq<Command>, region: Area, u: int, v: int, base: bv32)
    requires AllWellFormed(a, cmds) && Inside(region) && region.Has(u, v)
    requires forall k :: 0 <= k < |cmds| && cmds[k].kind.Clip? ==> Overlap(region, cmds[k].area)
    ensures Replay(a, cmds, |cmds|, region, u, v, base) == FullReplay(a, cmds, u, v, base)
  {
    var part := Top(a, cmds, |cmds|, region, u, v);
    if part >= 0 { AllSeen(cmds, part, region); }
    RegionAgreesExactly(a, cmds, region, u, v, base);
  }

  lemma {:induction false} AllSeen(cmds: seq<Command>, n: nat, region: Area)
    requires n <= |cmds| && forall k :: 0 <= k < |cmds| && cmds[k].kind.Clip? ==> Overlap(region, cmds[k].area)
    ensures ClipSeen(cmds, n, region)
  {
    if n > 0 { AllSeen(cmds, n - 1, region); }
  }

  // ---------- what the last command on a pixel does to it ----------

  /** The clip rectangle in force is that of the last clip command that meets the region, or the
      whole screen. */
  lemma {:induction false} ClipIsLast(cmds: seq<Command>, k: int, n: nat, region: Area)
    requires -1 <= k < n <= |cmds|
    requires forall m | k < m < n :: !(cmds[m].kind.Clip? && Overlap(region, cmds[m].area))
    requires k >= 0 ==> cmds[k].kind.Clip? && Overlap(region, cmds[k].area)
    ensures ClipAfter(cmds, n, region) == if k >= 0 then cmds[k].area else Area(0, 0, 1024, 768)
    decreases n
  {
    if k < n - 1 { ClipIsLast(cmds, k, n - 1, region); }
  }

  /** Commands whose rectangles do not hold a pixel leave it alone. */
  lemma {:induction false} ElsewhereUntouched(a: Assets, cmds: seq<Command>, k: nat, n: nat, region: Area,
                                              u: int, v: int, base: bv32)
    requires k <= n <= |cmds| && AllWellFormed(a, cmds)
    requires forall m | k <= m < n :: !cmds[m].area.Has(u, v)
    ensures Replay(a, cmds, n, region, u, v, base) == Replay(a, cmds, k, region, u, v, base)
    decreases n
  {
    if k < n {
      ElsewhereUntouched(a, cmds, k, n - 1, region, u, v, base);
      if Ink(a, cmds[n-1], u, v).Some? { InkStaysInArea(a, cmds[n-1], u, v); }
    }
  }

  lemma LastInkShows(a: Assets, cmds: seq<Command>, k: nat, region: Area, u: int, v: int, base: bv32)
    requires AllWellFormed(a, cmds) && region.Has(u, v)
    requires k < |cmds| && cmds[k].area.Has(u, v) && forall m | k < m < |cmds| :: !cmds[m].area.Has(u, v)
    ensures Replay(a, cmds, |cmds|, region, u, v, base) ==
            Over(ClippedInk(a, cmds[k], ClipAfter(cmds, k, region), u, v), Replay(a, cmds, k, region, u, v, base))
  {
    hide Ink, ClipAfter;
    ElsewhereUntouched(a, cmds, k + 1, |cmds|, region, u, v, base);
    assert Overlap(region, cmds[k].area);
  }

  /** A texel whose low byte is 0 is transparent; any other is masked with the colour. */
  lemma TexelTinted(texel: bv32, color: bv32, below: bv32)
    ensures Over(Tinted(texel, color), below) == if texel & 0xFF == 0 then below else texel & color
  {
  }

  lemma InkMeans(a: Assets, c: Command, clip: Area, u: int, v: int, below: bv32)
    requires WellFormed(a, c) && c.area.Has(u, v)
    ensures var shown, x, y := Over(ClippedInk(a, c, clip, u, v), below), u - c.area.x, v - c.area.y;
            && (c.kind.Clip? ==> shown == below)
            && (c.kind.Background? ==> shown == a.background(x, y))
            && (c.kind.Rect? ==> shown == if clip.Has(u, v) then c.color else below)
            && (c.kind.Char? ==> shown == if clip.Has(u, v) && a.glyph(c.data, y, x) then c.color else below)
            && (c.kind.Icon? ==>
                  shown == if clip.Has(u, v) then Over(Tinted(a.icon(c.data, x, y), c.color), below) else below)
  {
    hide Tinted;
  }

  /** What a pixel of the region shows is decided by the last command whose rectangle holds it: a
      rectangle gives it its colour, a set bit of a character likewise, an opaque texel of an icon
      the texel tinted, the background its picture, unclipped. Where that command paints nothing,
      the pixel shows what the commands before it left there. */
  lemma LastCommandDecides(a: Assets, cmds: seq<Command>, k: nat, region: Area, u: int, v: int, base: bv32)
    requires AllWellFormed(a, cmds) && Inside(region) && region.Has(u, v)
    requires k < |cmds| && cmds[k].area.Has(u, v) && forall m | k < m < |cmds| :: !cmds[m].area.Has(u, v)
    ensures var shown, below := Replay(a, cmds, |cmds|, region, u, v, base), Replay(a, cmds, k, region, u, v, base);
            var clip, c := ClipAfter(cmds, k, region), cmds[k];
            var x, y := u - c.area.x, v - c.area.y;
            && (c.kind.Clip? ==> shown == below)
            && (c.kind.Background? ==> shown == a.background(x, y))
            && (c.kind.Rect? ==> shown == if clip.Has(u, v) then c.color else below)
            && (c.kind.Char? ==> shown == if clip.Has(u, v) && a.glyph(c.data, y, x) then c.color else below)
            && (c.kind.Icon? ==>
                  shown == if clip.Has(u, v) then Over(Tinted(a.icon(c.data, x, y), c.color), below) else below)
  {
    hide Tinted, Replay, ClipAfter, Overlap, Inside, Ink, ClippedInk, Over;
    var shown, below := Replay(a, cmds, |cmds|, region, u, v, base), Replay(a, cmds, k, region, u, v, base);
    var clip, c := ClipAfter(cmds, k, region), cmds[k];
    assert shown == Over(ClippedInk(a, c, clip, u, v), below) by { LastInkShows(a, cmds, k, region, u, v, base); }
    assert WellFormed(a, c);
    hide *;
    InkMeans(a, c, clip, u, v, below);
  }

  // ---------- pictures that do not depend on what was there before ----------

  /** Whatever region is redrawn, every pixel of it is painted. */
  ghost predicate PaintsAnyRegion(a: Assets, cmds: seq<Command>) {
    forall region, u, v {:trigger Top(a, cmds, |cmds|, region, u, v)} ::
      Inside(region) && region.Has(u, v) ==> Top(a, cmds, |cmds|, region, u, v) >= 0
  }

  lemma {:induction false} TopAtLeast(a: Assets, cmds: seq<Command>, n: nat, region: Area, u: int, v: int, k: nat)
    requires k < n <= |cmds|
    requires Overlap(region, cmds[k].area) && ClippedInk(a, cmds[k], ClipAfter(cmds, k, region), u, v).Some?
    ensures Top(a, cmds, n, region, u, v) >= k
  {
    if k < n - 1 { TopAtLeast(a, cmds, n - 1, region, u, v, k); }
  }

  lemma PlainPaintsAnyRegion(a: Assets, cmds: seq<Command>)
    requires AllWellFormed(a, cmds) && ClipFree(cmds) && Covers(a, cmds)
    ensures PaintsAnyRegion(a, cmds)
  {
    forall region: Area, u, v | Inside(region) && region.Has(u, v)
      ensures Top(a, cmds, |cmds|, region, u, v) >= 0
    {
      assert Painted(a, cmds, u, v);
      var k :| 0 <= k < |cmds| && Ink(a, cmds[k], u, v).Some?;
      InkStaysInArea(a, cmds[k], u, v);
      ClipFreeClip(cmds, k, region);
      TopAtLeast(a, cmds, |cmds|, region, u, v, k);
    }
  }

  /** A frame that begins with a rectangle over the whole screen paints every region, whatever clip
      commands follow. */
  lemma FullRectPaintsAnyRegion(a: Assets, cmds: seq<Command>)
    requires |cmds| > 0 && cmds[0].kind.Rect?
    requires forall u, v :: OnScreen(u, v) ==> cmds[0].area.Has(u, v)
    ensures PaintsAnyRegion(a, cmds)
  {
    forall region: Area, u, v | Inside(region) && region.Has(u, v)
      ensures Top(a, cmds, |cmds|, region, u, v) >= 0
    {
      assert OnScreen(u, v) && cmds[0].area.Has(u, v);
      TopAtLeast(a, cmds, |cmds|, region, u, v, 0);
    }
  }

  lemma PaintedOverInRegion(a: Assets, cmds: seq<Command>, region: Area, u: int, v: int, base: bv32)
    requires PaintsAnyRegion(a, cmds) && Inside(region) && region.Has(u, v)
    ensures Replay(a, cmds, |cmds|, region, u, v, base) == Replay(a, cmds, |cmds|, region, u, v, 0)
  {
    ReplayShowsTop(a, cmds, |cmds|, region, u, v, base);
    ReplayShowsTop(a, cmds, |cmds|, region, u, v, 0);
  }

  // ---------- the regions that a swap redraws ----------

  /** The first cell of the run of changed cells that cell (i, j) lies in. */
  function RunStart(changed: set<(int, int)>, i: nat, j: int): (s: int)
    ensures 0 <= s <= i
  {
    if i > 0 && (i - 1, j) in changed then RunStart(changed, i - 1, j) else i
  }

  /** One past its last cell. */
  function RunEnd(changed: set<(int, int)>, i: int, j: int): (e: int)
    requires i < CELLS_X
    ensures i < e <= CELLS_X
    decreases CELLS_X - i
  {
    if i + 1 < CELLS_X && (i + 1, j) in changed then RunEnd(changed, i + 1, j) else i + 1
  }

  function RowArea(start: int, end: int, j: int): Area {
    Area(start * CELL_SIZE, j * CELL_SIZE, CELL_SIZE * (end - start), CELL_SIZE)
  }

  /** The region that is redrawn for a changed cell: its whole run. */
  function RunArea(changed: set<(int, int)>, i: int, j: int): (r: Area)
    requires IsCell(i, j)
    ensures Inside(r) && forall u, v :: InCell(u, v, i, j) ==> r.Has(u, v)
  {
    RowArea(RunStart(changed, i, j), RunEnd(changed, i, j), j)
  }

  /** The run of a changed cell: the cells of its row with nothing but changed cells in between. */
  lemma RunAreaExactly(changed: set<(int, int)>, i: int, j: int, u: int, v: int)
    requires IsCell(i, j) && (i, j) in changed && 0 <= u < 1024
    ensures RunArea(changed, i, j).Has(u, v) <==>
              v / 16 == j && forall k | Min(i, u / 16) <= k <= Max(i, u / 16) :: (k, j) in changed
  {
    RunStartMaximal(changed, i, j);
    RunEndMaximal(changed, i, j);
    var s, e, c := RunStart(changed, i, j), RunEnd(changed, i, j), u / 16;
    assert RunArea(changed, i, j).Has(u, v) <==> v / 16 == j && s <= c < e;
    if c < s { assert Min(i, c) <= s - 1 <= Max(i, c); }
    if c >= e { assert Min(i, c) <= e <= Max(i, c); }
  }

  lemma {:induction false} RunStartMaximal(changed: set<(int, int)>, i: nat, j: int)
    requires (i, j) in changed
    ensures var s := RunStart(changed, i, j);
            (forall k | s <= k <= i :: (k, j) in changed) && (s > 0 ==> (s - 1, j) !in changed)
  {
    if i > 0 && (i - 1, j) in changed { RunStartMaximal(changed, i - 1, j); }
  }

  lemma {:induction false} RunEndMaximal(changed: set<(int, int)>, i: nat, j: int)
    requires i < CELLS_X && (i, j) in changed
    ensures var e := RunEnd(changed, i, j);
            (forall k | i <= k < e :: (k, j) in changed) && (e < CELLS_X ==> (e, j) !in changed)
    decreases CELLS_X - i
  {
    if i + 1 < CELLS_X && (i + 1, j) in changed { RunEndMaximal(changed, i + 1, j); }
  }

  lemma {:induction false} RunStartIs(changed: set<(int, int)>, start: nat, i: nat, j: int)
    requires start <= i && forall k | start <= k < i :: (k, j) in changed
    requires start == 0 || (start - 1, j) !in changed
    ensures RunStart(changed, i, j) == start
  {
    if start < i { RunStartIs(changed, start, i - 1, j); }
  }

  lemma {:induction false} RunEndIs(changed: set<(int, int)>, i: nat, end: nat, j: int)
    requires i < end <= CELLS_X && forall k | i < k < end :: (k, j) in changed
    requires end == CELLS_X || (end, j) !in changed
    ensures RunEnd(changed, i, j) == end
    decreases end - i
  {
    if i + 1 < end { RunEndIs(changed, i + 1, end, j); }
  }

  /** A maximal run is the run of each of its cells. */
  lemma RunIs(changed: set<(int, int)>, start: nat, end: nat, i: nat, j: int)
    requires start <= i < end <= CELLS_X && 0 <= j < CELLS_Y && forall k | start <= k < end :: (k, j) in changed
    requires start == 0 || (start - 1, j) !in changed
    requires end == CELLS_X || (end, j) !in changed
    ensures RunArea(changed, i, j) == RowArea(start, end, j)
  {
    RunStartIs(changed, start, i, j);
    RunEndIs(changed, i, end, j);
  }

  /** What a swap puts on a pixel of a changed cell. */
  function Cached(a: Assets, cmds: seq<Command>, changed: set<(int, int)>, u: int, v: int): bv32
    requires OnScreen(u, v)
  {
    Replay(a, cmds, |cmds|, RunArea(changed, u / CELL_SIZE, v / CELL_SIZE), u, v, 0)
  }
}
