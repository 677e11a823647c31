// What a frame's command list means, pixel by pixel, and why redrawing one region of the screen
// agrees with redrawing all of it (src/sys/gfx.c).
module Painting {
  import opened Common

  const WIDTH := 1024
  const HEIGHT := 768
  const CELL_SIZE := 16
  const CELLS_X := 64
  const CELLS_Y := 48
  const MAX_COMMANDS := 4096

  /** A rectangle of pixels. It is empty when w or h is not positive. */
  datatype Area = Area(x: int, y: int, w: int, h: int) {
    predicate Has(u: int, v: int) {
      x <= u < x + w && y <= v < y + h
    }
  }

  const SCREEN := Area(0, 0, WIDTH, HEIGHT)

  predicate OnScreen(u: int, v: int) {
    0 <= u < WIDTH && 0 <= v < HEIGHT
  }

  predicate Inside(region: Area) {
    0 <= region.x && 0 <= region.y && region.x + region.w <= WIDTH && region.y + region.h <= HEIGHT
  }

  function Intersect(a: Area, b: Area): (r: Area)
    ensures forall u, v :: r.Has(u, v) <==> a.Has(u, v) && b.Has(u, v)
  {
    var x := Max(a.x, b.x);
    var y := Max(a.y, b.y);
    Area(x, y, Min(a.x + a.w, b.x + b.w) - x, Min(a.y + a.h, b.y + b.h) - y)
  }

  predicate Overlap(a: Area, b: Area) {
    a.x < b.x + b.w && a.x + a.w > b.x && a.y < b.y + b.h && a.y + a.h > b.y
  }

  /** For rectangles with pixels in them, the overlap test is exact. */
  lemma OverlapIsSharing(a: Area, b: Area)
    requires a.w > 0 && a.h > 0 && b.w > 0 && b.h > 0
    ensures Overlap(a, b) <==> exists u, v :: a.Has(u, v) && b.Has(u, v)
  {
    if Overlap(a, b) {
      var u, v := Max(a.x, b.x), Max(a.y, b.y);
      assert a.Has(u, v) && b.Has(u, v);
    }
  }

  /** A rectangle without width or without height overlaps what it lies strictly inside of. */
  lemma OverlapOfLine(a: Area, b: Area)
    requires b.w > 0 && b.h > 0
    ensures a.w == 0 ==> (Overlap(a, b) <==> b.x < a.x < b.x + b.w && Overlap(Area(b.x, a.y, 1, a.h), b))
    ensures a.h == 0 ==> (Overlap(a, b) <==> b.y < a.y < b.y + b.h && Overlap(Area(a.x, b.y, a.w, 1), b))
  {
  }

  datatype Kind = Background | Icon | Char | Rect | Clip

  datatype Command = Command(kind: Kind, data: int, color: bv32, area: Area)

  /** Everything the renderer reads but never changes: the icon sheet, the font, the background
      picture, and the bytes a command struct occupies in memory. */
  datatype Assets = Assets(
    icon: (int, int, int) -> bv32,
    glyph: (int, int, int) -> bool,
    background: (int, int) -> bv32,
    backgroundW: nat,
    backgroundH: nat,
    image: Command -> seq<byte>)

  /** What the gfxDraw* functions put in the list. */
  predicate WellFormed(a: Assets, cmd: Command) {
    match cmd.kind
    case Background => cmd.area.w == a.backgroundW && cmd.area.h == a.backgroundH
    case Icon => cmd.area.w == 12 && cmd.area.h == 16
    case Char => cmd.area.w == 8 && cmd.area.h == 8
    case Rect => true
    case Clip => Inside(cmd.area)
  }

  predicate AllWellFormed(a: Assets, cmds: seq<Command>) {
    forall k :: 0 <= k < |cmds| ==> WellFormed(a, cmds[k])
  }

  predicate ClipFree(cmds: seq<Command>) {
    forall k :: 0 <= k < |cmds| ==> !cmds[k].kind.Clip?
  }

  /** A texel of an icon is opaque if its low byte is not 0. */
  function Tinted(texel: bv32, color: bv32): Option<bv32> {
    if texel & 0xFF != 0 then Some(texel & color) else None
  }

  /** The colour a command gives pixel (u, v), if it paints that pixel at all. */
  function Ink(a: Assets, cmd: Command, u: int, v: int): Option<bv32> {
    var x, y := u - cmd.area.x, v - cmd.area.y;
    match cmd.kind
    case Background =>
      if cmd.area.Has(u, v) && y < a.backgroundH then Some(a.background(x, y)) else None
    case Icon =>
      if 0 <= x < 12 && 0 <= y < 16 then Tinted(a.icon(cmd.data, x, y), cmd.color) else None
    case Char =>
      if 0 <= x < 8 && 0 <= y < 8 && a.glyph(cmd.data, y, x) then Some(cmd.color) else None
    case Rect =>
      if cmd.area.Has(u, v) then Some(cmd.color) else None
    case Clip => None
  }

  /** The background copy ignores the clip rectangle; everything else obeys it. */
  function ClippedInk(a: Assets, cmd: Command, clip: Area, u: int, v: int): Option<bv32> {
    if cmd.kind.Background? || clip.Has(u, v) then Ink(a, cmd, u, v) else None
  }

  function Over(ink: Option<bv32>, base: bv32): bv32 {
    if ink.Some? then ink.value else base
  }

  /** The clip rectangle after a region redraw has gone through the first n commands. A clip
      command that misses the region is skipped like any other command. */
  function ClipAfter(cmds: seq<Command>, n: nat, region: Area): Area
    requires n <= |cmds|
  {
    if n == 0 then SCREEN
    else if cmds[n-1].kind.Clip? && Overlap(region, cmds[n-1].area) then cmds[n-1].area
    else ClipAfter(cmds, n - 1, region)
  }

  /** Pixel (u, v) after a redraw of `region` has gone through the first n commands. */
  function Replay(a: Assets, cmds: seq<Command>, n: nat, region: Area, u: int, v: int, base: bv32): bv32
    requires n <= |cmds|
  {
    if n == 0 then base else
    var before := Replay(a, cmds, n - 1, region, u, v, base);
    if Overlap(region, cmds[n-1].area)
    then Over(ClippedInk(a, cmds[n-1], ClipAfter(cmds, n - 1, region), u, v), before)
    else before
  }

  /** The plain full redraw: every command replayed over the whole screen. */
  function FullReplay(a: Assets, cmds: seq<Command>, u: int, v: int, base: bv32): bv32 {
    Replay(a, cmds, |cmds|, SCREEN, u, v, base)
  }

  /** The topmost ink on a pixel: the last of the first n commands that paints it. */
  function TopInk(a: Assets, cmds: seq<Command>, n: nat, u: int, v: int): Option<bv32>
    requires n <= |cmds|
  {
    if n == 0 then None
    else if Ink(a, cmds[n-1], u, v).Some? then Ink(a, cmds[n-1], u, v)
    else TopInk(a, cmds, n - 1, u, v)
  }

  lemma InkStaysInArea(a: Assets, cmd: Command, u: int, v: int)
    requires WellFormed(a, cmd) && Ink(a, cmd, u, v).Some?
    ensures cmd.area.Has(u, v)
  {
  }

  lemma {:induction false} ClipFreeClip(cmds: seq<Command>, n: nat, region: Area)
    requires n <= |cmds| && ClipFree(cmds)
    ensures ClipAfter(cmds, n, region) == SCREEN
  {
    if n > 0 { ClipFreeClip(cmds, n - 1, region); }
  }

  /** Redrawing any region of the screen gives its pixels the topmost ink, whatever the region. */
  lemma {:induction false} RegionShowsTopInk(a: Assets, cmds: seq<Command>, n: nat, region: Area,
                                             u: int, v: int, base: bv32)
    requires n <= |cmds| && AllWellFormed(a, cmds) && ClipFree(cmds)
    requires Inside(region) && region.Has(u, v)
    ensures Replay(a, cmds, n, region, u, v, base) == Over(TopInk(a, cmds, n, u, v), base)
  {
    if n > 0 {
      RegionShowsTopInk(a, cmds, n - 1, region, u, v, base);
      ClipFreeClip(cmds, n - 1, region);
      if Ink(a, cmds[n-1], u, v).Some? {
        InkStaysInArea(a, cmds[n-1], u, v);
      }
    }
  }

  /** A region redraw agrees with the full redraw on the region's own pixels. */
  lemma RegionAgreesWithFullReplay(a: Assets, cmds: seq<Command>, region: Area, u: int, v: int, base: bv32)
    requires AllWellFormed(a, cmds) && ClipFree(cmds)
    requires Inside(region) && region.Has(u, v)
    ensures Replay(a, cmds, |cmds|, region, u, v, base) == FullReplay(a, cmds, u, v, base)
  {
    RegionShowsTopInk(a, cmds, |cmds|, region, u, v, base);
    RegionShowsTopInk(a, cmds, |cmds|, SCREEN, u, v, base);
  }

  /** Some command paints the pixel. */
  ghost predicate Painted(a: Assets, cmds: seq<Command>, u: int, v: int) {
    exists k :: 0 <= k < |cmds| && Ink(a, cmds[k], u, v).Some?
  }

  ghost predicate Covers(a: Assets, cmds: seq<Command>) {
    forall u, v :: OnScreen(u, v) ==> Painted(a, cmds, u, v)
  }

  lemma {:induction false} PaintedHasTopInk(a: Assets, cmds: seq<Command>, n: nat, u: int, v: int)
    requires n <= |cmds|
    ensures TopInk(a, cmds, n, u, v).Some? <==> exists k :: 0 <= k < n && Ink(a, cmds[k], u, v).Some?
  {
    if n > 0 { PaintedHasTopInk(a, cmds, n - 1, u, v); }
  }

  /** The first thing every frame draws is a rectangle over the whole screen. */
  lemma FullRectCovers(a: Assets, cmds: seq<Command>)
    requires |cmds| > 0 && cmds[0].kind.Rect?
    requires forall u, v :: OnScreen(u, v) ==> cmds[0].area.Has(u, v)
    ensures Covers(a, cmds)
  {
    forall u, v | OnScreen(u, v) ensures Painted(a, cmds, u, v) {
      assert Ink(a, cmds[0], u, v).Some?;
    }
  }

  // ---------- cells ----------

  /** C's division: the quotient is rounded towards zero. */
  function TruncDiv(a: int, b: int): int
    requires b > 0
  {
    if a >= 0 then a / b else -((-a) / b)
  }

  function Clamp(i: int, limit: int): (r: int)
    requires limit > 0
    ensures 0 <= r < limit
    ensures 0 <= i < limit ==> r == i
  {
    if i < 0 then 0 else if i >= limit then limit - 1 else i
  }

  function CellAt(p: int, limit: int): int
    requires limit > 0
  {
    Clamp(TruncDiv(p, CELL_SIZE), limit)
  }

  /** Cell (i, j) is one of those whose hash the command is chained into. */
  predicate Touches(cmd: Command, i: int, j: int) {
    && CellAt(cmd.area.x, CELLS_X) <= i <= CellAt(cmd.area.x + cmd.area.w, CELLS_X)
    && CellAt(cmd.area.y, CELLS_Y) <= j <= CellAt(cmd.area.y + cmd.area.h, CELLS_Y)
  }

  /** For any rectangle, on the screen or not: the cells from that of its first pixel to that of the
      pixel behind its last one; what lies outside the screen counts for the cells at the edge. */
  lemma TouchesExactly(cmd: Command, i: int, j: int)
    requires IsCell(i, j)
    ensures var a := cmd.area;
            Touches(cmd, i, j) <==>
              && (a.x < 16 * (i + 1) || i == 63) && (a.x + a.w >= 16 * i || i == 0)
              && (a.y < 16 * (j + 1) || j == 47) && (a.y + a.h >= 16 * j || j == 0)
  {
    CellAtOrBelow(cmd.area.x, CELLS_X, i);
    CellAtOrBelow(cmd.area.x + cmd.area.w, CELLS_X, i);
    CellAtOrBelow(cmd.area.y, CELLS_Y, j);
    CellAtOrBelow(cmd.area.y + cmd.area.h, CELLS_Y, j);
  }

  lemma CellAtOrBelow(p: int, limit: int, i: int)
    requires 0 <= i < limit
    ensures CellAt(p, limit) <= i <==> p < 16 * (i + 1) || i == limit - 1
    ensures CellAt(p, limit) >= i <==> p >= 16 * i || i == 0
  {
  }

  predicate IsCell(i: int, j: int) {
    0 <= i < CELLS_X && 0 <= j < CELLS_Y
  }

  predicate InCell(u: int, v: int, i: int, j: int) {
    i * CELL_SIZE <= u < i * CELL_SIZE + CELL_SIZE && j * CELL_SIZE <= v < j * CELL_SIZE + CELL_SIZE
  }

  /** A command that paints a pixel is chained into the hash of that pixel's cell. */
  lemma InkTouchesCell(a: Assets, cmd: Command, u: int, v: int, i: int, j: int)
    requires WellFormed(a, cmd) && Ink(a, cmd, u, v).Some?
    requires IsCell(i, j) && InCell(u, v, i, j)
    ensures Touches(cmd, i, j)
  {
    InkStaysInArea(a, cmd, u, v);
  }

  /** The commands among the first n that are chained into cell (i, j), in order. */
  function Touching(cmds: seq<Command>, n: nat, i: int, j: int): (r: seq<Command>)
    requires n <= |cmds|
  {
    if n == 0 then []
    else if Touches(cmds[n-1], i, j) then Touching(cmds, n - 1, i, j) + [cmds[n-1]]
    else Touching(cmds, n - 1, i, j)
  }

  lemma {:induction false} TopInkOfPrefix(a: Assets, cmds: seq<Command>, more: seq<Command>, n: nat, u: int, v: int)
    requires n <= |cmds|
    ensures TopInk(a, cmds + more, n, u, v) == TopInk(a, cmds, n, u, v)
  {
    if n > 0 { TopInkOfPrefix(a, cmds, more, n - 1, u, v); }
  }

  /** What shows on a cell's pixels depends only on the commands chained into the cell's hash. */
  lemma {:induction false} CellDependsOnTouching(a: Assets, cmds: seq<Command>, n: nat,
                                                 u: int, v: int, i: int, j: int)
    requires n <= |cmds| && AllWellFormed(a, cmds)
    requires IsCell(i, j) && InCell(u, v, i, j)
    ensures var t := Touching(cmds, n, i, j);
            TopInk(a, t, |t|, u, v) == TopInk(a, cmds, n, u, v)
  {
    if n > 0 {
      CellDependsOnTouching(a, cmds, n - 1, u, v, i, j);
      var t := Touching(cmds, n - 1, i, j);
      if Touches(cmds[n-1], i, j) {
        TopInkOfPrefix(a, t, [cmds[n-1]], |t|, u, v);
      } else if Ink(a, cmds[n-1], u, v).Some? {
        InkTouchesCell(a, cmds[n-1], u, v, i, j);
      }
    }
  }

  /** So two covering frames whose lists agree on a cell put the same picture there. */
  lemma SameTouchingSamePicture(a: Assets, old': seq<Command>, new': seq<Command>,
                                u: int, v: int, i: int, j: int, base: bv32, base': bv32)
    requires AllWellFormed(a, old') && ClipFree(old') && Painted(a, old', u, v)
    requires AllWellFormed(a, new') && ClipFree(new')
    requires IsCell(i, j) && InCell(u, v, i, j)
    requires Touching(old', |old'|, i, j) == Touching(new', |new'|, i, j)
    ensures FullReplay(a, old', u, v, base) == FullReplay(a, new', u, v, base')
  {
    CellDependsOnTouching(a, old', |old'|, u, v, i, j);
    CellDependsOnTouching(a, new', |new'|, u, v, i, j);
    PaintedHasTopInk(a, old', |old'|, u, v);
    RegionShowsTopInk(a, old', |old'|, SCREEN, u, v, base);
    RegionShowsTopInk(a, new', |new'|, SCREEN, u, v, base');
  }
}
