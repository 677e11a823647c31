// The cached renderer itself (src/sys/gfx.c): the command queue, the drawing primitives on the
// backbuffer, the region redraw and the buffer swap.
module Renderer {
  import opened Common
  import opened Painting
  import opened Hashing
  import opened Clipping
  import opened Caching

  /** Where pixel (u, v) lies in the backbuffer. */
  function At(u: int, v: int): int {
    u + v * WIDTH
  }

  /** Where cell (i, j) lies in the hash tables. */
  function CellIndex(i: int, j: int): int {
    i + j * CELLS_X
  }

  class Gfx {
    const assets: Assets
    var commands: seq<Command>
    const hashes1: array<word>
    const hashes2: array<word>
    const backbuffer: array<bv32>
    const pixels: array<bv8>
    var color: bv32
    var clip: Area
    ghost var frames: seq<seq<Command>>  // what has been swapped to the screen so far

    ghost predicate Shape() {
      && hashes1.Length == CELLS_X * CELLS_Y && hashes2.Length == CELLS_X * CELLS_Y && hashes1 != hashes2
      && backbuffer.Length == WIDTH * HEIGHT && pixels.Length == WIDTH * HEIGHT * 3
      && {hashes1 as object, hashes2} !! {backbuffer as object, pixels} && backbuffer as object != pixels
    }

    ghost predicate Valid()
      reads this, hashes1, hashes2
    {
      && Shape()
      && AllWellFormed(assets, commands)
      && (forall i, j | IsCell(i, j) :: hashes1[CellIndex(i, j)] == Seed(|frames|))
      && (forall i, j | IsCell(i, j) :: hashes2[CellIndex(i, j)] == PreviousHash(assets, frames, |frames|, i, j))
    }

    /** What the screen shows at pixel (u, v). */
    ghost function Shown(u: int, v: int): (bv8, bv8, bv8)
      requires Shape() && OnScreen(u, v)
      reads pixels
    {
      (pixels[At(u, v) * 3], pixels[At(u, v) * 3 + 1], pixels[At(u, v) * 3 + 2])
    }

    /** The whole screen is what a plain full redraw of `cmds` puts there. */
    ghost predicate Shows(cmds: seq<Command>)
      requires Shape()
      reads pixels
    {
      forall u, v | OnScreen(u, v) :: Shown(u, v) == Channels(FullReplay(assets, cmds, u, v, 0))
    }

    constructor (assets: Assets)
      ensures Valid() && commands == [] && frames == [] && this.assets == assets
      ensures fresh(hashes1) && fresh(hashes2) && fresh(backbuffer) && fresh(pixels)
      ensures hashes1.Length == hashes2.Length == 64 * 48
      ensures forall k | 0 <= k < 64 * 48 :: hashes1[k] == 0 && hashes2[k] == 0x01010101
    {
      this.assets := assets;
      commands := [];
      hashes1 := new word[CELLS_X * CELLS_Y](_ => 0);
      hashes2 := new word[CELLS_X * CELLS_Y](_ => 0x01010101);
      backbuffer := new bv32[WIDTH * HEIGHT];
      pixels := new bv8[WIDTH * HEIGHT * 3];
      color := 0xFFFFFF;
      clip := Area(0, 0, 0, 0);
      frames := [];
    }

    // ---------- drawing primitives ----------

    method Put(x: int, y: int, c: bv32)
      requires Shape() && OnScreen(x, y)
      modifies backbuffer
      ensures forall u, v | OnScreen(u, v) ::
        backbuffer[At(u, v)] == if u == x && v == y then c else old(backbuffer[At(u, v)])
    {
      backbuffer[At(x, y)] := c;
    }

    method SetPixel(x: int, y: int, c: bv32)
      requires Shape() && Inside(clip)
      modifies backbuffer
      ensures forall u, v | OnScreen(u, v) ::
        backbuffer[At(u, v)] == if u == x && v == y && clip.Has(x, y) then c else old(backbuffer[At(u, v)])
    {
      if x < clip.x || y < clip.y || x >= clip.x + clip.w || y >= clip.y + clip.h {
        return;
      }
      Put(x, y, c);
    }

    /** One texel of an icon, unless it is transparent. */
    method PutTexel(px: int, py: int, c: int, x: int, y: int)
      requires Shape() && Inside(clip)
      modifies backbuffer
      ensures forall u, v | OnScreen(u, v) ::
        backbuffer[At(u, v)]
          == if u == px + x && v == py + y && clip.Has(u, v)
             then Texel(c, x, y, old(backbuffer[At(u, v)]))
             else old(backbuffer[At(u, v)])
    {
      var texel := assets.icon(c, x, y);
      if texel & 0xFF != 0 {
        SetPixel(px + x, py + y, texel & color);
      }
    }

    /** The opaque texels of an icon, tinted. */
    function Texel(c: int, x: int, y: int, base: bv32): (r: bv32)
      reads this`color
      ensures r == if assets.icon(c, x, y) & 0xFF == 0 then base else assets.icon(c, x, y) & color
    {
      Over(Tinted(assets.icon(c, x, y), color), base)
    }

    method DoDrawIcon(px: int, py: int, c: int)
      requires Shape() && Inside(clip)
      modifies backbuffer
      ensures forall u, v | OnScreen(u, v) ::
        backbuffer[At(u, v)]
          == if clip.Has(u, v) && 0 <= u - px < 12 && 0 <= v - py < 16
             then Texel(c, u - px, v - py, old(backbuffer[At(u, v)]))
             else old(backbuffer[At(u, v)])
    {
      hide Texel;
      for x := 0 to 12
        invariant forall u, v | OnScreen(u, v) ::
          backbuffer[At(u, v)]
            == if clip.Has(u, v) && 0 <= u - px < x && 0 <= v - py < 16
               then Texel(c, u - px, v - py, old(backbuffer[At(u, v)]))
               else old(backbuffer[At(u, v)])
      {
        for y := 0 to 16
          invariant forall u, v | OnScreen(u, v) ::
            backbuffer[At(u, v)]
              == if clip.Has(u, v) && 0 <= v - py < 16 && (0 <= u - px < x || (u - px == x && v - py < y))
                 then Texel(c, u - px, v - py, old(backbuffer[At(u, v)]))
                 else old(backbuffer[At(u, v)])
        {
          PutTexel(px, py, c, x, y);
        }
      }
    }

    method DoDrawChar(px: int, py: int, c: int)
      requires Shape() && Inside(clip)
      modifies backbuffer
      ensures forall u, v | OnScreen(u, v) ::
        backbuffer[At(u, v)]
          == if clip.Has(u, v) && 0 <= u - px < 8 && 0 <= v - py < 8 && assets.glyph(c, v - py, u - px)
             then color
             else old(backbuffer[At(u, v)])
    {
      ghost var cmd := Command(Char, c, color, Area(px, py, 8, 8));
      for i := 0 to 8
        invariant forall u, v | OnScreen(u, v) ::
          backbuffer[At(u, v)]
            == if v - py < i then Over(ClippedInk(assets, cmd, clip, u, v), old(backbuffer[At(u, v)]))
               else old(backbuffer[At(u, v)])
      {
        for j := 0 to 8
          invariant forall u, v | OnScreen(u, v) ::
            backbuffer[At(u, v)]
              == if v - py < i || (v - py == i && u - px < j)
                 then Over(ClippedInk(assets, cmd, clip, u, v), old(backbuffer[At(u, v)]))
                 else old(backbuffer[At(u, v)])
        {
          if assets.glyph(c, i, j) {
            SetPixel(px + j, py + i, color);
          }
        }
      }
    }

    method DoDrawRect(area: Area)
      requires Shape() && Inside(clip)
      modifies backbuffer
      ensures forall u, v | OnScreen(u, v) ::
        backbuffer[At(u, v)] == if clip.Has(u, v) && area.Has(u, v) then color else old(backbuffer[At(u, v)])
    {
      var r := Intersect(clip, area);
      for i := 0 to Max(r.h, 0)
        invariant forall u, v | OnScreen(u, v) ::
          backbuffer[At(u, v)] == if r.Has(u, v) && v - r.y < i then color else old(backbuffer[At(u, v)])
      {
        for j := 0 to Max(r.w, 0)
          invariant forall u, v | OnScreen(u, v) ::
            backbuffer[At(u, v)]
              == if r.Has(u, v) && (v - r.y < i || (v - r.y == i && u - r.x < j)) then color
                 else old(backbuffer[At(u, v)])
        {
          assert r.Has(r.x + j, r.y + i);
          Put(r.x + j, r.y + i, color);
        }
      }
    }

    /** The rows of the background picture that lie in the region; each row is one memcpy. */
    method CopyBackground(region: Area, area: Area)
      requires Shape() && Inside(region)
      modifies backbuffer
      ensures forall u, v | OnScreen(u, v) ::
        backbuffer[At(u, v)]
          == if region.Has(u, v) && area.Has(u, v) && v - area.y < assets.backgroundH
             then assets.background(u - area.x, v - area.y)
             else old(backbuffer[At(u, v)])
    {
      var r := Intersect(region, area);
      for y := 0 to Max(r.h, 0)
        invariant forall u, v | OnScreen(u, v) ::
          backbuffer[At(u, v)]
            == if r.Has(u, v) && v - r.y < y && v - area.y < assets.backgroundH
               then assets.background(u - area.x, v - area.y)
               else old(backbuffer[At(u, v)])
      {
        var texY := y + r.y - area.y;
        if texY < 0 || texY >= assets.backgroundH {
          continue;
        }
        for x := 0 to Max(r.w, 0)
          invariant forall u, v | OnScreen(u, v) ::
            backbuffer[At(u, v)]
              == if r.Has(u, v) && (v - r.y < y || (v - r.y == y && u - r.x < x)) && v - area.y < assets.backgroundH
                 then assets.background(u - area.x, v - area.y)
                 else old(backbuffer[At(u, v)])
        {
          assert r.Has(r.x + x, r.y + y);
          Put(r.x + x, r.y + y, assets.background(r.x + x - area.x, texY));
        }
      }
    }

    // ---------- the region redraw ----------

    /** One command of a region redraw. Icons and characters may spill out of the region, so only
        the region's own pixels are promised. */
    method Perform(cmd: Command, region: Area)
      requires Shape() && Inside(clip) && Inside(region) && WellFormed(assets, cmd)
      modifies this`color, this`clip, backbuffer
      ensures clip == if cmd.kind.Clip? then cmd.area else old(clip)
      ensures forall u, v | OnScreen(u, v) && region.Has(u, v) ::
        backbuffer[At(u, v)] == Over(ClippedInk(assets, cmd, old(clip), u, v), old(backbuffer[At(u, v)]))
    {
      color := cmd.color;
      match cmd.kind
      case Background => CopyBackground(region, cmd.area);
      case Icon =>
        hide Tinted;
        DoDrawIcon(cmd.area.x, cmd.area.y, cmd.data);
      case Char => DoDrawChar(cmd.area.x, cmd.area.y, cmd.data);
      case Rect => DoDrawRect(Intersect(region, cmd.area));
      case Clip => clip := cmd.area;
    }

    lemma ClipStaysInside(n: nat, region: Area)
      requires n <= |commands| && AllWellFormed(assets, commands)
      ensures Inside(ClipAfter(commands, n, region))
    {
    }

    method RedrawRegion(region: Area)
      requires Shape() && Inside(region) && AllWellFormed(assets, commands)
      modifies this`color, this`clip, backbuffer, pixels
      ensures forall u, v | OnScreen(u, v) ::
        Shown(u, v) == if region.Has(u, v)
                       then Channels(Replay(assets, commands, |commands|, region, u, v, old(backbuffer[At(u, v)])))
                       else old(Shown(u, v))
    {
      clip := SCREEN;
      for i := 0 to |commands|
        modifies this`color, this`clip, backbuffer
        invariant clip == ClipAfter(commands, i, region)
        invariant forall u, v | OnScreen(u, v) && region.Has(u, v) ::
          backbuffer[At(u, v)] == Replay(assets, commands, i, region, u, v, old(backbuffer[At(u, v)]))
      {
        var cmd := commands[i];
        if !Overlap(region, cmd.area) {
          continue;
        }
        ClipStaysInside(i, region);
        Perform(cmd, region);
      }
      CopyToScreen(region);
    }

    method CopyToScreen(region: Area)
      requires Shape() && Inside(region)
      modifies pixels
      ensures forall u, v | OnScreen(u, v) ::
        Shown(u, v) == if region.Has(u, v) then Channels(backbuffer[At(u, v)]) else old(Shown(u, v))
    {
      for y := region.y to Max(region.y, region.y + region.h)
        invariant forall u, v | OnScreen(u, v) ::
          Shown(u, v) == if region.Has(u, v) && v < y then Channels(backbuffer[At(u, v)]) else old(Shown(u, v))
      {
        for x := region.x to Max(region.x, region.x + region.w)
          invariant forall u, v | OnScreen(u, v) ::
            Shown(u, v) == if region.Has(u, v) && (v < y || (v == y && u < x)) then Channels(backbuffer[At(u, v)])
                           else old(Shown(u, v))
        {
          CopyPixel(x, y);
        }
      }
    }

    /** Where the three bytes of a pixel lie in video memory, and what they mean. */
    lemma PixelBytes(u: int, v: int, c: bv32)
      requires Shape() && OnScreen(u, v) && Shown(u, v) == Channels(c)
      ensures var p := 3 * (u + 1024 * v);
              && p + 2 < pixels.Length
              && pixels[p] as bv32 + (pixels[p+1] as bv32 << 8) + (pixels[p+2] as bv32 << 16) == c & 0xFF_FFFF
    {
      ChannelsHoldColour(c);
    }

    method CopyPixel(x: int, y: int)
      requires Shape() && OnScreen(x, y)
      modifies pixels
      ensures forall u, v | OnScreen(u, v) ::
        Shown(u, v) == if u == x && v == y then Channels(backbuffer[At(u, v)]) else old(Shown(u, v))
    {
      var c := backbuffer[At(x, y)];
      pixels[At(x, y) * 3] := (c & 0xFF) as bv8;
      pixels[At(x, y) * 3 + 1] := ((c >> 8) & 0xFF) as bv8;
      pixels[At(x, y) * 3 + 2] := ((c >> 16) & 0xFF) as bv8;
    }

    // ---------- the buffer swap ----------

    /** Chain one command's hash into every cell its rectangle touches. */
    method ChainCommand(cmd: Command)
      requires Shape()
      modifies hashes1
      ensures forall i, j | IsCell(i, j) ::
        hashes1[CellIndex(i, j)] == if Touches(cmd, i, j)
                                    then Fnv32(Bytes4(CommandHash(assets, cmd)), old(hashes1[CellIndex(i, j)]))
                                    else old(hashes1[CellIndex(i, j)])
    {
      var cmdhash := Fnv32Buf(assets.image(cmd), FNV_INIT);
      assert cmdhash == CommandHash(assets, cmd);
      hide Fnv32, Bytes4, CommandHash, TruncDiv;
      var x1, y1 := CellAt(cmd.area.x, CELLS_X), CellAt(cmd.area.y, CELLS_Y);
      var x2, y2 := CellAt(cmd.area.x + cmd.area.w, CELLS_X), CellAt(cmd.area.y + cmd.area.h, CELLS_Y);
      var x := x1;
      while x <= x2
        invariant x1 <= x <= Max(x1, x2 + 1)
        invariant forall i, j | IsCell(i, j) ::
          hashes1[CellIndex(i, j)] == if Touches(cmd, i, j) && i < x
                                      then Fnv32(Bytes4(cmdhash), old(hashes1[CellIndex(i, j)]))
                                      else old(hashes1[CellIndex(i, j)])
      {
        ChainColumn(cmdhash, x, y1, y2);
        x := x + 1;
      }
    }

    /** Chain a hash into the cells y1..y2 of column x. */
    method ChainColumn(cmdhash: word, x: int, y1: int, y2: int)
      requires Shape() && 0 <= x < CELLS_X && 0 <= y1 && y2 < CELLS_Y
      modifies hashes1
      ensures forall i, j | IsCell(i, j) ::
        hashes1[CellIndex(i, j)] == if i == x && y1 <= j <= y2
                                    then Fnv32(Bytes4(cmdhash), old(hashes1[CellIndex(i, j)]))
                                    else old(hashes1[CellIndex(i, j)])
    {
      hide Fnv32, Bytes4;
      var y := y1;
      while y <= y2
        invariant y1 <= y <= Max(y1, y2 + 1)
        invariant forall i, j | IsCell(i, j) ::
          hashes1[CellIndex(i, j)] == if i == x && y1 <= j < y
                                      then Fnv32(Bytes4(cmdhash), old(hashes1[CellIndex(i, j)]))
                                      else old(hashes1[CellIndex(i, j)])
      {
        assert IsCell(x, y);
        var h := Fnv32Buf(Bytes4(cmdhash), hashes1[CellIndex(x, y)]);
        hashes1[CellIndex(x, y)] := h;
        y := y + 1;
      }
    }

    method ChainHashes()
      requires Valid()
      modifies hashes1
      ensures forall i, j | IsCell(i, j) ::
        hashes1[CellIndex(i, j)] == Chain(assets, Seed(|frames|), commands, |commands|, i, j)
    {
      for k := 0 to |commands|
        invariant forall i, j | IsCell(i, j) ::
          hashes1[CellIndex(i, j)] == Chain(assets, Seed(|frames|), commands, k, i, j)
      {
        ChainCommand(commands[k]);
      }
    }

    ghost predicate Changed(i: int, j: int)
      requires Shape() && IsCell(i, j)
      reads hashes1, hashes2
    {
      hashes1[CellIndex(i, j)] != hashes2[CellIndex(i, j)]
    }

    /** `cells` are the cells whose hash differs from the previous frame's. */
    ghost predicate AreChanged(cells: set<(int, int)>)
      requires Shape()
      reads hashes1, hashes2
    {
      forall i, j | IsCell(i, j) :: (i, j) in cells <==> Changed(i, j)
    }

    /** Redraw the horizontal runs of changed cells in row j. `redrawn` collects the cells. */
    method RedrawRow(j: int, ghost cells: set<(int, int)>) returns (ghost redrawn: set<(int, int)>)
      requires Shape() && 0 <= j < CELLS_Y && AllWellFormed(assets, commands) && PaintsAnyRegion(assets, commands)
      requires AreChanged(cells)
      modifies this`color, this`clip, backbuffer, pixels
      ensures redrawn == set i | 0 <= i < CELLS_X && (i, j) in cells :: (i, j)
      ensures forall u, v | OnScreen(u, v) ::
        Shown(u, v) == if v / CELL_SIZE == j && (u / CELL_SIZE, j) in cells
                       then Channels(Cached(assets, commands, cells, u, v))
                       else old(Shown(u, v))
    {
      redrawn := {};
      var x := 0;
      while x < CELLS_X
        invariant 0 <= x <= CELLS_X + 1
        invariant 0 < x < CELLS_X ==> (x - 1, j) !in cells
        invariant redrawn == set i | 0 <= i < Min(x, CELLS_X) && (i, j) in cells :: (i, j)
        invariant forall u, v | OnScreen(u, v) ::
          Shown(u, v) == if v / CELL_SIZE == j && u / CELL_SIZE < x && (u / CELL_SIZE, j) in cells
                         then Channels(Cached(assets, commands, cells, u, v))
                         else old(Shown(u, v))
      {
        var start := x;
        while x < CELLS_X && hashes1[CellIndex(x, j)] != hashes2[CellIndex(x, j)]
          invariant start <= x <= CELLS_X
          invariant forall i | start <= i < x :: (i, j) in cells
        {
          assert Changed(x, j);
          x := x + 1;
        }
        assert x < CELLS_X ==> !Changed(x, j);
        if start != x {
          RedrawRun(start, x, j, cells);
          redrawn := redrawn + set i | start <= i < x :: (i, j);
        }
        x := x + 1;
      }
    }

    /** Redraw one run, from an unchanged cell or the edge to the next. */
    method RedrawRun(start: int, end: int, j: int, ghost cells: set<(int, int)>)
      requires Shape() && 0 <= start < end <= CELLS_X && 0 <= j < CELLS_Y
      requires AllWellFormed(assets, commands) && PaintsAnyRegion(assets, commands)
      requires forall i | start <= i < end :: (i, j) in cells
      requires (start == 0 || (start - 1, j) !in cells) && (end == CELLS_X || (end, j) !in cells)
      modifies this`color, this`clip, backbuffer, pixels
      ensures forall u, v | OnScreen(u, v) ::
        Shown(u, v) == if v / CELL_SIZE == j && start <= u / CELL_SIZE < end
                       then Channels(Cached(assets, commands, cells, u, v))
                       else old(Shown(u, v))
    {
      var region := RowArea(start, end, j);
      RedrawRegion(region);
      forall u, v | OnScreen(u, v) && region.Has(u, v)
        ensures Replay(assets, commands, |commands|, region, u, v, old(backbuffer[At(u, v)]))
             == Cached(assets, commands, cells, u, v)
      {
        PaintedOverInRegion(assets, commands, region, u, v, old(backbuffer[At(u, v)]));
        RunIs(cells, start, end, u / CELL_SIZE, j);
      }
    }

    method RedrawChanged(ghost cells: set<(int, int)>) returns (ghost redrawn: set<(int, int)>)
      requires Shape() && AllWellFormed(assets, commands) && PaintsAnyRegion(assets, commands) && AreChanged(cells)
      modifies this`color, this`clip, backbuffer, pixels
      ensures redrawn == set i, j | 0 <= i < CELLS_X && 0 <= j < CELLS_Y && (i, j) in cells :: (i, j)
      ensures forall u, v | OnScreen(u, v) ::
        Shown(u, v) == if (u / CELL_SIZE, v / CELL_SIZE) in cells
                       then Channels(Cached(assets, commands, cells, u, v))
                       else old(Shown(u, v))
    {
      redrawn := {};
      for y := 0 to CELLS_Y
        invariant redrawn == set i, j | 0 <= i < CELLS_X && 0 <= j < y && (i, j) in cells :: (i, j)
        invariant forall u, v | OnScreen(u, v) ::
          Shown(u, v) == if v / CELL_SIZE < y && (u / CELL_SIZE, v / CELL_SIZE) in cells
                         then Channels(Cached(assets, commands, cells, u, v))
                         else old(Shown(u, v))
      {
        ghost var row := RedrawRow(y, cells);
        redrawn := redrawn + row;
      }
    }

    method ResetHashes()
      requires Shape()
      modifies hashes1, hashes2
      ensures forall i, j | IsCell(i, j) ::
        hashes2[CellIndex(i, j)] == old(hashes1[CellIndex(i, j)]) && hashes1[CellIndex(i, j)] == 0x811c9dc5
    {
      for k := 0 to CELLS_X * CELLS_Y
        invariant forall m | 0 <= m < CELLS_X * CELLS_Y ::
          if m < k then hashes2[m] == old(hashes1[m]) && hashes1[m] == FNV_INIT
          else hashes1[m] == old(hashes1[m])
      {
        hashes2[k] := hashes1[k];
        hashes1[k] := FNV_INIT;
      }
      forall i, j | IsCell(i, j) ensures 0 <= CellIndex(i, j) < CELLS_X * CELLS_Y {}
    }

    /** The part of the swap that changes the screen. */
    method Repaint() returns (ghost redrawn: set<(int, int)>)
      requires Valid() && PaintsAnyRegion(assets, commands)
      modifies this`color, this`clip, hashes1, backbuffer, pixels
      ensures forall i, j | IsCell(i, j) ::
        hashes1[CellIndex(i, j)] == Chain(assets, Seed(|frames|), commands, |commands|, i, j)
      ensures redrawn == ChangedCells(assets, frames, commands)
      ensures forall u, v | OnScreen(u, v) ::
        Shown(u, v) == if (u / CELL_SIZE, v / CELL_SIZE) in redrawn
                       then Channels(Cached(assets, commands, redrawn, u, v))
                       else old(Shown(u, v))
    {
      ChainHashes();
      ghost var cells := ChangedCells(assets, frames, commands);
      assert AreChanged(cells);
      redrawn := RedrawChanged(cells);
      assert redrawn == cells;
    }

    /** What a swap shows, for any frame that paints whatever region is redrawn: on the cells whose
        hash changed the replay of the frame over their runs, elsewhere what was there. If the frame
        is plain, like the one before it, and no hash collides, that is the plain full redraw. */
    method Swap() returns (ghost redrawn: set<(int, int)>)
      requires Valid() && PaintsAnyRegion(assets, commands)
      modifies this, hashes1, hashes2, backbuffer, pixels
      ensures Valid() && commands == [] && frames == old(frames) + [old(commands)]
      ensures redrawn == ChangedCells(assets, old(frames), old(commands))
      ensures forall u, v | OnScreen(u, v) ::
        Shown(u, v) == if (u / CELL_SIZE, v / CELL_SIZE) in redrawn
                       then Channels(Cached(assets, old(commands), redrawn, u, v))
                       else old(Shown(u, v))
      ensures old(Plain(assets, commands) && NoCollision(assets, frames, commands) &&
                  (frames != [] ==> Plain(assets, frames[|frames|-1]) && Shows(frames[|frames|-1])))
              ==> Shows(old(commands))
    {
      redrawn := Repaint();
      if old(Plain(assets, commands) && NoCollision(assets, frames, commands) &&
             (frames != [] ==> Plain(assets, frames[|frames|-1]) && Shows(frames[|frames|-1])))
      {
        forall u, v | OnScreen(u, v) ensures Shown(u, v) == Channels(FullReplay(assets, commands, u, v, 0)) {
          PlainPixel(assets, frames, commands, u, v);
        }
      }
      commands := [];
      ResetHashes();
      frames := frames + [old(commands)];
    }

    // ---------- the command queue ----------

    /** Every gfxDraw* function appends one command, or drops it when the queue is full. */
    method Enqueue(cmd: Command)
      requires Valid() && WellFormed(assets, cmd)
      modifies this`commands
      ensures Valid()
      ensures commands == if |old(commands)| < 4096 then old(commands) + [cmd] else old(commands)
    {
      if |commands| >= MAX_COMMANDS {
        return;
      }
      commands := commands + [cmd];
    }

    /** gfxDrawClip first cuts the rectangle down to the screen. */
    method DrawClip(area: Area)
      requires Valid()
      modifies this`commands
      ensures Valid()
      ensures |old(commands)| < MAX_COMMANDS ==>
        && |commands| == |old(commands)| + 1 && commands[..|old(commands)|] == old(commands)
        && commands[|old(commands)|].kind.Clip?
        && forall u, v :: commands[|old(commands)|].area.Has(u, v) <==> area.Has(u, v) && OnScreen(u, v)
      ensures |old(commands)| >= MAX_COMMANDS ==> commands == old(commands)
    {
      var r := Intersect(area, SCREEN);
      Enqueue(Command(Clip, 0, 0, r));
    }

    method ShowRun(run: seq<seq<Command>>)
      requires Valid() && commands == [] && frames == []
      requires forall k | 0 <= k < |run| ::
        AllWellFormed(assets, run[k]) && PaintsAnyRegion(assets, run[k]) && |run[k]| <= MAX_COMMANDS
      modifies this, hashes1, hashes2, backbuffer, pixels
      ensures Valid() && frames == run
      ensures forall u, v | OnScreen(u, v) ::
        var m := LastChanged(assets, run, u / CELL_SIZE, v / CELL_SIZE);
        Shown(u, v) == if m >= 0 then Channels(Kept(assets, run, m, u, v)) else old(Shown(u, v))
      ensures run != [] && PlainRun(assets, run) && CollisionFree(assets, run) ==> Shows(run[|run|-1])
    {
      for k := 0 to |run|
        invariant Valid() && commands == [] && frames == run[..k]
        invariant forall u, v | OnScreen(u, v) ::
          var m := LastChanged(assets, run[..k], u / CELL_SIZE, v / CELL_SIZE);
          Shown(u, v) == if m >= 0 then Channels(Kept(assets, run[..k], m, u, v)) else old(Shown(u, v))
        invariant k > 0 && PlainRun(assets, run) && CollisionFree(assets, run) ==> Shows(run[k-1])
      {
        QueueAll(run[k]);
        ghost var redrawn := Swap();
        assert run[..k+1] == run[..k] + [run[k]];
        forall u, v | OnScreen(u, v) { KeptAfter(assets, run[..k], run[k], u, v); }
      }
      assert run[..|run|] == run;
    }

    /** The picture in video memory: three bytes for each pixel, row by row. */
    lemma ColoursShown(cmds: seq<Command>)
      requires Shape() && Shows(cmds)
      ensures pixels.Length == 3 * 1024 * 768
      ensures forall u, v {:trigger At(u, v)} | 0 <= u < 1024 && 0 <= v < 768 ::
        var p := 3 * (u + 1024 * v);
        pixels[p] as bv32 + (pixels[p+1] as bv32 << 8) + (pixels[p+2] as bv32 << 16)
          == FullReplay(assets, cmds, u, v, 0) & 0xFF_FFFF
    {
      hide Channels, FullReplay;
      forall u, v {:trigger At(u, v)} | 0 <= u < 1024 && 0 <= v < 768
        ensures var p := 3 * (u + 1024 * v);
                pixels[p] as bv32 + (pixels[p+1] as bv32 << 8) + (pixels[p+2] as bv32 << 16)
                  == FullReplay(assets, cmds, u, v, 0) & 0xFF_FFFF
      {
        PixelBytes(u, v, FullReplay(assets, cmds, u, v, 0));
      }
    }

    /** Any run of frames that paint whatever region is redrawn, with clip commands or not: a pixel
        shows what the last frame that changed its cell put there. If the frames are plain and no hash
        collides, the screen shows the last frame, whatever came before. */
    method Run(run: seq<seq<Command>>)
      requires Valid() && commands == [] && frames == []
      requires forall k | 0 <= k < |run| ::
        AllWellFormed(assets, run[k]) && PaintsAnyRegion(assets, run[k]) && |run[k]| <= MAX_COMMANDS
      modifies this, hashes1, hashes2, backbuffer, pixels
      ensures Valid() && frames == run
      ensures forall u, v | OnScreen(u, v) ::
        var m := LastChanged(assets, run, u / CELL_SIZE, v / CELL_SIZE);
        Shown(u, v) == if m >= 0 then Channels(Kept(assets, run, m, u, v)) else old(Shown(u, v))
      ensures run != [] && PlainRun(assets, run) && CollisionFree(assets, run) ==> Shows(run[|run|-1])
      ensures pixels.Length == 3 * 1024 * 768
      ensures run != [] && PlainRun(assets, run) && CollisionFree(assets, run) ==>
        forall u, v {:trigger At(u, v)} | 0 <= u < 1024 && 0 <= v < 768 ::
          var p := 3 * (u + 1024 * v);
          pixels[p] as bv32 + (pixels[p+1] as bv32 << 8) + (pixels[p+2] as bv32 << 16)
            == FullReplay(assets, run[|run|-1], u, v, 0) & 0xFF_FFFF
    {
      hide Channels, FullReplay, PlainRun, CollisionFree, LastChanged, Kept;
      ShowRun(run);
      if run != [] && Shows(run[|run|-1]) { ColoursShown(run[|run|-1]); }
    }

    method QueueAll(cmds: seq<Command>)
      requires Valid() && commands == [] && AllWellFormed(assets, cmds) && |cmds| <= MAX_COMMANDS
      modifies this`commands
      ensures Valid() && commands == cmds
    {
      for k := 0 to |cmds|
        invariant Valid() && commands == cmds[..k]
      {
        Enqueue(cmds[k]);
        assert cmds[..k+1] == cmds[..k] + [cmds[k]];
      }
    }
  }
}
