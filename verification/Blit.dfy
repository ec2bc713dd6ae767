/**
 Blitting a chopped surface to the screen, tdune/glSDL.c. Coordinates are whole pixels: the
 texture coordinates of the source, times the texture size.
 */
module Blit {
  import opened Arithmetic
  import opened Chop
  import opened Upload
  import opened Wrappers

  /** A part of the surface, from (x1, y1) up to but not including (x2, y2). */
  datatype Rect = Rect(x1: int, y1: int, x2: int, y2: int)

  /** A textured rectangle: texels (u1, v1) to (u2, v2) drawn on screen at (x1, y1) to (x2, y2). */
  datatype Quad = Quad(tex: int, u1: int, v1: int, u2: int, v2: int, x1: int, y1: int, x2: int, y2: int)

  predicate Inside(l: Layout, r: Rect) {
    0 <= r.x1 <= r.x2 <= l.w && 0 <= r.y1 <= r.y2 <= l.h
  }

  predicate Covers(q: Quad, px: int, py: int) {
    q.x1 <= px < q.x2 && q.y1 <= py < q.y2
  }

  /** The texel a quad shows at a screen point. Coordinates beyond the texture wrap around. */
  function Texel(q: Quad, texsize: int, px: int, py: int): (int, int, int)
    requires texsize >= 1
  {
    (q.tex, (q.u1 + px - q.x1) % texsize, (q.v1 + py - q.y1) % texsize)
  }

  predicate Unscaled(q: Quad) {
    q.u2 - q.u1 == q.x2 - q.x1 && q.v2 - q.v1 == q.y2 - q.y1
  }

  /** The screen points on which the rectangle r of the surface belongs when it is drawn at (dx, dy). */
  predicate InDest(r: Rect, dx: int, dy: int, px: int, py: int) {
    dx <= px < dx + (r.x2 - r.x1) && dy <= py < dy + (r.y2 - r.y1)
  }

  /** Quad k is the only one to cover a screen point, and it shows the texel of that point of the surface. */
  ghost predicate ShowsHome(l: Layout, quads: seq<Quad>, r: Rect, dx: int, dy: int, px: int, py: int, k: int)
    requires l.texsize >= 1 && l.tilespertex >= 1
  {
    && 0 <= k < |quads| && Covers(quads[k], px, py)
    && Texel(quads[k], l.texsize, px, py) == Home(l, r.x1 + px - dx, r.y1 + py - dy)
    && (forall k' :: 0 <= k' < |quads| && Covers(quads[k'], px, py) ==> k' == k)
  }

  ghost predicate Shown(l: Layout, quads: seq<Quad>, r: Rect, dx: int, dy: int, px: int, py: int)
    requires l.texsize >= 1 && l.tilespertex >= 1
  {
    exists k :: ShowsHome(l, quads, r, dx, dy, px, py, k)
  }

  ghost predicate Confined(quads: seq<Quad>, r: Rect, dx: int, dy: int) {
    forall k, px, py :: 0 <= k < |quads| && Covers(quads[k], px, py) ==> InDest(r, dx, dy, px, py)
  }

  /** The quads show the rectangle r of the surface at (dx, dy), point for point, and nothing else. */
  ghost predicate Exact(l: Layout, quads: seq<Quad>, r: Rect, dx: int, dy: int)
    requires l.texsize >= 1 && l.tilespertex >= 1
  {
    && (forall k :: 0 <= k < |quads| ==> Unscaled(quads[k]))
    && Confined(quads, r, dx, dy)
    && (forall px, py :: InDest(r, dx, dy, px, py) ==> Shown(l, quads, r, dx, dy, px, py))
  }

  // ----- a surface in one tile

  method BlitSingle(l: Layout, texture: seq<int>, r: Rect, dx: int, dy: int) returns (quads: seq<Quad>)
    requires WellChopped(l) && l.mode == Single && |texture| == l.textures && Inside(l, r)
    ensures quads == if texture[0] == -1 then [] else [WholeQuad(r, dx, dy)]
  {
    quads := [];
    TileFacts(l);
    if l.textures == 0 || texture[0] == -1 {
      return;
    }
    quads := [Quad(0, r.x1, r.y1, r.x2, r.y2, dx, dy, dx + r.x2 - r.x1, dy + r.y2 - r.y1)];
  }

  function WholeQuad(r: Rect, dx: int, dy: int): Quad {
    Quad(0, r.x1, r.y1, r.x2, r.y2, dx, dy, dx + (r.x2 - r.x1), dy + (r.y2 - r.y1))
  }

  lemma SinglePoint(l: Layout, r: Rect, dx: int, dy: int, px: int, py: int)
    requires WellChopped(l) && l.mode == Single && Inside(l, r) && InDest(r, dx, dy, px, py)
    ensures l.texsize >= 1 && l.tilespertex >= 1
    ensures Texel(WholeQuad(r, dx, dy), l.texsize, px, py) == Home(l, r.x1 + px - dx, r.y1 + py - dy)
  {
    hide IsPow2, CeilDiv, Rows;
    Positive(l);
    ChopBounds(l);
    InBlock(r.x1 + px - dx, l.texsize, 0);
    InBlock(r.y1 + py - dy, l.texsize, 0);
    DivMod(0, l.tilespertex, 0, 0);
  }

  lemma SingleExact(l: Layout, r: Rect, dx: int, dy: int)
    requires WellChopped(l) && l.mode == Single && Inside(l, r)
    ensures l.texsize >= 1 && l.tilespertex >= 1
    ensures Exact(l, [WholeQuad(r, dx, dy)], r, dx, dy)
  {
    hide WellChopped, Texel, Home;
    Positive(l);
    var quads := [WholeQuad(r, dx, dy)];
    forall px, py | InDest(r, dx, dy, px, py) ensures Shown(l, quads, r, dx, dy, px, py) {
      SinglePoint(l, r, dx, dy, px, py);
      assert ShowsHome(l, quads, r, dx, dy, px, py, 0);
    }
  }

  // ----- a surface cut from left to right

  /** What is to be drawn of tile t. */
  function TileQuad(l: Layout, r: Rect, dx: int, dy: int, t: int): Quad
    requires l.tilespertex >= 1
  {
    var size, yo := l.texsize, t % l.tilespertex * l.tileh;
    Quad(t / l.tilespertex, Max(0, r.x1 - t * size), yo + r.y1, Min(size, r.x2 - t * size), yo + r.y2,
         dx + Max(0, t * size - r.x1), dy, dx + (r.x2 - r.x1) - Max(0, r.x2 - t * size - size), dy + (r.y2 - r.y1))
  }

  /** The number of tiles from `first` on that begin before `end`. */
  function TilesBefore(texsize: int, first: int, end: int): (n: nat)
    requires texsize >= 1
    ensures n > 0 ==> (first + n - 1) * texsize < end
    ensures (first + n) * texsize >= end
    decreases end - first * texsize
  {
    if first * texsize >= end then 0
    else
      MulNext(first, texsize);
      1 + TilesBefore(texsize, first + 1, end)
  }

  function TileQuads(l: Layout, r: Rect, dx: int, dy: int): (quads: seq<Quad>)
    requires l.texsize >= 1 && l.tilespertex >= 1
  {
    var first := r.x1 / l.texsize;
    seq(TilesBefore(l.texsize, first, r.x2), i => TileQuad(l, r, dx, dy, first + i))
  }

  lemma TilesBeforeUnique(texsize: int, first: int, end: int, n: nat)
    requires texsize >= 1
    ensures (first + n) * texsize < end <==> n < TilesBefore(texsize, first, end)
  {
    var m := TilesBefore(texsize, first, end);
    if n < m {
      MulMonotone(first + n, first + m - 1, texsize);
    } else {
      MulMonotone(first + m, first + n, texsize);
    }
  }

  /** Tiles left of the end of a rectangle inside the surface are tiles of the surface. */
  lemma TileInside(l: Layout, r: Rect, n: nat)
    requires WellChopped(l) && l.mode == Horizontal && Inside(l, r)
    requires n < TilesBefore(l.texsize, r.x1 / l.texsize, r.x2)
    ensures 0 <= r.x1 / l.texsize + n < Rows(l)
  {
    hide IsPow2, CeilDiv;
    TileFacts(l);
    DivNonNegative(r.x1, l.texsize);
    TilesBeforeUnique(l.texsize, r.x1 / l.texsize, r.x2, n);
    StartsInside(l, r.x1 / l.texsize + n);
  }

  lemma TileQuadWithin(l: Layout, r: Rect, dx: int, dy: int, t: int)
    requires l.tilespertex >= 1
    ensures Unscaled(TileQuad(l, r, dx, dy, t))
    ensures forall px, py :: Covers(TileQuad(l, r, dx, dy, t), px, py) ==> InDest(r, dx, dy, px, py)
  {
  }

  /** A stretch that is clipped to the tile from `base` on covers the points of the tile, each with its own column. */
  lemma ClippedStretch(size: int, base: int, from: int, to: int, at: int, p: int)
    requires at <= p < at + (to - from) && size >= 1
    ensures at + Max(0, base - from) <= p < at + (to - from) - Max(0, to - base - size)
      <==> base <= from + p - at < base + size
    ensures Max(0, from - base) + p - (at + Max(0, base - from)) == from + p - at - base
  {
  }

  lemma HomeAcross(l: Layout, x: int, y: int, t: int)
    requires l.mode == Horizontal && l.texsize >= 1 && l.tilespertex >= 1 && l.tilew == l.texsize && t == x / l.texsize
    ensures Home(l, x, y) == (t / l.tilespertex, x - t * l.texsize, t % l.tilespertex * l.tileh + y)
  {
  }

  /** A point in tile t is covered by the quad of that tile only, and shows its own texel. */
  lemma TilePoint(l: Layout, r: Rect, dx: int, dy: int, px: int, py: int, t: int)
    requires WellChopped(l) && l.mode == Horizontal && Inside(l, r) && 0 <= t < Rows(l)
    requires InDest(r, dx, dy, px, py)
    ensures l.texsize >= 1 && l.tilespertex >= 1
    ensures Covers(TileQuad(l, r, dx, dy, t), px, py) <==> t == (r.x1 + px - dx) / l.texsize
    ensures t == (r.x1 + px - dx) / l.texsize ==>
      Texel(TileQuad(l, r, dx, dy, t), l.texsize, px, py) == Home(l, r.x1 + px - dx, r.y1 + py - dy)
  {
    hide IsPow2, CeilDiv, Rows, WellChopped, Max, Min, Home;
    HorizontalFacts(l);
    SlotFits(l, t);
    var size, x, y, base := l.texsize, r.x1 + px - dx, r.y1 + py - dy, t * l.texsize;
    var yo := t % l.tilespertex * l.tileh;
    MulNext(t, size);
    MulNext(t % l.tilespertex, l.tileh);
    ClippedStretch(size, base, r.x1, r.x2, dx, px);
    InBlock(x, size, t);
    InBlock(yo + y, size, 0);
    InBlock(x - base, size, 0);
    if t == x / size {
      HomeAcross(l, x, y, t);
    }
  }

  lemma HorizontalFacts(l: Layout)
    requires WellChopped(l) && l.mode == Horizontal
    ensures l.texsize >= 1 && l.tilespertex >= 1
    ensures l.tilew == l.texsize && l.tileh == l.h && l.h <= l.texsize
    ensures TileWidth(l) == l.tileh && TileLength(l) == l.texsize
  {
    TileFacts(l);
  }

  lemma PointShown(l: Layout, r: Rect, dx: int, dy: int, px: int, py: int)
    requires WellChopped(l) && l.mode == Horizontal && Inside(l, r) && InDest(r, dx, dy, px, py)
    ensures l.texsize >= 1 && l.tilespertex >= 1
    ensures Shown(l, TileQuads(l, r, dx, dy), r, dx, dy, px, py)
  {
    hide IsPow2, CeilDiv, Rows, WellChopped, TileQuad, Covers, Texel, Home, TilesBefore;
    Positive(l);
    var size, first, x := l.texsize, r.x1 / l.texsize, r.x1 + px - dx;
    var k, quads := x / size - first, TileQuads(l, r, dx, dy);
    DivFacts(x, size);
    DivFacts(r.x1, size);
    assert k >= 0 by {
      if x / size < first { MulMonotone(x / size + 1, first, size); }
    }
    TilesBeforeUnique(size, first, r.x2, k);
    TileInside(l, r, k);
    TilePoint(l, r, dx, dy, px, py, x / size);
    forall k' | 0 <= k' < |quads| && Covers(quads[k'], px, py) ensures k' == k {
      TileInside(l, r, k');
      TilePoint(l, r, dx, dy, px, py, first + k');
    }
    assert ShowsHome(l, quads, r, dx, dy, px, py, k);
  }

  lemma TileQuadsExact(l: Layout, r: Rect, dx: int, dy: int)
    requires WellChopped(l) && l.mode == Horizontal && Inside(l, r)
    ensures l.texsize >= 1 && l.tilespertex >= 1
    ensures Exact(l, TileQuads(l, r, dx, dy), r, dx, dy)
  {
    hide WellChopped, TileQuad, Shown, Unscaled, Covers, InDest;
    Positive(l);
    var quads, first := TileQuads(l, r, dx, dy), r.x1 / l.texsize;
    forall k | 0 <= k < |quads|
      ensures Unscaled(quads[k]) && forall px, py :: Covers(quads[k], px, py) ==> InDest(r, dx, dy, px, py)
    {
      TileQuadWithin(l, r, dx, dy, first + k);
    }
    forall px, py | InDest(r, dx, dy, px, py) ensures Shown(l, quads, r, dx, dy, px, py) {
      PointShown(l, r, dx, dy, px, py);
    }
  }

  /** Before the texture is chosen for tile t: its own slot, or one slot past the end of the texture before. */
  ghost predicate SlotPending(l: Layout, t: int, tex: int, yo: int)
    requires l.tilespertex >= 1
  {
    || (tex == t / l.tilespertex && yo == t % l.tilespertex * l.tileh)
    || (tex + 1 == t / l.tilespertex && t % l.tilespertex == 0 && yo == l.tilespertex * l.tileh)
  }

  lemma SlotChosen(l: Layout, t: int, tex: int, yo: int)
    requires WellChopped(l) && l.mode == Horizontal && 0 <= t < Rows(l)
    requires l.tilespertex >= 1 && SlotPending(l, t, tex, yo)
    ensures var next := yo + l.tileh > l.texsize;
      && (if next then tex + 1 else tex) == t / l.tilespertex
      && (if next then 0 else yo) == t % l.tilespertex * l.tileh
      && 0 <= t / l.tilespertex < l.textures
  {
    hide IsPow2, CeilDiv, Rows, WellChopped;
    HorizontalFacts(l);
    HorizontalSlots(l);
    SlotFits(l, t);
    MulNext(t % l.tilespertex, l.tileh);
    MulNext(l.tilespertex, l.tileh);
  }

  lemma HorizontalSlots(l: Layout)
    requires WellChopped(l) && l.mode == Horizontal
    ensures l.tilespertex >= 1 && (l.tilespertex + 1) * l.tileh > l.texsize
  {
    TileFacts(l);
    ChopBounds(l);
  }

  lemma SlotNext(l: Layout, t: int)
    requires l.tilespertex >= 1
    ensures SlotPending(l, t + 1, t / l.tilespertex, t % l.tilespertex * l.tileh + l.tileh)
  {
    var n := l.tilespertex;
    DivFacts(t, n);
    MulNext(t % n, l.tileh);
    if t % n + 1 < n {
      DivMod(t + 1, n, t / n, t % n + 1);
    } else {
      MulNext(t / n, n);
      DivMod(t + 1, n, t / n + 1, 0);
    }
  }

  /** The first quads are drawn, up to the first one whose texture is missing. */
  ghost predicate DrawnAsFarAsLoaded(quads: seq<Quad>, full: seq<Quad>, texture: seq<int>) {
    && quads <= full
    && (forall i :: 0 <= i < |quads| ==> 0 <= quads[i].tex < |texture| && texture[quads[i].tex] != -1)
    && (|quads| < |full| ==> 0 <= full[|quads|].tex < |texture| && texture[full[|quads|].tex] == -1)
  }

  lemma LoadedDrawsAll(quads: seq<Quad>, full: seq<Quad>, texture: seq<int>)
    requires DrawnAsFarAsLoaded(quads, full, texture) && -1 !in texture
    ensures quads == full
  {
  }

  /** The quad of one tile: the rectangle clipped to the tile on the left and on the right. */
  method ClipAcross(l: Layout, r: Rect, dx: int, dy: int, tile: int, tex: int, yo: int) returns (quad: Quad)
    requires l.texsize >= 1 && l.tilespertex >= 1
    requires tex == tile / l.tilespertex && yo == tile % l.tilespertex * l.tileh
    ensures quad == TileQuad(l, r, dx, dy, tile)
  {
    var dx2, dy2 := dx + (r.x2 - r.x1), dy + (r.y2 - r.y1);
    var thisx1, thisx2 := r.x1 - tile * l.texsize, r.x2 - tile * l.texsize;
    var thisdx1, thisdx2 := dx, dx2;
    if thisx1 < 0 {
      thisdx1 := dx - thisx1;
      thisx1 := 0;
    }
    if thisx2 > l.texsize {
      thisdx2 := dx2 - (thisx2 - l.texsize);
      thisx2 := l.texsize;
    }
    quad := Quad(tex, thisx1, yo + r.y1, thisx2, yo + r.y2, thisdx1, dy, thisdx2, dy2);
  }

  /** The next quad to draw, and its texture. */
  lemma NextAcross(l: Layout, r: Rect, dx: int, dy: int, n: nat)
    requires WellChopped(l) && l.mode == Horizontal && Inside(l, r)
    ensures l.texsize >= 1 && l.tilespertex >= 1
    ensures var full, t := TileQuads(l, r, dx, dy), r.x1 / l.texsize + n;
      && t >= 0 && (n < |full| <==> t * l.texsize < r.x2)
      && (n < |full| ==> t < Rows(l) && full[n] == TileQuad(l, r, dx, dy, t) && full[n].tex == t / l.tilespertex)
      && (n < |full| ==> 0 <= t / l.tilespertex < l.textures)
  {
    hide IsPow2, CeilDiv, Rows, WellChopped, TilesBefore;
    Positive(l);
    var first := r.x1 / l.texsize;
    DivNonNegative(r.x1, l.texsize);
    TilesBeforeUnique(l.texsize, first, r.x2, n);
    if n < |TileQuads(l, r, dx, dy)| {
      TileInside(l, r, n);
      SlotFits(l, first + n);
    }
  }

  method BlitHorizontal(l: Layout, texture: seq<int>, r: Rect, dx: int, dy: int) returns (quads: seq<Quad>)
    requires WellChopped(l) && l.mode == Horizontal && |texture| == l.textures && Inside(l, r)
    ensures l.texsize >= 1 && l.tilespertex >= 1
    ensures DrawnAsFarAsLoaded(quads, TileQuads(l, r, dx, dy), texture)
  {
    hide IsPow2, CeilDiv, Rows, WellChopped, SlotPending, TilesBefore, TileQuads, TileQuad;
    Positive(l);
    quads := [];
    var tile := r.x1 / l.texsize;
    ghost var first, full := tile, TileQuads(l, r, dx, dy);
    var tex, yo := tile / l.tilespertex, tile % l.tilespertex * l.tileh;
    FirstPending(l, tile);
    NextAcross(l, r, dx, dy, 0);
    DivNonNegative(tile, l.tilespertex);
    if tex >= l.textures || texture[tex] == -1 {
      return;
    }
    while true
      invariant tile == first + |quads| && |quads| <= |full| && tile >= 0
      invariant forall i :: 0 <= i < |quads| ==>
        quads[i] == full[i] && 0 <= quads[i].tex < |texture| && texture[quads[i].tex] != -1
      invariant SlotPending(l, tile, tex, yo)
      invariant 0 <= tex < l.textures && texture[tex] != -1
      decreases |full| - |quads|
    {
      NextAcross(l, r, dx, dy, |quads|);
      if tile * l.texsize >= r.x2 {
        break;
      }
      SlotChosen(l, tile, tex, yo);
      if yo + l.tileh > l.texsize {
        tex := tex + 1;
        if tex >= l.textures || texture[tex] == -1 {
          return;
        }
        yo := 0;
      }
      var quad := ClipAcross(l, r, dx, dy, tile, tex, yo);
      quads := quads + [quad];
      SlotNext(l, tile);
      tile := tile + 1;
      yo := yo + l.tileh;
    }
  }

  lemma FirstPending(l: Layout, t: int)
    requires l.tilespertex >= 1
    ensures SlotPending(l, t, t / l.tilespertex, t % l.tilespertex * l.tileh)
  {
  }

  // ----- from the surface to the screen

  /** What a screen point shows after the quads are drawn, when the uploading calls have filled the textures. */
  function Screen<P>(quads: seq<Quad>, calls: seq<SubImage>, image: (int, int) -> P, texsize: int, px: int,
                     py: int): Option<P>
    requires texsize >= 1
  {
    if quads == [] then None
    else
      var q := quads[|quads| - 1];
      if Covers(q, px, py) then
        var (tex, u, v) := Texel(q, texsize, px, py);
        Stored(calls, image, tex, u, v)
      else Screen(quads[..|quads| - 1], calls, image, texsize, px, py)
  }

  lemma {:induction false} ScreenAt<P>(quads: seq<Quad>, calls: seq<SubImage>, image: (int, int) -> P, texsize: int,
                                       px: int, py: int, k: nat)
    requires texsize >= 1 && k < |quads| && Covers(quads[k], px, py)
    requires forall k' :: 0 <= k' < |quads| && Covers(quads[k'], px, py) ==> k' == k
    ensures var (tex, u, v) := Texel(quads[k], texsize, px, py);
      Screen(quads, calls, image, texsize, px, py) == Stored(calls, image, tex, u, v)
    decreases |quads|
  {
    if k < |quads| - 1 {
      ScreenAt(quads[..|quads| - 1], calls, image, texsize, px, py, k);
    }
  }

  lemma {:induction false} ScreenNowhere<P>(quads: seq<Quad>, calls: seq<SubImage>, image: (int, int) -> P,
                                            texsize: int, px: int, py: int)
    requires texsize >= 1
    requires forall k :: 0 <= k < |quads| ==> !Covers(quads[k], px, py)
    ensures Screen(quads, calls, image, texsize, px, py) == None
    decreases |quads|
  {
    if quads != [] {
      ScreenNowhere(quads[..|quads| - 1], calls, image, texsize, px, py);
    }
  }

  /** Uploading a surface and drawing exact quads puts every point of the rectangle on the screen
      where it belongs, and changes no other screen point. */
  lemma UploadThenBlit<P>(l: Layout, image: (int, int) -> P, quads: seq<Quad>, r: Rect, dx: int, dy: int, px: int,
                          py: int)
    requires WellChopped(l) && Inside(l, r)
    requires l.texsize >= 1 && l.tilespertex >= 1 && Rows(l) >= 0 && Exact(l, quads, r, dx, dy)
    ensures Screen(quads, StripsOf(l, 0, Rows(l)), image, l.texsize, px, py) ==
      if InDest(r, dx, dy, px, py) then Some(image(r.x1 + px - dx, r.y1 + py - dy)) else None
  {
    hide WellChopped, Texel, Home, Stored, Screen, StripsOf, Rows;
    if InDest(r, dx, dy, px, py) {
      assert Shown(l, quads, r, dx, dy, px, py);
      var k :| ShowsHome(l, quads, r, dx, dy, px, py, k);
      ScreenAt(quads, StripsOf(l, 0, Rows(l)), image, l.texsize, px, py, k);
      UploadRoundTrip(l, image, r.x1 + px - dx, r.y1 + py - dy);
    } else {
      ScreenNowhere(quads, StripsOf(l, 0, Rows(l)), image, l.texsize, px, py);
    }
  }
}
