/** The blit of a surface that is cut from top to bottom, and when it is right. */
module BlitDown {
  import opened Arithmetic
  import opened Chop
  import opened Upload
  import opened Blit
  import opened Wrappers

  /** The texture that the blit takes for tile t: it looks where the last column of the tile would
      be if tiles were packed without regard to texture borders. */
  function SourceTex(l: Layout, t: int): int
    requires l.texsize >= 1
  {
    (t * l.tilew + l.tilew - 1) / l.texsize
  }

  /** The quad of tile t, read from column xo of texture tex. */
  function DownQuad(l: Layout, r: Rect, dx: int, dy: int, t: int, tex: int, xo: int): Quad {
    var size := l.texsize;
    Quad(tex, xo + r.x1, Max(0, r.y1 - t * size), xo + r.x2, Min(size, r.y2 - t * size),
         dx, dy + Max(0, t * size - r.y1), dx + (r.x2 - r.x1), dy + (r.y2 - r.y1) - Max(0, r.y2 - t * size - size))
  }

  /** The quads from tile t on: the column starts over only where the texture changes. */
  function DownQuads(l: Layout, r: Rect, dx: int, dy: int, t: int, tex: int, xo: int): seq<Quad>
    requires l.texsize >= 1
    decreases r.y2 - t * l.texsize
  {
    if t * l.texsize >= r.y2 then []
    else
      MulNext(t, l.texsize);
      var tex' := SourceTex(l, t);
      var xo' := if tex' != tex then 0 else xo;
      [DownQuad(l, r, dx, dy, t, tex', xo')] + DownQuads(l, r, dx, dy, t + 1, tex', xo' + l.tilew)
  }

  function AllDownQuads(l: Layout, r: Rect, dx: int, dy: int): seq<Quad>
    requires l.texsize >= 1
  {
    var first := r.y1 / l.texsize;
    DownQuads(l, r, dx, dy, first, SourceTex(l, first), first * l.tilew)
  }

  lemma VerticalFacts(l: Layout)
    requires WellChopped(l) && l.mode == Vertical
    ensures l.texsize >= 1 && l.tilespertex >= 1
    ensures l.tileh == l.texsize && l.tilew == l.w && 1 <= l.w <= l.texsize
    ensures l.tilespertex == l.texsize / l.tilew && l.tilespertex * l.tilew <= l.texsize
    ensures TileWidth(l) == l.tilew && TileLength(l) == l.texsize && Length(l) == l.h
    ensures Rows(l) > 1
  {
    TileFacts(l);
    ChopBounds(l);
  }

  lemma TileDownInside(l: Layout, r: Rect, t: int)
    requires WellChopped(l) && l.mode == Vertical && Inside(l, r)
    requires r.y1 / l.texsize <= t && t * l.texsize < r.y2
    ensures 0 <= t < Rows(l)
  {
    hide IsPow2, CeilDiv, WellChopped, Rows;
    VerticalFacts(l);
    DivNonNegative(r.y1, l.texsize);
    StartsInside(l, t);
  }

  lemma LastColumnBelow(t: int, f: int, n: int, textures: int, size: int)
    requires 0 <= t < textures * n && f >= 1 && n * f <= size && textures >= 0
    ensures 0 <= t * f + f - 1 < textures * size
  {
    MulNext(t, f);
    MulMonotone(0, t, f);
    MulMonotone(t + 1, textures * n, f);
    assert textures * n * f == textures * (n * f);
    MulMonotone(n * f, size, textures);
  }

  lemma SourceTexInRange(l: Layout, t: int)
    requires WellChopped(l) && l.mode == Vertical && 0 <= t < Rows(l)
    ensures 0 <= SourceTex(l, t) < l.textures
  {
    hide IsPow2, CeilDiv, WellChopped, Rows;
    VerticalFacts(l);
    ChopBounds(l);
    LastColumnBelow(t, l.tilew, l.tilespertex, l.textures, l.texsize);
    DivNonNegative(t * l.tilew + l.tilew - 1, l.texsize);
    QuotientBelow(t * l.tilew + l.tilew - 1, l.texsize, l.textures);
  }

  // ----- the loop

  method ClipDown(l: Layout, r: Rect, dx: int, dy: int, tile: int, tex: int, xo: int) returns (quad: Quad)
    requires l.texsize >= 1
    ensures quad == DownQuad(l, r, dx, dy, tile, tex, xo)
  {
    var dx2, dy2 := dx + (r.x2 - r.x1), dy + (r.y2 - r.y1);
    var thisy1, thisy2 := r.y1 - tile * l.texsize, r.y2 - tile * l.texsize;
    var thisdy1, thisdy2 := dy, dy2;
    if thisy1 < 0 {
      thisdy1 := dy - thisy1;
      thisy1 := 0;
    }
    if thisy2 > l.texsize {
      thisdy2 := dy2 - (thisy2 - l.texsize);
      thisy2 := l.texsize;
    }
    quad := Quad(tex, xo + r.x1, thisy1, xo + r.x2, thisy2, dx, thisdy1, dx2, thisdy2);
  }

  /** Some of the quads are drawn, their textures are there, and the rest is still to come. */
  ghost predicate Drawing(quads: seq<Quad>, rest: seq<Quad>, full: seq<Quad>, texture: seq<int>) {
    && full == quads + rest
    && forall i :: 0 <= i < |quads| ==> 0 <= quads[i].tex < |texture| && texture[quads[i].tex] != -1
  }

  lemma DrawingStarts(full: seq<Quad>, texture: seq<int>)
    ensures Drawing([], full, full, texture)
  {
  }

  lemma DrawingNext(quads: seq<Quad>, q: Quad, rest: seq<Quad>, full: seq<Quad>, texture: seq<int>)
    requires Drawing(quads, [q] + rest, full, texture) && 0 <= q.tex < |texture|
    ensures texture[q.tex] != -1 ==> Drawing(quads + [q], rest, full, texture)
    ensures texture[q.tex] == -1 ==> DrawnAsFarAsLoaded(quads, full, texture)
  {
    assert quads + ([q] + rest) == (quads + [q]) + rest;
  }

  lemma DrawingEnds(quads: seq<Quad>, full: seq<Quad>, texture: seq<int>)
    requires Drawing(quads, [], full, texture)
    ensures DrawnAsFarAsLoaded(quads, full, texture)
  {
  }

  /** The next quad, if there is one, and the texture it is read from. */
  lemma NextDown(l: Layout, r: Rect, dx: int, dy: int, t: int, tex: int, xo: int)
    requires WellChopped(l) && l.mode == Vertical && Inside(l, r) && l.texsize >= 1 && r.y1 / l.texsize <= t
    ensures var rest := DownQuads(l, r, dx, dy, t, tex, xo);
      if t * l.texsize >= r.y2 then rest == []
      else
        var tex' := (t * l.tilew + l.tilew - 1) / l.texsize;
        var xo' := if tex' != tex then 0 else xo;
        && 0 <= tex' < l.textures
        && rest == [DownQuad(l, r, dx, dy, t, tex', xo')] + DownQuads(l, r, dx, dy, t + 1, tex', xo' + l.tilew)
  {
    hide IsPow2, CeilDiv, Rows, WellChopped, Inside, DownQuad;
    if t * l.texsize < r.y2 {
      TileDownInside(l, r, t);
      SourceTexInRange(l, t);
    }
  }

  lemma QuadTex(l: Layout, r: Rect, dx: int, dy: int, t: int, tex: int, xo: int)
    ensures DownQuad(l, r, dx, dy, t, tex, xo).tex == tex
  {
  }

  method BlitVertical(l: Layout, texture: seq<int>, r: Rect, dx: int, dy: int) returns (quads: seq<Quad>)
    requires WellChopped(l) && l.mode == Vertical && |texture| == l.textures && Inside(l, r)
    ensures l.texsize >= 1
    ensures DrawnAsFarAsLoaded(quads, AllDownQuads(l, r, dx, dy), texture)
  {
    hide *;
    VerticalFacts(l);
    quads := [];
    var tile := r.y1 / l.texsize;
    var xo := tile * l.tilew;
    var tex := (tile * l.tilew + l.tilew - 1) / l.texsize;
    ghost var full := AllDownQuads(l, r, dx, dy);
    StartDown(l, r, dx, dy);
    ghost var rest := full;
    NextDown(l, r, dx, dy, tile, tex, xo);
    DrawingStarts(full, texture);
    if tex >= l.textures || texture[tex] == -1 {
      if rest == [] {
        DrawingEnds([], full, texture);
      } else {
        QuadTex(l, r, dx, dy, tile, tex, xo);
        DrawingNext([], DownQuad(l, r, dx, dy, tile, tex, xo), DownQuads(l, r, dx, dy, tile + 1, tex, xo + l.tilew),
                    full, texture);
      }
      return;
    }
    while true
      invariant r.y1 / l.texsize <= tile && rest == DownQuads(l, r, dx, dy, tile, tex, xo)
      invariant Drawing(quads, rest, full, texture)
      invariant 0 <= tex < l.textures && texture[tex] != -1
      decreases |rest|
    {
      NextDown(l, r, dx, dy, tile, tex, xo);
      if tile * l.texsize >= r.y2 {
        DrawingEnds(quads, full, texture);
        break;
      }
      var newtex := (tile * l.tilew + l.tilew - 1) / l.texsize;
      ghost var xo' := if newtex != tex then 0 else xo;
      ghost var later := DownQuads(l, r, dx, dy, tile + 1, newtex, xo' + l.tilew);
      QuadTex(l, r, dx, dy, tile, newtex, xo');
      DrawingNext(quads, DownQuad(l, r, dx, dy, tile, newtex, xo'), later, full, texture);
      if newtex != tex {
        tex := newtex;
        if tex >= l.textures || texture[tex] == -1 {
          return;
        }
        xo := 0;
      }
      var quad := ClipDown(l, r, dx, dy, tile, tex, xo);
      quads := quads + [quad];
      rest := later;
      tile := tile + 1;
      xo := xo + l.tilew;
    }
  }

  /** Before the loop the texture and the column are computed for the first tile. */
  lemma StartDown(l: Layout, r: Rect, dx: int, dy: int)
    requires WellChopped(l) && l.mode == Vertical && Inside(l, r) && l.texsize >= 1
    ensures var first := r.y1 / l.texsize;
      var tex := (first * l.tilew + l.tilew - 1) / l.texsize;
      AllDownQuads(l, r, dx, dy) == DownQuads(l, r, dx, dy, first, tex, first * l.tilew) && tex >= 0
  {
    hide IsPow2, CeilDiv, Rows, WellChopped, DownQuads;
    VerticalFacts(l);
    DivNonNegative(r.y1, l.texsize);
    MulMonotone(0, r.y1 / l.texsize, l.tilew);
    DivNonNegative(r.y1 / l.texsize * l.tilew + l.tilew - 1, l.texsize);
  }

  // ----- what the texture arithmetic gives

  /** How many columns a texture has left over behind its slots. */
  function Gap(l: Layout): int
    requires l.tilew >= 1
  {
    l.texsize % l.tilew
  }

  lemma GapFacts(l: Layout)
    requires WellChopped(l) && l.mode == Vertical
    ensures l.texsize >= 1 && l.tilespertex >= 1 && l.tilew >= 1
    ensures l.texsize == l.tilespertex * l.tilew + Gap(l) && 0 <= Gap(l) < l.tilew
  {
    hide IsPow2, CeilDiv, WellChopped, Rows;
    VerticalFacts(l);
    DivFacts(l.texsize, l.tilew);
  }

  /** The columns of tile t, from the start of texture t / n: each texture before has left a gap. */
  lemma ColumnsPassed(t: int, n: int, f: int, size: int, gap: int)
    requires n >= 1 && size == n * f + gap
    ensures t * f == t / n * size + (t % n * f - t / n * gap)
  {
    DivFacts(t, n);
    var a, slot := t / n, t % n;
    assert t * f == a * n * f + slot * f;
    assert a * n * f == a * (n * f);
    assert a * size == a * (n * f) + a * gap;
  }

  /** The texture is right as long as the gaps that have been passed do not make up a tile. */
  lemma TextureRight(l: Layout, t: int)
    requires WellChopped(l) && l.mode == Vertical && 0 <= t < Rows(l) && l.tilew >= 1 && l.tilespertex >= 1
    requires t / l.tilespertex * Gap(l) < l.tilew
    ensures SourceTex(l, t) == t / l.tilespertex
  {
    hide IsPow2, CeilDiv, WellChopped, Rows, Gap;
    VerticalFacts(l);
    GapFacts(l);
    SlotFits(l, t);
    var n, f, size, gap, a, slot := l.tilespertex, l.tilew, l.texsize, Gap(l), t / l.tilespertex, t % l.tilespertex;
    ColumnsPassed(t, n, f, size, gap);
    MulNext(slot, f);
    MulMonotone(0, gap, a);
    DivMod(t * f + f - 1, size, a, slot * f - a * gap + f - 1);
  }

  /** The first tile of a texture is looked for in a texture before when they do. */
  lemma TextureWrong(l: Layout, a: int)
    requires WellChopped(l) && l.mode == Vertical && a >= 0 && l.tilew >= 1 && a * Gap(l) >= l.tilew
    ensures l.texsize >= 1 && SourceTex(l, a * l.tilespertex) < a
  {
    hide IsPow2, CeilDiv, WellChopped, Rows, Gap;
    GapFacts(l);
    var n, f, size := l.tilespertex, l.tilew, l.texsize;
    DivMod(a * n, n, a, 0);
    ColumnsPassed(a * n, n, f, size, Gap(l));
    QuotientBelow(a * n * f + f - 1, size, a);
  }

  /** The column in which the blit starts is that of tile t if the tile is in the first texture or there is no gap. */
  lemma StartRight(l: Layout, t: int)
    requires WellChopped(l) && l.mode == Vertical && 0 <= t < Rows(l) && l.tilew >= 1 && l.tilespertex >= 1
    requires Gap(l) == 0 || t < l.tilespertex
    ensures l.texsize >= 1 && t * l.tilew % l.texsize == t % l.tilespertex * l.tilew
  {
    hide IsPow2, CeilDiv, WellChopped, Rows, Gap;
    VerticalFacts(l);
    GapFacts(l);
    SlotFits(l, t);
    var n, f, size, a, slot := l.tilespertex, l.tilew, l.texsize, t / l.tilespertex, t % l.tilespertex;
    ColumnsPassed(t, n, f, size, Gap(l));
    MulNext(slot, f);
    if t < n {
      DivMod(t, n, 0, t);
    }
    DivMod(t * f, size, a, slot * f);
  }

  /** In a later texture behind a gap, texture and column are not both right. */
  lemma StartWrong(l: Layout, t: int, x: int)
    requires WellChopped(l) && l.mode == Vertical && l.tilew >= 1 && Gap(l) > 0
    requires l.tilespertex <= t < Rows(l) && 0 <= x < l.tilew
    ensures l.texsize >= 1 && l.tilespertex >= 1
    ensures SourceTex(l, t) == t / l.tilespertex ==> (t * l.tilew + x) % l.texsize != t % l.tilespertex * l.tilew + x
  {
    hide IsPow2, CeilDiv, WellChopped, Rows, Gap;
    VerticalFacts(l);
    GapFacts(l);
    SlotFits(l, t);
    var n, f, size, gap, a, slot := l.tilespertex, l.tilew, l.texsize, Gap(l), t / l.tilespertex, t % l.tilespertex;
    assert a >= 1 by {
      if a <= 0 { MulMonotone(a, 0, n); }
    }
    ColumnsPassed(t, n, f, size, gap);
    MulNext(slot, f);
    MulAtLeast(a, gap);
    if SourceTex(l, t) == a {
      DivFacts(t * f + f - 1, size);
      var c := slot * f + x - a * gap;
      if c >= 0 {
        DivMod(t * f + x, size, a, c);
      } else {
        MulNext(a - 1, size);
        DivMod(t * f + x, size, a - 1, c + size);
      }
    }
  }

  // ----- the quads that are right

  /** The quad of tile t shows the slot of the tile, up to wrapping. */
  predicate Aligned(l: Layout, r: Rect, dx: int, dy: int, q: Quad, t: int)
    requires l.texsize >= 1 && l.tilespertex >= 1
  {
    && q == DownQuad(l, r, dx, dy, t, q.tex, q.u1 - r.x1)
    && q.tex == t / l.tilespertex
    && (q.u1 - r.x1) % l.texsize == t % l.tilespertex * l.tilew
  }

  /** The tiles from t on under a rectangle are looked for in their textures. */
  ghost predicate TexturesRight(l: Layout, t: int, end: int)
    requires l.texsize >= 1 && l.tilespertex >= 1
  {
    forall t' :: t <= t' && t' * l.texsize < end ==> SourceTex(l, t') == t' / l.tilespertex
  }

  lemma NextColumn(l: Layout, t: int, xo: int)
    requires WellChopped(l) && l.mode == Vertical && 0 <= t && t + 1 < Rows(l)
    requires l.texsize >= 1 && l.tilespertex >= 1 && xo % l.texsize == t % l.tilespertex * l.tilew
    ensures if (t + 1) / l.tilespertex != t / l.tilespertex then (t + 1) % l.tilespertex == 0
            else (xo + l.tilew) % l.texsize == (t + 1) % l.tilespertex * l.tilew
  {
    hide IsPow2, CeilDiv, WellChopped, Rows;
    VerticalFacts(l);
    SlotFits(l, t + 1);
    var n, slot := l.tilespertex, t % l.tilespertex;
    DivFacts(t, n);
    DivFacts(xo, l.texsize);
    if slot + 1 < n {
      DivMod(t + 1, n, t / n, slot + 1);
      MulNext(slot, l.tilew);
      MulNext(slot + 1, l.tilew);
      MulMonotone(0, slot, l.tilew);
      DivMod(xo + l.tilew, l.texsize, xo / l.texsize, (slot + 1) * l.tilew);
    } else {
      MulNext(t / n, n);
      DivMod(t + 1, n, t / n + 1, 0);
    }
  }

  lemma HeadAligned(l: Layout, r: Rect, dx: int, dy: int, t: int, xo: int)
    requires l.texsize >= 1 && l.tilespertex >= 1 && SourceTex(l, t) == t / l.tilespertex
    requires xo % l.texsize == t % l.tilespertex * l.tilew
    ensures Aligned(l, r, dx, dy, DownQuad(l, r, dx, dy, t, SourceTex(l, t), xo), t)
  {
  }

  lemma {:induction false} DownQuadsAligned(l: Layout, r: Rect, dx: int, dy: int, t: int, tex: int, xo: int)
    requires WellChopped(l) && l.mode == Vertical && Inside(l, r)
    requires l.texsize >= 1 && l.tilespertex >= 1 && r.y1 / l.texsize <= t && TexturesRight(l, t, r.y2)
    requires t * l.texsize < r.y2 ==>
      if SourceTex(l, t) != tex then t % l.tilespertex == 0 else xo % l.texsize == t % l.tilespertex * l.tilew
    ensures var quads := DownQuads(l, r, dx, dy, t, tex, xo);
      && |quads| == TilesBefore(l.texsize, t, r.y2)
      && forall k :: 0 <= k < |quads| ==> Aligned(l, r, dx, dy, quads[k], t + k)
    decreases r.y2 - t * l.texsize
  {
    hide IsPow2, CeilDiv, WellChopped, Rows, SourceTex, Inside, Aligned, DownQuad;
    if t * l.texsize < r.y2 {
      TileDownInside(l, r, t);
      MulNext(t, l.texsize);
      var tex' := SourceTex(l, t);
      var xo' := if tex' != tex then 0 else xo;
      InBlock(0, l.texsize, 0);
      HeadAligned(l, r, dx, dy, t, xo');
      if (t + 1) * l.texsize < r.y2 {
        TileDownInside(l, r, t + 1);
        NextColumn(l, t, xo');
      }
      DownQuadsAligned(l, r, dx, dy, t + 1, tex', xo' + l.tilew);
      var quads, rest := DownQuads(l, r, dx, dy, t, tex, xo), DownQuads(l, r, dx, dy, t + 1, tex', xo' + l.tilew);
      assert quads == [DownQuad(l, r, dx, dy, t, tex', xo')] + rest;
      forall k | 0 <= k < |quads| ensures Aligned(l, r, dx, dy, quads[k], t + k) {
        if k > 0 {
          assert quads[k] == rest[k - 1];
          assert Aligned(l, r, dx, dy, rest[k - 1], t + 1 + (k - 1));
        }
      }
    }
  }

  /** Right or wrong, there is a quad for each tile under the rectangle. */
  ghost predicate OfTile(l: Layout, r: Rect, dx: int, dy: int, q: Quad, t: int)
    requires l.texsize >= 1
  {
    q == DownQuad(l, r, dx, dy, t, q.tex, q.u1 - r.x1) && q.tex == SourceTex(l, t)
  }

  lemma {:induction false} DownQuadsOfTiles(l: Layout, r: Rect, dx: int, dy: int, t: int, tex: int, xo: int)
    requires l.texsize >= 1
    ensures var quads := DownQuads(l, r, dx, dy, t, tex, xo);
      && |quads| == TilesBefore(l.texsize, t, r.y2)
      && forall k :: 0 <= k < |quads| ==> OfTile(l, r, dx, dy, quads[k], t + k)
    decreases r.y2 - t * l.texsize
  {
    hide SourceTex;
    if t * l.texsize < r.y2 {
      MulNext(t, l.texsize);
      var tex' := SourceTex(l, t);
      var xo' := if tex' != tex then 0 else xo;
      DownQuadsOfTiles(l, r, dx, dy, t + 1, tex', xo' + l.tilew);
      var quads, rest := DownQuads(l, r, dx, dy, t, tex, xo), DownQuads(l, r, dx, dy, t + 1, tex', xo' + l.tilew);
      assert quads == [DownQuad(l, r, dx, dy, t, tex', xo')] + rest;
      forall k | 0 <= k < |quads| ensures OfTile(l, r, dx, dy, quads[k], t + k) {
        if k > 0 {
          assert quads[k] == rest[k - 1];
          assert OfTile(l, r, dx, dy, rest[k - 1], t + 1 + (k - 1));
        }
      }
    }
  }

  lemma DownQuadWithin(l: Layout, r: Rect, dx: int, dy: int, t: int, tex: int, xo: int)
    ensures Unscaled(DownQuad(l, r, dx, dy, t, tex, xo))
    ensures forall px, py :: Covers(DownQuad(l, r, dx, dy, t, tex, xo), px, py) ==> InDest(r, dx, dy, px, py)
  {
  }

  /** A point in tile t is covered by the quad of that tile only. */
  lemma DownCovers(l: Layout, r: Rect, dx: int, dy: int, px: int, py: int, q: Quad, t: int)
    requires l.texsize >= 1 && q == DownQuad(l, r, dx, dy, t, q.tex, q.u1 - r.x1)
    requires InDest(r, dx, dy, px, py)
    ensures Covers(q, px, py) <==> t == (r.y1 + py - dy) / l.texsize
  {
    MulNext(t, l.texsize);
    InBlock(r.y1 + py - dy, l.texsize, t);
  }

  /** And it shows its own texel there when it is aligned. */
  lemma DownPoint(l: Layout, r: Rect, dx: int, dy: int, px: int, py: int, q: Quad, t: int)
    requires WellChopped(l) && l.mode == Vertical && Inside(l, r) && 0 <= t < Rows(l)
    requires InDest(r, dx, dy, px, py)
    requires l.texsize >= 1 && l.tilespertex >= 1 && Aligned(l, r, dx, dy, q, t) && t == (r.y1 + py - dy) / l.texsize
    ensures Texel(q, l.texsize, px, py) == Home(l, r.x1 + px - dx, r.y1 + py - dy)
  {
    hide IsPow2, CeilDiv, Rows, WellChopped;
    VerticalFacts(l);
    SlotFits(l, t);
    var size, x, y, xo := l.texsize, r.x1 + px - dx, r.y1 + py - dy, q.u1 - r.x1;
    var slot := t % l.tilespertex;
    MulNext(t, size);
    MulNext(slot, l.tilew);
    InBlock(y, size, t);
    InBlock(y - t * size, size, 0);
    DivFacts(xo, size);
    DivMod(xo + x, size, xo / size, slot * l.tilew + x);
  }

  /** A point of the rectangle is covered by exactly one quad, that of its tile. */
  lemma OneQuad(l: Layout, r: Rect, dx: int, dy: int, px: int, py: int) returns (k: nat)
    requires WellChopped(l) && l.mode == Vertical && Inside(l, r) && InDest(r, dx, dy, px, py)
    ensures l.texsize >= 1
    ensures var quads, t := AllDownQuads(l, r, dx, dy), (r.y1 + py - dy) / l.texsize;
      && k < |quads| && t == r.y1 / l.texsize + k && 0 <= t < Rows(l) && t * l.texsize < r.y2
      && OfTile(l, r, dx, dy, quads[k], t) && Covers(quads[k], px, py)
      && forall k' :: 0 <= k' < |quads| && Covers(quads[k'], px, py) ==> k' == k
  {
    hide IsPow2, CeilDiv, Rows, WellChopped, DownQuad, Covers, DownQuads, SourceTex, TilesBefore;
    VerticalFacts(l);
    var size, first, y := l.texsize, r.y1 / l.texsize, r.y1 + py - dy;
    var quads := AllDownQuads(l, r, dx, dy);
    DownQuadsOfTiles(l, r, dx, dy, first, SourceTex(l, first), first * l.tilew);
    DivFacts(y, size);
    DivFacts(r.y1, size);
    if y / size < first { MulMonotone(y / size + 1, first, size); }
    k := y / size - first;
    TilesBeforeUnique(size, first, r.y2, k);
    TileDownInside(l, r, first + k);
    DownCovers(l, r, dx, dy, px, py, quads[k], first + k);
    forall k' | 0 <= k' < |quads| && Covers(quads[k'], px, py) ensures k' == k {
      assert OfTile(l, r, dx, dy, quads[k'], first + k');
      DownCovers(l, r, dx, dy, px, py, quads[k'], first + k');
    }
  }

  lemma {:induction false} ColumnsFollow(l: Layout, r: Rect, dx: int, dy: int, t: int, tex: int, xo: int, k: nat)
    requires l.texsize >= 1 && k < |DownQuads(l, r, dx, dy, t, tex, xo)|
    ensures var quads := DownQuads(l, r, dx, dy, t, tex, xo);
      && quads[k].tex == SourceTex(l, t + k)
      && quads[k].u1 - r.x1 ==
           (if k == 0 then (if quads[0].tex != tex then 0 else xo)
            else if quads[k].tex != quads[k - 1].tex then 0 else quads[k - 1].u1 - r.x1 + l.tilew)
    decreases r.y2 - t * l.texsize
  {
    hide SourceTex;
    MulNext(t, l.texsize);
    var tex' := SourceTex(l, t);
    var xo' := if tex' != tex then 0 else xo;
    var quads, rest := DownQuads(l, r, dx, dy, t, tex, xo), DownQuads(l, r, dx, dy, t + 1, tex', xo' + l.tilew);
    assert quads == [DownQuad(l, r, dx, dy, t, tex', xo')] + rest;
    if k > 0 {
      ColumnsFollow(l, r, dx, dy, t + 1, tex', xo' + l.tilew, k - 1);
      assert quads[k] == rest[k - 1];
      if k > 1 {
        assert quads[k - 1] == rest[k - 2];
      }
    }
  }

  /** Right or wrong, what is read at a point of the rectangle: the texture in which the last column of its tile would
      be without gaps, and there the column of the tile before moved on by a tile, from the start again in another
      texture. The first tile is read from where it would begin without gaps and without texture borders. */
  lemma ReadAt(l: Layout, r: Rect, dx: int, dy: int, px: int, py: int) returns (k: nat)
    requires WellChopped(l) && l.mode == Vertical && Inside(l, r) && InDest(r, dx, dy, px, py)
    ensures l.texsize >= 1
    ensures var quads, t := AllDownQuads(l, r, dx, dy), (r.y1 + py - dy) / l.texsize;
      && k < |quads| && t == r.y1 / l.texsize + k && Covers(quads[k], px, py)
      && (forall k' :: 0 <= k' < |quads| && Covers(quads[k'], px, py) ==> k' == k)
      && Texel(quads[k], l.texsize, px, py) ==
           ((t * l.tilew + l.tilew - 1) / l.texsize, (quads[k].u1 + px - dx) % l.texsize, (r.y1 + py - dy) % l.texsize)
      && quads[k].u1 - r.x1 ==
           (if k == 0 then t * l.tilew
            else if quads[k].tex != quads[k - 1].tex then 0 else quads[k - 1].u1 - r.x1 + l.tilew)
  {
    hide IsPow2, CeilDiv, Rows, WellChopped, DownQuads, TilesBefore;
    k := OneQuad(l, r, dx, dy, px, py);
    var first, y := r.y1 / l.texsize, r.y1 + py - dy;
    ColumnsFollow(l, r, dx, dy, first, SourceTex(l, first), first * l.tilew, k);
    InBlock(y, l.texsize, first + k);
    MulNext(first + k, l.texsize);
    InBlock(y - (first + k) * l.texsize, l.texsize, 0);
  }

  // ----- when the blit is right

  predicate NonEmpty(r: Rect) {
    r.x1 < r.x2 && r.y1 < r.y2
  }

  /** The textures have no gap; or the rectangle starts in the first texture and the gaps of the textures that
      it passes do not make up a tile. */
  predicate Findable(l: Layout, r: Rect)
    requires l.texsize >= 1 && l.tilew >= 1 && l.tilespertex >= 1
  {
    var lastTex := (r.y2 - 1) / l.texsize / l.tilespertex;
    Gap(l) == 0 || (r.y1 / l.texsize < l.tilespertex && lastTex * Gap(l) < l.tilew)
  }

  lemma QuotientMonotone(x: int, y: int, n: int)
    requires n >= 1 && x <= y
    ensures x / n <= y / n
  {
    DivFacts(y, n);
    QuotientBelow(x, n, y / n + 1);
  }

  /** Tiles under a rectangle are no later than the one of its last row. */
  lemma NotBeyond(t: int, size: int, end: int)
    requires size >= 1 && t * size < end
    ensures t <= (end - 1) / size
  {
    DivFacts(end - 1, size);
    if t > (end - 1) / size {
      MulMonotone((end - 1) / size + 1, t, size);
    }
  }

  lemma FindableTextures(l: Layout, r: Rect)
    requires WellChopped(l) && l.mode == Vertical && Inside(l, r)
    requires l.texsize >= 1 && l.tilew >= 1 && l.tilespertex >= 1 && Findable(l, r)
    ensures TexturesRight(l, r.y1 / l.texsize, r.y2)
  {
    hide IsPow2, CeilDiv, Rows, WellChopped, SourceTex, Inside, Gap;
    GapFacts(l);
    var lastTex := (r.y2 - 1) / l.texsize / l.tilespertex;
    forall t | r.y1 / l.texsize <= t && t * l.texsize < r.y2 ensures SourceTex(l, t) == t / l.tilespertex {
      TileDownInside(l, r, t);
      NotBeyond(t, l.texsize, r.y2);
      QuotientMonotone(t, (r.y2 - 1) / l.texsize, l.tilespertex);
      MulMonotone(t / l.tilespertex, lastTex, Gap(l));
      TextureRight(l, t);
    }
  }

  lemma FindableAligned(l: Layout, r: Rect, dx: int, dy: int)
    requires WellChopped(l) && l.mode == Vertical && Inside(l, r)
    requires l.texsize >= 1 && l.tilew >= 1 && l.tilespertex >= 1 && Findable(l, r)
    ensures var quads := AllDownQuads(l, r, dx, dy);
      forall k :: 0 <= k < |quads| ==> Aligned(l, r, dx, dy, quads[k], r.y1 / l.texsize + k)
  {
    hide IsPow2, CeilDiv, WellChopped, Rows, SourceTex, Inside, Gap, Aligned, DownQuads, TexturesRight;
    var first := r.y1 / l.texsize;
    FindableTextures(l, r);
    if first * l.texsize < r.y2 {
      TileDownInside(l, r, first);
      StartRight(l, first);
    }
    DownQuadsAligned(l, r, dx, dy, first, SourceTex(l, first), first * l.tilew);
    assert AllDownQuads(l, r, dx, dy) == DownQuads(l, r, dx, dy, first, SourceTex(l, first), first * l.tilew);
  }

  lemma DownPointShown(l: Layout, r: Rect, dx: int, dy: int, px: int, py: int)
    requires WellChopped(l) && l.mode == Vertical && Inside(l, r) && InDest(r, dx, dy, px, py)
    requires l.texsize >= 1 && l.tilew >= 1 && l.tilespertex >= 1 && Findable(l, r)
    ensures Shown(l, AllDownQuads(l, r, dx, dy), r, dx, dy, px, py)
  {
    hide IsPow2, CeilDiv, Rows, WellChopped, Aligned, Findable, DownQuads, AllDownQuads, OfTile, Covers, Texel, Home,
         Inside;
    FindableAligned(l, r, dx, dy);
    var quads := AllDownQuads(l, r, dx, dy);
    var k := OneQuad(l, r, dx, dy, px, py);
    DownPoint(l, r, dx, dy, px, py, quads[k], r.y1 / l.texsize + k);
    assert ShowsHome(l, quads, r, dx, dy, px, py, k);
  }

  lemma DownConfined(l: Layout, r: Rect, dx: int, dy: int)
    requires l.texsize >= 1
    ensures var quads := AllDownQuads(l, r, dx, dy);
      Confined(quads, r, dx, dy) && forall k :: 0 <= k < |quads| ==> Unscaled(quads[k])
  {
    hide DownQuad, Covers, DownQuads, SourceTex, Unscaled, InDest;
    var quads, first := AllDownQuads(l, r, dx, dy), r.y1 / l.texsize;
    DownQuadsOfTiles(l, r, dx, dy, first, SourceTex(l, first), first * l.tilew);
    forall k | 0 <= k < |quads|
      ensures Unscaled(quads[k]) && forall px, py :: Covers(quads[k], px, py) ==> InDest(r, dx, dy, px, py)
    {
      assert OfTile(l, r, dx, dy, quads[k], first + k);
      DownQuadWithin(l, r, dx, dy, first + k, quads[k].tex, quads[k].u1 - r.x1);
    }
  }

  lemma DownQuadsExact(l: Layout, r: Rect, dx: int, dy: int)
    requires WellChopped(l) && l.mode == Vertical && Inside(l, r)
    requires l.texsize >= 1 && l.tilew >= 1 && l.tilespertex >= 1 && (NonEmpty(r) ==> Findable(l, r))
    ensures Exact(l, AllDownQuads(l, r, dx, dy), r, dx, dy)
  {
    hide WellChopped, AllDownQuads, Shown, Unscaled, Confined, Findable, Inside;
    DownConfined(l, r, dx, dy);
    var quads := AllDownQuads(l, r, dx, dy);
    forall px, py | InDest(r, dx, dy, px, py) ensures Shown(l, quads, r, dx, dy, px, py) {
      DownPointShown(l, r, dx, dy, px, py);
    }
  }

  // ----- and when it is not

  lemma ExactTexel(l: Layout, quads: seq<Quad>, r: Rect, dx: int, dy: int, px: int, py: int, k: nat)
    requires l.texsize >= 1 && l.tilespertex >= 1 && Exact(l, quads, r, dx, dy)
    requires InDest(r, dx, dy, px, py) && k < |quads| && Covers(quads[k], px, py)
    ensures Texel(quads[k], l.texsize, px, py) == Home(l, r.x1 + px - dx, r.y1 + py - dy)
  {
    assert Shown(l, quads, r, dx, dy, px, py);
    var k' :| ShowsHome(l, quads, r, dx, dy, px, py, k');
    assert k == k';
  }

  lemma HomeColumns(l: Layout, x: int, y: int)
    requires l.mode == Vertical && l.texsize >= 1 && l.tilespertex >= 1
    ensures var (tex, u, v) := Home(l, x, y);
      var t := y / l.texsize;
      tex == t / l.tilespertex && u == t % l.tilespertex * l.tilew + x
  {
  }

  lemma FirstQuad(l: Layout, r: Rect, dx: int, dy: int)
    requires l.texsize >= 1 && r.y1 / l.texsize * l.texsize < r.y2
    ensures var quads, first := AllDownQuads(l, r, dx, dy), r.y1 / l.texsize;
      quads != [] && quads[0].tex == SourceTex(l, first) && quads[0].x1 == dx && quads[0].u1 == first * l.tilew + r.x1
  {
  }

  /** A rectangle that starts in a later texture is wrong at its first point. */
  lemma StartNotFound(l: Layout, r: Rect, dx: int, dy: int)
    requires WellChopped(l) && l.mode == Vertical && Inside(l, r) && NonEmpty(r)
    requires l.texsize >= 1 && l.tilew >= 1 && l.tilespertex >= 1
    requires Gap(l) != 0 && r.y1 / l.texsize >= l.tilespertex
    ensures !Exact(l, AllDownQuads(l, r, dx, dy), r, dx, dy)
  {
    hide IsPow2, CeilDiv, WellChopped, Rows, SourceTex, Gap, AllDownQuads, Exact, Home, Covers, OfTile;
    VerticalFacts(l);
    GapFacts(l);
    var k := OneQuad(l, r, dx, dy, dx, dy);
    FirstQuad(l, r, dx, dy);
    StartWrong(l, r.y1 / l.texsize, r.x1);
    HomeColumns(l, r.x1, r.y1);
    if Exact(l, AllDownQuads(l, r, dx, dy), r, dx, dy) {
      ExactTexel(l, AllDownQuads(l, r, dx, dy), r, dx, dy, dx, dy, k);
      assert false;
    }
  }

  /** Any other that cannot be found is wrong where the last texture under it begins. */
  lemma LastNotFound(l: Layout, r: Rect, dx: int, dy: int)
    requires WellChopped(l) && l.mode == Vertical && Inside(l, r) && NonEmpty(r)
    requires l.texsize >= 1 && l.tilew >= 1 && l.tilespertex >= 1
    requires r.y1 / l.texsize < l.tilespertex && (r.y2 - 1) / l.texsize / l.tilespertex * Gap(l) >= l.tilew
    ensures !Exact(l, AllDownQuads(l, r, dx, dy), r, dx, dy)
  {
    hide IsPow2, CeilDiv, WellChopped, Rows, SourceTex, Gap, AllDownQuads, Exact, Home, Covers;
    GapFacts(l);
    var n, size, last := l.tilespertex, l.texsize, (r.y2 - 1) / l.texsize;
    var a := last / n;
    var y := a * n * size;
    LastTextureUnder(r, n, size, Gap(l), l.tilew);
    var k := OneQuad(l, r, dx, dy, dx, dy + y - r.y1);
    DivMod(y, size, a * n, 0);
    DivMod(a * n, n, a, 0);
    TextureWrong(l, a);
    HomeColumns(l, r.x1, y);
    if Exact(l, AllDownQuads(l, r, dx, dy), r, dx, dy) {
      ExactTexel(l, AllDownQuads(l, r, dx, dy), r, dx, dy, dx, dy + y - r.y1, k);
      assert false;
    }
  }

  /** The last texture under such a rectangle begins inside it. */
  lemma LastTextureUnder(r: Rect, n: int, size: int, gap: int, f: int)
    requires n >= 1 && size >= 1 && f >= 1 && gap >= 0 && 0 <= r.y1 < r.y2
    requires r.y1 / size < n && (r.y2 - 1) / size / n * gap >= f
    ensures var a := (r.y2 - 1) / size / n; a >= 1 && r.y1 <= a * n * size < r.y2
  {
    var last := (r.y2 - 1) / size;
    var a := last / n;
    if a <= 0 { MulMonotone(a, 0, gap); }
    DivFacts(last, n);
    DivFacts(r.y2 - 1, size);
    DivFacts(r.y1, size);
    MulMonotone(a * n, last, size);
    MulAtLeast(a, n);
    MulMonotone(r.y1 / size + 1, a * n, size);
  }

  /** The blit of a part of a surface that is cut from top to bottom is right if and only if the part is empty
      or its tiles can be found. */
  lemma DownExactIff(l: Layout, r: Rect, dx: int, dy: int)
    requires WellChopped(l) && l.mode == Vertical && Inside(l, r)
    ensures l.texsize >= 1 && l.tilespertex >= 1 && l.tilew >= 1
    ensures Exact(l, AllDownQuads(l, r, dx, dy), r, dx, dy) <==> (NonEmpty(r) ==> Findable(l, r))
  {
    hide WellChopped, Exact, AllDownQuads, Inside, Gap;
    VerticalFacts(l);
    if NonEmpty(r) ==> Findable(l, r) {
      DownQuadsExact(l, r, dx, dy);
    } else if r.y1 / l.texsize >= l.tilespertex {
      StartNotFound(l, r, dx, dy);
    } else {
      LastNotFound(l, r, dx, dy);
    }
  }

  /** The first point of the first tile of the second texture. */
  function Seam(l: Layout): Rect {
    var y := l.tilespertex * l.texsize;
    Rect(0, y, 1, y + 1)
  }

  lemma SeamNotFindable(l: Layout)
    requires WellChopped(l) && l.mode == Vertical && l.textures > 1
    ensures l.texsize >= 1 && l.tilespertex >= 1 && l.tilew >= 1
    ensures Inside(l, Seam(l)) && NonEmpty(Seam(l)) && (Gap(l) != 0 ==> !Findable(l, Seam(l)))
    ensures Rows(l) > l.tilespertex
  {
    hide IsPow2, CeilDiv, Rows, WellChopped, Gap;
    VerticalFacts(l);
    ChopBounds(l);
    MulMonotone(1, l.textures - 1, l.tilespertex);
    StartsInside(l, l.tilespertex);
    DivMod(l.tilespertex * l.texsize, l.texsize, l.tilespertex, 0);
  }

  /** All parts of a surface are drawn right if and only if it has one texture or its tiles fill the textures. */
  lemma AllExactIff(l: Layout)
    requires WellChopped(l) && l.mode == Vertical
    ensures l.texsize >= 1 && l.tilespertex >= 1 && l.tilew >= 1
    ensures (forall r: Rect, dx, dy :: Inside(l, r) ==> Exact(l, AllDownQuads(l, r, dx, dy), r, dx, dy))
      <==> l.textures == 1 || Gap(l) == 0
  {
    hide WellChopped, Exact, AllDownQuads, Inside, Findable, Gap, Rows;
    VerticalFacts(l);
    ChopBounds(l);
    if l.textures == 1 || Gap(l) == 0 {
      forall r: Rect, dx, dy | Inside(l, r) ensures Exact(l, AllDownQuads(l, r, dx, dy), r, dx, dy) {
        if NonEmpty(r) {
          OneTextureFindable(l, r);
        }
        DownExactIff(l, r, dx, dy);
      }
    } else {
      SeamNotFindable(l);
      DownExactIff(l, Seam(l), 0, 0);
    }
  }

  lemma OneTextureFindable(l: Layout, r: Rect)
    requires WellChopped(l) && l.mode == Vertical && Inside(l, r) && NonEmpty(r)
    requires l.texsize >= 1 && l.tilespertex >= 1 && l.tilew >= 1 && (l.textures == 1 || Gap(l) == 0)
    ensures Findable(l, r)
  {
    hide WellChopped, Gap, Rows, IsPow2, CeilDiv;
    VerticalFacts(l);
    var last := (r.y2 - 1) / l.texsize;
    DivFacts(r.y2 - 1, l.texsize);
    QuotientMonotone(r.y1, r.y2 - 1, l.texsize);
    DivNonNegative(r.y1, l.texsize);
    StartsInside(l, last);
    SlotFits(l, last);
    if l.textures == 1 {
      DivFacts(last, l.tilespertex);
    }
  }

  // ----- whole surfaces

  /** A whole surface is drawn right if and only if the gaps of all textures but the last do not add up to a tile. */
  lemma WholeExactIff(l: Layout, dx: int, dy: int)
    requires WellChopped(l) && l.mode == Vertical
    ensures l.texsize >= 1 && l.tilespertex >= 1 && l.tilew >= 1
    ensures var whole := Rect(0, 0, l.w, l.h);
      Exact(l, AllDownQuads(l, whole, dx, dy), whole, dx, dy) <==> (l.textures - 1) * Gap(l) < l.tilew
  {
    hide IsPow2, CeilDiv, WellChopped, Exact, AllDownQuads, Gap, Rows;
    VerticalFacts(l);
    GapFacts(l);
    ChopBounds(l);
    TileFacts(l);
    DownExactIff(l, Rect(0, 0, l.w, l.h), dx, dy);
    InBlock(0, l.texsize, 0);
    MulNext(Rows(l) - 1, l.texsize);
    InBlock(l.h - 1, l.texsize, Rows(l) - 1);
    MulNext(l.textures - 1, l.tilespertex);
    InBlock(Rows(l) - 1, l.tilespertex, l.textures - 1);
  }

  /** That is always so when the best size is within the limit, since two textures are enough then. */
  lemma FittingWholeExact(l: Layout, maxtexsize: int, m: int, dx: int, dy: int)
    requires ChoppedBy(l, maxtexsize) && l.mode == Vertical && BestSize(Long(l), Short(l), m) && m <= maxtexsize
    ensures l.texsize >= 1 && l.tilespertex >= 1 && l.tilew >= 1
    ensures var whole := Rect(0, 0, l.w, l.h); Exact(l, AllDownQuads(l, whole, dx, dy), whole, dx, dy)
  {
    hide WellChopped, Exact, AllDownQuads, BestSize, Gap, IsPow2;
    var m' :| BestSize(Long(l), Short(l), m') && LeastPow2(l.texsize, Min(m', maxtexsize));
    SameBest(Long(l), Short(l), m, m');
    TwoTextures(l, m);
    GapFacts(l);
    ChopBounds(l);
    MulMonotone(l.textures - 1, 1, Gap(l));
    WholeExactIff(l, dx, dy);
  }

  // ----- what is shown instead

  /** Where the tiles leave a gap, the blit of the seam reads the gap itself. */
  lemma SeamQuad(l: Layout, dx: int, dy: int)
    requires WellChopped(l) && l.mode == Vertical && l.tilew >= 1 && Gap(l) != 0
    ensures l.texsize >= 1 && l.tilespertex >= 1
    ensures var xo := l.tilespertex * l.tilew;
      && l.tilew <= xo < l.texsize
      && AllDownQuads(l, Seam(l), dx, dy) == [Quad(1, xo, 0, xo + 1, 1, dx, dy, dx + 1, dy + 1)]
  {
    hide IsPow2, CeilDiv, Rows, WellChopped, Gap;
    GapFacts(l);
    var n, size, f := l.tilespertex, l.texsize, l.tilew;
    MulAtLeast(n, f);
    DivMod(n * f + f - 1, size, 1, f - 1 - Gap(l));
    DivMod(n * size, size, n, 0);
    MulNext(n, size);
    SeamDown(l, dx, dy);
  }

  lemma SeamDown(l: Layout, dx: int, dy: int)
    requires l.texsize >= 1 && SourceTex(l, l.tilespertex) == 1
    ensures var n, xo := l.tilespertex, l.tilespertex * l.tilew;
      DownQuads(l, Seam(l), dx, dy, n, 1, xo) == [Quad(1, xo, 0, xo + 1, 1, dx, dy, dx + 1, dy + 1)]
  {
    hide SourceTex;
    var n, size, f := l.tilespertex, l.texsize, l.tilew;
    MulNext(n, size);
    assert DownQuads(l, Seam(l), dx, dy, n + 1, 1, n * f + f) == [];
  }

  /** Nothing is ever uploaded into the gap. */
  lemma GapEmpty(l: Layout, t: int, tex: int, u: int, v: int)
    requires WellChopped(l) && l.mode == Vertical && 0 <= t < Rows(l) && l.tilespertex >= 1
    requires u >= l.tilespertex * l.tilew
    ensures !Writes(StripOf(l, t), tex, u, v)
  {
    hide IsPow2, CeilDiv, Rows, WellChopped;
    VerticalFacts(l);
    SlotFits(l, t);
    MulNext(t % l.tilespertex, l.tilew);
    MulMonotone(t % l.tilespertex + 1, l.tilespertex, l.tilew);
  }

  /** So the first point of the second texture, drawn on its own, comes out as whatever a new texture holds. */
  lemma SeamUndefined<P>(l: Layout, image: (int, int) -> P, dx: int, dy: int)
    requires WellChopped(l) && l.mode == Vertical && l.textures > 1 && l.tilew >= 1 && Gap(l) != 0
    ensures l.texsize >= 1 && l.tilespertex >= 1 && Rows(l) >= 1 && Inside(l, Seam(l))
    ensures Screen(AllDownQuads(l, Seam(l), dx, dy), StripsOf(l, 0, Rows(l)), image, l.texsize, dx, dy) == None
  {
    hide IsPow2, CeilDiv, Rows, WellChopped, AllDownQuads, Inside, Gap, Findable, Screen, Stored, StripsOf;
    SeamNotFindable(l);
    SeamQuad(l, dx, dy);
    var xo, quads, calls := l.tilespertex * l.tilew, AllDownQuads(l, Seam(l), dx, dy), StripsOf(l, 0, Rows(l));
    InBlock(xo, l.texsize, 0);
    InBlock(0, l.texsize, 0);
    assert Texel(quads[0], l.texsize, dx, dy) == (1, xo, 0);
    ScreenAt(quads, calls, image, l.texsize, dx, dy, 0);
    forall t | 0 <= t < Rows(l) ensures !Writes(StripOf(l, t), 1, xo, 0) {
      GapEmpty(l, t, 1, xo, 0);
    }
    StoredNowhere(l, Rows(l), image, 1, xo, 0);
  }

  /** A surface of 100 by 1500 in textures of 256: three textures of two tiles each, with a gap of 56 columns. */
  const TALL := Layout(100, 1500, Vertical, 256, 100, 256, 2, 3)

  lemma TallWellChopped()
    ensures WellChopped(TALL) && Rows(TALL) == 6 && Gap(TALL) == 56
  {
    assert IsPow2(4) && IsPow2(16) && IsPow2(64) && IsPow2(256);
  }

  lemma TallBest()
    ensures BestSize(1500, 100, 400)
  {
    assert Size(1500, 100, 4) == 400;
    forall r | r >= 1 ensures 400 <= Size(1500, 100, r) {
      if r > 4 {
        GreedyStops(1500, 100, 4, r);
      } else {
        assert Size(1500, 100, 1) == 1500 && Size(1500, 100, 2) == 750 && Size(1500, 100, 3) == 500;
      }
    }
  }

  /** It is what the chopping makes of 100 by 1500 when textures are limited to 256. */
  lemma TallChopped(l: Layout)
    requires l.w == 100 && l.h == 1500
    ensures ChoppedBy(l, 256) <==> l == TALL
  {
    hide WellChopped, BestSize;
    TallWellChopped();
    TallBest();
    assert LeastPow2(256, 256) by { assert IsPow2(256) by { TallPow2(); } }
    assert Min(400, 256) == 256;
    assert ChoppedBy(TALL, 256);
    if ChoppedBy(l, 256) {
      ChoppedUnique(l, TALL, 256);
    }
  }

  lemma TallPow2()
    ensures IsPow2(256)
  {
    assert IsPow2(4) && IsPow2(16) && IsPow2(64);
  }

  /** Drawn as a whole it is wrong: its tile 4 is looked for in texture 1. */
  lemma TallWrong(dx: int, dy: int)
    ensures WellChopped(TALL) && TALL.texsize == 256 && TALL.tilespertex == 2
    ensures SourceTex(TALL, 4) == 1 && StripOf(TALL, 4).tex == 2
    ensures !Exact(TALL, AllDownQuads(TALL, Rect(0, 0, 100, 1500), dx, dy), Rect(0, 0, 100, 1500), dx, dy)
  {
    hide Exact, AllDownQuads;
    TallWellChopped();
    WholeExactIff(TALL, dx, dy);
  }
}
