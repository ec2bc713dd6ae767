/** Drawing a part of a surface on the screen, tdune/glSDL.c: uploading what is missing, then blitting. */
module BlitSurface {
  import opened Chop
  import opened Upload
  import opened Blit
  import opened BlitDown
  import opened Wrappers

  /** The rectangle would lie wholly off a destination of the given size. */
  predicate Culled(r: Rect, dx: int, dy: int, width: int, height: int) {
    dx > width || dy > height || dx + (r.x2 - r.x1) < 0 || dy + (r.y2 - r.y1) < 0
  }

  function WithEdges(r: Rect): Rect {
    Rect(r.x1, r.y1, r.x2 + 1, r.y2 + 1)
  }

  /** That is to say, not even their edges touch. So a rectangle is culled unless it meets the destination or the one
      row or column of points around it. */
  lemma CulledIffApart(r: Rect, dx: int, dy: int, width: int, height: int)
    requires r.x1 <= r.x2 && r.y1 <= r.y2 && width >= 0 && height >= 0
    ensures Culled(r, dx, dy, width, height)
      <==> !exists px, py :: InDest(WithEdges(r), dx, dy, px, py) && 0 <= px <= width && 0 <= py <= height
  {
    if !Culled(r, dx, dy, width, height) {
      assert InDest(WithEdges(r), dx, dy, if dx > 0 then dx else 0, if dy > 0 then dy else 0);
    }
  }

  /** The blit finds the tiles of the rectangle. */
  predicate Found(l: Layout, r: Rect)
    requires l.texsize >= 1 && l.tilespertex >= 1
  {
    l.mode == Vertical && NonEmpty(r) ==> l.tilew >= 1 && Findable(l, r)
  }

  /** The destination shows the rectangle r of the image at (dx, dy) and is otherwise untouched. */
  ghost predicate ShowsImage<P>(l: Layout, quads: seq<Quad>, image: (int, int) -> P, r: Rect, dx: int, dy: int,
                                width: int, height: int)
    requires l.texsize >= 1 && l.tilespertex >= 1 && Rows(l) >= 1
  {
    forall px, py :: 0 <= px < width && 0 <= py < height ==>
      Screen(quads, StripsOf(l, 0, Rows(l)), image, l.texsize, px, py)
        == if InDest(r, dx, dy, px, py) then Some(image(r.x1 + px - dx, r.y1 + py - dy)) else None
  }

  /** Culling drops nothing that could be seen. */
  lemma CulledShows<P>(l: Layout, image: (int, int) -> P, r: Rect, dx: int, dy: int, width: int, height: int)
    requires WellChopped(l) && Culled(r, dx, dy, width, height)
    ensures l.texsize >= 1 && l.tilespertex >= 1 && Rows(l) >= 1
    ensures ShowsImage(l, [], image, r, dx, dy, width, height)
  {
    hide WellChopped, Rows, StripsOf, Stored;
    Positive(l);
  }

  lemma ExactShows<P>(l: Layout, quads: seq<Quad>, image: (int, int) -> P, r: Rect, dx: int, dy: int,
                      width: int, height: int)
    requires WellChopped(l) && Inside(l, r)
    requires l.texsize >= 1 && l.tilespertex >= 1 && Rows(l) >= 1 && Exact(l, quads, r, dx, dy)
    ensures ShowsImage(l, quads, image, r, dx, dy, width, height)
  {
    hide WellChopped, Inside, Rows, StripsOf, Exact, Screen;
    forall px, py | 0 <= px < width && 0 <= py < height
      ensures Screen(quads, StripsOf(l, 0, Rows(l)), image, l.texsize, px, py)
        == if InDest(r, dx, dy, px, py) then Some(image(r.x1 + px - dx, r.y1 + py - dy)) else None
    {
      UploadThenBlit(l, image, quads, r, dx, dy, px, py);
    }
  }

  /**
   Blits the part r of a surface to (dx, dy), uploading the textures first unless all are there. The quads
   are exact if and only if the tiles are found; and then, when the surface shows `image`, so does the
   destination, wherever the rectangle falls on it. `image` is what the surface shows when its textures are
   uploaded: in this call, or in an earlier one if they are all there.
   */
  method BlitGL<P>(txi: TexInfo, names: seq<nat>, r: Rect, dx: int, dy: int, width: int, height: int,
                   ghost image: (int, int) -> P)
    returns (calls: seq<SubImage>, quads: seq<Quad>)
    requires WellChopped(txi.Chopped()) && |txi.texture| == txi.textures == |names| && Inside(txi.Chopped(), r)
    modifies txi
    ensures txi.Chopped() == old(txi.Chopped())
    ensures txi.texsize >= 1 && txi.tilespertex >= 1 && Rows(txi.Chopped()) >= 1
    ensures Culled(r, dx, dy, width, height) ==> calls == [] && quads == [] && txi.texture == old(txi.texture)
    ensures !Culled(r, dx, dy, width, height) ==>
      && calls == (if -1 in old(txi.texture) then StripsOf(txi.Chopped(), 0, Rows(txi.Chopped())) else [])
      && |txi.texture| == txi.textures && -1 !in txi.texture
      && (forall i :: 0 <= i < |names| ==>
            txi.texture[i] == if -1 in old(txi.texture) then names[i] else old(txi.texture)[i])
      && (Exact(txi.Chopped(), quads, r, dx, dy) <==> Found(txi.Chopped(), r))
    ensures Found(txi.Chopped(), r) ==>
      ShowsImage(txi.Chopped(), quads, image, r, dx, dy, width, height)
  {
    hide WellChopped, Rows, StripsOf, Exact, ShowsImage, Inside, AllDownQuads, TileQuads, Findable, Screen, Stored,
         IsPow2, CeilDiv;
    calls, quads := [], [];
    ghost var l := txi.Chopped();
    TileFacts(l);
    if dx > width || dy > height || dx + (r.x2 - r.x1) < 0 || dy + (r.y2 - r.y1) < 0 {
      CulledShows(l, image, r, dx, dy, width, height);
      return;
    }
    var status;
    status, calls := UploadSurface(txi, names);
    assert -1 !in txi.texture;
    match txi.tilemode {
      case Single =>
        quads := BlitSingle(txi.Chopped(), txi.texture, r, dx, dy);
        SingleExact(l, r, dx, dy);
        assert txi.texture[0] in txi.texture;
      case Horizontal =>
        quads := BlitHorizontal(txi.Chopped(), txi.texture, r, dx, dy);
        LoadedDrawsAll(quads, TileQuads(l, r, dx, dy), txi.texture);
        TileQuadsExact(l, r, dx, dy);
      case Vertical =>
        quads := BlitVertical(txi.Chopped(), txi.texture, r, dx, dy);
        LoadedDrawsAll(quads, AllDownQuads(l, r, dx, dy), txi.texture);
        DownExactIff(l, r, dx, dy);
    }
    if Found(l, r) {
      ExactShows(l, quads, image, r, dx, dy, width, height);
    }
  }
}
