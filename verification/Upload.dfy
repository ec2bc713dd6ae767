/** The upload of a chopped surface into its textures, tdune/glSDL.c. */
module Upload {
  import opened Arithmetic
  import opened Chop
  import opened Wrappers

  /** A call that copies a w by h part of the surface, from (fromx, fromy), to (tox, toy) of a texture. */
  datatype SubImage = SubImage(tex: int, tox: int, toy: int, w: int, h: int, fromx: int, fromy: int)

  /** The side along which the surface is cut, the length of a tile along it and its width across. */
  function Length(l: Layout): int {
    if l.mode == Vertical then l.h else l.w
  }

  function TileLength(l: Layout): int {
    if l.mode == Vertical then l.tileh else l.tilew
  }

  function TileWidth(l: Layout): int {
    if l.mode == Vertical then l.tilew else l.tileh
  }

  /** Where tile t belongs: texture t / tilespertex, slot t % tilespertex. */
  function StripOf(l: Layout, t: int): SubImage
    requires l.tilespertex >= 1
  {
    var tex, slot := t / l.tilespertex, t % l.tilespertex;
    if l.mode == Vertical then
      SubImage(tex, slot * l.tilew, 0, l.tilew, Min(l.tileh, l.h - t * l.tileh), 0, t * l.tileh)
    else
      SubImage(tex, 0, slot * l.tileh, Min(l.tilew, l.w - t * l.tilew), l.tileh, t * l.tilew, 0)
  }

  function StripsOf(l: Layout, from: int, n: nat): seq<SubImage>
    requires l.tilespertex >= 1
  {
    seq(n, i => StripOf(l, from + i))
  }

  /** How many tiles go into a texture: as many as fit, or what is left. */
  function TilesIn(l: Layout, tex: int): int
    requires l.texsize >= 1
  {
    Min(l.tilespertex, Rows(l) - tex * l.tilespertex)
  }

  lemma TileFacts(l: Layout)
    requires WellChopped(l)
    ensures TileLength(l) >= 1 && TileWidth(l) >= 1 && Length(l) >= 1
    ensures (Rows(l) - 1) * TileLength(l) < Length(l) <= Rows(l) * TileLength(l)
    ensures TileLength(l) <= l.texsize && TileWidth(l) <= l.texsize
    ensures Rows(l) > 1 ==> TileWidth(l) == Short(l) && TileLength(l) == l.texsize && Length(l) == Long(l)
    ensures Rows(l) == 1 ==> TileLength(l) == Length(l)
    ensures Rows(l) >= 1 && l.textures >= 1 && l.tilespertex >= 1 && Short(l) >= 1
    ensures TileWidth(l) >= Short(l)
  {
    hide CeilDiv, IsPow2;
    ChopBounds(l);
  }

  /** A tile lies in a texture of the surface and its slot lies inside that texture. */
  lemma SlotFits(l: Layout, t: int)
    requires WellChopped(l) && 0 <= t < Rows(l)
    ensures l.tilespertex >= 1
    ensures 0 <= t / l.tilespertex < l.textures
    ensures 0 <= t % l.tilespertex < l.tilespertex
    ensures t == t / l.tilespertex * l.tilespertex + t % l.tilespertex
    ensures 0 <= t % l.tilespertex * TileWidth(l)
    ensures (t % l.tilespertex + 1) * TileWidth(l) <= l.texsize
  {
    hide *;
    ChopBounds(l);
    TileFacts(l);
    var n, width := l.tilespertex, TileWidth(l);
    DivFacts(t, n);
    DivNonNegative(t, n);
    QuotientBelow(t, n, l.textures);
    var slot := t % n;
    MulMonotone(0, slot, width);
    MulNext(slot, width);
    if Rows(l) == 1 {
      DivMod(t, n, 0, 0);
    } else {
      MulMonotone(slot + 1, n, width);
    }
  }

  /** When another tile still fits below slot s, s is a slot. */
  lemma FitsSlot(l: Layout, s: int)
    requires WellChopped(l) && s >= 0
    ensures (s + 1) * TileWidth(l) <= l.texsize ==> s < l.tilespertex
    ensures (s + 1) * TileWidth(l) > l.texsize ==> s >= l.tilespertex || (Rows(l) == 1 && s >= 1)
  {
    hide *;
    ChopBounds(l);
    TileFacts(l);
    if s >= l.tilespertex {
      MulMonotone(l.tilespertex + 1, s + 1, Short(l));
      MulMonotone(Short(l), TileWidth(l), s + 1);
    } else if Rows(l) > 1 {
      MulMonotone(s + 1, l.tilespertex, Short(l));
    } else if s == 0 {
      assert (s + 1) * TileWidth(l) == TileWidth(l);
    }
  }

  /** A tile starts inside the surface exactly when it is one of its tiles. */
  lemma StartsInside(l: Layout, t: int)
    requires WellChopped(l)
    ensures t * TileLength(l) < Length(l) <==> t < Rows(l)
  {
    hide CeilDiv, IsPow2;
    TileFacts(l);
    if t < Rows(l) {
      MulMonotone(t, Rows(l) - 1, TileLength(l));
    } else {
      MulMonotone(Rows(l), t, TileLength(l));
    }
  }

  lemma StripsExtend(l: Layout, from: int, n: nat)
    requires l.tilespertex >= 1
    ensures StripsOf(l, from, n + 1) == StripsOf(l, from, n) + [StripOf(l, from + n)]
  {
  }

  lemma StripsJoin(l: Layout, from: int, m: nat, n: nat)
    requires l.tilespertex >= 1
    ensures StripsOf(l, from, m) + StripsOf(l, from + m, n) == StripsOf(l, from, m + n)
  {
  }

  /** The slot of the s-th tile of a texture. */
  lemma TileInTexture(l: Layout, tex: int, s: int)
    requires l.tilespertex >= 1 && 0 <= s < l.tilespertex
    ensures (tex * l.tilespertex + s) / l.tilespertex == tex && (tex * l.tilespertex + s) % l.tilespertex == s
  {
    DivMod(tex * l.tilespertex + s, l.tilespertex, tex, s);
  }

  // ----- the uploading loops

  method UploadAcross(l: Layout, tex: int) returns (calls: seq<SubImage>)
    requires WellChopped(l) && l.mode != Vertical && 0 <= tex < l.textures
    ensures TilesIn(l, tex) >= 1 && calls == StripsOf(l, tex * l.tilespertex, TilesIn(l, tex))
  {
    hide IsPow2, CeilDiv, StripsOf;
    calls := [];
    ghost var first, s := tex * l.tilespertex, 0;
    var fromx, toy := l.tilew * tex * l.tilespertex, 0;
    UploadStart(l, tex);
    while toy + l.tileh <= l.texsize
      invariant 0 <= s <= TilesIn(l, tex)
      invariant fromx == (first + s) * TileLength(l) && toy == s * TileWidth(l)
      invariant calls == StripsOf(l, first, s)
      decreases TilesIn(l, tex) - s
    {
      UploadStep(l, tex, s);
      var thistw := l.w - fromx;
      if thistw > l.tilew {
        thistw := l.tilew;
      } else if thistw <= 0 {
        break;
      }
      calls := calls + [SubImage(tex, 0, toy, thistw, l.tileh, fromx, 0)];
      fromx := fromx + l.tilew;
      toy := toy + l.tileh;
      s := s + 1;
    }
    UploadStep(l, tex, s);
  }

  method UploadDown(l: Layout, tex: int) returns (calls: seq<SubImage>)
    requires WellChopped(l) && l.mode == Vertical && 0 <= tex < l.textures
    ensures TilesIn(l, tex) >= 1 && calls == StripsOf(l, tex * l.tilespertex, TilesIn(l, tex))
  {
    hide IsPow2, CeilDiv, StripsOf;
    calls := [];
    ghost var first, s := tex * l.tilespertex, 0;
    var fromy, tox := l.tileh * tex * l.tilespertex, 0;
    UploadStart(l, tex);
    while tox + l.tilew <= l.texsize
      invariant 0 <= s <= TilesIn(l, tex)
      invariant fromy == (first + s) * TileLength(l) && tox == s * TileWidth(l)
      invariant calls == StripsOf(l, first, s)
      decreases TilesIn(l, tex) - s
    {
      UploadStep(l, tex, s);
      var thisth := l.h - fromy;
      if thisth > l.tileh {
        thisth := l.tileh;
      } else if thisth <= 0 {
        break;
      }
      calls := calls + [SubImage(tex, tox, 0, l.tilew, thisth, 0, fromy)];
      fromy := fromy + l.tileh;
      tox := tox + l.tilew;
      s := s + 1;
    }
    UploadStep(l, tex, s);
  }

  lemma UploadStart(l: Layout, tex: int)
    requires WellChopped(l) && 0 <= tex < l.textures
    ensures TilesIn(l, tex) >= 1 && StripsOf(l, tex * l.tilespertex, 0) == []
    ensures TileLength(l) * tex * l.tilespertex == tex * l.tilespertex * TileLength(l)
  {
    hide WellChopped, Rows, TileLength;
    ChopBounds(l);
    MulMonotone(tex, l.textures - 1, l.tilespertex);
    MulRotate(TileLength(l), tex, l.tilespertex);
  }

  /** One round of the upload: whether it goes on, and where the next one starts. */
  lemma UploadStep(l: Layout, tex: int, s: int)
    requires WellChopped(l) && 0 <= tex < l.textures && 0 <= s <= TilesIn(l, tex)
    ensures s * TileWidth(l) + TileWidth(l) <= l.texsize && (tex * l.tilespertex + s) * TileLength(l) < Length(l)
      <==> s < TilesIn(l, tex)
    ensures s < TilesIn(l, tex) ==>
      && StripOf(l, tex * l.tilespertex + s).tex == tex
      && (tex * l.tilespertex + s) % l.tilespertex == s
      && StripsOf(l, tex * l.tilespertex, s + 1)
           == StripsOf(l, tex * l.tilespertex, s) + [StripOf(l, tex * l.tilespertex + s)]
    ensures (tex * l.tilespertex + s + 1) * TileLength(l) == (tex * l.tilespertex + s) * TileLength(l) + TileLength(l)
    ensures (s + 1) * TileWidth(l) == s * TileWidth(l) + TileWidth(l)
  {
    hide WellChopped, Rows, StripsOf, TileLength, TileWidth, Length;
    var first := tex * l.tilespertex;
    TileFacts(l);
    MulMonotone(0, tex, l.tilespertex);
    MulNext(first + s, TileLength(l));
    MulNext(s, TileWidth(l));
    FitsSlot(l, s);
    StartsInside(l, first + s);
    if s < TilesIn(l, tex) {
      TileInTexture(l, tex, s);
      StripsExtend(l, first, s);
      SlotFits(l, first + s);
    }
    if Rows(l) == 1 {
      OneTexture(l, tex);
    }
  }

  lemma OneTexture(l: Layout, tex: int)
    requires WellChopped(l) && Rows(l) == 1 && 0 <= tex < l.textures
    ensures tex == 0 && tex * l.tilespertex == 0
  {
    ChopBounds(l);
  }

  /** Uploads one texture under a new name. */
  method UploadTexture(txi: TexInfo, tex: int, name: nat) returns (status: int, calls: seq<SubImage>)
    requires WellChopped(txi.Chopped()) && |txi.texture| == txi.textures && 0 <= tex < txi.textures
    modifies txi
    ensures status == 0 && txi.Chopped() == old(txi.Chopped())
    ensures txi.texture == old(txi.texture)[tex := name]
    ensures var l := txi.Chopped();
      TilesIn(l, tex) >= 1 && calls == StripsOf(l, tex * l.tilespertex, TilesIn(l, tex))
  {
    hide StripsOf, TilesIn, CeilDiv, IsPow2;
    txi.texture := txi.texture[tex := name];
    match txi.tilemode {
      case Single => calls := UploadAcross(txi.Chopped(), tex);
      case Horizontal => calls := UploadAcross(txi.Chopped(), tex);
      case Vertical => calls := UploadDown(txi.Chopped(), tex);
    }
    status := 0;
  }

  /** The textures before tex hold the tiles before tex * tilespertex, as far as there are so many. */
  lemma TexturesBefore(l: Layout, tex: int)
    requires WellChopped(l) && 0 <= tex < l.textures
    ensures 0 <= tex * l.tilespertex < Rows(l)
    ensures Min((tex + 1) * l.tilespertex, Rows(l)) == tex * l.tilespertex + TilesIn(l, tex)
    ensures tex + 1 == l.textures ==> Min((tex + 1) * l.tilespertex, Rows(l)) == Rows(l)
    ensures tex + 1 < l.textures ==> Min((tex + 1) * l.tilespertex, Rows(l)) == (tex + 1) * l.tilespertex
  {
    hide WellChopped, Rows;
    TileFacts(l);
    ChopBounds(l);
    MulNext(tex, l.tilespertex);
    MulMonotone(0, tex, l.tilespertex);
    MulMonotone(tex, l.textures - 1, l.tilespertex);
    if tex + 1 < l.textures {
      MulMonotone(tex + 1, l.textures - 1, l.tilespertex);
    }
  }

  /** Uploads whatever textures a surface needs, unless they are all there: each tile once, in order. */
  method UploadSurface(txi: TexInfo, names: seq<nat>) returns (status: int, calls: seq<SubImage>)
    requires WellChopped(txi.Chopped()) && |txi.texture| == txi.textures == |names|
    modifies txi
    ensures status == 0 && txi.Chopped() == old(txi.Chopped())
    ensures -1 !in old(txi.texture) ==> calls == [] && txi.texture == old(txi.texture)
    ensures -1 in old(txi.texture) ==>
      calls == StripsOf(txi.Chopped(), 0, Rows(txi.Chopped())) && |txi.texture| == |names|
      && forall i :: 0 <= i < |names| ==> txi.texture[i] == names[i]
  {
    hide StripsOf, TilesIn, Rows, CeilDiv, IsPow2, WellChopped;
    status, calls := 0, [];
    ghost var l := txi.Chopped();
    TileFacts(l);
    if -1 !in txi.texture {
      return;
    }
    var i := 0;
    ghost var done := 0;
    StripsEmpty(l);
    while i < txi.textures
      invariant 0 <= i <= txi.textures && txi.Chopped() == l && |txi.texture| == txi.textures
      invariant done == (if i < l.textures then i * l.tilespertex else Rows(l)) && done >= 0
      invariant calls == StripsOf(l, 0, done)
      invariant forall j :: 0 <= j < i ==> txi.texture[j] == names[j]
    {
      var s, c;
      s, c := UploadTexture(txi, i, names[i]);
      calls := calls + c;
      TexturesBefore(l, i);
      StripsJoin(l, 0, done, TilesIn(l, i));
      done := done + TilesIn(l, i);
      i := i + 1;
    }
  }

  lemma StripsEmpty(l: Layout)
    requires l.tilespertex >= 1
    ensures StripsOf(l, 0, 0) == []
  {
  }

  // ----- the strips partition the surface and are packed into the textures

  predicate OnSurface(l: Layout, x: int, y: int) {
    0 <= x < l.w && 0 <= y < l.h
  }

  predicate Reads(c: SubImage, x: int, y: int) {
    c.fromx <= x < c.fromx + c.w && c.fromy <= y < c.fromy + c.h
  }

  predicate Writes(c: SubImage, tex: int, u: int, v: int) {
    tex == c.tex && c.tox <= u < c.tox + c.w && c.toy <= v < c.toy + c.h
  }

  function TileAt(l: Layout, x: int, y: int): int
    requires l.texsize >= 1
  {
    if l.mode == Vertical then y / l.texsize else if l.mode == Horizontal then x / l.texsize else 0
  }

  /** Every point of the surface lies in exactly one strip. */
  lemma SurfacePartition(l: Layout, x: int, y: int, t: int)
    requires WellChopped(l) && 0 <= t < Rows(l)
    ensures Reads(StripOf(l, t), x, y) <==> OnSurface(l, x, y) && t == TileAt(l, x, y)
  {
    hide IsPow2, CeilDiv;
    TileFacts(l);
    StartsInside(l, t);
    MulMonotone(0, t, TileLength(l));
    MulNext(t, TileLength(l));
    var along := if l.mode == Vertical then y else x;
    if Rows(l) > 1 {
      InBlock(along, l.texsize, t);
    } else {
      assert t == 0;
    }
  }

  lemma TileAtInRange(l: Layout, x: int, y: int)
    requires WellChopped(l) && OnSurface(l, x, y)
    ensures 0 <= TileAt(l, x, y) < Rows(l)
  {
    hide IsPow2, CeilDiv;
    TileFacts(l);
    if Rows(l) > 1 {
      var along := if l.mode == Vertical then y else x;
      DivNonNegative(along, l.texsize);
      QuotientBelow(along, l.texsize, Rows(l));
    }
  }

  /** Every strip is written inside its texture, which belongs to the surface. */
  lemma StripInTexture(l: Layout, t: int)
    requires WellChopped(l) && 0 <= t < Rows(l)
    ensures var c := StripOf(l, t);
      && 0 <= c.tex < l.textures && c.w >= 1 && c.h >= 1
      && 0 <= c.tox && c.tox + c.w <= l.texsize && 0 <= c.toy && c.toy + c.h <= l.texsize
  {
    hide IsPow2, CeilDiv;
    TileFacts(l);
    SlotFits(l, t);
    StartsInside(l, t);
    MulNext(t % l.tilespertex, TileWidth(l));
  }

  /** No two strips overlap in a texture. */
  lemma StripsDoNotOverlap(l: Layout, t: int, t': int, tex: int, u: int, v: int)
    requires WellChopped(l) && 0 <= t < Rows(l) && 0 <= t' < Rows(l)
    requires Writes(StripOf(l, t), tex, u, v) && Writes(StripOf(l, t'), tex, u, v)
    ensures t == t'
  {
    hide IsPow2, CeilDiv;
    TileFacts(l);
    SlotFits(l, t);
    SlotFits(l, t');
    var slot, slot', across := t % l.tilespertex, t' % l.tilespertex, if l.mode == Vertical then u else v;
    MulNext(slot, TileWidth(l));
    MulNext(slot', TileWidth(l));
    InBlock(across, TileWidth(l), slot);
    InBlock(across, TileWidth(l), slot');
  }

  /** Every texture of the surface gets at least one strip. */
  lemma EveryTextureUsed(l: Layout, tex: int)
    requires WellChopped(l) && 0 <= tex < l.textures
    ensures exists t :: 0 <= t < Rows(l) && StripOf(l, t).tex == tex
  {
    TileFacts(l);
    TexturesBefore(l, tex);
    TileInTexture(l, tex, 0);
    assert StripOf(l, tex * l.tilespertex).tex == tex;
  }

  /** Where a strip goes in its texture, and where it comes from on the surface, along the cut side. */
  function Across(l: Layout, c: SubImage): int {
    if l.mode == Vertical then c.tox else c.toy
  }

  function From(l: Layout, c: SubImage): int {
    if l.mode == Vertical then c.fromy else c.fromx
  }

  lemma FirstStrip(l: Layout)
    requires WellChopped(l)
    ensures l.tilespertex >= 1
    ensures StripOf(l, 0) == if l.mode == Vertical then SubImage(0, 0, 0, l.w, Min(l.texsize, l.h), 0, 0)
                             else SubImage(0, 0, 0, Min(l.texsize, l.w), l.h, 0, 0)
  {
    hide IsPow2, CeilDiv;
    TileFacts(l);
    DivMod(0, l.tilespertex, 0, 0);
  }

  /** The strips are packed in order: each goes right behind the one before if it still fits there, and otherwise to
      the start of the next texture; on the surface each begins one texture size behind the one before. */
  lemma PackedInOrder(l: Layout, t: int)
    requires WellChopped(l) && 0 <= t && t + 1 < Rows(l)
    ensures l.tilespertex >= 1
    ensures var c, d, width := StripOf(l, t), StripOf(l, t + 1), if l.mode == Vertical then l.w else l.h;
      && (if Across(l, c) + 2 * width <= l.texsize then d.tex == c.tex && Across(l, d) == Across(l, c) + width
          else d.tex == c.tex + 1 && Across(l, d) == 0)
      && From(l, d) == From(l, c) + l.texsize
      && (if l.mode == Vertical then d.toy == 0 && d.fromx == 0 && d.w == l.w && d.h == Min(l.texsize, l.h - d.fromy)
          else d.tox == 0 && d.fromy == 0 && d.h == l.h && d.w == Min(l.texsize, l.w - d.fromx))
  {
    hide IsPow2, CeilDiv, Rows, WellChopped;
    Cut(l);
    var n, slot, width := l.tilespertex, t % l.tilespertex, TileWidth(l);
    DivFacts(t, n);
    FitsSlot(l, slot + 1);
    MulNext(slot, width);
    MulNext(slot + 1, width);
    MulNext(t, l.texsize);
    if slot + 1 < n {
      DivMod(t + 1, n, t / n, slot + 1);
    } else {
      MulNext(t / n, n);
      DivMod(t + 1, n, t / n + 1, 0);
    }
  }

  lemma Cut(l: Layout)
    requires WellChopped(l) && Rows(l) > 1
    ensures l.tilespertex >= 1 && l.mode != Single
    ensures if l.mode == Vertical then l.tilew == l.w && l.tileh == l.texsize
            else l.tilew == l.texsize && l.tileh == l.h
  {
    TileFacts(l);
  }

  // ----- what the textures hold

  /** The texel that a point of the surface is uploaded to. */
  function Home(l: Layout, x: int, y: int): (int, int, int)
    requires l.texsize >= 1 && l.tilespertex >= 1
  {
    var t := TileAt(l, x, y);
    var c := StripOf(l, t);
    (c.tex, c.tox + x - c.fromx, c.toy + y - c.fromy)
  }

  /** The content of a texel after the calls, when the surface shows `image`. */
  function Stored<P>(calls: seq<SubImage>, image: (int, int) -> P, tex: int, u: int, v: int): Option<P> {
    if calls == [] then None
    else
      var c := calls[|calls| - 1];
      if Writes(c, tex, u, v) then Some(image(c.fromx + u - c.tox, c.fromy + v - c.toy))
      else Stored(calls[..|calls| - 1], image, tex, u, v)
  }

  lemma {:induction false} StoredOnce<P>(l: Layout, n: nat, image: (int, int) -> P, t: int, tex: int, u: int, v: int)
    requires WellChopped(l) && 0 <= t < n <= Rows(l) && Writes(StripOf(l, t), tex, u, v)
    ensures var c := StripOf(l, t);
      Stored(StripsOf(l, 0, n), image, tex, u, v) == Some(image(c.fromx + u - c.tox, c.fromy + v - c.toy))
    decreases n
  {
    hide WellChopped, Rows, StripOf, Writes;
    Positive(l);
    StripsExtend(l, 0, n - 1);
    if Writes(StripOf(l, n - 1), tex, u, v) {
      StripsDoNotOverlap(l, t, n - 1, tex, u, v);
    } else {
      StoredOnce(l, n - 1, image, t, tex, u, v);
      assert StripsOf(l, 0, n)[..n - 1] == StripsOf(l, 0, n - 1);
    }
  }

  lemma {:induction false} StoredNowhere<P>(l: Layout, n: nat, image: (int, int) -> P, tex: int, u: int, v: int)
    requires l.tilespertex >= 1 && forall t :: 0 <= t < n ==> !Writes(StripOf(l, t), tex, u, v)
    ensures Stored(StripsOf(l, 0, n), image, tex, u, v) == None
    decreases n
  {
    if n > 0 {
      StripsExtend(l, 0, n - 1);
      StoredNowhere(l, n - 1, image, tex, u, v);
      assert StripsOf(l, 0, n)[..n - 1] == StripsOf(l, 0, n - 1);
    }
  }

  /** After the upload every point of the surface is found in its texel. */
  lemma UploadRoundTrip<P>(l: Layout, image: (int, int) -> P, x: int, y: int)
    requires WellChopped(l) && OnSurface(l, x, y)
    ensures l.texsize >= 1 && l.tilespertex >= 1 && Rows(l) >= 1
    ensures var (tex, u, v) := Home(l, x, y);
      Stored(StripsOf(l, 0, Rows(l)), image, tex, u, v) == Some(image(x, y))
  {
    hide WellChopped, Rows, Stored, StripsOf;
    Positive(l);
    var t := TileAt(l, x, y);
    TileAtInRange(l, x, y);
    SurfacePartition(l, x, y, t);
    var (tex, u, v) := Home(l, x, y);
    StoredOnce(l, Rows(l), image, t, tex, u, v);
  }

  lemma Positive(l: Layout)
    requires WellChopped(l)
    ensures l.texsize >= 1 && l.tilespertex >= 1 && Rows(l) >= 1
  {
    TileFacts(l);
  }
}
