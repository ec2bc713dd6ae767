/** How tdune/glSDL.c chops a surface into tiles that fit power-of-two textures. */
module Chop {
  import opened Arithmetic

  datatype TileMode = Single | Horizontal | Vertical

  /** What the upload and the blit know about a surface: its size and how it is chopped. */
  datatype Layout = Layout(w: int, h: int, mode: TileMode, texsize: int, tilew: int, tileh: int,
                           tilespertex: int, textures: int)

  class TexInfo {
    const virtW: int
    const virtH: int
    var textures: int
    /** Texture names; -1 where nothing has been uploaded. */
    var texture: seq<int>
    var texsize: int
    var tilemode: TileMode
    var tilew: int
    var tileh: int
    var tilespertex: int

    constructor (w: int, h: int)
      ensures virtW == w && virtH == h && textures == 0
    {
      virtW, virtH := w, h;
      textures, texture, texsize, tilemode, tilew, tileh, tilespertex := 0, [], 0, Single, 0, 0, 0;
    }

    function Chopped(): Layout
      reads this
    {
      Layout(virtW, virtH, tilemode, texsize, tilew, tileh, tilespertex, textures)
    }
  }

  // ----- powers of two

  predicate IsPow2(n: int) {
    n == 1 || (n > 1 && n % 2 == 0 && IsPow2(n / 2))
  }

  /** These are the powers of two, so doubling leads from each to the next. */
  lemma {:induction false} Pow2Iff(n: int)
    ensures IsPow2(n) <==> exists e: nat :: n == Pow(2, e)
    ensures n >= 1 ==> (IsPow2(2 * n) <==> IsPow2(n))
  {
    if IsPow2(n) {
      var e := Exponent(n);
    }
    if e: nat :| n == Pow(2, e) {
      PowIsPow2(e);
    }
  }

  lemma {:induction false} Exponent(n: int) returns (e: nat)
    requires IsPow2(n)
    ensures n == Pow(2, e)
  {
    if n == 1 {
      e := 0;
    } else {
      e := Exponent(n / 2);
      e := e + 1;
    }
  }

  lemma {:induction false} PowIsPow2(e: nat)
    ensures IsPow2(Pow(2, e))
  {
    if e > 0 {
      PowIsPow2(e - 1);
      PowPositive(2, e - 1);
    }
  }

  lemma {:induction false} Pow2Gap(p: int, q: int)
    requires IsPow2(p) && IsPow2(q) && q < p
    ensures 2 * q <= p
  {
    if q > 1 {
      Pow2Gap(p / 2, q / 2);
    }
  }

  // ----- the size of a texture that holds the surface in r rows

  function Max(x: int, y: int): (m: int)
    ensures m >= x && m >= y && (m == x || m == y)
  {
    if x > y then x else y
  }

  function Size(vw: int, vh: int, r: int): int
    requires r >= 1
  {
    Max(vw / r, r * vh)
  }

  /** A size is enough when the rows fit one below the other, and when cutting the long side into r parts leaves
      them no longer than that, rounded down. */
  lemma SizeFits(vw: int, vh: int, r: int, t: int)
    requires r >= 1
    ensures Size(vw, vh, r) <= t <==> vw < (t + 1) * r && r * vh <= t
  {
    DivFacts(vw, r);
    if vw / r <= t {
      MulMonotone(vw / r + 1, t + 1, r);
    } else {
      MulMonotone(t + 1, vw / r, r);
    }
  }

  /** m is the smallest size over all row counts. */
  ghost predicate BestSize(vw: int, vh: int, m: int) {
    && (exists r :: r >= 1 && Size(vw, vh, r) == m)
    && (forall r :: r >= 1 ==> m <= Size(vw, vh, r))
  }

  lemma QuotientFalls(vw: int, r: int, r': int)
    requires vw >= 0 && 1 <= r <= r'
    ensures vw / r >= vw / r'
  {
    var q, q' := vw / r, vw / r';
    assert vw == q * r + vw % r && vw == q' * r' + vw % r';
    if q < q' {
      MulAtLeast(q' - q, r);
      assert (q' - q) * r == q' * r - q * r;
      MulMonotone(r, r', q');
      assert false;
    }
  }

  lemma EqualQuotients(vw: int, r: int)
    requires vw >= 0 && r >= 1 && vw / r == vw / (r + 1)
    ensures vw / r < r
  {
    var q := vw / r;
    assert vw == q * r + vw % r && vw == q * (r + 1) + vw % (r + 1);
    assert q * (r + 1) == q * r + q;
  }

  /** When one more row does not make the size smaller, no number of rows beyond does, although
      the division rounds down. */
  lemma GreedyStops(vw: int, vh: int, r: int, r': int)
    requires vw >= 1 && vh >= 1 && 1 <= r < r'
    requires Size(vw, vh, r + 1) >= Size(vw, vh, r)
    ensures Size(vw, vh, r') >= Size(vw, vh, r)
  {
    if (r + 1) * vh >= Size(vw, vh, r) {
      MulMonotone(r + 1, r', vh);
    } else {
      QuotientFalls(vw, r, r + 1);
      EqualQuotients(vw, r);
      MulMonotone(1, vh, r + 1);
      assert false;
    }
  }

  function CeilDiv(x: int, y: int): int
    requires y >= 1
  {
    (x + y - 1) / y
  }

  lemma CeilDivFacts(x: int, y: int)
    requires x >= 1 && y >= 1
    ensures CeilDiv(x, y) >= 1
    ensures CeilDiv(x, y) * y >= x && (CeilDiv(x, y) - 1) * y < x
    ensures CeilDiv(x, y) == 1 <==> x <= y
  {
    var c := CeilDiv(x, y);
    var r := (x + y - 1) % y;
    assert x + y - 1 == c * y + r;
    assert (c - 1) * y == c * y - y;
    if c <= 0 {
      MulMonotone(c, 0, y);
      assert false;
    }
    if c >= 2 {
      MulMonotone(1, c - 1, y);
    }
  }

  // ----- what the chopping promises

  function Min(x: int, y: int): (m: int)
    ensures m <= x && m <= y && (m == x || m == y)
  {
    if x > y then y else x
  }

  function Long(l: Layout): int {
    Max(l.w, l.h)
  }

  function Short(l: Layout): int {
    Min(l.w, l.h)
  }

  /** Number of tiles: the long side is cut at multiples of the texture size. */
  function Rows(l: Layout): int
    requires l.texsize >= 1
  {
    CeilDiv(Long(l), l.texsize)
  }

  ghost predicate LeastPow2(p: int, bound: int) {
    IsPow2(p) && p >= bound && forall q :: IsPow2(q) && q >= bound ==> p <= q
  }

  lemma LeastBelowDouble(p: int, bound: int)
    requires LeastPow2(p, bound) && bound >= 1
    ensures p == 1 || p < 2 * bound
    ensures exists e: nat :: p == Pow(2, e)
  {
    hide IsPow2;
    Pow2Iff(p);
    HalfOf(p);
  }

  lemma HalfOf(p: int)
    requires IsPow2(p)
    ensures p == 1 || (p == 2 * (p / 2) && IsPow2(p / 2))
  {
  }

  ghost predicate WellChopped(l: Layout) {
    && l.w >= 1 && l.h >= 1
    && IsPow2(l.texsize) && 1 <= Short(l) <= l.texsize
    && l.tilespertex == l.texsize / Short(l) >= 1
    && l.textures == CeilDiv(Rows(l), l.tilespertex)
    && (if Rows(l) == 1 then l.mode == Single && l.tilew == l.w && l.tileh == l.h
        else if l.h > l.w then l.mode == Vertical && l.tilew == l.w && l.tileh == l.texsize
        else l.mode == Horizontal && l.tilew == l.texsize && l.tileh == l.h)
  }

  /** The tiles cover the long side and no tile is empty; they fit the textures and no texture is empty. */
  lemma ChopBounds(l: Layout)
    requires WellChopped(l)
    ensures Rows(l) >= 1 && Rows(l) * l.texsize >= Long(l) > (Rows(l) - 1) * l.texsize
    ensures l.tilespertex * Short(l) <= l.texsize < (l.tilespertex + 1) * Short(l)
    ensures l.textures >= 1 && l.textures * l.tilespertex >= Rows(l) > (l.textures - 1) * l.tilespertex
    ensures Rows(l) == 1 ==> l.textures == 1 && l.w <= l.texsize && l.h <= l.texsize
  {
    CeilDivFacts(Long(l), l.texsize);
    DivFacts(l.texsize, Short(l));
    CeilDivFacts(Rows(l), l.tilespertex);
  }

  lemma FitsRows(t: int, vh: int, tpt: int, r: int)
    requires vh >= 1 && r * vh <= t < (tpt + 1) * vh
    ensures r <= tpt
  {
    if tpt + 1 <= r {
      MulMonotone(tpt + 1, r, vh);
    }
  }

  lemma FewRows(vw: int, t: int, r: int, rows: int)
    requires t >= 1 && 1 <= r <= t && vw < (t + 1) * r && (rows - 1) * t < vw
    ensures rows <= r + 1
  {
    assert (r + 1) * t == r * t + t && (t + 1) * r == r * t + r;
    if rows - 1 >= r + 1 {
      MulMonotone(r + 1, rows - 1, t);
    }
  }

  lemma FewTextures(textures: int, tpt: int, rows: int)
    requires tpt >= 1 && rows <= tpt + 1 && (textures - 1) * tpt < rows
    ensures textures <= 2
  {
    if textures - 1 >= 2 {
      MulMonotone(2, textures - 1, tpt);
    }
  }

  /** When the best size fits a texture, two textures are always enough: r rows of the best size fit
      into one, and at most one more row is needed because the best size was rounded down. */
  lemma TwoTextures(l: Layout, m: int)
    requires WellChopped(l) && BestSize(Long(l), Short(l), m) && m <= l.texsize
    ensures l.textures <= 2
  {
    hide WellChopped, Long, Short, CeilDiv, IsPow2;
    var vw, vh, t := Long(l), Short(l), l.texsize;
    assert vw >= vh >= 1 && t >= 1 && l.tilespertex >= 1 by { Sides(l); }
    var r :| r >= 1 && Size(vw, vh, r) == m;
    assert vw / r <= t && r * vh <= t;
    ChopBounds(l);
    FitsRows(t, vh, l.tilespertex, r);
    assert vw < (t + 1) * r by {
      DivFacts(vw, r);
      MulMonotone(vw / r + 1, t + 1, r);
    }
    MulMonotone(1, vh, r);
    FewRows(vw, t, r, Rows(l));
    FewTextures(l.textures, l.tilespertex, Rows(l));
  }

  lemma Sides(l: Layout)
    requires WellChopped(l)
    ensures Long(l) >= Short(l) >= 1 && l.texsize >= 1 && l.tilespertex >= 1
  {
  }

  /** What the chopping makes of a surface whose shorter side fits: the texture size is the least power of two for
      the best size over all row counts, as far as the largest texture allows. */
  ghost predicate ChoppedBy(l: Layout, maxtexsize: int) {
    && WellChopped(l) && l.texsize <= maxtexsize
    && exists m :: BestSize(Long(l), Short(l), m) && LeastPow2(l.texsize, Min(m, maxtexsize))
  }

  /** That leaves nothing open. */
  lemma ChoppedUnique(l: Layout, l': Layout, maxtexsize: int)
    requires ChoppedBy(l, maxtexsize) && ChoppedBy(l', maxtexsize) && l.w == l'.w && l.h == l'.h
    ensures l == l'
  {
    hide IsPow2, CeilDiv, Size;
    var m :| BestSize(Long(l), Short(l), m) && LeastPow2(l.texsize, Min(m, maxtexsize));
    var m' :| BestSize(Long(l'), Short(l'), m') && LeastPow2(l'.texsize, Min(m', maxtexsize));
    assert m == m';
  }

  /** The chopping of a surface whose shorter side fits a texture. For larger surfaces nothing is set. */
  method CalcChop(txi: TexInfo, maxtexsize: int) returns (status: int)
    requires txi.virtW >= 1 && txi.virtH >= 1 && IsPow2(maxtexsize)
    modifies txi
    ensures status == 0
    ensures Min(txi.virtW, txi.virtH) > maxtexsize ==> unchanged(txi)
    ensures Min(txi.virtW, txi.virtH) <= maxtexsize ==>
      && ChoppedBy(txi.Chopped(), maxtexsize)
      && (forall m :: BestSize(Max(txi.virtW, txi.virtH), Min(txi.virtW, txi.virtH), m) && m <= maxtexsize
            ==> txi.textures <= 2)
      && |txi.texture| == txi.textures && (forall i :: 0 <= i < |txi.texture| ==> txi.texture[i] == -1)
      && (exists e: nat :: txi.texsize == Pow(2, e))
      && (forall m :: BestSize(Max(txi.virtW, txi.virtH), Min(txi.virtW, txi.virtH), m)
            ==> Min(m, maxtexsize) <= txi.texsize <= maxtexsize
                && (txi.texsize == 1 || txi.texsize < 2 * Min(m, maxtexsize)))
  {
    hide IsPow2, CeilDiv, BestSize, LeastPow2, Pow, Size;
    var vw, vh, vertical := txi.virtW, txi.virtH, false;
    if vh > vw {
      vw, vh, vertical := vh, vw, true;
    }
    if vh > maxtexsize {
      return 0;
    }
    var rows, minsize := SearchRows(vw, vh);
    ghost var best := minsize;
    BestAtLeastShort(vw, vh, best);
    if minsize > maxtexsize {
      minsize := maxtexsize;
      rows := CeilDiv(vw, minsize);
    }
    var texsize := NextPow2(minsize, maxtexsize);
    LeastFacts(texsize, minsize);
    rows := CeilDiv(vw, texsize);
    txi.texsize := texsize;
    DivFacts(texsize, vh);
    txi.tilespertex := texsize / vh;
    CeilDivFacts(vw, texsize);
    CeilDivFacts(rows, txi.tilespertex);
    txi.textures := CeilDiv(rows, txi.tilespertex);
    txi.texture := seq(txi.textures, i => -1);
    if rows == 1 {
      txi.tilemode := Single;
      if vertical {
        txi.tilew, txi.tileh := vh, vw;
      } else {
        txi.tilew, txi.tileh := vw, vh;
      }
    } else if vertical {
      txi.tilemode, txi.tilew, txi.tileh := Vertical, vh, texsize;
    } else {
      txi.tilemode, txi.tilew, txi.tileh := Horizontal, texsize, vh;
    }
    ghost var l := txi.Chopped();
    assert Long(l) == vw && Short(l) == vh && Rows(l) == rows;
    assert WellChopped(l);
    assert ChoppedBy(l, maxtexsize);
    forall m | BestSize(vw, vh, m) ensures m == best && (m <= maxtexsize ==> l.textures <= 2) {
      SameBest(vw, vh, m, best);
      if m <= maxtexsize {
        TwoTextures(l, m);
      }
    }
    status := 0;
  }

  lemma SameBest(vw: int, vh: int, m: int, m': int)
    requires BestSize(vw, vh, m) && BestSize(vw, vh, m')
    ensures m == m'
  {
    hide Size;
  }

  lemma LeastFacts(p: int, bound: int)
    requires LeastPow2(p, bound)
    ensures IsPow2(p) && p >= bound
  {
  }

  lemma BestAtLeastShort(vw: int, vh: int, m: int)
    requires vw >= 1 && vh >= 1 && BestSize(vw, vh, m)
    ensures m >= vh
  {
    var r :| r >= 1 && Size(vw, vh, r) == m;
    MulAtLeast(r, vh);
  }

  /** The greedy row search. */
  method SearchRows(vw: int, vh: int) returns (rows: int, minsize: int)
    requires vw >= 1 && vh >= 1
    ensures rows >= 1 && minsize == Size(vw, vh, rows)
    ensures BestSize(vw, vh, minsize)
  {
    rows := 1;
    var lastw, lasth := vw, vh;
    minsize := if lastw > lasth then lastw else lasth;
    while true
      invariant rows >= 1 && minsize == Size(vw, vh, rows)
      invariant forall r :: 1 <= r <= rows ==> minsize <= Size(vw, vh, r)
      decreases minsize
    {
      rows := rows + 1;
      var w, h := vw / rows, rows * vh;
      var size := if w > h then w else h;
      if size >= minsize {
        rows := rows - 1;
        forall r | r >= 1 ensures minsize <= Size(vw, vh, r) {
          if r > rows {
            GreedyStops(vw, vh, rows, r);
          }
        }
        break;
      }
      MulAtLeast(rows, vh);
      lastw, lasth := w, h;
      minsize := size;
    }
  }

  method NextPow2(minsize: int, maxtexsize: int) returns (texsize: int)
    requires 1 <= minsize <= maxtexsize && IsPow2(maxtexsize)
    ensures LeastPow2(texsize, minsize) && texsize <= maxtexsize
    ensures (texsize == 1 || texsize < 2 * minsize) && exists e: nat :: texsize == Pow(2, e)
  {
    texsize := 1;
    while texsize < minsize
      invariant IsPow2(texsize) && texsize >= 1
      invariant forall q :: IsPow2(q) && q >= minsize ==> texsize <= q
      decreases minsize - texsize
    {
      forall q | IsPow2(q) && q >= minsize ensures 2 * texsize <= q {
        Pow2Gap(q, texsize);
      }
      texsize := texsize * 2;
    }
    LeastBelowDouble(texsize, minsize);
  }
}
