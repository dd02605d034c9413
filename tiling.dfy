/** Geometry of the tiled super-resolution upscaler.

    `tileUpscale` walks the source image row-major in steps of the tile edge
    length, clips every tile at the right and bottom edges, and places each
    upsampled tile into the destination at the tile's origin times the scale
    factor. This module describes the tiles the two nested loops visit (in
    the order they visit them) and the destination rectangles they fill, and
    proves that the tiling is in bounds, non-overlapping and exhaustive. */
module Tiling {

  /** An axis-aligned rectangle, as OpenCV's `Rect(x, y, width, height)`:
      `x` is the column of its left edge, `y` the row of its top edge. */
  datatype Rect = Rect(x: nat, y: nat, width: nat, height: nat)

  /** The tile edge length `tileUpscale` uses when its caller gives none. */
  const DefaultTileSize: nat := 1024

  function Min(a: int, b: int): int
  {
    if a <= b then a else b
  }

  /** Pixel (row, col) lies in `r`. */
  predicate Contains(r: Rect, row: int, col: int)
  {
    r.y <= row < r.y + r.height && r.x <= col < r.x + r.width
  }

  /** `r` lies entirely inside an image of `rows` by `cols` pixels. */
  predicate Inside(r: Rect, rows: nat, cols: nat)
  {
    r.y + r.height <= rows && r.x + r.width <= cols
  }

  /** `a` and `b` share no pixel. */
  predicate Disjoint(a: Rect, b: Rect)
  {
    a.x + a.width <= b.x || b.x + b.width <= a.x ||
    a.y + a.height <= b.y || b.y + b.height <= a.y
  }

  /** Row-major order of tile origins: the order of the nested loops. */
  predicate Precedes(a: Rect, b: Rect)
  {
    a.y < b.y || (a.y == b.y && a.x < b.x)
  }

  /** The number of tiles of edge `tileSize` needed to cover `n` pixels. */
  function CeilDiv(n: nat, tileSize: nat): nat
    requires tileSize > 0
  {
    (n + tileSize - 1) / tileSize
  }

  /** The tile rectangle the loops build at origin (x, y): at most
      `tileSize` on each side, clipped to what remains of the source. */
  function TileAt(rows: nat, cols: nat, tileSize: nat, y: nat, x: nat): Rect
    requires y < rows && x < cols
  {
    Rect(x, y, Min(tileSize, cols - x), Min(tileSize, rows - y))
  }

  /** The tiles the inner loop builds in the tile row at `y`, from column `x` on. */
  function RowTiles(rows: nat, cols: nat, tileSize: nat, y: nat, x: nat): seq<Rect>
    requires tileSize > 0 && y < rows
    decreases cols - x
  {
    if x >= cols then []
    else [TileAt(rows, cols, tileSize, y, x)] + RowTiles(rows, cols, tileSize, y, x + tileSize)
  }

  /** The tiles the outer loop builds from tile row `y` on. */
  function TilesFrom(rows: nat, cols: nat, tileSize: nat, y: nat): seq<Rect>
    requires tileSize > 0
    decreases rows - y
  {
    if y >= rows then []
    else RowTiles(rows, cols, tileSize, y, 0) + TilesFrom(rows, cols, tileSize, y + tileSize)
  }

  /** Every tile `tileUpscale` visits, in visiting order. */
  function Tiles(rows: nat, cols: nat, tileSize: nat): seq<Rect>
    requires tileSize > 0
  {
    TilesFrom(rows, cols, tileSize, 0)
  }

  /** A tile whose origin lies on the tile grid and whose size is the clipped one. */
  predicate IsGridTile(r: Rect, rows: nat, cols: nat, tileSize: nat)
    requires tileSize > 0
  {
    r.y < rows && r.x < cols && r.y % tileSize == 0 && r.x % tileSize == 0 &&
    r == TileAt(rows, cols, tileSize, r.y, r.x)
  }

  /** The start of the grid cell of edge `tileSize` that holds coordinate `p`. */
  function Origin(p: nat, tileSize: nat): nat
    requires tileSize > 0
  {
    p / tileSize * tileSize
  }

  /** Where the upsampled copy of `r` goes in a buffer `scale` times larger. */
  function Scaled(r: Rect, scale: nat): Rect
  {
    Rect(r.x * scale, r.y * scale, r.width * scale, r.height * scale)
  }

  // ---------------------------------------------------------------------
  // Arithmetic helpers
  // ---------------------------------------------------------------------

  lemma MulLe(a: nat, b: nat, s: nat)
    requires a <= b
    ensures a * s <= b * s
  {
  }

  /** A span that ends before `q` still does so after scaling. */
  lemma ScaledGap(p: nat, w: nat, q: nat, s: nat)
    requires p + w <= q
    ensures p * s + w * s <= q * s
  {
    MulLe(p + w, q, s);
    assert (p + w) * s == p * s + w * s;
  }

  lemma DivBounds(n: nat, s: nat)
    requires s > 0
    ensures n / s * s <= n < n / s * s + s
  {
  }

  lemma DivUnique(n: nat, s: nat, q: nat)
    requires s > 0 && q * s <= n < q * s + s
    ensures n / s == q
  {
    var r := n / s;
    DivBounds(n, s);
    if r < q {
      MulLe(r + 1, q, s);
    } else if q < r {
      MulLe(q + 1, r, s);
    }
  }

  /** Two distinct multiples of `t` are at least `t` apart. */
  lemma AlignedGap(a: nat, b: nat, t: nat)
    requires t > 0 && a % t == 0 && b % t == 0 && a < b
    ensures a + t <= b
  {
    var qa, qb := a / t, b / t;
    assert a == qa * t && b == qb * t;
    if qb <= qa {
      MulLe(qb, qa, t);
    }
    MulLe(qa + 1, qb, t);
  }

  /** Stepping by `t` keeps the remainder modulo `t`. */
  lemma ModStep(d: nat, t: nat)
    requires t > 0
    ensures (d + t) % t == d % t
  {
    var q := d / t;
    DivBounds(d, t);
    DivUnique(d + t, t, q + 1);
  }

  lemma ModSmall(d: nat, t: nat)
    requires d < t
    ensures d % t == d
  {
    DivUnique(d, t, 0);
  }

  lemma OriginBounds(p: nat, t: nat)
    requires t > 0
    ensures Origin(p, t) % t == 0
    ensures Origin(p, t) <= p < Origin(p, t) + t
  {
    DivBounds(p, t);
    DivUnique(Origin(p, t), t, p / t);
  }

  /** A grid-aligned `o` within one cell before `p` is `p`'s cell origin. */
  lemma OriginOf(o: nat, p: nat, t: nat)
    requires t > 0 && o % t == 0 && o <= p < o + t
    ensures Origin(p, t) == o
  {
    DivUnique(o, t, o / t);
    DivBounds(o, t);
    DivUnique(p, t, o / t);
  }

  lemma CeilDivZero(t: nat)
    requires t > 0
    ensures CeilDiv(0, t) == 0
  {
    DivUnique(t - 1, t, 0);
  }

  lemma CeilDivStep(n: nat, t: nat)
    requires t > 0 && n > 0
    ensures CeilDiv(n, t) == 1 + (if n > t then CeilDiv(n - t, t) else 0)
  {
    if n <= t {
      DivUnique(n + t - 1, t, 1);
    } else {
      var q := (n - 1) / t;
      DivBounds(n - 1, t);
      DivUnique(n - 1, t, q);
      DivUnique(n + t - 1, t, q + 1);
    }
  }

  // ---------------------------------------------------------------------
  // Which tiles the loops visit
  // ---------------------------------------------------------------------

  lemma {:induction false} RowTilesMembers(rows: nat, cols: nat, t: nat, y: nat, x: nat, r: Rect)
    requires t > 0 && y < rows
    ensures r in RowTiles(rows, cols, t, y, x) <==>
              x <= r.x < cols && (r.x - x) % t == 0 && r == TileAt(rows, cols, t, y, r.x)
    decreases cols - x
  {
    if x < cols {
      var rest := RowTiles(rows, cols, t, y, x + t);
      assert RowTiles(rows, cols, t, y, x) == [TileAt(rows, cols, t, y, x)] + rest;
      RowTilesMembers(rows, cols, t, y, x + t, r);
      if x + t <= r.x {
        ModStep(r.x - x - t, t);
      } else if x < r.x {
        ModSmall(r.x - x, t);
      } else if r.x == x {
        ModSmall(0, t);
      }
    }
  }

  lemma {:induction false} TilesFromMembers(rows: nat, cols: nat, t: nat, y: nat, r: Rect)
    requires t > 0
    ensures r in TilesFrom(rows, cols, t, y) <==>
              y <= r.y < rows && (r.y - y) % t == 0 && r.x < cols && r.x % t == 0 &&
              r == TileAt(rows, cols, t, r.y, r.x)
    decreases rows - y
  {
    if y < rows {
      TilesFromMembers(rows, cols, t, y + t, r);
      RowTilesMembers(rows, cols, t, y, 0, r);
      if y + t <= r.y {
        ModStep(r.y - y - t, t);
      } else if y < r.y {
        ModSmall(r.y - y, t);
      } else if r.y == y {
        ModSmall(0, t);
      }
    }
  }

  /** A rectangle is visited by the loops exactly when it is a clipped tile on the grid. */
  lemma TilesMembers(rows: nat, cols: nat, tileSize: nat, r: Rect)
    requires tileSize > 0
    ensures r in Tiles(rows, cols, tileSize) <==> IsGridTile(r, rows, cols, tileSize)
  {
    TilesFromMembers(rows, cols, tileSize, 0, r);
  }

  lemma {:induction false} RowTilesOrdered(rows: nat, cols: nat, t: nat, y: nat, x: nat)
    requires t > 0 && y < rows
    ensures forall i, j :: 0 <= i < j < |RowTiles(rows, cols, t, y, x)| ==>
              RowTiles(rows, cols, t, y, x)[i].x < RowTiles(rows, cols, t, y, x)[j].x
    decreases cols - x
  {
    if x < cols {
      var s := RowTiles(rows, cols, t, y, x);
      var rest := RowTiles(rows, cols, t, y, x + t);
      RowTilesOrdered(rows, cols, t, y, x + t);
      forall j | 0 < j < |s|
        ensures s[0].x < s[j].x
      {
        assert s[j] == rest[j - 1];
        RowTilesMembers(rows, cols, t, y, x + t, rest[j - 1]);
      }
    }
  }

  lemma {:induction false} TilesFromOrdered(rows: nat, cols: nat, t: nat, y: nat)
    requires t > 0
    ensures forall i, j :: 0 <= i < j < |TilesFrom(rows, cols, t, y)| ==>
              Precedes(TilesFrom(rows, cols, t, y)[i], TilesFrom(rows, cols, t, y)[j])
    decreases rows - y
  {
    if y < rows {
      var s := TilesFrom(rows, cols, t, y);
      var row := RowTiles(rows, cols, t, y, 0);
      var rest := TilesFrom(rows, cols, t, y + t);
      assert s == row + rest;
      TilesFromOrdered(rows, cols, t, y + t);
      RowTilesOrdered(rows, cols, t, y, 0);
      forall i, j | 0 <= i < j < |s|
        ensures Precedes(s[i], s[j])
      {
        if j < |row| {
          RowTilesMembers(rows, cols, t, y, 0, row[i]);
          RowTilesMembers(rows, cols, t, y, 0, row[j]);
        } else if i < |row| {
          RowTilesMembers(rows, cols, t, y, 0, row[i]);
          TilesFromMembers(rows, cols, t, y + t, rest[j - |row|]);
        } else {
          assert s[i] == rest[i - |row|] && s[j] == rest[j - |row|];
        }
      }
    }
  }

  /** The loops visit tiles in strict row-major order of their origins. */
  lemma TilesOrdered(rows: nat, cols: nat, tileSize: nat)
    requires tileSize > 0
    ensures forall i, j :: 0 <= i < j < |Tiles(rows, cols, tileSize)| ==>
              Precedes(Tiles(rows, cols, tileSize)[i], Tiles(rows, cols, tileSize)[j])
  {
    TilesFromOrdered(rows, cols, tileSize, 0);
  }

  /** Every visited tile is non-empty, lies inside the source, and is clipped
      to `min(tileSize, remaining)` on each side. */
  lemma TilesInBounds(rows: nat, cols: nat, tileSize: nat, k: nat)
    requires tileSize > 0 && k < |Tiles(rows, cols, tileSize)|
    ensures var r := Tiles(rows, cols, tileSize)[k];
            0 < r.width <= tileSize && 0 < r.height <= tileSize &&
            r.width == Min(tileSize, cols - r.x) && r.height == Min(tileSize, rows - r.y) &&
            Inside(r, rows, cols)
  {
    TilesMembers(rows, cols, tileSize, Tiles(rows, cols, tileSize)[k]);
  }

  /** Two tiles on the grid with different origins do not overlap. */
  lemma GridTilesDisjoint(a: Rect, b: Rect, rows: nat, cols: nat, t: nat)
    requires t > 0 && IsGridTile(a, rows, cols, t) && IsGridTile(b, rows, cols, t) && a != b
    ensures Disjoint(a, b)
  {
    if a.x < b.x {
      AlignedGap(a.x, b.x, t);
    } else if b.x < a.x {
      AlignedGap(b.x, a.x, t);
    } else if a.y < b.y {
      AlignedGap(a.y, b.y, t);
    } else if b.y < a.y {
      AlignedGap(b.y, a.y, t);
    }
  }

  /** Distinct visits cover disjoint source rectangles. */
  lemma TilesDisjoint(rows: nat, cols: nat, tileSize: nat, i: nat, j: nat)
    requires tileSize > 0 && i < j < |Tiles(rows, cols, tileSize)|
    ensures Disjoint(Tiles(rows, cols, tileSize)[i], Tiles(rows, cols, tileSize)[j])
  {
    var s := Tiles(rows, cols, tileSize);
    TilesOrdered(rows, cols, tileSize);
    TilesMembers(rows, cols, tileSize, s[i]);
    TilesMembers(rows, cols, tileSize, s[j]);
    GridTilesDisjoint(s[i], s[j], rows, cols, tileSize);
  }

  /** The tile holding source pixel (row, col) is the one at its cell origin. */
  lemma TileOfPixel(rows: nat, cols: nat, t: nat, row: nat, col: nat)
    requires t > 0 && row < rows && col < cols
    ensures Origin(row, t) < rows && Origin(col, t) < cols
    ensures IsGridTile(TileAt(rows, cols, t, Origin(row, t), Origin(col, t)), rows, cols, t)
    ensures Contains(TileAt(rows, cols, t, Origin(row, t), Origin(col, t)), row, col)
  {
    OriginBounds(row, t);
    OriginBounds(col, t);
  }

  /** Every source pixel lies in exactly one visited tile. */
  lemma TilesCoverOnce(rows: nat, cols: nat, tileSize: nat, row: nat, col: nat)
    requires tileSize > 0 && row < rows && col < cols
    ensures exists k :: 0 <= k < |Tiles(rows, cols, tileSize)| &&
              Contains(Tiles(rows, cols, tileSize)[k], row, col)
    ensures forall i, j ::
              (0 <= i < |Tiles(rows, cols, tileSize)| && 0 <= j < |Tiles(rows, cols, tileSize)| &&
               Contains(Tiles(rows, cols, tileSize)[i], row, col) &&
               Contains(Tiles(rows, cols, tileSize)[j], row, col)) ==> i == j
  {
    var s := Tiles(rows, cols, tileSize);
    TileOfPixel(rows, cols, tileSize, row, col);
    var r := TileAt(rows, cols, tileSize, Origin(row, tileSize), Origin(col, tileSize));
    TilesMembers(rows, cols, tileSize, r);
    var k :| 0 <= k < |s| && s[k] == r;
    assert Contains(s[k], row, col);
    forall i, j | 0 <= i < |s| && 0 <= j < |s| && Contains(s[i], row, col) && Contains(s[j], row, col)
      ensures i == j
    {
      if i < j {
        TilesDisjoint(rows, cols, tileSize, i, j);
      } else if j < i {
        TilesDisjoint(rows, cols, tileSize, j, i);
      }
    }
  }

  lemma {:induction false} RowTilesCount(rows: nat, cols: nat, t: nat, y: nat, x: nat)
    requires t > 0 && y < rows
    ensures |RowTiles(rows, cols, t, y, x)| == if x < cols then CeilDiv(cols - x, t) else 0
    decreases cols - x
  {
    if x < cols {
      RowTilesCount(rows, cols, t, y, x + t);
      CeilDivStep(cols - x, t);
    }
  }

  lemma {:induction false} TilesFromCount(rows: nat, cols: nat, t: nat, y: nat)
    requires t > 0
    ensures |TilesFrom(rows, cols, t, y)| == (if y < rows then CeilDiv(rows - y, t) else 0) * CeilDiv(cols, t)
    decreases rows - y
  {
    if y < rows {
      TilesFromCount(rows, cols, t, y + t);
      RowTilesCount(rows, cols, t, y, 0);
      CeilDivStep(rows - y, t);
      if cols == 0 {
        CeilDivZero(t);
      }
      var c := CeilDiv(cols, t);
      var rest := if y + t < rows then CeilDiv(rows - (y + t), t) else 0;
      assert CeilDiv(rows - y, t) == 1 + rest;
      assert |RowTiles(rows, cols, t, y, 0)| == c;
      assert |TilesFrom(rows, cols, t, y + t)| == rest * c;
      assert (1 + rest) * c == c + rest * c;
    }
  }

  /** There are `ceil(rows / tileSize) * ceil(cols / tileSize)` tiles. */
  lemma TileCount(rows: nat, cols: nat, tileSize: nat)
    requires tileSize > 0
    ensures |Tiles(rows, cols, tileSize)| == CeilDiv(rows, tileSize) * CeilDiv(cols, tileSize)
  {
    TilesFromCount(rows, cols, tileSize, 0);
    if rows == 0 {
      CeilDivZero(tileSize);
    }
  }

  /** A 2000-wide, 1500-high source with 1024-pixel tiles gives four tiles:
      1024 + 976 columns by 1024 + 476 rows. */
  lemma TilesExample()
    ensures Tiles(1500, 2000, DefaultTileSize) ==
              [Rect(0, 0, 1024, 1024), Rect(1024, 0, 976, 1024),
               Rect(0, 1024, 1024, 476), Rect(1024, 1024, 976, 476)]
  {
  }

  /** A source no larger than one tile is visited once, as a whole. */
  lemma SingleTile(rows: nat, cols: nat, tileSize: nat)
    requires tileSize > 0 && 0 < rows <= tileSize && 0 < cols <= tileSize
    ensures Tiles(rows, cols, tileSize) == [Rect(0, 0, cols, rows)]
  {
    assert RowTiles(rows, cols, tileSize, 0, tileSize) == [];
    assert TilesFrom(rows, cols, tileSize, tileSize) == [];
  }

  // ---------------------------------------------------------------------
  // Where the upsampled tiles go
  // ---------------------------------------------------------------------

  /** The destination rectangle of every tile lies inside the destination buffer. */
  lemma DestInside(rows: nat, cols: nat, tileSize: nat, scale: nat, k: nat)
    requires tileSize > 0 && k < |Tiles(rows, cols, tileSize)|
    ensures Inside(Scaled(Tiles(rows, cols, tileSize)[k], scale), rows * scale, cols * scale)
  {
    var r := Tiles(rows, cols, tileSize)[k];
    TilesInBounds(rows, cols, tileSize, k);
    MulLe(r.y + r.height, rows, scale);
    MulLe(r.x + r.width, cols, scale);
  }

  lemma ScaledDisjoint(a: Rect, b: Rect, scale: nat)
    requires scale > 0 && Disjoint(a, b)
    ensures Disjoint(Scaled(a, scale), Scaled(b, scale))
  {
    if a.x + a.width <= b.x {
      ScaledGap(a.x, a.width, b.x, scale);
    } else if b.x + b.width <= a.x {
      ScaledGap(b.x, b.width, a.x, scale);
    } else if a.y + a.height <= b.y {
      ScaledGap(a.y, a.height, b.y, scale);
    } else {
      ScaledGap(b.y, b.height, a.y, scale);
    }
  }

  /** Distinct visits write disjoint destination rectangles. */
  lemma DestDisjoint(rows: nat, cols: nat, tileSize: nat, scale: nat, i: nat, j: nat)
    requires tileSize > 0 && scale > 0 && i < j < |Tiles(rows, cols, tileSize)|
    ensures Disjoint(Scaled(Tiles(rows, cols, tileSize)[i], scale), Scaled(Tiles(rows, cols, tileSize)[j], scale))
  {
    TilesDisjoint(rows, cols, tileSize, i, j);
    ScaledDisjoint(Tiles(rows, cols, tileSize)[i], Tiles(rows, cols, tileSize)[j], scale);
  }

  /** Destination row or column `i` belongs to the scaled span of the cell
      that holds source coordinate `i / scale`. */
  lemma AxisLocate(i: nat, n: nat, t: nat, scale: nat)
    requires t > 0 && scale > 0 && i < n * scale
    ensures i / scale < n && Origin(i / scale, t) < n
    ensures Origin(i / scale, t) * scale <= i < Origin(i / scale, t) * scale + Min(t, n - Origin(i / scale, t)) * scale
  {
    var p := i / scale;
    DivBounds(i, scale);
    if n <= p {
      MulLe(n, p, scale);
    }
    var o := Origin(p, t);
    OriginBounds(p, t);
    MulLe(o, p, scale);
    MulLe(p + 1, o + Min(t, n - o), scale);
    assert (o + Min(t, n - o)) * scale == o * scale + Min(t, n - o) * scale;
  }

  /** Conversely, an offset `a` inside the scaled span of the cell at `o`
      maps back to that cell. */
  lemma AxisOrigin(o: nat, a: nat, n: nat, t: nat, scale: nat)
    requires t > 0 && scale > 0 && o % t == 0 && o < n && a < Min(t, n - o) * scale
    ensures (o * scale + a) / scale < n
    ensures Origin((o * scale + a) / scale, t) == o
  {
    var q := a / scale;
    DivBounds(a, scale);
    if Min(t, n - o) <= q {
      MulLe(Min(t, n - o), q, scale);
    }
    assert o * scale + a == (o + q) * scale + (a - q * scale);
    DivUnique(o * scale + a, scale, o + q);
    OriginOf(o, o + q, t);
  }

  /** The grid tile whose destination rectangle holds destination pixel (i, j). */
  lemma ScaledTileOfPixel(rows: nat, cols: nat, t: nat, scale: nat, i: nat, j: nat) returns (r: Rect)
    requires t > 0 && scale > 0 && i < rows * scale && j < cols * scale
    ensures IsGridTile(r, rows, cols, t) && Contains(Scaled(r, scale), i, j)
  {
    AxisLocate(i, rows, t, scale);
    AxisLocate(j, cols, t, scale);
    OriginBounds(i / scale, t);
    OriginBounds(j / scale, t);
    r := TileAt(rows, cols, t, Origin(i / scale, t), Origin(j / scale, t));
  }

  /** Every destination pixel lies in the destination rectangle of exactly one visited tile. */
  lemma DestCoverOnce(rows: nat, cols: nat, tileSize: nat, scale: nat, i: nat, j: nat)
    requires tileSize > 0 && scale > 0 && i < rows * scale && j < cols * scale
    ensures exists k :: 0 <= k < |Tiles(rows, cols, tileSize)| &&
              Contains(Scaled(Tiles(rows, cols, tileSize)[k], scale), i, j)
    ensures forall k1, k2 ::
              (0 <= k1 < |Tiles(rows, cols, tileSize)| && 0 <= k2 < |Tiles(rows, cols, tileSize)| &&
               Contains(Scaled(Tiles(rows, cols, tileSize)[k1], scale), i, j) &&
               Contains(Scaled(Tiles(rows, cols, tileSize)[k2], scale), i, j)) ==> k1 == k2
  {
    var s := Tiles(rows, cols, tileSize);
    var r := ScaledTileOfPixel(rows, cols, tileSize, scale, i, j);
    TilesMembers(rows, cols, tileSize, r);
    var k :| 0 <= k < |s| && s[k] == r;
    assert Contains(Scaled(s[k], scale), i, j);
    forall k1, k2 | 0 <= k1 < |s| && 0 <= k2 < |s| &&
        Contains(Scaled(s[k1], scale), i, j) && Contains(Scaled(s[k2], scale), i, j)
      ensures k1 == k2
    {
      if k1 < k2 {
        DestDisjoint(rows, cols, tileSize, scale, k1, k2);
      } else if k2 < k1 {
        DestDisjoint(rows, cols, tileSize, scale, k2, k1);
      }
    }
  }
}
