/** The tiled super-resolution pass `tileUpscale`.

    The destination buffer is allocated zeroed at `scale` times the source
    size; the two nested loops cut the source into clipped tiles, run the
    super-resolution network on each tile and copy its output into the
    destination at the tile's origin times `scale`. The network itself is a
    parameter `up`; all that is known of it is that it scales the size of
    a well-formed image by `scale` in each direction. */
module Upscale {
  import opened Tiling

  /** A pixel. The source works on 3-channel 8-bit colour pixels; the
      tiling never looks inside one, so a pixel is an opaque integer here. */
  type Pixel = int

  /** A dense image, as an OpenCV `Mat`: `pixels[r][c]` is the pixel in row `r`, column `c`. */
  datatype Image = Image(rows: nat, cols: nat, pixels: seq<seq<Pixel>>)
  {
    predicate Valid()
    {
      |pixels| == rows && forall r :: 0 <= r < rows ==> |pixels[r]| == cols
    }
  }

  /** `src(roi)`: the part of `src` under `roi`, with its own coordinates starting at 0. */
  function Crop(src: Image, roi: Rect): (tile: Image)
    requires src.Valid() && Inside(roi, src.rows, src.cols)
    ensures tile.Valid() && tile.rows == roi.height && tile.cols == roi.width
    ensures forall r, c :: 0 <= r < roi.height && 0 <= c < roi.width ==>
              tile.pixels[r][c] == src.pixels[roi.y + r][roi.x + c]
  {
    Image(roi.height, roi.width,
          seq(roi.height, r requires 0 <= r < roi.height => src.pixels[roi.y + r][roi.x .. roi.x + roi.width]))
  }

  /** What is known of the super-resolution network: on a well-formed
      `h x w` image it returns a well-formed `(h * scale) x (w * scale)` image. */
  ghost predicate ScalesBy(up: Image -> Image, scale: nat)
  {
    forall g: Image {:trigger up(g)} :: g.Valid() ==>
      up(g).Valid() && up(g).rows == g.rows * scale && up(g).cols == g.cols * scale
  }

  /** The value the stitched result should have at destination pixel (i, j):
      the matching pixel of the upsampled tile whose grid cell holds source
      pixel (i / scale, j / scale). */
  function Stitched(up: Image -> Image, scale: nat, src: Image, tileSize: nat, i: nat, j: nat): Pixel
    requires src.Valid() && scale > 0 && tileSize > 0 && ScalesBy(up, scale)
    requires i < src.rows * scale && j < src.cols * scale
  {
    AxisLocate(i, src.rows, tileSize, scale);
    AxisLocate(j, src.cols, tileSize, scale);
    var y := Origin(i / scale, tileSize);
    var x := Origin(j / scale, tileSize);
    up(Crop(src, TileAt(src.rows, src.cols, tileSize, y, x))).pixels[i - y * scale][j - x * scale]
  }

  /** Destination pixel (i, j) belongs to a tile the loops have finished
      when they are about to handle the tile at (x, y). */
  ghost predicate Written(scale: nat, tileSize: nat, i: nat, j: nat, y: nat, x: nat)
    requires scale > 0 && tileSize > 0
  {
    Origin(i / scale, tileSize) < y ||
    (Origin(i / scale, tileSize) == y && Origin(j / scale, tileSize) < x)
  }

  /** Inside the destination rectangle of the grid tile at (x, y), `Stitched`
      reads that tile's upsampled output. */
  lemma StitchedAt(up: Image -> Image, scale: nat, src: Image, t: nat, y: nat, x: nat, a: nat, b: nat)
    requires src.Valid() && scale > 0 && t > 0 && ScalesBy(up, scale)
    requires y % t == 0 && x % t == 0 && y < src.rows && x < src.cols
    requires a < Min(t, src.rows - y) * scale && b < Min(t, src.cols - x) * scale
    ensures y * scale + a < src.rows * scale && x * scale + b < src.cols * scale
    ensures Stitched(up, scale, src, t, y * scale + a, x * scale + b) ==
              up(Crop(src, TileAt(src.rows, src.cols, t, y, x))).pixels[a][b]
  {
    ScaledGap(y, Min(t, src.rows - y), src.rows, scale);
    ScaledGap(x, Min(t, src.cols - x), src.cols, scale);
    AxisOrigin(y, a, src.rows, t, scale);
    AxisOrigin(x, b, src.cols, t, scale);
  }

  /** Every pixel of the upsampled output of a visited tile (a grid tile,
      see `TilesMembers`) lands, through `Stitched`, at the tile's origin
      times `scale` plus its own offset: the destination holds each tile's
      output in the tile's own destination rectangle. */
  lemma StitchedByTile(up: Image -> Image, scale: nat, src: Image, tileSize: nat, r: Rect, a: nat, b: nat)
    requires src.Valid() && scale > 0 && tileSize > 0 && ScalesBy(up, scale)
    requires IsGridTile(r, src.rows, src.cols, tileSize)
    requires a < r.height * scale && b < r.width * scale
    ensures Contains(Scaled(r, scale), r.y * scale + a, r.x * scale + b)
    ensures r.y * scale + a < src.rows * scale && r.x * scale + b < src.cols * scale
    ensures Stitched(up, scale, src, tileSize, r.y * scale + a, r.x * scale + b) == up(Crop(src, r)).pixels[a][b]
  {
    StitchedAt(up, scale, src, tileSize, r.y, r.x, a, b);
  }

  /** An image no larger than one tile is upsampled in a single call:
      the stitched result is the network's output on the whole source. */
  lemma SingleTileUpscale(up: Image -> Image, scale: nat, src: Image, tileSize: nat, i: nat, j: nat)
    requires src.Valid() && scale > 0 && tileSize > 0 && ScalesBy(up, scale)
    requires src.rows <= tileSize && src.cols <= tileSize
    requires i < src.rows * scale && j < src.cols * scale
    ensures i < up(src).rows && j < up(src).cols
    ensures Stitched(up, scale, src, tileSize, i, j) == up(src).pixels[i][j]
  {
    AxisLocate(i, src.rows, tileSize, scale);
    AxisLocate(j, src.cols, tileSize, scale);
    OriginOf(0, i / scale, tileSize);
    OriginOf(0, j / scale, tileSize);
    var whole := TileAt(src.rows, src.cols, tileSize, 0, 0);
    assert whole == Rect(0, 0, src.cols, src.rows);
    var c := Crop(src, whole);
    assert c.pixels == src.pixels by {
      forall r | 0 <= r < src.rows
        ensures c.pixels[r] == src.pixels[r]
      {
        assert c.pixels[r] == src.pixels[r][0 .. src.cols];
      }
    }
  }

  /** Source pixel coordinates of destination (i, j) versus the destination
      rectangle of the tile at (x, y): the pixel is in that rectangle exactly
      when the tile is its own, and handling that tile adds exactly it to
      the finished part. */
  lemma StepWritten(rows: nat, cols: nat, t: nat, scale: nat, y: nat, x: nat, i: nat, j: nat)
    requires t > 0 && scale > 0 && y % t == 0 && x % t == 0 && y < rows && x < cols
    requires i < rows * scale && j < cols * scale
    ensures Contains(Scaled(TileAt(rows, cols, t, y, x), scale), i, j) <==>
              Origin(i / scale, t) == y && Origin(j / scale, t) == x
    ensures Written(scale, t, i, j, y, x + t) <==>
              Written(scale, t, i, j, y, x) || (Origin(i / scale, t) == y && Origin(j / scale, t) == x)
  {
    var d := Scaled(TileAt(rows, cols, t, y, x), scale);
    AxisLocate(i, rows, t, scale);
    AxisLocate(j, cols, t, scale);
    OriginBounds(j / scale, t);
    if Contains(d, i, j) {
      AxisOrigin(y, i - y * scale, rows, t, scale);
      AxisOrigin(x, j - x * scale, cols, t, scale);
    }
    if Origin(j / scale, t) > x {
      AlignedGap(x, Origin(j / scale, t), t);
    }
  }

  /** After the inner loop has run past the last column, the finished part
      is every tile row up to and including `y`. */
  lemma RowWritten(rows: nat, cols: nat, t: nat, scale: nat, y: nat, x: nat, i: nat, j: nat)
    requires t > 0 && scale > 0 && y % t == 0 && cols <= x
    requires i < rows * scale && j < cols * scale
    ensures Written(scale, t, i, j, y, x) <==> Written(scale, t, i, j, y + t, 0)
  {
    AxisLocate(j, cols, t, scale);
    OriginBounds(i / scale, t);
    if y < Origin(i / scale, t) {
      AlignedGap(y, Origin(i / scale, t), t);
    }
  }

  /** One pixel across one pass of the inner loop body: if it held its
      stitched value when finished and 0 otherwise before the tile at (x, y)
      is copied in, it does so afterwards with that tile counted as finished. */
  lemma StepPixel(up: Image -> Image, scale: nat, src: Image, t: nat, y: nat, x: nat,
                  i: nat, j: nat, before: Pixel, after: Pixel)
    requires src.Valid() && scale > 0 && t > 0 && ScalesBy(up, scale)
    requires y % t == 0 && x % t == 0 && y < src.rows && x < src.cols
    requires i < src.rows * scale && j < src.cols * scale
    requires before == if Written(scale, t, i, j, y, x) then Stitched(up, scale, src, t, i, j) else 0
    requires var d := Scaled(TileAt(src.rows, src.cols, t, y, x), scale);
             after == if Contains(d, i, j)
                      then up(Crop(src, TileAt(src.rows, src.cols, t, y, x))).pixels[i - d.y][j - d.x]
                      else before
    ensures after == if Written(scale, t, i, j, y, x + t) then Stitched(up, scale, src, t, i, j) else 0
  {
    var d := Scaled(TileAt(src.rows, src.cols, t, y, x), scale);
    StepWritten(src.rows, src.cols, t, scale, y, x, i, j);
    if Contains(d, i, j) {
      assert d.y == y * scale && d.x == x * scale;
      StitchedAt(up, scale, src, t, y, x, i - d.y, j - d.x);
      assert Written(scale, t, i, j, y, x + t);
    } else {
      assert Written(scale, t, i, j, y, x + t) == Written(scale, t, i, j, y, x);
    }
  }

  /** `tile.copyTo(dst(roi))`: overwrites the pixels of `dst` under `roi`
      with those of `tile` and leaves every other pixel as it was. */
  method CopyTo(tile: Image, dst: array2<Pixel>, roi: Rect)
    requires tile.Valid() && tile.rows == roi.height && tile.cols == roi.width
    requires Inside(roi, dst.Length0, dst.Length1)
    modifies dst
    ensures forall i, j :: 0 <= i < dst.Length0 && 0 <= j < dst.Length1 ==>
              dst[i, j] == if Contains(roi, i, j) then tile.pixels[i - roi.y][j - roi.x] else old(dst[i, j])
  {
    var r := 0;
    while r < roi.height
      invariant 0 <= r <= roi.height
      invariant forall i, j :: 0 <= i < dst.Length0 && 0 <= j < dst.Length1 ==>
                  dst[i, j] == if roi.y <= i < roi.y + r && roi.x <= j < roi.x + roi.width
                               then tile.pixels[i - roi.y][j - roi.x] else old(dst[i, j])
    {
      var c := 0;
      while c < roi.width
        invariant 0 <= c <= roi.width
        invariant forall i, j :: 0 <= i < dst.Length0 && 0 <= j < dst.Length1 ==>
                    dst[i, j] == if (roi.y <= i < roi.y + r && roi.x <= j < roi.x + roi.width) ||
                                    (i == roi.y + r && roi.x <= j < roi.x + c)
                                 then tile.pixels[i - roi.y][j - roi.x] else old(dst[i, j])
      {
        dst[roi.y + r, roi.x + c] := tile.pixels[r][c];
        c := c + 1;
      }
      r := r + 1;
    }
  }

  /** The body of the inner loop of `tileUpscale`: cut out the tile at
      (x, y), upsample it and copy the result into `dst` at (x, y) times
      `scale`. If `dst` held the stitched value exactly at the pixels of
      finished tiles and 0 elsewhere, it still does with this tile finished. */
  method PlaceTile(up: Image -> Image, scale: nat, src: Image, tileSize: nat,
                   dst: array2<Pixel>, y: nat, x: nat) returns (roi: Rect)
    requires src.Valid() && scale > 0 && tileSize > 0 && ScalesBy(up, scale)
    requires y % tileSize == 0 && x % tileSize == 0 && y < src.rows && x < src.cols
    requires dst.Length0 == src.rows * scale && dst.Length1 == src.cols * scale
    requires forall i, j :: 0 <= i < dst.Length0 && 0 <= j < dst.Length1 ==>
               dst[i, j] == if Written(scale, tileSize, i, j, y, x) then Stitched(up, scale, src, tileSize, i, j) else 0
    modifies dst
    ensures roi == TileAt(src.rows, src.cols, tileSize, y, x)
    ensures forall i, j :: 0 <= i < dst.Length0 && 0 <= j < dst.Length1 ==>
              dst[i, j] == if Written(scale, tileSize, i, j, y, x + tileSize) then Stitched(up, scale, src, tileSize, i, j) else 0
  {
    roi := Rect(x, y, Min(tileSize, src.cols - x), Min(tileSize, src.rows - y));
    var tile := Crop(src, roi);
    var tileSr := up(tile);
    ScaledGap(y, roi.height, src.rows, scale);
    ScaledGap(x, roi.width, src.cols, scale);
    label before:
    CopyTo(tileSr, dst, Rect(x * scale, y * scale, tileSr.cols, tileSr.rows));
    forall i, j | 0 <= i < dst.Length0 && 0 <= j < dst.Length1
      ensures dst[i, j] == if Written(scale, tileSize, i, j, y, x + tileSize)
                           then Stitched(up, scale, src, tileSize, i, j) else 0
    {
      StepPixel(up, scale, src, tileSize, y, x, i, j, old@before(dst[i, j]), dst[i, j]);
    }
  }

  /** The inner loop of `tileUpscale`: handles the tiles of the tile row at
      `y` from left to right (reported in the ghost `row`). Before it, `dst`
      holds the stitched value exactly at the pixels of the tile rows above
      `y`; afterwards it does so for the tile rows up to and including `y`. */
  method UpscaleTileRow(up: Image -> Image, scale: nat, src: Image, tileSize: nat,
                        dst: array2<Pixel>, y: nat) returns (ghost row: seq<Rect>)
    requires src.Valid() && scale > 0 && tileSize > 0 && ScalesBy(up, scale)
    requires y % tileSize == 0 && y < src.rows
    requires dst.Length0 == src.rows * scale && dst.Length1 == src.cols * scale
    requires forall i, j :: 0 <= i < dst.Length0 && 0 <= j < dst.Length1 ==>
               dst[i, j] == if Written(scale, tileSize, i, j, y, 0) then Stitched(up, scale, src, tileSize, i, j) else 0
    modifies dst
    ensures row == RowTiles(src.rows, src.cols, tileSize, y, 0)
    ensures forall i, j :: 0 <= i < dst.Length0 && 0 <= j < dst.Length1 ==>
              dst[i, j] == if Written(scale, tileSize, i, j, y + tileSize, 0) then Stitched(up, scale, src, tileSize, i, j) else 0
  {
    row := [];
    var x := 0;
    while x < src.cols
      invariant x % tileSize == 0
      invariant row + RowTiles(src.rows, src.cols, tileSize, y, x) == RowTiles(src.rows, src.cols, tileSize, y, 0)
      invariant forall i, j :: 0 <= i < dst.Length0 && 0 <= j < dst.Length1 ==>
                  dst[i, j] == if Written(scale, tileSize, i, j, y, x) then Stitched(up, scale, src, tileSize, i, j) else 0
    {
      var roi := PlaceTile(up, scale, src, tileSize, dst, y, x);
      assert RowTiles(src.rows, src.cols, tileSize, y, x) ==
             [roi] + RowTiles(src.rows, src.cols, tileSize, y, x + tileSize);
      row := row + [roi];
      ModStep(x, tileSize);
      x := x + tileSize;
    }
    forall i, j | 0 <= i < dst.Length0 && 0 <= j < dst.Length1
      ensures dst[i, j] == if Written(scale, tileSize, i, j, y + tileSize, 0)
                           then Stitched(up, scale, src, tileSize, i, j) else 0
    {
      RowWritten(src.rows, src.cols, tileSize, scale, y, x, i, j);
    }
  }

  /** `tileUpscale(sr, src, dst, tileSize)`: allocates a zeroed destination
      `scale` times the size of `src`, visits the tiles of `src` in row-major
      order (reported in the ghost `visited`) and copies the network's output
      for each into place. Afterwards every destination pixel holds the
      matching pixel of the upsampled tile that covers it. */
  method TileUpscale(up: Image -> Image, scale: nat, src: Image, tileSize: nat)
    returns (dst: array2<Pixel>, ghost visited: seq<Rect>)
    requires src.Valid() && scale > 0 && tileSize > 0 && ScalesBy(up, scale)
    ensures fresh(dst)
    ensures dst.Length0 == src.rows * scale && dst.Length1 == src.cols * scale
    ensures visited == Tiles(src.rows, src.cols, tileSize)
    ensures forall i, j :: 0 <= i < dst.Length0 && 0 <= j < dst.Length1 ==>
              dst[i, j] == Stitched(up, scale, src, tileSize, i, j)
  {
    dst := new Pixel[src.rows * scale, src.cols * scale]((i, j) => 0);
    visited := [];
    var y := 0;
    while y < src.rows
      invariant y % tileSize == 0
      invariant visited + TilesFrom(src.rows, src.cols, tileSize, y) == Tiles(src.rows, src.cols, tileSize)
      invariant forall i, j :: 0 <= i < dst.Length0 && 0 <= j < dst.Length1 ==>
                  dst[i, j] == if Written(scale, tileSize, i, j, y, 0) then Stitched(up, scale, src, tileSize, i, j) else 0
    {
      ghost var row := UpscaleTileRow(up, scale, src, tileSize, dst, y);
      visited := visited + row;
      ModStep(y, tileSize);
      y := y + tileSize;
    }
    forall i, j | 0 <= i < dst.Length0 && 0 <= j < dst.Length1
      ensures dst[i, j] == Stitched(up, scale, src, tileSize, i, j)
    {
      AxisLocate(i, src.rows, tileSize, scale);
    }
  }
}
