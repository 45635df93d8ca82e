/**
 * The space-photo analyser: each photo is cut into square tiles, bright blobs found in a tile
 * are classified by area and brightness, and their centres are reported in whole-photo
 * coordinates. The image itself is modelled only by its height and width; the blob detection
 * delivers, per blob, its area, bounding box and summed brightness.
 */
module SpaceAnalysis {
  import opened Wrappers
  import opened Text

  const StarKind := "Star"
  const BrightStarKind := "A bright star"
  const PlanetKind := "Planet"
  /** The kind the analyser would skip; `classification` never produces it. */
  const NoObject := "-"

  // ---------------------------------------------------------------------------------------------
  // classification

  /** `classification(area, brightness)`: the first matching rule of four. The three kinds occupy
      disjoint regions: bright stars and planets are both larger than 300, with brightness above
      1000 and below 200; everything else, an area of exactly 300 included, is a star. */
  function Classification(area: real, brightness: int): (kind: string)
    ensures kind == StarKind || kind == BrightStarKind || kind == PlanetKind
    ensures kind != NoObject
    ensures kind == BrightStarKind <==> area > 300.0 && brightness > 1000
    ensures kind == PlanetKind <==> area > 300.0 && brightness < 200
    ensures area == 300.0 ==> kind == StarKind
  {
    if area < 300.0 && brightness > 200 then StarKind
    else if area > 300.0 && brightness > 1000 then BrightStarKind
    else if area > 300.0 && brightness < 200 then PlanetKind
    else StarKind
  }

  // ---------------------------------------------------------------------------------------------
  // splitImage

  /** The number of values `range(0, n, step)` produces: `ceil(n / step)`, as CPython computes
      the length of a range. */
  function RangeLen(n: nat, step: nat): nat
    requires step > 0
  {
    (n + step - 1) / step
  }

  /** `k * step` is among the values of `range(0, n, step)` exactly when `k < RangeLen(n, step)`. */
  lemma RangeLenSpec(n: nat, step: nat, k: nat)
    requires step > 0
    ensures k * step < n <==> k < RangeLen(n, step)
  {
    var q := RangeLen(n, step);
    assert q * step <= n + step - 1 < q * step + step;
    if k < q {
      MulMono(k, q - 1, step);
      assert (q - 1) * step == q * step - step;
    } else {
      MulMono(q, k, step);
    }
  }

  /** Multiplying by the same factor keeps the order. */
  lemma MulMono(a: nat, b: nat, c: nat)
    requires a <= b
    ensures a * c <= b * c
  {
  }

  /** A larger factor is larger by at least a whole multiple. */
  lemma MulStep(a: nat, b: nat, c: nat)
    requires a < b
    ensures a * c + c <= b * c
  {
    MulMono(a + 1, b, c);
  }

  /** Division with remainder has one answer: `row * cols + col` with `col < cols` divides back
      into `row` and `col`. */
  lemma DivModUnique(k: nat, cols: nat, row: nat, col: nat)
    requires 0 <= col < cols && k == row * cols + col
    ensures k / cols == row && k % cols == col
  {
    var q, r := k / cols, k % cols;
    assert k == q * cols + r;
    if q < row {
      MulStep(q, row, cols);
      assert false;
    } else if q > row {
      MulStep(row, q, cols);
      assert false;
    }
  }

  /** `n / d` is the number of whole `d`s in `n`. */
  lemma DivBounds(n: nat, d: nat)
    requires d > 0
    ensures (n / d) * d <= n < (n / d) * d + d
  {
  }

  /** One piece of the photo: `image[offsetY:offsetY + partSize, offsetX:offsetX + partSize]`,
      known by its place, its running index and its size. */
  datatype Tile = Tile(offsetX: int, offsetY: int, partIndex: nat, width: int, height: int)

  function Min(a: int, b: int): int {
    if a <= b then a else b
  }

  /** The `k`-th cell of the grid, counting rows top to bottom and cells left to right. */
  function TileAt(k: nat, height: nat, width: nat, partSize: nat): Tile
    requires partSize > 0 && RangeLen(width, partSize) > 0
  {
    var cols := RangeLen(width, partSize);
    var offsetX := (k % cols) * partSize;
    var offsetY := (k / cols) * partSize;
    Tile(offsetX, offsetY, k, Min(partSize, width - offsetX), Min(partSize, height - offsetY))
  }

  /** The first `n` cells of the grid. */
  function Grid(n: nat, height: nat, width: nat, partSize: nat): seq<Tile>
    requires partSize > 0 && (n > 0 ==> RangeLen(width, partSize) > 0)
  {
    seq(n, k requires 0 <= k < n => TileAt(k, height, width, partSize))
  }

  /** The number of tiles: `ceil(height / partSize) * ceil(width / partSize)`. */
  function TileCount(height: nat, width: nat, partSize: nat): nat
    requires partSize > 0
  {
    RangeLen(height, partSize) * RangeLen(width, partSize)
  }

  /** Everything `splitImage` returns. */
  function Tiles(height: nat, width: nat, partSize: nat): seq<Tile>
    requires partSize > 0
  {
    Grid(TileCount(height, width, partSize), height, width, partSize)
  }

  /** `splitImage(image, partSize)` for an image of `height` rows and `width` columns. */
  method SplitImage(height: nat, width: nat, partSize: nat) returns (parts: seq<Tile>)
    requires partSize > 0
    ensures parts == Tiles(height, width, partSize)
  {
    ghost var rows := RangeLen(height, partSize);
    ghost var cols := RangeLen(width, partSize);
    parts := [];
    var partIndex := 0;
    var offsetY := 0;
    ghost var row := 0;
    while offsetY < height
      invariant row <= rows && offsetY == row * partSize
      invariant partIndex == row * cols
      invariant parts == Grid(partIndex, height, width, partSize)
    {
      var offsetX := 0;
      ghost var col := 0;
      while offsetX < width
        invariant col <= cols && offsetX == col * partSize
        invariant partIndex == row * cols + col
        invariant parts == Grid(partIndex, height, width, partSize)
      {
        GridStep(height, width, partSize, row, col);
        var part := Tile(offsetX, offsetY, partIndex,
                         Min(partSize, width - offsetX), Min(partSize, height - offsetY));
        if part.width * part.height > 0 {
          parts := parts + [part];
        }
        partIndex := partIndex + 1;
        offsetX := offsetX + partSize;
        col := col + 1;
      }
      RowDone(height, width, partSize, row, col);
      offsetY := offsetY + partSize;
      row := row + 1;
    }
    RangeLenSpec(height, partSize, row);
  }

  /** One cell of the grid walk: the cell at `(row, col)` is the next tile, it is not empty, and
      the walk may step one cell to the right. */
  lemma GridStep(height: nat, width: nat, partSize: nat, row: nat, col: nat)
    requires partSize > 0 && row * partSize < height && col * partSize < width
    ensures var cols := RangeLen(width, partSize);
      var k := row * cols + col;
      && col + 1 <= cols
      && (col + 1) * partSize == col * partSize + partSize
      && row * cols + (col + 1) == k + 1
      && Min(partSize, width - col * partSize) * Min(partSize, height - row * partSize) > 0
      && Grid(k + 1, height, width, partSize) == Grid(k, height, width, partSize) +
           [Tile(col * partSize, row * partSize, k,
                 Min(partSize, width - col * partSize), Min(partSize, height - row * partSize))]
  {
    var cols := RangeLen(width, partSize);
    var k := row * cols + col;
    RangeLenSpec(width, partSize, col);
    DivModUnique(k, cols, row, col);
    assert TileAt(k, height, width, partSize) ==
      Tile(col * partSize, row * partSize, k, Min(partSize, width - col * partSize), Min(partSize, height - row * partSize));
  }

  /** The end of a row of the grid walk: all `cols` cells were visited and the walk may step one
      row down. */
  lemma RowDone(height: nat, width: nat, partSize: nat, row: nat, col: nat)
    requires partSize > 0 && row * partSize < height
    requires col <= RangeLen(width, partSize) && col * partSize >= width
    ensures var cols := RangeLen(width, partSize);
      && col == cols
      && row + 1 <= RangeLen(height, partSize)
      && (row + 1) * partSize == row * partSize + partSize
      && row * cols + col == (row + 1) * cols
  {
    RangeLenSpec(width, partSize, col);
    RangeLenSpec(height, partSize, row);
  }

  /** The pixel `(px, py)` lies inside tile `t`. */
  predicate Covers(t: Tile, px: int, py: int) {
    t.offsetX <= px < t.offsetX + t.width && t.offsetY <= py < t.offsetY + t.height
  }

  /** Tile `k` sits in grid row `k / cols` and column `k % cols`, with `cols` the number of tiles
      per row. */
  lemma TileCell(height: nat, width: nat, partSize: nat, k: nat) returns (row: nat, col: nat)
    requires partSize > 0 && k < |Tiles(height, width, partSize)|
    ensures var cols := RangeLen(width, partSize);
      && col < cols && row < RangeLen(height, partSize)
      && row == k / cols && col == k % cols && k == row * cols + col
      && Tiles(height, width, partSize)[k] ==
           Tile(col * partSize, row * partSize, k, Min(partSize, width - col * partSize), Min(partSize, height - row * partSize))
  {
    var cols := RangeLen(width, partSize);
    CellBounds(k, RangeLen(height, partSize), cols);
    row, col := k / cols, k % cols;
  }

  /** An index below `rows * cols` has a row below `rows` and a column below `cols`. */
  lemma CellBounds(k: nat, rows: nat, cols: nat)
    requires k < rows * cols
    ensures cols > 0 && k % cols < cols && k / cols < rows && k == (k / cols) * cols + k % cols
  {
    if k / cols >= rows {
      MulMono(rows, k / cols, cols);
      assert false;
    }
  }

  /** Tile `t` is the one `splitImage` numbers `k`: the index is its grid position
      `(offsetY / partSize) * ceil(width / partSize) + offsetX / partSize`, the offsets are
      multiples of the part size inside the photo, and the tile is `partSize` square except where
      the photo's right or bottom edge cuts it, never empty. */
  predicate Placed(t: Tile, height: nat, width: nat, partSize: nat, k: nat)
    requires partSize > 0
  {
    && t.partIndex == k
    && t.offsetX % partSize == 0 && t.offsetY % partSize == 0
    && 0 <= t.offsetX < width && 0 <= t.offsetY < height
    && k == (t.offsetY / partSize) * RangeLen(width, partSize) + t.offsetX / partSize
    && t.width == Min(partSize, width - t.offsetX) > 0
    && t.height == Min(partSize, height - t.offsetY) > 0
  }

  /** Every tile `splitImage` returns is placed as its index says. */
  lemma TileShape(height: nat, width: nat, partSize: nat, k: nat)
    requires partSize > 0 && k < |Tiles(height, width, partSize)|
    ensures Placed(Tiles(height, width, partSize)[k], height, width, partSize, k)
  {
    var rows, cols := RangeLen(height, partSize), RangeLen(width, partSize);
    var t := Tiles(height, width, partSize)[k];
    var row, col := k / cols, k % cols;
    assert cols > 0 && row < rows && col < cols && k == row * cols + col by {
      CellBounds(k, rows, cols);
    }
    assert t == Tile(col * partSize, row * partSize, k,
                     Min(partSize, width - col * partSize), Min(partSize, height - row * partSize));
    CellShape(t, height, width, partSize, k, row, col);
  }

  /** The tile at grid row `row` and column `col` is placed as index `row * cols + col`. */
  lemma CellShape(t: Tile, height: nat, width: nat, partSize: nat, k: nat, row: nat, col: nat)
    requires partSize > 0 && row < RangeLen(height, partSize) && col < RangeLen(width, partSize)
    requires k == row * RangeLen(width, partSize) + col
    requires t == Tile(col * partSize, row * partSize, k,
                       Min(partSize, width - col * partSize), Min(partSize, height - row * partSize))
    ensures Placed(t, height, width, partSize, k)
  {
    CellOffset(width, partSize, col);
    CellOffset(height, partSize, row);
  }

  /** The `i`-th step of `range(0, n, step)` is a multiple of `step` below `n`. */
  lemma CellOffset(n: nat, step: nat, i: nat)
    requires step > 0 && i < RangeLen(n, step)
    ensures 0 <= i * step < n && (i * step) % step == 0 && (i * step) / step == i
  {
    RangeLenSpec(n, step, i);
    DivModUnique(i * step, step, i, 0);
  }

  /** Tiles come out row by row, and left to right within a row. */
  lemma TilesRowMajor(height: nat, width: nat, partSize: nat, i: nat, j: nat)
    requires partSize > 0 && i < j < |Tiles(height, width, partSize)|
    ensures var ti, tj := Tiles(height, width, partSize)[i], Tiles(height, width, partSize)[j];
      ti.offsetY < tj.offsetY || (ti.offsetY == tj.offsetY && ti.offsetX < tj.offsetX)
  {
    var cols := RangeLen(width, partSize);
    var ts := Tiles(height, width, partSize);
    var ri, ci := TileCell(height, width, partSize, i);
    var rj, cj := TileCell(height, width, partSize, j);
    GridOrder(i, j, cols, partSize, ri, ci, rj, cj);
    CellOrder(ts[i], ts[j], partSize, ri, ci, rj, cj);
  }

  /** Two tiles at grid cells `(ri, ci)` and `(rj, cj)`, the first earlier in row-major order. */
  lemma CellOrder(ti: Tile, tj: Tile, partSize: nat, ri: nat, ci: nat, rj: nat, cj: nat)
    requires ti.offsetX == ci * partSize && ti.offsetY == ri * partSize
    requires tj.offsetX == cj * partSize && tj.offsetY == rj * partSize
    requires ri * partSize < rj * partSize || (ri == rj && ci * partSize < cj * partSize)
    ensures ti.offsetY < tj.offsetY || (ti.offsetY == tj.offsetY && ti.offsetX < tj.offsetX)
  {
  }

  /** Row-major positions: a smaller index is in an earlier row, or in the same row further left. */
  lemma GridOrder(i: nat, j: nat, cols: nat, partSize: nat, ri: nat, ci: nat, rj: nat, cj: nat)
    requires i < j && ci < cols && cj < cols && partSize > 0
    requires i == ri * cols + ci && j == rj * cols + cj
    ensures ri * partSize < rj * partSize || (ri == rj && ci * partSize < cj * partSize)
  {
    if ri > rj {
      MulStep(rj, ri, cols);
      assert false;
    } else if ri < rj {
      MulStep(ri, rj, partSize);
    } else {
      MulStep(ci, cj, partSize);
    }
  }

  /** The tile in the pixel's grid row and column exists and covers the pixel. */
  lemma PixelCell(height: nat, width: nat, partSize: nat, px: nat, py: nat)
    requires partSize > 0 && px < width && py < height
    ensures var k := (py / partSize) * RangeLen(width, partSize) + px / partSize;
      0 <= k < |Tiles(height, width, partSize)| && Covers(Tiles(height, width, partSize)[k], px, py)
  {
    var rows, cols := RangeLen(height, partSize), RangeLen(width, partSize);
    var row, col := py / partSize, px / partSize;
    DivBounds(py, partSize);
    DivBounds(px, partSize);
    RangeLenSpec(height, partSize, row);
    RangeLenSpec(width, partSize, col);
    var k := row * cols + col;
    MulStep(row, rows, cols);
    DivModUnique(k, cols, row, col);
  }

  /** A tile covering a pixel is in the pixel's grid row and column. */
  lemma CoveringCell(height: nat, width: nat, partSize: nat, j: nat, px: nat, py: nat)
    requires partSize > 0 && j < |Tiles(height, width, partSize)|
    requires Covers(Tiles(height, width, partSize)[j], px, py)
    ensures j == (py / partSize) * RangeLen(width, partSize) + px / partSize
  {
    var cols := RangeLen(width, partSize);
    var row, col := TileCell(height, width, partSize, j);
    DivModUnique(px, partSize, col, px - col * partSize);
    DivModUnique(py, partSize, row, py - row * partSize);
  }

  /** The tiles cut the photo without gap or overlap: every pixel lies in exactly one tile, the
      one at grid row `py / partSize` and column `px / partSize`. */
  lemma TilesPartition(height: nat, width: nat, partSize: nat, px: nat, py: nat)
    requires partSize > 0 && px < width && py < height
    ensures var cols := RangeLen(width, partSize);
      var k := (py / partSize) * cols + px / partSize;
      && 0 <= k < |Tiles(height, width, partSize)|
      && Covers(Tiles(height, width, partSize)[k], px, py)
      && forall j :: 0 <= j < |Tiles(height, width, partSize)| && Covers(Tiles(height, width, partSize)[j], px, py) ==> j == k
  {
    PixelCell(height, width, partSize, px, py);
    forall j | 0 <= j < |Tiles(height, width, partSize)| && Covers(Tiles(height, width, partSize)[j], px, py)
      ensures j == (py / partSize) * RangeLen(width, partSize) + px / partSize
    {
      CoveringCell(height, width, partSize, j, px, py);
    }
  }

  // ---------------------------------------------------------------------------------------------
  // analyzePhotoPart

  /** What the blob detection yields for one blob: its area, its bounding box in tile
      coordinates and the summed grey level inside that box. */
  datatype Contour = Contour(area: real, x: int, y: int, w: int, h: int, brightness: int)

  /** One row of the results table. */
  datatype ObjectData = ObjectData(
    image: string, partIndex: int, coordinates: (int, int), brightness: int, area: int, kind: string)

  /** A circle to draw on the saved tile: centre in tile coordinates, radius, kind. */
  datatype Marker = Marker(centerX: int, centerY: int, radius: int, kind: string)

  /** Python's `int(x)` on a float: truncation toward zero. */
  function Trunc(r: real): int {
    if r >= 0.0 then r.Floor else -((-r).Floor)
  }

  /** The centre of a blob's bounding box inside its tile (`//` by 2 is Dafny's `/` by 2). */
  function LocalCenter(c: Contour): (int, int) {
    (c.x + c.w / 2, c.y + c.h / 2)
  }

  /** The results row for a blob: its centre moved into photo coordinates, the 1-based part
      number, the truncated area and the classification. */
  function Report(c: Contour, partIndex: int, imageName: string, offsetX: int, offsetY: int): ObjectData {
    ObjectData(imageName, partIndex + 1,
               (LocalCenter(c).0 + offsetX, LocalCenter(c).1 + offsetY),
               c.brightness, Trunc(c.area), Classification(c.area, c.brightness))
  }

  /** The circle stored for a blob: its box centre in tile coordinates, half its longer side,
      its kind. */
  function LocalMarker(c: Contour): Marker {
    Marker(LocalCenter(c).0, LocalCenter(c).1, (if c.w >= c.h then c.w else c.h) / 2,
           Classification(c.area, c.brightness))
  }

  /** `analyzePhotoPart` after blob detection. Every blob is kept, since no blob is classified
      `"-"`; reported centres are in photo coordinates and stored markers in tile coordinates. */
  method AnalyzePhotoPart(contours: seq<Contour>, partIndex: int, imageName: string,
                          offsetX: int, offsetY: int)
    returns (objectsData: seq<ObjectData>, contourCenters: seq<Marker>)
    ensures |objectsData| == |contours| && |contourCenters| == |contours|
    ensures forall i :: 0 <= i < |contours| ==>
      objectsData[i] == Report(contours[i], partIndex, imageName, offsetX, offsetY)
    ensures forall i :: 0 <= i < |contours| ==>
      && contourCenters[i].kind == objectsData[i].kind
      && (contourCenters[i].centerX, contourCenters[i].centerY) == LocalCenter(contours[i])
      && contourCenters[i].radius == (if contours[i].w >= contours[i].h then contours[i].w else contours[i].h) / 2
  {
    objectsData := [];
    contourCenters := [];
    for n := 0 to |contours|
      invariant |objectsData| == n && |contourCenters| == n
      invariant forall i :: 0 <= i < n ==> objectsData[i] == Report(contours[i], partIndex, imageName, offsetX, offsetY)
      invariant forall i :: 0 <= i < n ==> contourCenters[i] == LocalMarker(contours[i])
    {
      var contour := contours[n];
      var centerX := contour.x + contour.w / 2 + offsetX;
      var centerY := contour.y + contour.h / 2 + offsetY;
      var objectType := Classification(contour.area, contour.brightness);
      if objectType != NoObject {
        var row := ObjectData(imageName, partIndex + 1, (centerX, centerY),
                              contour.brightness, Trunc(contour.area), objectType);
        assert row == Report(contour, partIndex, imageName, offsetX, offsetY);
        objectsData := objectsData + [row];
        var radius := (if contour.w >= contour.h then contour.w else contour.h) / 2;
        var marker := Marker(centerX - offsetX, centerY - offsetY, radius, objectType);
        assert marker == LocalMarker(contour);
        contourCenters := contourCenters + [marker];
      } else {
        assert false;
      }
    }
  }

  // ---------------------------------------------------------------------------------------------
  // saveImagePart

  /** The circle colour (blue, green, red) for a kind; any other kind has none. */
  function MarkerColor(kind: string): Option<(int, int, int)> {
    if kind == StarKind then Some((255, 0, 0))
    else if kind == PlanetKind then Some((0, 0, 255))
    else if kind == BrightStarKind then Some((0, 255, 0))
    else None
  }

  /** Every kind the classifier produces has a circle colour, so drawing never meets a kind
      without one. */
  lemma ClassifiedKindsHaveColors(area: real, brightness: int)
    ensures MarkerColor(Classification(area, brightness)).Some?
  {
  }

  /** The file a tile is saved under: its 1-based number and `.png`. */
  function PartFileName(partIndex: nat): string {
    ShowNat(partIndex + 1) + ".png"
  }

  /** Different tiles are saved under different names, and the number in a name is the tile's
      1-based index. */
  lemma PartFileNames(i: nat, j: nat)
    ensures var name := PartFileName(i);
      |name| > 4 && name[|name| - 4..] == ".png" && IsDigits(name[..|name| - 4])
      && ParseNat(name[..|name| - 4]) == i + 1
    ensures PartFileName(i) == PartFileName(j) ==> i == j
  {
    var a, b := PartFileName(i), PartFileName(j);
    assert a[..|a| - 4] == ShowNat(i + 1);
    assert b[..|b| - 4] == ShowNat(j + 1);
    ParseShowNat(i + 1);
    ParseShowNat(j + 1);
  }
}
