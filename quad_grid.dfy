/** Subdivision of a textured quadrilateral: a row-major grid of bilinearly
    interpolated vertices with their texture coordinates, and the vertex
    indices of the two triangles that cover each grid cell. */
module QuadGrid {

  datatype Vertex = Vertex(x: real, y: real)
  datatype TexCoord = TexCoord(u: real, v: real)

  /** The four corners, in parameter order: corner 1 starts
      row 0, corner 2 ends it, corner 3 ends the last row, corner 4 starts it. */
  datatype Quad = Quad(x1: real, y1: real, x2: real, y2: real, x3: real, y3: real, x4: real, y4: real)

  /** Number of iterations of a loop `for (i = 0; i < n; i++)`. */
  function Count(n: int): nat {
    if n > 0 then n else 0
  }

  /** The distance between consecutive grid lines when there are n of them. */
  function GridStep(n: int): real
    requires n != 1
  {
    1.0 / (n - 1) as real
  }

  /** Progress of grid line i out of n lines: i times the step. */
  function Progress(i: int, n: int): real
    requires n != 1
  {
    i as real * GridStep(n)
  }

  /** The point at progress (xp, yp) of the quad: interpolate the edge from
      corner 1 to 4 and the edge from corner 2 to 3 by yp, then between the
      two by xp. */
  function Bilinear(q: Quad, xp: real, yp: real): Vertex {
    var topX := (1.0 - yp) * q.x1 + yp * q.x4;
    var topY := (1.0 - yp) * q.y1 + yp * q.y4;
    var bottomX := (1.0 - yp) * q.x2 + yp * q.x3;
    var bottomY := (1.0 - yp) * q.y2 + yp * q.y3;
    Vertex((1.0 - xp) * topX + xp * bottomX, (1.0 - xp) * topY + xp * bottomY)
  }

  /** The grid vertex at (row, col). */
  function GridVertex(q: Quad, numCols: int, numRows: int, row: int, col: int): Vertex
    requires numCols != 1 && numRows != 1
  {
    Bilinear(q, Progress(col, numCols), Progress(row, numRows))
  }

  function GridTexCoord(numCols: int, numRows: int, row: int, col: int): TexCoord
    requires numCols != 1 && numRows != 1
  {
    TexCoord(Progress(col, numCols), Progress(row, numRows))
  }

  /** Builds the grid row by row: entry k holds the vertex and texture
      coordinate of row k / numCols, column k % numCols. */
  method CalculateQuadGrid(q: Quad, numCols: int, numRows: int)
    returns (vertices: seq<Vertex>, textureCoords: seq<TexCoord>)
    requires (numCols != 1 || numRows <= 0) && (numRows != 1 || numCols <= 0)
    ensures |vertices| == |textureCoords| == Count(numCols) * Count(numRows)
    ensures forall k :: 0 <= k < |vertices| ==>
              numCols != 1 && numRows != 1 &&
              vertices[k] == GridVertex(q, numCols, numRows, k / numCols, k % numCols)
              && textureCoords[k] == GridTexCoord(numCols, numRows, k / numCols, k % numCols)
  {
    vertices, textureCoords := [], [];
    var row := 0;
    while row < numRows
      invariant 0 <= row <= Count(numRows)
      invariant |vertices| == |textureCoords| == row * Count(numCols)
      invariant forall k :: 0 <= k < |vertices| ==>
                  vertices[k] == GridVertex(q, numCols, numRows, k / numCols, k % numCols)
      invariant forall k :: 0 <= k < |textureCoords| ==>
                  textureCoords[k] == GridTexCoord(numCols, numRows, k / numCols, k % numCols)
    {
      var col := 0;
      while col < numCols
        invariant 0 <= col <= Count(numCols)
        invariant |vertices| == |textureCoords| == row * Count(numCols) + col
        invariant forall k :: 0 <= k < |vertices| ==>
                    vertices[k] == GridVertex(q, numCols, numRows, k / numCols, k % numCols)
        invariant forall k :: 0 <= k < |textureCoords| ==>
                    textureCoords[k] == GridTexCoord(numCols, numRows, k / numCols, k % numCols)
      {
        var xProgress := Progress(col, numCols);
        var yProgress := Progress(row, numRows);
        var vertex := Bilinear(q, xProgress, yProgress);
        GridAppend(q, numCols, numRows, vertices, textureCoords, row, col);
        vertices := vertices + [vertex];
        textureCoords := textureCoords + [TexCoord(xProgress, yProgress)];
        col := col + 1;
      }
      assert (row + 1) * Count(numCols) == row * Count(numCols) + Count(numCols);
      row := row + 1;
    }
  }

  /** Appending the entry of (row, col) at position row * numCols + col
      keeps every entry k at (k / numCols, k % numCols). */
  lemma GridAppend(q: Quad, numCols: int, numRows: int, vs: seq<Vertex>, ts: seq<TexCoord>, row: int, col: int)
    requires numCols != 1 && numRows != 1 && 0 <= row && 0 <= col < numCols
    requires |vs| == |ts| == row * numCols + col
    requires forall k :: 0 <= k < |vs| ==> vs[k] == GridVertex(q, numCols, numRows, k / numCols, k % numCols)
    requires forall k :: 0 <= k < |ts| ==> ts[k] == GridTexCoord(numCols, numRows, k / numCols, k % numCols)
    ensures var vs', ts' := vs + [GridVertex(q, numCols, numRows, row, col)], ts + [GridTexCoord(numCols, numRows, row, col)];
      && (forall k :: 0 <= k < |vs'| ==> vs'[k] == GridVertex(q, numCols, numRows, k / numCols, k % numCols))
      && (forall k :: 0 <= k < |ts'| ==> ts'[k] == GridTexCoord(numCols, numRows, k / numCols, k % numCols))
  {
    FlatIndex(row, col, numCols);
  }

  /** Row-major position row * n + col splits back into (row, col). */
  lemma FlatIndex(row: int, col: int, n: int)
    requires 0 <= row && 0 <= col < n
    ensures (row * n + col) / n == row && (row * n + col) % n == col
  {
    var k := row * n + col;
    var d, m := k / n, k % n;
    assert k == d * n + m && 0 <= m < n;
    assert (d - row) * n == col - m;
    if d > row {
      MulAtLeast(d - row, n);
    } else if d < row {
      MulAtLeast(row - d, n);
    }
  }

  lemma MulAtLeast(a: int, n: int)
    requires a >= 1 && n >= 0
    ensures a * n >= n
  {
    assert a * n == (a - 1) * n + n;
    assert (a - 1) * n >= 0;
  }

  /** Entry row * numCols + col of the grid is in range and belongs to
      (row, col). */
  lemma GridEntry(numCols: int, numRows: int, row: int, col: int)
    requires 0 <= row < numRows && 0 <= col < numCols
    ensures row * numCols + col < Count(numCols) * Count(numRows)
    ensures (row * numCols + col) / numCols == row && (row * numCols + col) % numCols == col
  {
    FlatIndex(row, col, numCols);
    assert row * numCols + col < row * numCols + numCols == (row + 1) * numCols;
    assert (row + 1) * numCols <= numRows * numCols by {
      MulLeq(row + 1, numRows, numCols);
    }
  }

  lemma MulLeq(a: int, b: int, n: int)
    requires a <= b && n >= 0
    ensures a * n <= b * n
  {
    assert b * n - a * n == (b - a) * n;
    assert (b - a) * n >= 0;
  }

  /** Progress runs from 0 at the first line to 1 at the last and equals
      i / (n - 1). */
  lemma ProgressInUnit(i: int, n: int)
    requires n >= 2 && 0 <= i < n
    ensures Progress(i, n) == i as real / (n - 1) as real
    ensures 0.0 <= Progress(i, n) <= 1.0
    ensures i == 0 ==> Progress(i, n) == 0.0
    ensures i == n - 1 ==> Progress(i, n) == 1.0
  {
    var d := (n - 1) as real;
    assert Progress(i, n) * d == i as real;
    assert i as real <= d;
  }

  /** Texture coordinates are (col / (numCols - 1), row / (numRows - 1)),
      both within [0, 1]. */
  lemma TexCoordInUnit(numCols: int, numRows: int, row: int, col: int)
    requires numCols >= 2 && numRows >= 2 && 0 <= row < numRows && 0 <= col < numCols
    ensures GridTexCoord(numCols, numRows, row, col)
            == TexCoord(col as real / (numCols - 1) as real, row as real / (numRows - 1) as real)
    ensures 0.0 <= GridTexCoord(numCols, numRows, row, col).u <= 1.0
    ensures 0.0 <= GridTexCoord(numCols, numRows, row, col).v <= 1.0
  {
    ProgressInUnit(col, numCols);
    ProgressInUnit(row, numRows);
  }

  /** The grid's corner vertices are exactly the quad's corners. */
  lemma GridCorners(q: Quad, numCols: int, numRows: int)
    requires numCols >= 2 && numRows >= 2
    ensures GridVertex(q, numCols, numRows, 0, 0) == Vertex(q.x1, q.y1)
    ensures GridVertex(q, numCols, numRows, 0, numCols - 1) == Vertex(q.x2, q.y2)
    ensures GridVertex(q, numCols, numRows, numRows - 1, numCols - 1) == Vertex(q.x3, q.y3)
    ensures GridVertex(q, numCols, numRows, numRows - 1, 0) == Vertex(q.x4, q.y4)
  {
    ProgressInUnit(0, numCols);
    ProgressInUnit(numCols - 1, numCols);
    ProgressInUnit(0, numRows);
    ProgressInUnit(numRows - 1, numRows);
  }

  /** The six indices of grid cell (x, y): its top-left, top-right and
      bottom-right corners, then top-left, bottom-right and bottom-left. */
  function Cell(x: int, y: int, gridSizeX: int): seq<int> {
    var tl := x + y * gridSizeX;
    var tr := x + 1 + y * gridSizeX;
    var br := x + 1 + (y + 1) * gridSizeX;
    var bl := x + (y + 1) * gridSizeX;
    [tl, tr, br, tl, br, bl]
  }

  /** Index i of the triangle list: entry i % 6 of cell i / 6, cells being
      numbered row by row, gridSizeX - 1 to a row. */
  function TriangleIndex(gridSizeX: int, i: int): int
    requires gridSizeX >= 2 && 0 <= i
  {
    var cell := i / 6;
    Cell(cell % (gridSizeX - 1), cell / (gridSizeX - 1), gridSizeX)[i % 6]
  }

  /** Both triangles of a cell use only vertices of the grid. */
  lemma CellInGrid(x: int, y: int, gridSizeX: int, gridSizeY: int)
    requires 0 <= x < gridSizeX - 1 && 0 <= y < gridSizeY - 1
    ensures forall k :: 0 <= k < 6 ==> 0 <= Cell(x, y, gridSizeX)[k] < gridSizeX * gridSizeY
  {
    MulLeq(y + 2, gridSizeY, gridSizeX);
    assert (y + 2) * gridSizeX == y * gridSizeX + 2 * gridSizeX;
    assert 0 <= y * gridSizeX;
  }

  /** The six indices of cell (x, y) sit at offset 6 * ((gridSizeX - 1) * y + x)
      of the index list, in the order tl, tr, br, tl, br, bl. */
  lemma TrianglePattern(gridSizeX: int, x: int, y: int, k: int)
    requires gridSizeX >= 2 && 0 <= x < gridSizeX - 1 && 0 <= y && 0 <= k < 6
    ensures TriangleIndex(gridSizeX, 6 * ((gridSizeX - 1) * y + x) + k) == Cell(x, y, gridSizeX)[k]
  {
    var c := (gridSizeX - 1) * y + x;
    assert 0 <= c by {
      MulLeq(0, y, gridSizeX - 1);
    }
    assert c == y * (gridSizeX - 1) + x;
    FlatIndex(c, k, 6);
    assert 6 * c + k == c * 6 + k;
    FlatIndex(y, x, gridSizeX - 1);
  }

  /** Appending the six indices of cell (x, y) after the cells before it keeps
      the list in the per-cell pattern and inside the grid. */
  lemma CellAppend(gridSizeX: int, gridSizeY: int, x: int, y: int, prev: seq<int>)
    requires 0 <= x < gridSizeX - 1 && 0 <= y < gridSizeY - 1
    requires |prev| == 6 * ((gridSizeX - 1) * y + x)
    requires forall i :: 0 <= i < |prev| ==> 0 <= prev[i] < gridSizeX * gridSizeY
    requires forall i :: 0 <= i < |prev| ==> prev[i] == TriangleIndex(gridSizeX, i)
    ensures var next := prev + Cell(x, y, gridSizeX);
            (forall i :: 0 <= i < |next| ==> 0 <= next[i] < gridSizeX * gridSizeY)
            && (forall i :: 0 <= i < |next| ==> next[i] == TriangleIndex(gridSizeX, i))
  {
    var cell, next := Cell(x, y, gridSizeX), prev + Cell(x, y, gridSizeX);
    CellInGrid(x, y, gridSizeX, gridSizeY);
    forall k | 0 <= k < 6
      ensures TriangleIndex(gridSizeX, |prev| + k) == cell[k]
    {
      TrianglePattern(gridSizeX, x, y, k);
    }
    assert forall i :: |prev| <= i < |next| ==> next[i] == cell[i - |prev|];
  }

  /** The index loop: cell rows top to bottom, cells left to right, six
      indices per cell, every one naming a vertex of the grid. */
  method TriangleIndices(gridSizeX: int, gridSizeY: int) returns (indices: seq<int>)
    ensures |indices| == 6 * Count(gridSizeX - 1) * Count(gridSizeY - 1)
    ensures forall i :: 0 <= i < |indices| ==> 0 <= indices[i] < gridSizeX * gridSizeY
    ensures gridSizeX >= 2 ==> forall i :: 0 <= i < |indices| ==> indices[i] == TriangleIndex(gridSizeX, i)
  {
    indices := [];
    var y := 0;
    while y < gridSizeY - 1
      invariant 0 <= y <= Count(gridSizeY - 1)
      invariant |indices| == 6 * Count(gridSizeX - 1) * y
      invariant forall i :: 0 <= i < |indices| ==> 0 <= indices[i] < gridSizeX * gridSizeY
      invariant gridSizeX >= 2 ==> forall i :: 0 <= i < |indices| ==> indices[i] == TriangleIndex(gridSizeX, i)
    {
      var x := 0;
      while x < gridSizeX - 1
        invariant 0 <= x <= Count(gridSizeX - 1)
        invariant |indices| == 6 * (Count(gridSizeX - 1) * y + x)
        invariant forall i :: 0 <= i < |indices| ==> 0 <= indices[i] < gridSizeX * gridSizeY
        invariant gridSizeX >= 2 ==> forall i :: 0 <= i < |indices| ==> indices[i] == TriangleIndex(gridSizeX, i)
      {
        var tl := x + y * gridSizeX;
        var tr := x + 1 + y * gridSizeX;
        var br := x + 1 + (y + 1) * gridSizeX;
        var bl := x + (y + 1) * gridSizeX;
        assert [tl, tr, br, tl, br, bl] == Cell(x, y, gridSizeX);
        CellAppend(gridSizeX, gridSizeY, x, y, indices);
        indices := indices + [tl, tr, br, tl, br, bl];
        x := x + 1;
      }
      y := y + 1;
    }
  }

  const GridSizeX: int := 8
  const GridSizeY: int := 8

  /** The data `drawTexturedQuad` hands to the drawing calls: an 8 x 8 grid
      over the quad and the 294 indices into it of the triangles it draws. */
  method DrawTexturedQuad(q: Quad) returns (vertices: seq<Vertex>, textureCoords: seq<TexCoord>, indices: seq<int>)
    ensures |vertices| == |textureCoords| == 64
    ensures |indices| == 294
    ensures forall i :: 0 <= i < |indices| ==> 0 <= indices[i] < |vertices|
    ensures vertices[0] == Vertex(q.x1, q.y1) && vertices[7] == Vertex(q.x2, q.y2)
    ensures vertices[63] == Vertex(q.x3, q.y3) && vertices[56] == Vertex(q.x4, q.y4)
    ensures forall k :: 0 <= k < |vertices| ==>
              vertices[k] == GridVertex(q, GridSizeX, GridSizeY, k / GridSizeX, k % GridSizeX)
              && textureCoords[k] == GridTexCoord(GridSizeX, GridSizeY, k / GridSizeX, k % GridSizeX)
    ensures forall i :: 0 <= i < |indices| ==> indices[i] == TriangleIndex(GridSizeX, i)
  {
    vertices, textureCoords := CalculateQuadGrid(q, GridSizeX, GridSizeY);
    indices := TriangleIndices(GridSizeX, GridSizeY);
    GridCorners(q, GridSizeX, GridSizeY);
    FlatIndex(7, 7, 8);
    FlatIndex(7, 0, 8);
    assert 63 / 8 == 7 && 63 % 8 == 7 && 56 / 8 == 7 && 56 % 8 == 0;
    assert vertices[63] == GridVertex(q, 8, 8, 7, 7);
    assert vertices[56] == GridVertex(q, 8, 8, 7, 0);
  }
}
