/** The uniform grid over document space that buckets element indices by the
    cells their visual bounds overlap (`SpatialIndex`). `rebuild` overwrites
    every field of the index, so the model builds a fresh `GridIndex` value. */
module SpatialIndex {
  import opened Basics
  import opened Geometry

  /** `grid[row][col]` lists element indices; `bounds` is the document bounds
      the grid is laid over, `None` when no element was indexed. */
  datatype GridIndex = GridIndex(grid: seq<seq<seq<nat>>>, bounds: Option<Rect>)

  predicate Encloses(outer: Rect, inner: Rect) {
    outer.minX <= inner.minX && outer.minY <= inner.minY
    && inner.maxX <= outer.maxX && inner.maxY <= outer.maxY
  }

  /** One step of the min/max accumulator loop; `None` plays the role of the
      `f32::MAX`/`f32::MIN` starting values. */
  function Join(acc: Option<Rect>, b: Rect): Rect {
    match acc
    case None => b
    case Some(h) => Rect(Min(h.minX, b.minX), Min(h.minY, b.minY), Max(h.maxX, b.maxX), Max(h.maxY, b.maxY))
  }

  /** The document bounds `rebuild` computes: the smallest box holding every box. */
  function Hull(boxes: seq<Rect>): (h: Option<Rect>)
    ensures h.None? <==> boxes == []
    ensures h.Some? ==> forall i :: 0 <= i < |boxes| ==> Encloses(h.value, boxes[i])
  {
    if boxes == [] then None
    else
      var init := boxes[..|boxes| - 1];
      var h := Join(Hull(init), boxes[|boxes| - 1]);
      assert forall i :: 0 <= i < |init| ==> init[i] == boxes[i];
      Some(h)
  }

  /** No box enclosing every box is smaller than the document bounds. */
  lemma {:induction false} HullIsLeast(boxes: seq<Rect>, outer: Rect)
    requires forall i :: 0 <= i < |boxes| ==> Encloses(outer, boxes[i])
    requires boxes != []
    ensures Encloses(outer, Hull(boxes).value)
  {
    var init := boxes[..|boxes| - 1];
    if init != [] {
      assert forall i :: 0 <= i < |init| ==> init[i] == boxes[i];
      HullIsLeast(init, outer);
    }
    assert Encloses(outer, boxes[|boxes| - 1]);
  }

  /** `(d / 50.0) as usize`: floor of a non-negative offset, 0 for a negative one
      (the float-to-integer cast saturates). */
  function CellOf(d: int): nat {
    if d <= 0 then 0 else d / 50
  }

  /** `(d / 50.0).ceil() as usize`. */
  function CellsSpanned(d: int): nat {
    if d <= 0 then 0 else (d + 49) / 50
  }

  /** `grid_cols`: at least one column. */
  function GridCols(h: Option<Rect>): (n: nat)
    ensures n >= 1
  {
    match h
    case None => 1
    case Some(r) => if CellsSpanned(r.maxX - r.minX) == 0 then 1 else CellsSpanned(r.maxX - r.minX)
  }

  /** `grid_rows`: at least one row. */
  function GridRows(h: Option<Rect>): (n: nat)
    ensures n >= 1
  {
    match h
    case None => 1
    case Some(r) => if CellsSpanned(r.maxY - r.minY) == 0 then 1 else CellsSpanned(r.maxY - r.minY)
  }

  /** Whether `rebuild` pushes the index of box `b` into cell (row, col): the
      inclusive spans from the start cell to the end cell, cut at the last row
      and column. */
  predicate Covers(b: Rect, h: Rect, rows: nat, cols: nat, row: int, col: int) {
    CellOf(b.minY - h.minY) <= row <= Min(CellOf(b.maxY - h.minY), rows - 1)
    && CellOf(b.minX - h.minX) <= col <= Min(CellOf(b.maxX - h.minX), cols - 1)
  }

  predicate StrictlyIncreasing(s: seq<nat>) {
    forall a, b :: 0 <= a < b < |s| ==> s[a] < s[b]
  }

  /** The contents of cell (row, col) once the first `k` boxes are registered. */
  function CellMembers(boxes: seq<Rect>, h: Rect, rows: nat, cols: nat, row: int, col: int, k: nat): (m: seq<nat>)
    requires k <= |boxes|
    ensures forall j :: 0 <= j < |m| ==> m[j] < k && Covers(boxes[m[j]], h, rows, cols, row, col)
    ensures StrictlyIncreasing(m)
  {
    if k == 0 then []
    else
      CellMembers(boxes, h, rows, cols, row, col, k - 1)
      + (if Covers(boxes[k - 1], h, rows, cols, row, col) then [k - 1] else [])
  }

  /** Every box registered in a cell is listed there. */
  lemma {:induction false} CellMembersComplete(boxes: seq<Rect>, h: Rect, rows: nat, cols: nat, row: int, col: int, k: nat, i: nat)
    requires i < k <= |boxes|
    requires Covers(boxes[i], h, rows, cols, row, col)
    ensures i in CellMembers(boxes, h, rows, cols, row, col, k)
  {
    if i < k - 1 {
      CellMembersComplete(boxes, h, rows, cols, row, col, k - 1, i);
    }
  }

  /** `index` is the index `rebuild` produces from the visual bounds `boxes`:
      the document bounds, the grid shape they dictate, and in each cell the
      boxes that cover it, in registration order. */
  predicate BuiltFrom(index: GridIndex, boxes: seq<Rect>) {
    index.bounds == Hull(boxes) && GridOver(index, boxes)
  }

  /** The grid part of `BuiltFrom`, for whatever bounds the index holds. */
  predicate GridOver(index: GridIndex, boxes: seq<Rect>) {
    |index.grid| == GridRows(index.bounds)
    && (forall r :: 0 <= r < |index.grid| ==> |index.grid[r]| == GridCols(index.bounds))
    && (index.bounds.Some? ==>
          forall r, c :: 0 <= r < |index.grid| && 0 <= c < |index.grid[r]| ==>
            index.grid[r][c] == CellMembers(boxes, index.bounds.value, |index.grid|, |index.grid[r]|, r, c, |boxes|))
    && (index.bounds.None? ==> index.grid == [[[]]])
  }

  /** The boxes determine the index completely. */
  lemma BuiltFromUnique(boxes: seq<Rect>, a: GridIndex, b: GridIndex)
    requires BuiltFrom(a, boxes) && BuiltFrom(b, boxes)
    ensures a == b
  {
    if a.bounds.Some? {
      forall r | 0 <= r < |a.grid| ensures a.grid[r] == b.grid[r] {
        assert |a.grid[r]| == |b.grid[r]|;
        forall c | 0 <= c < |a.grid[r]| ensures a.grid[r][c] == b.grid[r][c] {
        }
      }
    }
  }

  /** Every cell lists element indices below the element count, in strictly increasing order. */
  lemma BuiltCellsSorted(boxes: seq<Rect>, index: GridIndex, row: nat, col: nat)
    requires BuiltFrom(index, boxes)
    requires row < |index.grid| && col < |index.grid[row]|
    ensures StrictlyIncreasing(index.grid[row][col])
    ensures forall j :: 0 <= j < |index.grid[row][col]| ==> index.grid[row][col][j] < |boxes|
  {
    if index.bounds.None? {
      assert index.grid[row][col] == [];
    }
  }

  /** `SpatialIndex::rebuild`: the bounds accumulator loop, then the nested loops
      that push each element index into every cell its box overlaps. */
  method Rebuild(boxes: seq<Rect>) returns (index: GridIndex)
    ensures BuiltFrom(index, boxes)
  {
    var bounds: Option<Rect> := None;
    var i := 0;
    while i < |boxes|
      invariant i <= |boxes|
      invariant bounds == Hull(boxes[..i])
    {
      assert boxes[..i + 1][..i] == boxes[..i];
      bounds := Some(Join(bounds, boxes[i]));
      i := i + 1;
    }
    assert boxes[..|boxes|] == boxes;
    var rows := GridRows(bounds);
    var cols := GridCols(bounds);
    var grid: seq<seq<seq<nat>>> := seq(rows, _ => seq(cols, _ => []));
    if bounds.Some? {
      var h := bounds.value;
      i := 0;
      while i < |boxes|
        invariant i <= |boxes|
        invariant |grid| == rows && forall r :: 0 <= r < rows ==> |grid[r]| == cols
        invariant forall r, c :: 0 <= r < rows && 0 <= c < cols ==>
                    grid[r][c] == CellMembers(boxes, h, rows, cols, r, c, i)
      {
        grid := Register(boxes, h, grid, i);
        i := i + 1;
      }
    }
    if bounds.None? {
      assert rows == 1 && cols == 1;
      assert grid[0] == [[]];
    }
    index := GridIndex(grid, bounds);
  }

  /** The body of the registration loop: push `i` into every cell its box
      covers, scanning the covered rows and, in each, the covered columns. */
  method Register(boxes: seq<Rect>, h: Rect, grid0: seq<seq<seq<nat>>>, i: nat) returns (grid: seq<seq<seq<nat>>>)
    requires i < |boxes| && |grid0| >= 1
    requires forall r :: 0 <= r < |grid0| ==> |grid0[r]| == |grid0[0]| >= 1
    requires forall r, c :: 0 <= r < |grid0| && 0 <= c < |grid0[r]| ==>
               grid0[r][c] == CellMembers(boxes, h, |grid0|, |grid0[0]|, r, c, i)
    ensures |grid| == |grid0| && forall r :: 0 <= r < |grid| ==> |grid[r]| == |grid0[0]|
    ensures forall r, c :: 0 <= r < |grid| && 0 <= c < |grid[r]| ==>
              grid[r][c] == CellMembers(boxes, h, |grid0|, |grid0[0]|, r, c, i + 1)
  {
    var rows, cols := |grid0|, |grid0[0]|;
    grid := grid0;
    var b := boxes[i];
    var startCol := CellOf(b.minX - h.minX);
    var endCol := Min(CellOf(b.maxX - h.minX), cols - 1);
    var row := CellOf(b.minY - h.minY);
    var endRow := Min(CellOf(b.maxY - h.minY), rows - 1);
    while row <= endRow
      invariant |grid| == rows && forall r :: 0 <= r < rows ==> |grid[r]| == cols
      invariant forall r, c :: 0 <= r < rows && 0 <= c < cols ==>
                  grid[r][c] == CellMembers(boxes, h, rows, cols, r, c, i)
                                + (if r < row && Covers(b, h, rows, cols, r, c) then [i] else [])
    {
      var col := startCol;
      while col <= endCol
        invariant |grid| == rows && forall r :: 0 <= r < rows ==> |grid[r]| == cols
        invariant forall r, c :: 0 <= r < rows && 0 <= c < cols ==>
                    grid[r][c] == CellMembers(boxes, h, rows, cols, r, c, i)
                                  + (if (r < row || (r == row && c < col)) && Covers(b, h, rows, cols, r, c)
                                     then [i] else [])
      {
        grid := grid[row := grid[row][col := grid[row][col] + [i]]];
        col := col + 1;
      }
      row := row + 1;
    }
  }

  /** `find_element_at_position`: `None` outside the document bounds or off the
      grid, otherwise the first index listed in the point's cell, if any. */
  function FindElementAt(index: GridIndex, p: Point): (r: Option<nat>)
    ensures r.Some? ==> index.bounds.Some? && index.bounds.value.Contains(p)
    ensures r.Some? ==>
              var row := (p.y - index.bounds.value.minY) / 50;
              var col := (p.x - index.bounds.value.minX) / 50;
              row < |index.grid| && col < |index.grid[row]| && r.value in index.grid[row][col]
  {
    match index.bounds
    case None => None
    case Some(h) =>
      if !h.Contains(p) then None
      else
        var col := (p.x - h.minX) / 50;
        var row := (p.y - h.minY) / 50;
        if row >= |index.grid| || col >= |index.grid[row]| then None
        else if index.grid[row][col] == [] then None
        else Some(index.grid[row][col][0])
  }

  predicate OnGrid(h: Rect, rows: nat, cols: nat, p: Point) {
    (p.y - h.minY) / 50 < rows && (p.x - h.minX) / 50 < cols
  }

  /** A linear scan in index order for the first of the first `k` boxes
      that covers cell (row, col). */
  function FirstCovering(boxes: seq<Rect>, h: Rect, rows: nat, cols: nat, row: int, col: int, k: nat): (r: Option<nat>)
    requires k <= |boxes|
    ensures r.Some? ==> r.value < k && Covers(boxes[r.value], h, rows, cols, row, col)
  {
    if k == 0 then None
    else
      var r := FirstCovering(boxes, h, rows, cols, row, col, k - 1);
      if r.Some? then r
      else if Covers(boxes[k - 1], h, rows, cols, row, col) then Some(k - 1)
      else None
  }

  /** The scan finds nothing exactly when no box covers the cell, and what
      it finds is the lowest covering index. */
  lemma {:induction false} FirstCoveringIsLowest(boxes: seq<Rect>, h: Rect, rows: nat, cols: nat, row: int, col: int, k: nat)
    requires k <= |boxes|
    ensures var r := FirstCovering(boxes, h, rows, cols, row, col, k);
            (r.None? <==> forall i :: 0 <= i < k ==> !Covers(boxes[i], h, rows, cols, row, col))
            && (r.Some? ==> forall j :: 0 <= j < r.value ==> !Covers(boxes[j], h, rows, cols, row, col))
  {
    if k > 0 {
      FirstCoveringIsLowest(boxes, h, rows, cols, row, col, k - 1);
    }
  }

  /** The head of a cell is what the scan finds for that cell. */
  lemma {:induction false} CellHeadIsFirst(boxes: seq<Rect>, h: Rect, rows: nat, cols: nat, row: int, col: int, k: nat)
    requires k <= |boxes|
    ensures var cell := CellMembers(boxes, h, rows, cols, row, col, k);
            FirstCovering(boxes, h, rows, cols, row, col, k) == if cell == [] then None else Some(cell[0])
  {
    if k > 0 {
      CellHeadIsFirst(boxes, h, rows, cols, row, col, k - 1);
      var before := CellMembers(boxes, h, rows, cols, row, col, k - 1);
      if before != [] {
        assert CellMembers(boxes, h, rows, cols, row, col, k)[0] == before[0];
      }
    }
  }

  /** What the grid stands for: `None` off the document bounds or off the
      grid, otherwise the scan over all boxes for the cell holding `p`. */
  function ScanAt(boxes: seq<Rect>, p: Point): Option<nat> {
    ScanWithin(boxes, Hull(boxes), p)
  }

  /** The same scan for any bounds the grid may be laid over. */
  function ScanWithin(boxes: seq<Rect>, bounds: Option<Rect>, p: Point): Option<nat> {
    match bounds
    case None => None
    case Some(h) =>
      if !h.Contains(p) || !OnGrid(h, GridRows(bounds), GridCols(bounds), p) then None
      else FirstCovering(boxes, h, GridRows(bounds), GridCols(bounds), (p.y - h.minY) / 50, (p.x - h.minX) / 50, |boxes|)
  }

  /** The grid lookup agrees with the linear scan: on a built index it
      returns the lowest box covering the point's cell, and `None` when
      there is none. */
  lemma FindIsScan(boxes: seq<Rect>, index: GridIndex, p: Point)
    requires BuiltFrom(index, boxes)
    ensures FindElementAt(index, p) == ScanAt(boxes, p)
  {
    FindIsScanWithin(boxes, index, p);
  }

  lemma FindIsScanWithin(boxes: seq<Rect>, index: GridIndex, p: Point)
    requires GridOver(index, boxes)
    ensures FindElementAt(index, p) == ScanWithin(boxes, index.bounds, p)
  {
    var hb := index.bounds;
    if hb.Some? && hb.value.Contains(p) && OnGrid(hb.value, GridRows(hb), GridCols(hb), p) {
      var h := hb.value;
      var rows, cols := GridRows(hb), GridCols(hb);
      var row, col := (p.y - h.minY) / 50, (p.x - h.minX) / 50;
      assert ScanWithin(boxes, hb, p) == FirstCovering(boxes, h, rows, cols, row, col, |boxes|);
      GridCell(boxes, index, row, col);
      FindReadsCell(index, p, row, col);
      CellHeadIsFirst(boxes, h, rows, cols, row, col, |boxes|);
    } else {
      FindOffGrid(boxes, index, p);
    }
  }

  /** A cell of the grid lists the boxes that cover it. */
  lemma GridCell(boxes: seq<Rect>, index: GridIndex, row: int, col: int)
    requires GridOver(index, boxes) && index.bounds.Some?
    requires 0 <= row < GridRows(index.bounds) && 0 <= col < GridCols(index.bounds)
    ensures row < |index.grid| && col < |index.grid[row]|
    ensures index.grid[row][col]
              == CellMembers(boxes, index.bounds.value, GridRows(index.bounds), GridCols(index.bounds), row, col, |boxes|)
  {
  }

  /** Off the bounds or off the grid, the lookup finds nothing. */
  lemma FindOffGrid(boxes: seq<Rect>, index: GridIndex, p: Point)
    requires GridOver(index, boxes)
    requires var hb := index.bounds;
             !(hb.Some? && hb.value.Contains(p) && OnGrid(hb.value, GridRows(hb), GridCols(hb), p))
    ensures FindElementAt(index, p) == None
  {
  }

  /** A hit names one of the indexed boxes. */
  lemma FoundIsIndexed(boxes: seq<Rect>, index: GridIndex, p: Point)
    requires BuiltFrom(index, boxes)
    ensures FindElementAt(index, p).Some? ==> FindElementAt(index, p).value < |boxes|
  {
    FindIsScan(boxes, index, p);
  }

  /** On the grid, the lookup reads the cell holding `p`. */
  lemma FindReadsCell(index: GridIndex, p: Point, row: int, col: int)
    requires index.bounds.Some? && index.bounds.value.Contains(p)
    requires row == (p.y - index.bounds.value.minY) / 50 && col == (p.x - index.bounds.value.minX) / 50
    requires row < |index.grid| && col < |index.grid[row]|
    ensures FindElementAt(index, p) == if index.grid[row][col] == [] then None else Some(index.grid[row][col][0])
  {
  }

  /** A point whose cell lies on the grid hits some box no later than any box
      that contains it. */
  lemma HitWithinBox(boxes: seq<Rect>, index: GridIndex, i: nat, p: Point)
    requires BuiltFrom(index, boxes)
    requires i < |boxes| && boxes[i].Contains(p)
    requires (p.x - Hull(boxes).value.minX) / 50 < GridCols(Hull(boxes))
    requires (p.y - Hull(boxes).value.minY) / 50 < GridRows(Hull(boxes))
    ensures FindElementAt(index, p).Some?
    ensures FindElementAt(index, p).value <= i
  {
    FindIsScan(boxes, index, p);
    ScanWithinBox(boxes, i, p);
  }

  lemma ScanWithinBox(boxes: seq<Rect>, i: nat, p: Point)
    requires i < |boxes| && boxes[i].Contains(p)
    requires (p.x - Hull(boxes).value.minX) / 50 < GridCols(Hull(boxes))
    requires (p.y - Hull(boxes).value.minY) / 50 < GridRows(Hull(boxes))
    ensures ScanAt(boxes, p).Some? && ScanAt(boxes, p).value <= i
  {
    assert Encloses(Hull(boxes).value, boxes[i]);
    ScanWithinEnclosing(boxes, Hull(boxes), i, p);
  }

  lemma ScanWithinEnclosing(boxes: seq<Rect>, bounds: Option<Rect>, i: nat, p: Point)
    requires i < |boxes| && boxes[i].Contains(p)
    requires bounds.Some? && Encloses(bounds.value, boxes[i])
    requires OnGrid(bounds.value, GridRows(bounds), GridCols(bounds), p)
    ensures ScanWithin(boxes, bounds, p).Some? && ScanWithin(boxes, bounds, p).value <= i
  {
    var h := bounds.value;
    var rows, cols := GridRows(bounds), GridCols(bounds);
    CoversPoint(boxes[i], h, rows, cols, p);
    FirstCoveringWithin(boxes, h, rows, cols, (p.y - h.minY) / 50, (p.x - h.minX) / 50, i);
  }

  /** A box that covers the cell bounds what the scan finds from above. */
  lemma FirstCoveringWithin(boxes: seq<Rect>, h: Rect, rows: nat, cols: nat, row: int, col: int, i: nat)
    requires i < |boxes| && Covers(boxes[i], h, rows, cols, row, col)
    ensures FirstCovering(boxes, h, rows, cols, row, col, |boxes|).Some?
    ensures FirstCovering(boxes, h, rows, cols, row, col, |boxes|).value <= i
  {
    FirstCoveringIsLowest(boxes, h, rows, cols, row, col, |boxes|);
  }

  /** A box is registered in the cell of every on-grid point it contains. */
  lemma CoversPoint(b: Rect, h: Rect, rows: nat, cols: nat, p: Point)
    requires Encloses(h, b) && b.Contains(p)
    requires (p.y - h.minY) / 50 < rows && (p.x - h.minX) / 50 < cols
    ensures Covers(b, h, rows, cols, (p.y - h.minY) / 50, (p.x - h.minX) / 50)
  {
    Span(b.minY - h.minY, p.y - h.minY, b.maxY - h.minY, rows);
    Span(b.minX - h.minX, p.x - h.minX, b.maxX - h.minX, cols);
  }

  lemma Span(lo: int, x: int, hi: int, n: nat)
    requires 0 <= lo <= x <= hi && x / 50 < n
    ensures CellOf(lo) <= x / 50 <= Min(CellOf(hi), n - 1)
  {
    DivMonotone(lo, x);
    DivMonotone(x, hi);
  }

  lemma DivMonotone(a: int, b: int)
    requires 0 <= a <= b
    ensures CellOf(a) <= CellOf(b) && CellOf(b) == b / 50 && CellOf(a) == a / 50
  {
  }

  /** Points strictly before the far edges of the document bounds fall on the grid. */
  lemma InteriorIsOnGrid(boxes: seq<Rect>, p: Point)
    requires Hull(boxes).Some? && Hull(boxes).value.Contains(p)
    requires p.x < Hull(boxes).value.maxX && p.y < Hull(boxes).value.maxY
    ensures (p.x - Hull(boxes).value.minX) / 50 < GridCols(Hull(boxes))
    ensures (p.y - Hull(boxes).value.minY) / 50 < GridRows(Hull(boxes))
  {
    var h := Hull(boxes).value;
    FloorBelowCeil(p.x - h.minX, h.maxX - h.minX);
    FloorBelowCeil(p.y - h.minY, h.maxY - h.minY);
  }

  lemma FloorBelowCeil(a: int, w: int)
    requires 0 <= a < w
    ensures a / 50 < CellsSpanned(w)
  {
  }

  /** On the far edge of the bounds the grid can miss: a 100-unit-wide word
      spans exactly two columns, so its right edge lies in a third column that
      the grid does not have, and the lookup answers `None` for a point inside the word. */
  lemma FarEdgeMisses(index: GridIndex)
    requires BuiltFrom(index, [Rect(0, 0, 100, 10)])
    ensures Rect(0, 0, 100, 10).Contains(Point(100, 5))
    ensures FindElementAt(index, Point(100, 5)) == None
  {
    var boxes := [Rect(0, 0, 100, 10)];
    assert boxes[..0] == [];
    assert Hull(boxes) == Some(Rect(0, 0, 100, 10));
    assert GridCols(Hull(boxes)) == 2;
  }
}
