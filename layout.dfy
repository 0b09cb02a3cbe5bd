/**
 * The three layouts of the visualizer (src/visualization/mod.rs) as
 * functions from a directory entry to the squares they place: a grid of the
 * subdirectories, a one-pass slice treemap of all children sorted by size,
 * and a detailed layout with directories in a top band and files below.
 * The methods of the Visualizer class build the same squares step by step.
 */
module Layout {
  import opened Wrappers
  import opened RealArith
  import opened Geometry
  import opened Directory

  /** One placed rectangle and what it stands for. */
  datatype VisualSquare = VisualSquare(
    entry: DirectoryEntry,
    rect: Rect,
    selected: bool,
    hovered: bool,
    isDirectory: bool,
    sizeWeight: real,
    animationProgress: real,
    prevRect: Option<Rect>)

  /** The fixed canvas size of `generate_squares`. */
  const CanvasWidth: real := 800.0
  const CanvasHeight: real := 600.0

  // ---------------------------------------------------------------------
  // Grid arithmetic
  // ---------------------------------------------------------------------

  lemma SquareGrows(c: nat)
    ensures c == 0 || c <= c * c
  {
    if c > 0 {
      MulMonoNat(1, c, c);
    }
  }

  function CeilSqrtFrom(n: nat, c: nat): (r: nat)
    requires c == 0 || (c - 1) * (c - 1) < n
    ensures r * r >= n && (r == 0 || (r - 1) * (r - 1) < n)
    decreases n - c
  {
    if c * c >= n then c
    else
      SquareGrows(c);
      CeilSqrtFrom(n, c + 1)
  }

  /** `(n as f32).sqrt().ceil()`: the least `c` with `c * c >= n`. */
  function CeilSqrt(n: nat): (c: nat)
    ensures c * c >= n
    ensures c == 0 || (c - 1) * (c - 1) < n
    ensures n > 0 ==> c >= 1
  {
    CeilSqrtFrom(n, 0)
  }

  /** Ceiling division, as `(n + cols - 1) / cols`. */
  function GridRows(n: nat, cols: nat): nat
    requires cols > 0
  {
    (n + cols - 1) / cols
  }

  lemma DivBelow(i: nat, cols: nat, rows: nat)
    requires cols > 0 && i < rows * cols
    ensures i / cols < rows
  {
    if i / cols >= rows {
      MulMonoNat(rows, i / cols, cols);
    }
  }

  lemma MulMonoNat(a: nat, b: nat, c: nat)
    requires a <= b
    ensures a * c <= b * c
  {
    if a < b {
      MulMonoNat(a, b - 1, c);
    }
  }

  /** A grid of at least one item has at least one row. */
  lemma RowsPositive(n: nat, cols: nat)
    requires n > 0 && cols > 0
    ensures GridRows(n, cols) >= 1
  {
  }

  /** The grid has room for every item and no row to spare. */
  lemma GridShape(n: nat)
    requires n > 0
    ensures var cols := CeilSqrt(n); var rows := GridRows(n, cols);
      && cols >= 1 && rows >= 1
      && cols * rows >= n
      && (rows - 1) * cols < n
  {
    var cols := CeilSqrt(n);
    var rows := GridRows(n, cols);
    var a := n + cols - 1;
    assert a == rows * cols + a % cols;
    assert (rows - 1) * cols == rows * cols - cols;
  }

  /** Item `i` falls in row `i / cols` and column `i % cols` of the grid. */
  lemma GridIndex(n: nat, i: nat)
    requires i < n
    ensures var cols := CeilSqrt(n); var rows := GridRows(n, cols);
      cols >= 1 && i / cols < rows && i % cols < cols
  {
    GridShape(n);
    DivBelow(i, CeilSqrt(n), GridRows(n, CeilSqrt(n)));
  }

  /** Distinct items never share a cell. */
  lemma GridCellsDistinct(cols: nat, i: nat, j: nat)
    requires cols > 0 && i != j
    ensures i / cols != j / cols || i % cols != j % cols
  {
    assert i == (i / cols) * cols + i % cols;
    assert j == (j / cols) * cols + j % cols;
  }

  // ---------------------------------------------------------------------
  // Grid squares
  // ---------------------------------------------------------------------

  /** The padded cell of item `i` in a grid of `cols` columns whose cells are `cellW` by `cellH`, starting at height `top`. */
  function CellRect(i: nat, cols: nat, cellW: real, cellH: real, top: real, padding: real): Rect
    requires cols > 0
  {
    PaddedCell(i % cols, i / cols, cellW, cellH, top, padding)
  }

  /** Where slot `k` of equal slots of length `size` begins along an axis. */
  function SlotStart(k: nat, size: real): real {
    k as real * size
  }

  /** The cell in column `col` and row `row`, `padding` inside its `cellW` by `cellH` slot. */
  function PaddedCell(col: nat, row: nat, cellW: real, cellH: real, top: real, padding: real): Rect {
    FromMinSize(
      Pos(SlotStart(col, cellW) + padding, top + SlotStart(row, cellH) + padding),
      cellW - 2.0 * padding, cellH - 2.0 * padding)
  }

  /** The squares of `items` in a `width` by `height` grid whose top edge is at `top`. */
  function GridSquares(items: seq<DirectoryEntry>, width: real, height: real, top: real, padding: real, isDir: bool): (r: seq<VisualSquare>)
    ensures |r| == |items|
  {
    if |items| == 0 then []
    else
      RowsPositive(|items|, CeilSqrt(|items|));
      var cols := CeilSqrt(|items|);
      var rows := GridRows(|items|, cols);
      seq(|items|, i requires 0 <= i < |items| =>
        VisualSquare(items[i], CellRect(i, cols, width / cols as real, height / rows as real, top, padding),
                     false, false, isDir, 1.0 / |items| as real, 0.0, None))
  }

  /** Square `i` of a grid: item `i` in its padded cell. */
  lemma GridSquareAt(items: seq<DirectoryEntry>, width: real, height: real, top: real, padding: real, isDir: bool, i: nat)
    requires i < |items|
    ensures var cols := CeilSqrt(|items|); var rows := GridRows(|items|, cols);
      && cols > 0 && rows > 0
      && GridSquares(items, width, height, top, padding, isDir)[i]
         == VisualSquare(items[i], CellRect(i, cols, width / cols as real, height / rows as real, top, padding),
                         false, false, isDir, 1.0 / |items| as real, 0.0, None)
  {
    RowsPositive(|items|, CeilSqrt(|items|));
  }

  /** The rectangle a grid loop builds from the column, the row and the cell size is the padded cell of item `i`. */
  lemma CellRectIs(i: nat, cols: nat, cellW: real, cellH: real, top: real, padding: real, x: real, y: real, rect: Rect)
    requires cols > 0
    requires x == (i % cols) as real * cellW && y == top + (i / cols) as real * cellH
    requires rect == FromMinSize(Pos(x + padding, y + padding), cellW - 2.0 * padding, cellH - 2.0 * padding)
    ensures rect == CellRect(i, cols, cellW, cellH, top, padding)
  {
    assert x == SlotStart(i % cols, cellW);
    assert y == top + SlotStart(i / cols, cellH);
  }

  /** One step of a grid loop: the square it builds from the row, the column and the cell size is square `i` of the grid. */
  lemma GridStep(items: seq<DirectoryEntry>, width: real, height: real, top: real, padding: real, isDir: bool, i: nat,
                 cols: nat, rows: nat, cellW: real, cellH: real, x: real, y: real, rect: Rect)
    requires i < |items| && cols == CeilSqrt(|items|) && cols > 0 && rows == (|items| + cols - 1) / cols
    requires cellW == width / cols as real && cellH == height / rows as real
    requires x == (i % cols) as real * cellW && y == top + (i / cols) as real * cellH
    requires rect == FromMinSize(Pos(x + padding, y + padding), cellW - 2.0 * padding, cellH - 2.0 * padding)
    ensures GridSquares(items, width, height, top, padding, isDir)[i]
      == VisualSquare(items[i], rect, false, false, isDir, 1.0 / |items| as real, 0.0, None)
  {
    GridSquareAt(items, width, height, top, padding, isDir, i);
    CellRectIs(i, cols, cellW, cellH, top, padding, x, y, rect);
  }

  /** `generate_grid_layout`: the subdirectories of a directory entry, ten pixels inside their cells. */
  function GridLayout(entry: DirectoryEntry, width: real, height: real): seq<VisualSquare> {
    if !entry.isDirectory then []
    else GridSquares(Filter(entry.children, IsDir), width, height, 0.0, 10.0, true)
  }

  /** The kept entries are exactly the members that satisfy the predicate. */
  lemma {:induction false} FilterMembers(s: seq<DirectoryEntry>, p: DirectoryEntry -> bool)
    ensures forall x :: x in Filter(s, p) <==> x in s && p(x)
    decreases |s|
  {
    if s != [] {
      FilterMembers(s[..|s| - 1], p);
      assert s == s[..|s| - 1] + [s[|s| - 1]];
    }
  }

  /** The grid is empty exactly for a file entry or a directory without subdirectories; every subdirectory is laid out. */
  lemma GridLayoutEmpty(entry: DirectoryEntry, width: real, height: real)
    ensures GridLayout(entry, width, height) == [] <==>
      !entry.isDirectory || forall c :: c in entry.children ==> !c.isDirectory
    ensures entry.isDirectory ==> forall c :: c in entry.children && c.isDirectory ==> c in Filter(entry.children, IsDir)
  {
    var dirs := Filter(entry.children, IsDir);
    FilterMembers(entry.children, IsDir);
    if entry.isDirectory && dirs != [] {
      assert dirs[0] in dirs;
    }
  }

  lemma InverseWeight(n: nat)
    requires n > 0
    ensures (1.0 / n as real) * n as real == 1.0
  {
  }

  /** A freshly placed square for `e`: of the given kind, weight 1/n, unselected, not hovered, not animating. */
  predicate FreshSquare(s: VisualSquare, e: DirectoryEntry, isDir: bool, n: nat) {
    && s.entry == e && s.isDirectory == isDir
    && s.sizeWeight * n as real == 1.0
    && !s.selected && !s.hovered && s.animationProgress == 0.0 && s.prevRect.None?
  }

  /** Square `i` of a grid is a fresh square for item `i`. */
  lemma GridSquareFields(items: seq<DirectoryEntry>, width: real, height: real, top: real, padding: real, isDir: bool, i: nat)
    requires i < |items|
    ensures FreshSquare(GridSquares(items, width, height, top, padding, isDir)[i], items[i], isDir, |items|)
  {
    InverseWeight(|items|);
  }

  /** One square per subdirectory, in child order, each a directory of weight 1/n, unselected and without a previous rectangle. */
  lemma GridLayoutContents(entry: DirectoryEntry, width: real, height: real)
    ensures var r := GridLayout(entry, width, height); var dirs := Filter(entry.children, IsDir);
      && (entry.isDirectory ==> |r| == |dirs|)
      && forall i :: 0 <= i < |r| ==> FreshSquare(r[i], dirs[i], true, |dirs|) && dirs[i].isDirectory
  {
    var dirs := Filter(entry.children, IsDir);
    FilterMembers(entry.children, IsDir);
    var r := GridLayout(entry, width, height);
    forall i | 0 <= i < |r| ensures FreshSquare(r[i], dirs[i], true, |dirs|) && dirs[i].isDirectory {
      assert dirs[i] in dirs;
      GridSquareFields(dirs, width, height, 0.0, 10.0, true, i);
    }
  }

  /** Along one axis, cell `k` of `count` equal cells spanning `length` lies `padding` inside the span. */
  lemma AxisInside(k: nat, count: nat, length: real, padding: real)
    requires k < count && length >= 0.0
    ensures var size := length / count as real;
      && padding <= k as real * size + padding
      && k as real * size + padding + (size - 2.0 * padding) <= length - padding
  {
    var size := length / count as real;
    assert size * count as real == length;
    assert size >= 0.0;
    MulNonneg(k as real, size);
    MulMono(k as real + 1.0, count as real, size);
  }

  /** The cell of item `i` lies `padding` inside a grid of `cols` by `rows` cells spanning `width` by `height`. */
  lemma CellInside(i: nat, cols: nat, rows: nat, width: real, height: real, top: real, padding: real)
    requires cols >= 1 && i % cols < cols && i / cols < rows && width >= 0.0 && height >= 0.0
    ensures var r := CellRect(i, cols, width / cols as real, height / rows as real, top, padding);
      && padding <= r.min.x && r.max.x <= width - padding
      && top + padding <= r.min.y && r.max.y <= top + height - padding
  {
    AxisInside(i % cols, cols, width, padding);
    AxisInside(i / cols, rows, height, padding);
  }

  lemma AddOneMul(x: real, y: real)
    ensures (x + 1.0) * y == x * y + y
  {
  }

  /** Along one axis, the slot of a lower index ends where the slot of a higher one begins, or before. */
  lemma SlotsOrdered(a: nat, b: nat, size: real)
    requires a < b && size >= 0.0
    ensures SlotStart(a, size) + size <= SlotStart(b, size)
  {
    MulMono(a as real + 1.0, b as real, size);
    AddOneMul(a as real, size);
  }

  /** Cells in different columns share no abscissa. */
  lemma ColumnsApart(ca: nat, ra: nat, cb: nat, rb: nat, cellW: real, cellH: real, top: real, padding: real, q: Pos)
    requires ca < cb && cellW >= 0.0 && padding > 0.0
    ensures !(PaddedCell(ca, ra, cellW, cellH, top, padding).Contains(q) && PaddedCell(cb, rb, cellW, cellH, top, padding).Contains(q))
  {
    SlotsOrdered(ca, cb, cellW);
  }

  /** Cells in different rows share no ordinate. */
  lemma RowsApart(ca: nat, ra: nat, cb: nat, rb: nat, cellW: real, cellH: real, top: real, padding: real, q: Pos)
    requires ra < rb && cellH >= 0.0 && padding > 0.0
    ensures !(PaddedCell(ca, ra, cellW, cellH, top, padding).Contains(q) && PaddedCell(cb, rb, cellW, cellH, top, padding).Contains(q))
  {
    SlotsOrdered(ra, rb, cellH);
  }

  /** Two cells in different slots share no point, given positive padding and non-negative slots. */
  lemma SlotsDisjoint(ca: nat, ra: nat, cb: nat, rb: nat, cellW: real, cellH: real, top: real, padding: real, q: Pos)
    requires (ca, ra) != (cb, rb) && cellW >= 0.0 && cellH >= 0.0 && padding > 0.0
    ensures !(PaddedCell(ca, ra, cellW, cellH, top, padding).Contains(q) && PaddedCell(cb, rb, cellW, cellH, top, padding).Contains(q))
  {
    if ca < cb {
      ColumnsApart(ca, ra, cb, rb, cellW, cellH, top, padding, q);
    } else if cb < ca {
      ColumnsApart(cb, rb, ca, ra, cellW, cellH, top, padding, q);
    } else if ra < rb {
      RowsApart(ca, ra, cb, rb, cellW, cellH, top, padding, q);
    } else {
      RowsApart(cb, rb, ca, ra, cellW, cellH, top, padding, q);
    }
  }

  /** No point lies in the padded cells of two different items, given positive padding and non-negative cells. */
  lemma CellsDisjoint(i: nat, j: nat, cols: nat, cellW: real, cellH: real, top: real, padding: real, q: Pos)
    requires cols >= 1 && i != j && cellW >= 0.0 && cellH >= 0.0 && padding > 0.0
    ensures !(CellRect(i, cols, cellW, cellH, top, padding).Contains(q) && CellRect(j, cols, cellW, cellH, top, padding).Contains(q))
  {
    GridCellsDistinct(cols, i, j);
    SlotsDisjoint(i % cols, i / cols, j % cols, j / cols, cellW, cellH, top, padding, q);
  }

  /** No point lies in the squares of two different items, given positive padding and a non-negative area. */
  lemma GridSquaresDisjoint(items: seq<DirectoryEntry>, width: real, height: real, top: real, padding: real, isDir: bool, i: nat, j: nat, q: Pos)
    requires width >= 0.0 && height >= 0.0 && padding > 0.0
    requires i < |items| && j < |items| && i != j
    ensures var r := GridSquares(items, width, height, top, padding, isDir);
      !(r[i].rect.Contains(q) && r[j].rect.Contains(q))
  {
    var n := |items|;
    var cols := CeilSqrt(n);
    var rows := GridRows(n, cols);
    RowsPositive(n, cols);
    var cw, ch := width / cols as real, height / rows as real;
    var r := GridSquares(items, width, height, top, padding, isDir);
    assert r[i].rect == CellRect(i, cols, cw, ch, top, padding);
    assert r[j].rect == CellRect(j, cols, cw, ch, top, padding);
    CellsDisjoint(i, j, cols, cw, ch, top, padding, q);
  }

  /** Every grid square lies `padding` inside the area of the grid. */
  lemma GridSquaresInside(items: seq<DirectoryEntry>, width: real, height: real, top: real, padding: real, isDir: bool, i: nat)
    requires width >= 0.0 && height >= 0.0 && i < |items|
    ensures var r := GridSquares(items, width, height, top, padding, isDir)[i].rect;
      && padding <= r.min.x && r.max.x <= width - padding
      && top + padding <= r.min.y && r.max.y <= top + height - padding
  {
    var n := |items|;
    var cols := CeilSqrt(n);
    var rows := GridRows(n, cols);
    GridIndex(n, i);
    assert GridSquares(items, width, height, top, padding, isDir)[i].rect
        == CellRect(i, cols, width / cols as real, height / rows as real, top, padding);
    CellInside(i, cols, rows, width, height, top, padding);
  }

  // ---------------------------------------------------------------------
  // Treemap: sizes, order, strips
  // ---------------------------------------------------------------------

  /**
   * The size of a child in the first pass of `generate_treemap_layout`.
   * `meta` gives the length the file system reports for a path, or None
   * when its metadata cannot be read.
   */
  function ChildSize(child: DirectoryEntry, hasStats: bool, meta: Path -> Option<nat>): nat {
    if hasStats then
      if child.isDirectory then
        match meta(child.path)
        case Some(len) => if len > 0 then len else |child.children| * 1000
        case None => |child.children| * 1000
      else meta(child.path).GetOr(1000)
    else if child.isDirectory then |child.children| * 1000
    else 1000
  }

  /** `child_sizes` after the first pass: a later child with the same path overwrites an earlier one. */
  function SizeMap(children: seq<DirectoryEntry>, hasStats: bool, meta: Path -> Option<nat>): map<Path, nat>
    decreases |children|
  {
    if children == [] then map[]
    else
      var last := children[|children| - 1];
      SizeMap(children[..|children| - 1], hasStats, meta)[last.path := ChildSize(last, hasStats, meta)]
  }

  /** `total_size` before the zero check: the sum over all children. */
  function SumSizes(children: seq<DirectoryEntry>, hasStats: bool, meta: Path -> Option<nat>): nat
    decreases |children|
  {
    if children == [] then 0
    else SumSizes(children[..|children| - 1], hasStats, meta) + ChildSize(children[|children| - 1], hasStats, meta)
  }

  /** The divisor of every proportion: the sum of the sizes, or 1 when that is 0. */
  function TotalSize(children: seq<DirectoryEntry>, hasStats: bool, meta: Path -> Option<nat>): (t: nat)
    ensures t >= 1
    ensures SumSizes(children, hasStats, meta) > 0 ==> t == SumSizes(children, hasStats, meta)
  {
    var s := SumSizes(children, hasStats, meta);
    if s == 0 then 1 else s
  }

  /** `child_sizes.get(path).unwrap_or(&0)`. */
  function Lookup(m: map<Path, nat>, p: Path): nat {
    if p in m then m[p] else 0
  }

  predicate DistinctPaths(s: seq<DirectoryEntry>) {
    forall i, j :: 0 <= i < j < |s| ==> s[i].path != s[j].path
  }

  /** The first pass records every child's size under its path, and nothing under other paths. */
  lemma {:induction false} SizeMapLookup(children: seq<DirectoryEntry>, hasStats: bool, meta: Path -> Option<nat>)
    requires DistinctPaths(children)
    ensures forall i :: 0 <= i < |children| ==>
      Lookup(SizeMap(children, hasStats, meta), children[i].path) == ChildSize(children[i], hasStats, meta)
    ensures forall p :: p in SizeMap(children, hasStats, meta) ==> exists i :: 0 <= i < |children| && children[i].path == p
    decreases |children|
  {
    if children != [] {
      var init := children[..|children| - 1];
      assert DistinctPaths(init);
      SizeMapLookup(init, hasStats, meta);
      forall p | p in SizeMap(children, hasStats, meta)
        ensures exists i :: 0 <= i < |children| && children[i].path == p
      {
        if p != children[|children| - 1].path {
          assert p in SizeMap(init, hasStats, meta);
          var i :| 0 <= i < |init| && init[i].path == p;
          assert children[i] == init[i];
        }
      }
    }
  }

  /** The sum of the recorded sizes of a sequence of children. */
  function SumLookup(m: map<Path, nat>, s: seq<DirectoryEntry>): nat
    decreases |s|
  {
    if s == [] then 0 else Lookup(m, s[0].path) + SumLookup(m, s[1..])
  }

  lemma {:induction false} SumLookupConcat(m: map<Path, nat>, s: seq<DirectoryEntry>, t: seq<DirectoryEntry>)
    ensures SumLookup(m, s + t) == SumLookup(m, s) + SumLookup(m, t)
    decreases |s|
  {
    if s != [] {
      assert (s + t)[1..] == s[1..] + t;
      SumLookupConcat(m, s[1..], t);
    } else {
      assert s + t == t;
    }
  }

  /** Extending a prefix by one child adds that child's recorded size. */
  lemma SumLookupPrefix(m: map<Path, nat>, s: seq<DirectoryEntry>, i: nat)
    requires i < |s|
    ensures SumLookup(m, s[..i + 1]) == SumLookup(m, s[..i]) + Lookup(m, s[i].path)
  {
    assert s[..i + 1] == s[..i] + [s[i]];
    SumLookupConcat(m, s[..i], [s[i]]);
  }

  /** Prefix sums never decrease. */
  lemma {:induction false} SumLookupMonotone(m: map<Path, nat>, s: seq<DirectoryEntry>, i: nat, j: nat)
    requires i <= j <= |s|
    ensures SumLookup(m, s[..i]) <= SumLookup(m, s[..j])
    decreases j - i
  {
    if i < j {
      SumLookupPrefix(m, s, j - 1);
      SumLookupMonotone(m, s, i, j - 1);
    }
  }

  /** Where the map records each child's size, the looked-up sizes add up to the first pass's sum. */
  lemma {:induction false} SumLookupMatches(m: map<Path, nat>, s: seq<DirectoryEntry>, hasStats: bool, meta: Path -> Option<nat>)
    requires forall i :: 0 <= i < |s| ==> Lookup(m, s[i].path) == ChildSize(s[i], hasStats, meta)
    ensures SumLookup(m, s) == SumSizes(s, hasStats, meta)
    decreases |s|
  {
    if s != [] {
      var init, last := s[..|s| - 1], s[|s| - 1];
      forall i | 0 <= i < |init| ensures Lookup(m, init[i].path) == ChildSize(init[i], hasStats, meta) {
        assert init[i] == s[i];
      }
      SumLookupMatches(m, init, hasStats, meta);
      assert s == init + [last];
      SumLookupConcat(m, init, [last]);
      assert SumLookup(m, [last]) == Lookup(m, last.path);
      assert SumSizes(s, hasStats, meta) == SumSizes(init, hasStats, meta) + ChildSize(last, hasStats, meta);
    }
  }

  /** With distinct paths the recorded sizes sum to the total of the first pass. */
  lemma SumLookupOfSizeMap(children: seq<DirectoryEntry>, hasStats: bool, meta: Path -> Option<nat>)
    requires DistinctPaths(children)
    ensures SumLookup(SizeMap(children, hasStats, meta), children) == SumSizes(children, hasStats, meta)
  {
    SizeMapLookup(children, hasStats, meta);
    SumLookupMatches(SizeMap(children, hasStats, meta), children, hasStats, meta);
  }

  /** Insert `x` before the first child of no greater size, as a stable sort by decreasing size would place it. */
  function InsertBySize(x: DirectoryEntry, s: seq<DirectoryEntry>, m: map<Path, nat>): (r: seq<DirectoryEntry>)
    decreases |s|
  {
    if s == [] then [x]
    else if Lookup(m, s[0].path) <= Lookup(m, x.path) then [x] + s
    else [s[0]] + InsertBySize(x, s[1..], m)
  }

  /** `sort_by(|a, b| b_size.cmp(a_size))`: the children by decreasing recorded size. */
  function SortBySize(s: seq<DirectoryEntry>, m: map<Path, nat>): seq<DirectoryEntry>
    decreases |s|
  {
    if s == [] then [] else InsertBySize(s[0], SortBySize(s[1..], m), m)
  }

  predicate SortedBySize(s: seq<DirectoryEntry>, m: map<Path, nat>) {
    forall i, j :: 0 <= i < j < |s| ==> Lookup(m, s[j].path) <= Lookup(m, s[i].path)
  }

  lemma {:induction false} InsertBySizeElements(x: DirectoryEntry, s: seq<DirectoryEntry>, m: map<Path, nat>)
    ensures multiset(InsertBySize(x, s, m)) == multiset(s) + multiset{x}
    ensures SumLookup(m, InsertBySize(x, s, m)) == SumLookup(m, s) + Lookup(m, x.path)
    decreases |s|
  {
    if s != [] && Lookup(m, x.path) < Lookup(m, s[0].path) {
      InsertBySizeElements(x, s[1..], m);
      assert s == [s[0]] + s[1..];
    }
  }

  /** Everything in the insertion is `x` or comes from `s`. */
  lemma InsertBySizeFrom(x: DirectoryEntry, s: seq<DirectoryEntry>, m: map<Path, nat>, k: nat)
    requires k < |InsertBySize(x, s, m)|
    ensures InsertBySize(x, s, m)[k] == x || InsertBySize(x, s, m)[k] in s
  {
    var r := InsertBySize(x, s, m);
    InsertBySizeElements(x, s, m);
    assert r[k] in multiset(r);
  }

  lemma {:induction false} InsertBySizeSorted(x: DirectoryEntry, s: seq<DirectoryEntry>, m: map<Path, nat>)
    requires SortedBySize(s, m)
    ensures SortedBySize(InsertBySize(x, s, m), m)
    decreases |s|
  {
    if s != [] && Lookup(m, x.path) < Lookup(m, s[0].path) {
      var rest := InsertBySize(x, s[1..], m);
      InsertBySizeSorted(x, s[1..], m);
      forall k | 0 <= k < |rest| ensures Lookup(m, rest[k].path) <= Lookup(m, s[0].path) {
        InsertBySizeFrom(x, s[1..], m, k);
      }
      assert InsertBySize(x, s, m) == [s[0]] + rest;
    }
  }

  /** The sort orders the children by decreasing size ... */
  lemma {:induction false} SortBySizeSorted(s: seq<DirectoryEntry>, m: map<Path, nat>)
    ensures SortedBySize(SortBySize(s, m), m)
    decreases |s|
  {
    if s != [] {
      SortBySizeSorted(s[1..], m);
      InsertBySizeSorted(s[0], SortBySize(s[1..], m), m);
    }
  }

  /** ... keeps every child exactly as often as it occurs, and the sum of the sizes. */
  lemma {:induction false} SortBySizeElements(s: seq<DirectoryEntry>, m: map<Path, nat>)
    ensures multiset(SortBySize(s, m)) == multiset(s)
    ensures SumLookup(m, SortBySize(s, m)) == SumLookup(m, s)
    decreases |s|
  {
    if s != [] {
      SortBySizeElements(s[1..], m);
      InsertBySizeElements(s[0], SortBySize(s[1..], m), m);
      assert s == [s[0]] + s[1..];
    }
  }

  /** The sort reorders the children by decreasing size, keeping every child and the sum of the sizes. */
  lemma SortBySizeMeaning(s: seq<DirectoryEntry>, m: map<Path, nat>)
    ensures SortedBySize(SortBySize(s, m), m)
    ensures multiset(SortBySize(s, m)) == multiset(s)
    ensures |SortBySize(s, m)| == |s|
    ensures SumLookup(m, SortBySize(s, m)) == SumLookup(m, s)
  {
    SortBySizeSorted(s, m);
    SortBySizeElements(s, m);
    assert |multiset(SortBySize(s, m))| == |multiset(s)|;
  }

  /** The share of `size` in `total`. */
  function Frac(size: nat, total: nat): real
    requires total > 0
  {
    size as real / total as real
  }

  lemma FracSum(a: nat, b: nat, total: nat)
    requires total > 0
    ensures Frac(a + b, total) == Frac(a, total) + Frac(b, total)
  {
    var t := total as real;
    var x, y := a as real / t, b as real / t;
    assert x * t == a as real && y * t == b as real;
    assert (x + y) * t == (a + b) as real;
  }

  /** The whole total is share 1. */
  lemma FracWhole(total: nat)
    requires total > 0
    ensures Frac(total, total) == 1.0
  {
  }

  lemma FracAtMostOne(a: nat, b: nat, total: nat)
    requires total > 0 && a <= b
    ensures 0.0 <= Frac(a, total) <= Frac(b, total)
    ensures b <= total ==> Frac(b, total) <= 1.0
  {
  }

  /** The area item of `generate_squarified_treemap` divided by the extent `r` of the remaining rectangle, when that is the second factor. */
  lemma Cancel(w: real, h: real, p: real, r: real)
    requires r == h && h != 0.0
    ensures w * h * p / r == w * p
  {
    assert w * h * p == (w * p) * h;
  }

  /** The same when the extent `r` is the first factor. */
  lemma CancelFirst(w: real, h: real, p: real, r: real)
    requires r == w && w != 0.0
    ensures w * h * p / r == h * p
  {
    assert w * h * p == (h * p) * w;
  }

  /** The rectangle five pixels inside `rect`, where the strips are laid. */
  function AvailableRect(rect: Rect): Rect {
    FromMinSize(Pos(rect.min.x + 5.0, rect.min.y + 5.0), rect.Width() - 10.0, rect.Height() - 10.0)
  }

  /** Strips run left to right when the available rectangle is at least as wide as it is high. */
  predicate Horizontal(avail: Rect) {
    avail.Width() >= avail.Height()
  }

  /** The strip whose leading edge is at share `before` of the available rectangle and whose extent is share `share` of it. */
  function Strip(avail: Rect, before: real, share: real): Rect {
    if Horizontal(avail) then
      FromMinSize(Pos(avail.min.x + avail.Width() * before, avail.min.y), avail.Width() * share, avail.Height())
    else
      FromMinSize(Pos(avail.min.x, avail.min.y + avail.Height() * before), avail.Width(), avail.Height() * share)
  }

  /** The strip of sorted child `i`: it starts at the share of the children before it and is as long as its own share. */
  function StripOf(sorted: seq<DirectoryEntry>, m: map<Path, nat>, total: nat, avail: Rect, i: nat): Rect
    requires total > 0 && i < |sorted|
  {
    Strip(avail, Frac(SumLookup(m, sorted[..i]), total), Frac(Lookup(m, sorted[i].path), total))
  }

  /** The squares of the sorted children, each a strip as long as its share of the total. */
  function TreemapSquares(sorted: seq<DirectoryEntry>, m: map<Path, nat>, total: nat, avail: Rect): (r: seq<VisualSquare>)
    requires total > 0
    ensures |r| == |sorted|
  {
    seq(|sorted|, i requires 0 <= i < |sorted| =>
      VisualSquare(sorted[i], StripOf(sorted, m, total, avail, i),
                   false, false, sorted[i].isDirectory, Frac(Lookup(m, sorted[i].path), total), 0.0, None))
  }

  /** `generate_treemap_layout` followed by `generate_squarified_treemap` over a `width` by `height` canvas. */
  function TreemapLayout(entry: DirectoryEntry, width: real, height: real, hasStats: bool, meta: Path -> Option<nat>): seq<VisualSquare> {
    if !entry.isDirectory || entry.children == [] then []
    else
      var m := SizeMap(entry.children, hasStats, meta);
      TreemapSquares(SortBySize(entry.children, m), m, TotalSize(entry.children, hasStats, meta),
                     AvailableRect(FromMinSize(Pos(0.0, 0.0), width, height)))
  }

  /** Square `i` of the treemap stands for sorted child `i`, of its own kind, weighted by its share of the total. */
  lemma TreemapSquareFields(sorted: seq<DirectoryEntry>, m: map<Path, nat>, total: nat, avail: Rect, i: nat)
    requires total > 0 && i < |sorted|
    ensures var q := TreemapSquares(sorted, m, total, avail)[i];
      && q.entry == sorted[i] && q.isDirectory == sorted[i].isDirectory
      && q.sizeWeight == Frac(Lookup(m, sorted[i].path), total)
      && !q.selected && !q.hovered && q.animationProgress == 0.0 && q.prevRect.None?
  {
  }

  /** A horizontal strip spans the full height, from share `lo` to share `hi` of the width. */
  lemma HorizontalStrip(avail: Rect, lo: real, share: real, hi: real)
    requires Horizontal(avail) && hi == lo + share
    ensures var q := Strip(avail, lo, share);
      && q.min.x == avail.min.x + avail.Width() * lo && q.max.x == avail.min.x + avail.Width() * hi
      && q.min.y == avail.min.y && q.max.y == avail.max.y
  {
    assert avail.Width() * lo + avail.Width() * share == avail.Width() * hi;
  }

  /** A vertical strip spans the full width, from share `lo` to share `hi` of the height. */
  lemma VerticalStrip(avail: Rect, lo: real, share: real, hi: real)
    requires !Horizontal(avail) && hi == lo + share
    ensures var q := Strip(avail, lo, share);
      && q.min.y == avail.min.y + avail.Height() * lo && q.max.y == avail.min.y + avail.Height() * hi
      && q.min.x == avail.min.x && q.max.x == avail.max.x
  {
    assert avail.Height() * lo + avail.Height() * share == avail.Height() * hi;
  }

  /** The share up to and including child `i` is the share before it plus its own. */
  lemma SharesAdd(sorted: seq<DirectoryEntry>, m: map<Path, nat>, total: nat, i: nat)
    requires total > 0 && i < |sorted|
    ensures Frac(SumLookup(m, sorted[..i + 1]), total) == Frac(SumLookup(m, sorted[..i]), total) + Frac(Lookup(m, sorted[i].path), total)
  {
    SumLookupPrefix(m, sorted, i);
    FracSum(SumLookup(m, sorted[..i]), Lookup(m, sorted[i].path), total);
  }

  /** The rectangle of treemap square `i` is the strip of sorted child `i`. */
  lemma TreemapRect(sorted: seq<DirectoryEntry>, m: map<Path, nat>, total: nat, avail: Rect, i: nat)
    requires total > 0 && i < |sorted|
    ensures TreemapSquares(sorted, m, total, avail)[i].rect == StripOf(sorted, m, total, avail, i)
  {
  }

  /** The leading edge of a strip along the direction the strips run. */
  function Lead(avail: Rect, q: Rect): real {
    if Horizontal(avail) then q.min.x else q.min.y
  }

  /** The trailing edge of a strip along the direction the strips run. */
  function Trail(avail: Rect, q: Rect): real {
    if Horizontal(avail) then q.max.x else q.max.y
  }

  /** The coordinate at `share` of the way along the direction the strips run. */
  function At(avail: Rect, share: real): real {
    if Horizontal(avail) then avail.min.x + avail.Width() * share else avail.min.y + avail.Height() * share
  }

  /** The whole extent across the direction the strips run. */
  predicate Across(avail: Rect, q: Rect) {
    if Horizontal(avail) then q.min.y == avail.min.y && q.max.y == avail.max.y
    else q.min.x == avail.min.x && q.max.x == avail.max.x
  }

  /** A strip leads at its share before, trails at that share plus its own, and spans the rectangle across. */
  lemma StripEdges(avail: Rect, lo: real, share: real)
    ensures Lead(avail, Strip(avail, lo, share)) == At(avail, lo)
    ensures Trail(avail, Strip(avail, lo, share)) == At(avail, lo + share)
    ensures Across(avail, Strip(avail, lo, share))
  {
    if Horizontal(avail) {
      HorizontalStrip(avail, lo, share, lo + share);
    } else {
      VerticalStrip(avail, lo, share, lo + share);
    }
  }

  /** A strip with nothing before it starts at the near corner. */
  lemma StripFromCorner(avail: Rect, share: real)
    ensures Strip(avail, 0.0, share).min == avail.min
  {
  }

  /** A strip that reaches the whole share ends at the far corner. */
  lemma StripToCorner(avail: Rect, lo: real, share: real)
    requires lo + share == 1.0
    ensures Strip(avail, lo, share).max == avail.max
  {
    if Horizontal(avail) {
      HorizontalStrip(avail, lo, share, 1.0);
    } else {
      VerticalStrip(avail, lo, share, 1.0);
    }
  }

  /** Sorted child `i` starts at the share of the children before it. */
  lemma StripLead(sorted: seq<DirectoryEntry>, m: map<Path, nat>, total: nat, avail: Rect, i: nat)
    requires total > 0 && i < |sorted|
    ensures Lead(avail, StripOf(sorted, m, total, avail, i)) == At(avail, Frac(SumLookup(m, sorted[..i]), total))
  {
    StripEdges(avail, Frac(SumLookup(m, sorted[..i]), total), Frac(Lookup(m, sorted[i].path), total));
  }

  /** Sorted child `i` ends at the share of the children up to and including it. */
  lemma StripTrail(sorted: seq<DirectoryEntry>, m: map<Path, nat>, total: nat, avail: Rect, i: nat)
    requires total > 0 && i < |sorted|
    ensures Trail(avail, StripOf(sorted, m, total, avail, i)) == At(avail, Frac(SumLookup(m, sorted[..i + 1]), total))
  {
    SharesAdd(sorted, m, total, i);
    StripEdges(avail, Frac(SumLookup(m, sorted[..i]), total), Frac(Lookup(m, sorted[i].path), total));
  }

  lemma StripAcross(sorted: seq<DirectoryEntry>, m: map<Path, nat>, total: nat, avail: Rect, i: nat)
    requires total > 0 && i < |sorted|
    ensures Across(avail, StripOf(sorted, m, total, avail, i))
  {
    StripEdges(avail, Frac(SumLookup(m, sorted[..i]), total), Frac(Lookup(m, sorted[i].path), total));
  }

  /** On a rectangle of non-negative extent, a larger share lies further along. */
  lemma AtMonotone(avail: Rect, a: real, b: real)
    requires a <= b && avail.Width() >= 0.0 && avail.Height() >= 0.0
    ensures At(avail, a) <= At(avail, b)
  {
    if Horizontal(avail) {
      var w := avail.Width();
      OffsetMono(avail.min.x, w, a, b);
      assert At(avail, a) == avail.min.x + w * a && At(avail, b) == avail.min.x + w * b;
    } else {
      var h := avail.Height();
      OffsetMono(avail.min.y, h, a, b);
      assert At(avail, a) == avail.min.y + h * a && At(avail, b) == avail.min.y + h * b;
    }
  }

  /** Share 0 is the near edge of the available rectangle and share 1 its far edge. */
  lemma AtEnds(avail: Rect)
    ensures At(avail, 0.0) == Lead(avail, avail) && At(avail, 1.0) == Trail(avail, avail)
  {
  }

  /** Every strip spans the whole available rectangle across the direction the strips run. */
  lemma TreemapAcross(sorted: seq<DirectoryEntry>, m: map<Path, nat>, total: nat, avail: Rect, i: nat)
    requires total > 0 && i < |sorted|
    ensures Across(avail, TreemapSquares(sorted, m, total, avail)[i].rect)
  {
    TreemapRect(sorted, m, total, avail, i);
    StripAcross(sorted, m, total, avail, i);
  }

  /** Each strip starts where the one before it ends. */
  lemma TreemapContiguous(sorted: seq<DirectoryEntry>, m: map<Path, nat>, total: nat, avail: Rect, i: nat)
    requires total > 0 && i + 1 < |sorted|
    ensures var r := TreemapSquares(sorted, m, total, avail);
      Lead(avail, r[i + 1].rect) == Trail(avail, r[i].rect)
  {
    TreemapRect(sorted, m, total, avail, i);
    TreemapRect(sorted, m, total, avail, i + 1);
    StripTrail(sorted, m, total, avail, i);
    StripLead(sorted, m, total, avail, i + 1);
  }

  /** The first strip starts at the corner of the available rectangle. */
  lemma TreemapStarts(sorted: seq<DirectoryEntry>, m: map<Path, nat>, total: nat, avail: Rect)
    requires total > 0 && |sorted| > 0
    ensures TreemapSquares(sorted, m, total, avail)[0].rect.min == avail.min
  {
    TreemapRect(sorted, m, total, avail, 0);
    assert SumLookup(m, sorted[..0]) == 0;
    StripFromCorner(avail, Frac(Lookup(m, sorted[0].path), total));
  }

  /** When the recorded sizes add up to the total, the last strip ends at the opposite corner. */
  lemma TreemapEnds(sorted: seq<DirectoryEntry>, m: map<Path, nat>, total: nat, avail: Rect)
    requires total > 0 && |sorted| > 0 && SumLookup(m, sorted) == total
    ensures TreemapSquares(sorted, m, total, avail)[|sorted| - 1].rect.max == avail.max
  {
    var n := |sorted| - 1;
    TreemapRect(sorted, m, total, avail, n);
    assert sorted[..n + 1] == sorted;
    var lo, share := Frac(SumLookup(m, sorted[..n]), total), Frac(Lookup(m, sorted[n].path), total);
    SharesAdd(sorted, m, total, n);
    assert SumLookup(m, sorted[..n + 1]) == total;
    FracWhole(total);
    StripToCorner(avail, lo, share);
  }

  /** On a rectangle of non-negative extent the strips come in order and do not overlap, except along shared edges. */
  lemma TreemapOrdered(sorted: seq<DirectoryEntry>, m: map<Path, nat>, total: nat, avail: Rect, i: nat, j: nat)
    requires total > 0 && i < j < |sorted|
    requires avail.Width() >= 0.0 && avail.Height() >= 0.0
    ensures var r := TreemapSquares(sorted, m, total, avail);
      Trail(avail, r[i].rect) <= Lead(avail, r[j].rect)
  {
    var a, b := Frac(SumLookup(m, sorted[..i + 1]), total), Frac(SumLookup(m, sorted[..j]), total);
    assert a <= b by {
      SumLookupMonotone(m, sorted, i + 1, j);
      FracAtMostOne(SumLookup(m, sorted[..i + 1]), SumLookup(m, sorted[..j]), total);
    }
    TreemapRect(sorted, m, total, avail, i);
    TreemapRect(sorted, m, total, avail, j);
    StripTrail(sorted, m, total, avail, i);
    StripLead(sorted, m, total, avail, j);
    AtMonotone(avail, a, b);
  }

  /** When the sizes add up to no more than the total, the shares before and up to child `i` lie in order within [0, 1]. */
  lemma SharesWithin(sorted: seq<DirectoryEntry>, m: map<Path, nat>, total: nat, i: nat)
    requires total > 0 && i < |sorted| && SumLookup(m, sorted) <= total
    ensures 0.0 <= Frac(SumLookup(m, sorted[..i]), total) <= Frac(SumLookup(m, sorted[..i + 1]), total) <= 1.0
  {
    SumLookupMonotone(m, sorted, i, i + 1);
    SumLookupMonotone(m, sorted, i + 1, |sorted|);
    assert sorted[..|sorted|] == sorted;
    FracAtMostOne(SumLookup(m, sorted[..i]), SumLookup(m, sorted[..i + 1]), total);
    FracAtMostOne(SumLookup(m, sorted[..i + 1]), SumLookup(m, sorted), total);
  }

  /** When the sizes add up to no more than the total, every strip lies between the near and far edges of the available rectangle. */
  lemma TreemapInside(sorted: seq<DirectoryEntry>, m: map<Path, nat>, total: nat, avail: Rect, i: nat)
    requires total > 0 && i < |sorted| && SumLookup(m, sorted) <= total
    requires avail.Width() >= 0.0 && avail.Height() >= 0.0
    ensures var q := TreemapSquares(sorted, m, total, avail)[i].rect;
      Lead(avail, avail) <= Lead(avail, q) <= Trail(avail, q) <= Trail(avail, avail)
  {
    var lo, hi := Frac(SumLookup(m, sorted[..i]), total), Frac(SumLookup(m, sorted[..i + 1]), total);
    SharesWithin(sorted, m, total, i);
    TreemapRect(sorted, m, total, avail, i);
    StripLead(sorted, m, total, avail, i);
    StripTrail(sorted, m, total, avail, i);
    AtEnds(avail);
    AtMonotone(avail, 0.0, lo);
    AtMonotone(avail, lo, hi);
    AtMonotone(avail, hi, 1.0);
  }

  /**
   * For a directory whose children have distinct paths and a non-zero
   * total size, the treemap holds every child once and its strips tile the
   * available rectangle from corner to corner.
   */
  lemma TreemapLayoutTiles(entry: DirectoryEntry, width: real, height: real, hasStats: bool, meta: Path -> Option<nat>)
    requires entry.isDirectory && entry.children != [] && DistinctPaths(entry.children)
    requires SumSizes(entry.children, hasStats, meta) > 0
    ensures var r := TreemapLayout(entry, width, height, hasStats, meta);
      var avail := AvailableRect(FromMinSize(Pos(0.0, 0.0), width, height));
      var entries := seq(|r|, i requires 0 <= i < |r| => r[i].entry);
      && multiset(entries) == multiset(entry.children)
      && SortedBySize(entries, SizeMap(entry.children, hasStats, meta))
      && r[0].rect.min == avail.min && r[|r| - 1].rect.max == avail.max
  {
    var m := SizeMap(entry.children, hasStats, meta);
    var sorted := SortBySize(entry.children, m);
    var total := TotalSize(entry.children, hasStats, meta);
    var avail := AvailableRect(FromMinSize(Pos(0.0, 0.0), width, height));
    SortBySizeMeaning(entry.children, m);
    SumLookupOfSizeMap(entry.children, hasStats, meta);
    var r := TreemapSquares(sorted, m, total, avail);
    assert seq(|r|, i requires 0 <= i < |r| => r[i].entry) == sorted;
    TreemapStarts(sorted, m, total, avail);
    TreemapEnds(sorted, m, total, avail);
  }

  // ---------------------------------------------------------------------
  // Detailed layout and the choice of layout
  // ---------------------------------------------------------------------

  /** The height of the directory band: 70% of the canvas when there are subdirectories. */
  function DirBandHeight(children: seq<DirectoryEntry>, height: real): real {
    if Filter(children, IsDir) != [] then height * 0.7 else 0.0
  }

  /** `generate_detailed_layout`: a grid of the subdirectories over the top band, a grid of the files below it. */
  function DetailedLayout(entry: DirectoryEntry, width: real, height: real): seq<VisualSquare> {
    if !entry.isDirectory || entry.children == [] then []
    else
      var dirs, files := Filter(entry.children, IsDir), Filter(entry.children, IsFile);
      var dirH := DirBandHeight(entry.children, height);
      var fileH := if files != [] then height - dirH else 0.0;
      GridSquares(dirs, width, dirH, 0.0, 8.0, true) + GridSquares(files, width, fileH, dirH, 5.0, false)
  }

  /** Every child of a directory gets one square: the subdirectories first, then the files, each group in child order. */
  lemma DetailedLayoutContents(entry: DirectoryEntry, width: real, height: real, i: nat)
    requires entry.isDirectory
    ensures |DetailedLayout(entry, width, height)| == |entry.children|
    ensures var r := DetailedLayout(entry, width, height);
      var dirs, files := Filter(entry.children, IsDir), Filter(entry.children, IsFile);
      && (i < |dirs| ==> FreshSquare(r[i], dirs[i], true, |dirs|))
      && (|dirs| <= i < |r| ==> FreshSquare(r[i], files[i - |dirs|], false, |files|))
  {
    var dirs, files := Filter(entry.children, IsDir), Filter(entry.children, IsFile);
    FilterPartition(entry.children);
    if entry.children != [] {
      var dirH := DirBandHeight(entry.children, height);
      var fileH := if files != [] then height - dirH else 0.0;
      var r := DetailedLayout(entry, width, height);
      var a, b := GridSquares(dirs, width, dirH, 0.0, 8.0, true), GridSquares(files, width, fileH, dirH, 5.0, false);
      assert r == a + b;
      if i < |dirs| {
        GridSquareFields(dirs, width, dirH, 0.0, 8.0, true, i);
        assert r[i] == a[i];
      } else if i < |r| {
        GridSquareFields(files, width, fileH, dirH, 5.0, false, i - |dirs|);
        assert r[i] == b[i - |dirs|];
      }
    }
  }

  /** On a canvas of non-negative size, the directory squares end above the directory band's lower edge and the file squares start below it. */
  lemma DetailedBandsApart(entry: DirectoryEntry, width: real, height: real, i: nat, j: nat)
    requires entry.isDirectory && width >= 0.0 && height >= 0.0
    requires i < |Filter(entry.children, IsDir)| <= j < |DetailedLayout(entry, width, height)|
    ensures var r := DetailedLayout(entry, width, height); var dirH := DirBandHeight(entry.children, height);
      r[i].rect.max.y <= dirH - 8.0 && dirH + 5.0 <= r[j].rect.min.y
  {
    var dirs, files := Filter(entry.children, IsDir), Filter(entry.children, IsFile);
    FilterPartition(entry.children);
    var dirH := DirBandHeight(entry.children, height);
    var fileH := if files != [] then height - dirH else 0.0;
    var r := DetailedLayout(entry, width, height);
    var a, b := GridSquares(dirs, width, dirH, 0.0, 8.0, true), GridSquares(files, width, fileH, dirH, 5.0, false);
    assert r == a + b;
    assert r[i] == a[i] && r[j] == b[j - |dirs|];
    assert files != [];
    GridSquaresInside(dirs, width, dirH, 0.0, 8.0, true, i);
    GridSquaresInside(files, width, fileH, dirH, 5.0, false, j - |dirs|);
  }

  /** No point lies in two different squares of the detailed layout of a canvas of non-negative size. */
  lemma DetailedDisjoint(entry: DirectoryEntry, width: real, height: real, i: nat, j: nat, q: Pos)
    requires entry.isDirectory && width >= 0.0 && height >= 0.0
    requires i < j < |DetailedLayout(entry, width, height)|
    ensures var r := DetailedLayout(entry, width, height); !(r[i].rect.Contains(q) && r[j].rect.Contains(q))
  {
    var dirs, files := Filter(entry.children, IsDir), Filter(entry.children, IsFile);
    FilterPartition(entry.children);
    var dirH := DirBandHeight(entry.children, height);
    var fileH := if files != [] then height - dirH else 0.0;
    var r := DetailedLayout(entry, width, height);
    var a, b := GridSquares(dirs, width, dirH, 0.0, 8.0, true), GridSquares(files, width, fileH, dirH, 5.0, false);
    assert r == a + b;
    if j < |dirs| {
      assert r[i] == a[i] && r[j] == a[j];
      GridSquaresDisjoint(dirs, width, dirH, 0.0, 8.0, true, i, j, q);
    } else if |dirs| <= i {
      assert r[i] == b[i - |dirs|] && r[j] == b[j - |dirs|];
      GridSquaresDisjoint(files, width, fileH, dirH, 5.0, false, i - |dirs|, j - |dirs|, q);
    } else {
      DetailedBandsApart(entry, width, height, i, j);
    }
  }

  /** `generate_squares`: no squares without a root; otherwise the layout the zoom factor selects, over a `width` by `height` canvas. */
  function GeneratedSquares(root: Option<DirectoryEntry>, zoom: real, hasStats: bool, meta: Path -> Option<nat>,
                            width: real, height: real): seq<VisualSquare> {
    match root
    case None => []
    case Some(e) =>
      if zoom < 2.0 then GridLayout(e, width, height)
      else if zoom < 3.0 then TreemapLayout(e, width, height, hasStats, meta)
      else DetailedLayout(e, width, height)
  }

  /** Zoomed out the layout shows only subdirectories; zoomed in, the detailed layout shows every child. */
  lemma LayoutByZoom(e: DirectoryEntry, zoom: real, hasStats: bool, meta: Path -> Option<nat>, width: real, height: real)
    requires e.isDirectory
    ensures var r := GeneratedSquares(Some(e), zoom, hasStats, meta, width, height);
      && (zoom < 2.0 ==> |r| == |Filter(e.children, IsDir)| && forall i :: 0 <= i < |r| ==> r[i].isDirectory)
      && (2.0 <= zoom ==> |r| == |e.children|)
  {
    var r := GeneratedSquares(Some(e), zoom, hasStats, meta, width, height);
    if zoom < 2.0 {
      GridLayoutContents(e, width, height);
    } else if zoom < 3.0 {
      if e.children != [] {
        SortBySizeMeaning(e.children, SizeMap(e.children, hasStats, meta));
      }
    } else {
      DetailedLayoutContents(e, width, height, 0);
    }
  }

  /** A square as every layout first places it: unselected, not hovered, not animating, without a previous rectangle. */
  predicate Unmarked(q: VisualSquare) {
    !q.selected && !q.hovered && q.animationProgress == 0.0 && q.prevRect.None?
  }

  lemma GridUnmarked(e: DirectoryEntry, width: real, height: real, k: nat)
    requires k < |GridLayout(e, width, height)|
    ensures Unmarked(GridLayout(e, width, height)[k])
  {
    GridSquareFields(Filter(e.children, IsDir), width, height, 0.0, 10.0, true, k);
  }

  lemma TreemapUnmarked(e: DirectoryEntry, width: real, height: real, hasStats: bool, meta: Path -> Option<nat>, k: nat)
    requires k < |TreemapLayout(e, width, height, hasStats, meta)|
    ensures Unmarked(TreemapLayout(e, width, height, hasStats, meta)[k])
  {
  }

  lemma DetailedUnmarked(e: DirectoryEntry, width: real, height: real, k: nat)
    requires k < |DetailedLayout(e, width, height)|
    ensures Unmarked(DetailedLayout(e, width, height)[k])
  {
    DetailedLayoutContents(e, width, height, k);
  }

  /** Every generated square starts unselected, not hovered, not animating and without a previous rectangle. */
  lemma GeneratedUnmarked(root: Option<DirectoryEntry>, zoom: real, hasStats: bool, meta: Path -> Option<nat>,
                           width: real, height: real, k: nat)
    requires k < |GeneratedSquares(root, zoom, hasStats, meta, width, height)|
    ensures Unmarked(GeneratedSquares(root, zoom, hasStats, meta, width, height)[k])
  {
    var e := root.value;
    if zoom < 2.0 {
      GridUnmarked(e, width, height, k);
    } else if zoom < 3.0 {
      TreemapUnmarked(e, width, height, hasStats, meta, k);
    } else {
      DetailedUnmarked(e, width, height, k);
    }
  }
}
