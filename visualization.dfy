/**
 * The Visualizer of src/visualization/mod.rs: it holds the squares of the
 * current layout, the selection, and the state of a zoom animation. Its
 * methods build the squares step by step and are proved to produce the
 * layouts of the Layout module; interaction, zoom and animation ticks keep
 * the object's invariant.
 */
module Visualization {
  import opened Wrappers
  import opened RealArith
  import opened Geometry
  import opened Directory
  import opened Animation
  import opened Layout

  // ---------------------------------------------------------------------
  // File colours
  // ---------------------------------------------------------------------

  datatype Color = Rgb(r: nat, g: nat, b: nat)

  /** The colour of a file whose type has no entry in the table. */
  const DefaultColor: Color := Rgb(180, 180, 180)

  /** `initialize_file_colors`. */
  const FileColors: map<string, Color> := map[
    "rs" := Rgb(250, 100, 100),
    "js" := Rgb(240, 220, 100),
    "py" := Rgb(100, 200, 150),
    "md" := Rgb(150, 150, 250),
    "txt" := Rgb(200, 200, 200),
    "json" := Rgb(250, 150, 100)]

  /** The last segment of a file name split at its dots. */
  function LastSegment(name: string): (seg: string)
    ensures '.' !in seg && |seg| <= |name| && name[|name| - |seg|..] == seg
    ensures |seg| == |name| || name[|name| - |seg| - 1] == '.'
  {
    AfterLastDotShape(name);
    AfterLastDot(name)
  }

  /** `get_file_color`: the colour of the file's type, or the default. */
  function GetFileColor(name: string): (c: Color)
    ensures c == DefaultColor <==> LastSegment(name) !in FileColors
    ensures LastSegment(name) in FileColors ==> c == FileColors[LastSegment(name)]
  {
    if LastSegment(name) in FileColors then FileColors[LastSegment(name)] else DefaultColor
  }

  predicate EndsWith(s: string, suffix: string) {
    |suffix| <= |s| && s[|s| - |suffix|..] == suffix
  }

  /** A name whose last segment is `k` is `k` itself or ends with '.' followed by `k`, and the converse holds for `k` without a '.'. */
  lemma LastSegmentIff(name: string, k: string)
    requires '.' !in k
    ensures LastSegment(name) == k <==> name == k || EndsWith(name, "." + k)
  {
    var seg := LastSegment(name);
    if seg == k && name != k {
      assert name[|name| - |k| - 1..] == "." + k;
    }
    if EndsWith(name, "." + k) {
      var j := |name| - |k| - 1;
      assert name[j] == '.';
      assert name[|name| - |k|..] == k;
    }
  }

  /** A file is coloured exactly when its name is, or ends with '.' and, one of the six known types. */
  lemma ColoredIffKnownType(name: string)
    ensures GetFileColor(name) != DefaultColor <==>
      exists k :: k in FileColors && (name == k || EndsWith(name, "." + k))
  {
    forall k | k in FileColors ensures '.' !in k && (LastSegment(name) == k <==> name == k || EndsWith(name, "." + k)) {
      LastSegmentIff(name, k);
    }
  }

  /** A name made of a stem, a '.' and a type without '.' has that type's colour. */
  lemma ColorOfType(stem: string, k: string)
    requires '.' !in k
    ensures GetFileColor(stem + "." + k) == if k in FileColors then FileColors[k] else DefaultColor
  {
    var name := stem + "." + k;
    assert name[|name| - |"." + k|..] == "." + k;
    LastSegmentIff(name, k);
  }

  /** The unit test of the colours: Rust and JavaScript files differ ... */
  lemma RustColor()
    ensures GetFileColor("main.rs") == Rgb(250, 100, 100)
  {
    ColorOfType("main", "rs");
    assert "main" + "." + "rs" == "main.rs";
  }

  lemma JavaScriptColor()
    ensures GetFileColor("script.js") == Rgb(240, 220, 100)
  {
    ColorOfType("script", "js");
    assert "script" + "." + "js" == "script.js";
  }

  lemma RustAndJavaScriptDiffer()
    ensures GetFileColor("main.rs") != GetFileColor("script.js")
  {
    RustColor();
    JavaScriptColor();
  }

  /** ... and an unknown type gets the default. */
  lemma UnknownTypeColor()
    ensures GetFileColor("file.xyz") == DefaultColor
  {
    ColorOfType("file", "xyz");
    assert "file" + "." + "xyz" == "file.xyz";
  }

  // ---------------------------------------------------------------------
  // Specification functions of the Visualizer's updates
  // ---------------------------------------------------------------------

  /** The first square, in order, whose rectangle contains the point. */
  function FirstHit(squares: seq<VisualSquare>, p: Pos): (r: Option<nat>)
    ensures r.None? <==> forall k :: 0 <= k < |squares| ==> !squares[k].rect.Contains(p)
    ensures r.Some? ==> r.value < |squares| && squares[r.value].rect.Contains(p)
    ensures r.Some? ==> forall k :: 0 <= k < r.value ==> !squares[k].rect.Contains(p)
    decreases |squares|
  {
    if squares == [] then None
    else if squares[0].rect.Contains(p) then Some(0)
    else
      match FirstHit(squares[1..], p)
      case None =>
        assert forall k :: 1 <= k < |squares| ==> squares[k] == squares[1..][k - 1];
        None
      case Some(k) =>
        assert forall j :: 1 <= j <= k ==> squares[j] == squares[1..][j - 1];
        Some(k + 1)
  }

  /** The squares after a click on square `index` while `prev` was selected. */
  function Select(squares: seq<VisualSquare>, prev: Option<nat>, index: nat): (r: seq<VisualSquare>)
    ensures |r| == |squares|
  {
    seq(|squares|, k requires 0 <= k < |squares| =>
      if k == index then squares[k].(selected := true)
      else if prev == Some(k) then squares[k].(selected := false)
      else squares[k])
  }

  /** Exactly the square at `selected` is marked selected. */
  predicate SelectionMarked(squares: seq<VisualSquare>, selected: Option<nat>) {
    && (selected.Some? ==> selected.value < |squares|)
    && forall k :: 0 <= k < |squares| ==> (squares[k].selected <==> selected == Some(k))
  }

  /** A click moves the selection mark from the old square to the clicked one and leaves every rectangle where it was. */
  lemma SelectMoves(squares: seq<VisualSquare>, prev: Option<nat>, index: nat)
    requires SelectionMarked(squares, prev) && index < |squares|
    ensures SelectionMarked(Select(squares, prev, index), Some(index))
    ensures forall k :: 0 <= k < |squares| ==>
      Select(squares, prev, index)[k] == squares[k].(selected := Select(squares, prev, index)[k].selected)
  {
  }

  /** The new target of a zoom step, within [1, 4]. */
  function NewTarget(zoom: real, zoomIn: bool): (t: real)
    ensures zoomIn ==> t <= 4.0 && (zoom + 0.1 <= 4.0 ==> t == zoom + 0.1) && (zoom + 0.1 > 4.0 ==> t == 4.0)
    ensures !zoomIn ==> 1.0 <= t && (zoom - 0.1 >= 1.0 ==> t == zoom - 0.1) && (zoom - 0.1 < 1.0 ==> t == 1.0)
  {
    if zoomIn then MinReal(zoom + 0.1, 4.0) else MaxReal(zoom - 0.1, 1.0)
  }

  function MaxReal(a: real, b: real): real { if a >= b then a else b }

  function Abs(x: real): real { if x < 0.0 then -x else x }

  /** A zoom request changes nothing when the new target is within 0.01 of the current one. */
  predicate ZoomIgnored(zoom: real, target: real, zoomIn: bool) {
    Abs(NewTarget(zoom, zoomIn) - target) < 0.01
  }

  /** From a zoom factor in [1, 4], the new target lies in [1, 4] and moves in the requested direction unless at a bound. */
  lemma NewTargetInRange(zoom: real, zoomIn: bool)
    requires 1.0 <= zoom <= 4.0
    ensures 1.0 <= NewTarget(zoom, zoomIn) <= 4.0
    ensures zoomIn ==> (NewTarget(zoom, zoomIn) > zoom || zoom == 4.0)
    ensures !zoomIn ==> (NewTarget(zoom, zoomIn) < zoom || zoom == 1.0)
  {
  }

  /**
   * The new target is computed from the current zoom factor, which only
   * animation ticks change: a second zoom-in from 1.0 without a tick in
   * between is ignored, so the target stays at 1.1.
   */
  lemma ZoomWithoutTicks()
    ensures NewTarget(1.0, true) == 1.1
    ensures ZoomIgnored(1.0, NewTarget(1.0, true), true)
    ensures !ZoomIgnored(1.0, 1.0, true)
  {
  }

  /** The squares once `zoom` has stored each one's current rectangle as its previous one. */
  function Snapshot(squares: seq<VisualSquare>): (r: seq<VisualSquare>)
    ensures |r| == |squares|
  {
    seq(|squares|, k requires 0 <= k < |squares| =>
      squares[k].(prevRect := Some(squares[k].rect), animationProgress := 0.0))
  }

  /** The squares after a tick with eased progress `e`; a finished animation also forgets the previous rectangles. */
  function Tick(squares: seq<VisualSquare>, e: real, done: bool): (r: seq<VisualSquare>)
    ensures |r| == |squares|
  {
    seq(|squares|, k requires 0 <= k < |squares| =>
      squares[k].(animationProgress := e, prevRect := if done then None else squares[k].prevRect))
  }

  /** The rectangle `render` draws for a square: interpolated while animating from a previous rectangle. */
  function DrawRect(square: VisualSquare, animating: bool): Rect {
    if animating && square.prevRect.Some? then LerpRect(square.prevRect.value, square.rect, square.animationProgress)
    else square.rect
  }

  /** The drawn rectangle is the square's own unless an animation is under way, and then lies between the previous and the current one. */
  lemma DrawRectBetween(square: VisualSquare, animating: bool)
    requires 0.0 <= square.animationProgress <= 1.0
    ensures !animating || square.prevRect.None? ==> DrawRect(square, animating) == square.rect
    ensures square.animationProgress == 1.0 ==> DrawRect(square, animating) == square.rect
    ensures animating && square.prevRect.Some? ==>
      var d, p, c := DrawRect(square, animating), square.prevRect.value, square.rect;
      && Between(p.min.x, d.min.x, c.min.x) && Between(p.min.y, d.min.y, c.min.y)
      && Between(p.max.x, d.max.x, c.max.x) && Between(p.max.y, d.max.y, c.max.y)
  {
    if square.prevRect.Some? {
      LerpRectEnds(square.prevRect.value, square.rect, square.animationProgress);
    }
  }

  /** The treemap's divisions are by non-zero extents: the height when strips run across, the width otherwise. */
  predicate StripsDivisible(avail: Rect) {
    if Horizontal(avail) then avail.Height() != 0.0 else avail.Width() != 0.0
  }

  /** The arithmetic of one strip: the area divided by the full cross extent `r` leaves the strip's own share of the length. */
  lemma StripArithmetic(start: real, len: real, across: real, r: real, lo: real, p: real, hi: real, at: real, extent: real)
    requires r == across && across != 0.0 && hi == lo + p
    requires at == start + len * lo && extent == len * across * p / r
    ensures at + extent == start + len * hi
  {
    Cancel(len, across, p, r);
    MulAdd(len, lo, p, hi);
  }

  /** A horizontal item computed from its area is the strip of its share. */
  lemma HorizontalStripIs(avail: Rect, lo: real, p: real, pos: Pos, itemWidth: real, itemHeight: real)
    requires Horizontal(avail) && itemHeight == avail.Height() && itemHeight != 0.0
    requires pos == Pos(avail.min.x + avail.Width() * lo, avail.min.y)
    requires itemWidth == avail.Width() * avail.Height() * p / itemHeight
    ensures FromMinSize(pos, itemWidth, itemHeight) == Strip(avail, lo, p)
  {
    Cancel(avail.Width(), avail.Height(), p, itemHeight);
  }

  /** A vertical item computed from its area is the strip of its share. */
  lemma VerticalStripIs(avail: Rect, lo: real, p: real, pos: Pos, itemWidth: real, itemHeight: real)
    requires !Horizontal(avail) && itemWidth == avail.Width() && itemWidth != 0.0
    requires pos == Pos(avail.min.x, avail.min.y + avail.Height() * lo)
    requires itemHeight == avail.Width() * avail.Height() * p / itemWidth
    ensures FromMinSize(pos, itemWidth, itemHeight) == Strip(avail, lo, p)
  {
    CancelFirst(avail.Width(), avail.Height(), p, itemWidth);
  }

  /** When strips run across, the position moves past child `i` to the share up to and including it. */
  lemma HorizontalAdvance(sorted: seq<DirectoryEntry>, m: map<Path, nat>, total: nat, avail: Rect, i: nat,
                          x: real, share: real, itemWidth: real, across: real)
    requires total > 0 && i < |sorted| && across == avail.Height() && across != 0.0
    requires x == avail.min.x + avail.Width() * Frac(SumLookup(m, sorted[..i]), total)
    requires share == Frac(Lookup(m, sorted[i].path), total)
    requires itemWidth == avail.Width() * avail.Height() * share / across
    ensures x + itemWidth == avail.min.x + avail.Width() * Frac(SumLookup(m, sorted[..i + 1]), total)
  {
    var lo, hi := Frac(SumLookup(m, sorted[..i]), total), Frac(SumLookup(m, sorted[..i + 1]), total);
    SharesAdd(sorted, m, total, i);
    StripArithmetic(avail.min.x, avail.Width(), avail.Height(), across, lo, share, hi, x, itemWidth);
  }

  /** When strips run down, the position moves past child `i` likewise. */
  lemma VerticalAdvance(sorted: seq<DirectoryEntry>, m: map<Path, nat>, total: nat, avail: Rect, i: nat,
                        y: real, share: real, itemHeight: real, across: real)
    requires total > 0 && i < |sorted| && across == avail.Width() && across != 0.0
    requires y == avail.min.y + avail.Height() * Frac(SumLookup(m, sorted[..i]), total)
    requires share == Frac(Lookup(m, sorted[i].path), total)
    requires itemHeight == avail.Width() * avail.Height() * share / across
    ensures y + itemHeight == avail.min.y + avail.Height() * Frac(SumLookup(m, sorted[..i + 1]), total)
  {
    var lo, hi := Frac(SumLookup(m, sorted[..i]), total), Frac(SumLookup(m, sorted[..i + 1]), total);
    SharesAdd(sorted, m, total, i);
    CancelFirst(avail.Width(), avail.Height(), share, across);
    MulAdd(avail.Height(), lo, share, hi);
  }

  /**
   * Where the strip loop stands before child `i`: the remaining rectangle
   * spans the full cross extent and the position is at the children's
   * running share along the strip direction.
   */
  ghost predicate StripCursor(sorted: seq<DirectoryEntry>, m: map<Path, nat>, total: nat, avail: Rect, i: nat, pos: Pos, remaining: Rect)
    requires total > 0 && i <= |sorted|
  {
    if Horizontal(avail) then
      remaining.Height() == avail.Height() && pos.y == avail.min.y
      && pos.x == avail.min.x + avail.Width() * Frac(SumLookup(m, sorted[..i]), total)
    else
      remaining.Width() == avail.Width() && pos.x == avail.min.x
      && pos.y == avail.min.y + avail.Height() * Frac(SumLookup(m, sorted[..i]), total)
  }

  /**
   * One pass of the strip loop of `generate_squarified_treemap` when strips
   * run across: the square it pushes for child `i` is square `i` of the
   * treemap, and the position and the remaining rectangle move past it.
   */
  method PlaceAcross(children: seq<DirectoryEntry>, childSizes: map<Path, nat>, totalSize: nat, availableRect: Rect,
                     i: nat, currentPos: Pos, remainingRect: Rect)
    returns (square: VisualSquare, nextPos: Pos, nextRect: Rect)
    requires totalSize > 0 && i < |children| && Horizontal(availableRect) && availableRect.Height() != 0.0
    requires StripCursor(children, childSizes, totalSize, availableRect, i, currentPos, remainingRect)
    ensures square == TreemapSquares(children, childSizes, totalSize, availableRect)[i]
    ensures StripCursor(children, childSizes, totalSize, availableRect, i + 1, nextPos, nextRect)
  {
    var child := children[i];
    var childSize := Lookup(childSizes, child.path);
    var sizeProportion := childSize as real / totalSize as real;
    var itemArea := availableRect.Width() * availableRect.Height() * sizeProportion;
    var itemWidth, itemHeight := itemArea / remainingRect.Height(), remainingRect.Height();
    HorizontalTreemapStep(children, childSizes, totalSize, availableRect, i, currentPos, remainingRect, sizeProportion, itemArea, itemWidth, itemHeight);
    square := VisualSquare(child, FromMinSize(currentPos, itemWidth, itemHeight), false, false, child.isDirectory, sizeProportion, 0.0, None);
    nextPos := currentPos.(x := currentPos.x + itemWidth);
    nextRect := FromMinSize(Pos(nextPos.x, remainingRect.min.y), remainingRect.Width() - itemWidth, remainingRect.Height());
  }

  /** One pass of the strip loop when strips run down. */
  method PlaceDown(children: seq<DirectoryEntry>, childSizes: map<Path, nat>, totalSize: nat, availableRect: Rect,
                   i: nat, currentPos: Pos, remainingRect: Rect)
    returns (square: VisualSquare, nextPos: Pos, nextRect: Rect)
    requires totalSize > 0 && i < |children| && !Horizontal(availableRect) && availableRect.Width() != 0.0
    requires StripCursor(children, childSizes, totalSize, availableRect, i, currentPos, remainingRect)
    ensures square == TreemapSquares(children, childSizes, totalSize, availableRect)[i]
    ensures StripCursor(children, childSizes, totalSize, availableRect, i + 1, nextPos, nextRect)
  {
    var child := children[i];
    var childSize := Lookup(childSizes, child.path);
    var sizeProportion := childSize as real / totalSize as real;
    var itemArea := availableRect.Width() * availableRect.Height() * sizeProportion;
    var itemWidth, itemHeight := remainingRect.Width(), itemArea / remainingRect.Width();
    VerticalTreemapStep(children, childSizes, totalSize, availableRect, i, currentPos, remainingRect, sizeProportion, itemArea, itemWidth, itemHeight);
    square := VisualSquare(child, FromMinSize(currentPos, itemWidth, itemHeight), false, false, child.isDirectory, sizeProportion, 0.0, None);
    nextPos := currentPos.(y := currentPos.y + itemHeight);
    nextRect := FromMinSize(Pos(remainingRect.min.x, nextPos.y), remainingRect.Width(), remainingRect.Height() - itemHeight);
  }

  /**
   * One pass of the strip loop of `generate_squarified_treemap` when strips
   * run across, from the values it computes: the square it pushes is square
   * `i` of the treemap, and the position moves to that square's trailing edge.
   */
  lemma HorizontalTreemapStep(sorted: seq<DirectoryEntry>, m: map<Path, nat>, total: nat, avail: Rect, i: nat,
                              pos: Pos, remaining: Rect, share: real, area: real, itemWidth: real, itemHeight: real)
    requires total > 0 && i < |sorted| && Horizontal(avail) && avail.Height() != 0.0
    requires share == Lookup(m, sorted[i].path) as real / total as real
    requires area == avail.Width() * avail.Height() * share
    requires remaining.Height() == avail.Height() && pos.y == avail.min.y
    requires pos.x == avail.min.x + avail.Width() * Frac(SumLookup(m, sorted[..i]), total)
    requires itemWidth == area / remaining.Height() && itemHeight == remaining.Height()
    ensures TreemapSquares(sorted, m, total, avail)[i]
      == VisualSquare(sorted[i], FromMinSize(pos, itemWidth, itemHeight), false, false, sorted[i].isDirectory, share, 0.0, None)
    ensures pos.x + itemWidth == avail.min.x + avail.Width() * Frac(SumLookup(m, sorted[..i + 1]), total)
  {
    var lo := Frac(SumLookup(m, sorted[..i]), total);
    assert share == Frac(Lookup(m, sorted[i].path), total);
    HorizontalStripIs(avail, lo, share, pos, itemWidth, itemHeight);
    HorizontalAdvance(sorted, m, total, avail, i, pos.x, share, itemWidth, itemHeight);
    TreemapSquareIs(sorted, m, total, avail, i, FromMinSize(pos, itemWidth, itemHeight), share);
  }

  /** One pass of the strip loop when strips run down. */
  lemma VerticalTreemapStep(sorted: seq<DirectoryEntry>, m: map<Path, nat>, total: nat, avail: Rect, i: nat,
                            pos: Pos, remaining: Rect, share: real, area: real, itemWidth: real, itemHeight: real)
    requires total > 0 && i < |sorted| && !Horizontal(avail) && avail.Width() != 0.0
    requires share == Lookup(m, sorted[i].path) as real / total as real
    requires area == avail.Width() * avail.Height() * share
    requires remaining.Width() == avail.Width() && pos.x == avail.min.x
    requires pos.y == avail.min.y + avail.Height() * Frac(SumLookup(m, sorted[..i]), total)
    requires itemWidth == remaining.Width() && itemHeight == area / remaining.Width()
    ensures TreemapSquares(sorted, m, total, avail)[i]
      == VisualSquare(sorted[i], FromMinSize(pos, itemWidth, itemHeight), false, false, sorted[i].isDirectory, share, 0.0, None)
    ensures pos.y + itemHeight == avail.min.y + avail.Height() * Frac(SumLookup(m, sorted[..i + 1]), total)
  {
    var lo := Frac(SumLookup(m, sorted[..i]), total);
    assert share == Frac(Lookup(m, sorted[i].path), total);
    VerticalStripIs(avail, lo, share, pos, itemWidth, itemHeight);
    VerticalAdvance(sorted, m, total, avail, i, pos.y, share, itemHeight, itemWidth);
    TreemapSquareIs(sorted, m, total, avail, i, FromMinSize(pos, itemWidth, itemHeight), share);
  }

  /** The square the strip loop pushes for child `i` is square `i` of the treemap. */
  lemma TreemapSquareIs(sorted: seq<DirectoryEntry>, m: map<Path, nat>, total: nat, avail: Rect, i: nat, rect: Rect, share: real)
    requires total > 0 && i < |sorted|
    requires rect == StripOf(sorted, m, total, avail, i)
    requires share == Lookup(m, sorted[i].path) as real / total as real
    ensures TreemapSquares(sorted, m, total, avail)[i]
      == VisualSquare(sorted[i], rect, false, false, sorted[i].isDirectory, share, 0.0, None)
  {
    TreemapRect(sorted, m, total, avail, i);
    TreemapSquareFields(sorted, m, total, avail, i);
  }

  /** A canvas wider and higher than the two 5-pixel margins leaves the treemap non-zero extents to divide by. */
  lemma RoomyCanvasDivisible(width: real, height: real)
    requires width > 10.0 && height > 10.0
    ensures StripsDivisible(AvailableRect(FromMinSize(Pos(0.0, 0.0), width, height)))
  {
    var avail := AvailableRect(FromMinSize(Pos(0.0, 0.0), width, height));
    assert avail.Width() == width - 10.0 && avail.Height() == height - 10.0;
  }

  /** Freshly generated squares carry no selection and no animation progress. */
  lemma GeneratedFresh(root: Option<DirectoryEntry>, zoom: real, hasStats: bool, meta: Path -> Option<nat>, width: real, height: real)
    ensures var r := GeneratedSquares(root, zoom, hasStats, meta, width, height);
      && SelectionMarked(r, None)
      && forall k :: 0 <= k < |r| ==> r[k].animationProgress == 0.0
  {
    var r := GeneratedSquares(root, zoom, hasStats, meta, width, height);
    forall k | 0 <= k < |r| ensures !r[k].selected && r[k].animationProgress == 0.0 {
      GeneratedUnmarked(root, zoom, hasStats, meta, width, height, k);
    }
  }

  /** Storing the rectangles keeps the selection and resets every square's progress. */
  lemma SnapshotKeeps(squares: seq<VisualSquare>, selected: Option<nat>)
    requires SelectionMarked(squares, selected)
    ensures SelectionMarked(Snapshot(squares), selected)
    ensures forall k :: 0 <= k < |squares| ==> Snapshot(squares)[k].animationProgress == 0.0
  {
  }

  /** A tick keeps the selection and sets every square's progress to the eased progress. */
  lemma TickKeeps(squares: seq<VisualSquare>, selected: Option<nat>, e: real, done: bool)
    requires SelectionMarked(squares, selected)
    ensures SelectionMarked(Tick(squares, e, done), selected)
    ensures forall k :: 0 <= k < |squares| ==> Tick(squares, e, done)[k].animationProgress == e
  {
  }

  // ---------------------------------------------------------------------
  // The Visualizer
  // ---------------------------------------------------------------------

  class Visualizer {
    var rootEntry: Option<DirectoryEntry>
    var squares: seq<VisualSquare>
    var selectedIndex: Option<nat>
    var hoveredIndex: Option<nat>
    var zoomFactor: real
    var targetZoomFactor: real
    var animating: bool
    var animationStartTime: real
    const animationDuration: real
    var directoryStats: Option<DirectoryStatistics>
    /** The canvas `generate_squares` lays out on, fixed at 800 by 600. */
    const canvasWidth: real
    const canvasHeight: real

    /**
     * The invariant: exactly the selected square is marked, both zoom
     * factors lie in [1, 4] and agree when no animation runs, every square's
     * animation progress lies in [0, 1], there are no squares without a
     * root, and the canvas is wider and higher than the layouts' margins.
     */
    predicate Valid()
      reads this
    {
      && SelectionMarked(squares, selectedIndex)
      && 1.0 <= zoomFactor <= 4.0 && 1.0 <= targetZoomFactor <= 4.0
      && (!animating ==> zoomFactor == targetZoomFactor)
      && (forall k :: 0 <= k < |squares| ==> 0.0 <= squares[k].animationProgress <= 1.0)
      && (rootEntry.None? ==> squares == [])
      && animationDuration == AnimationDuration
      && canvasWidth > 10.0 && canvasHeight > 10.0
    }

    /** `Visualizer::new`: nothing to show, fully zoomed out, no animation. */
    constructor ()
      ensures Valid()
      ensures rootEntry.None? && squares == [] && selectedIndex.None? && hoveredIndex.None?
      ensures zoomFactor == 1.0 && targetZoomFactor == 1.0 && !animating && animationStartTime == 0.0
      ensures directoryStats.None? && canvasWidth == CanvasWidth && canvasHeight == CanvasHeight
    {
      rootEntry := None;
      squares := [];
      selectedIndex := None;
      hoveredIndex := None;
      zoomFactor := 1.0;
      targetZoomFactor := 1.0;
      animating := false;
      animationStartTime := 0.0;
      animationDuration := AnimationDuration;
      directoryStats := None;
      canvasWidth, canvasHeight := CanvasWidth, CanvasHeight;
    }

    /** Append the squares of a grid of `items` to the current squares, as each layout's loop does. */
    method PushGridSquares(items: seq<DirectoryEntry>, width: real, height: real, top: real, padding: real, isDir: bool)
      modifies this`squares
      ensures squares == old(squares) + GridSquares(items, width, height, top, padding, isDir)
    {
      if |items| == 0 {
        return;
      }
      var cols := CeilSqrt(|items|);
      RowsPositive(|items|, cols);
      var rows := (|items| + cols - 1) / cols;
      var cellWidth := width / cols as real;
      var cellHeight := height / rows as real;
      ghost var target := GridSquares(items, width, height, top, padding, isDir);
      var index := 0;
      while index < |items|
        invariant 0 <= index <= |items|
        invariant squares == old(squares) + target[..index]
      {
        var row, col := index / cols, index % cols;
        var x, y := col as real * cellWidth, top + row as real * cellHeight;
        var rect := FromMinSize(Pos(x + padding, y + padding), cellWidth - 2.0 * padding, cellHeight - 2.0 * padding);
        GridStep(items, width, height, top, padding, isDir, index, cols, rows, cellWidth, cellHeight, x, y, rect);
        squares := squares + [VisualSquare(items[index], rect, false, false, isDir, 1.0 / |items| as real, 0.0, None)];
        assert target[..index + 1] == target[..index] + [target[index]];
        AppendAssoc(old(squares), target[..index], [target[index]]);
        index := index + 1;
      }
      assert target[..index] == target;
    }

    /** `generate_grid_layout`. */
    method GenerateGridLayout(entry: DirectoryEntry, width: real, height: real)
      modifies this`squares
      ensures squares == old(squares) + GridLayout(entry, width, height)
    {
      if !entry.isDirectory {
        return;
      }
      var directories := Filter(entry.children, IsDir);
      if |directories| == 0 {
        return;
      }
      PushGridSquares(directories, width, height, 0.0, 10.0, true);
    }

    /** `generate_treemap_layout`: the first pass records each child's size and sums them, then the children are sorted and laid in strips. */
    method GenerateTreemapLayout(entry: DirectoryEntry, width: real, height: real, meta: Path -> Option<nat>)
      requires StripsDivisible(AvailableRect(FromMinSize(Pos(0.0, 0.0), width, height)))
      modifies this`squares
      ensures squares == old(squares) + TreemapLayout(entry, width, height, directoryStats.Some?, meta)
    {
      if !entry.isDirectory {
        return;
      }
      var children := entry.children;
      if |children| == 0 {
        return;
      }
      var hasStats := directoryStats.Some?;
      var totalSize: nat := 0;
      var childSizes: map<Path, nat> := map[];
      var i := 0;
      while i < |children|
        invariant 0 <= i <= |children|
        invariant childSizes == SizeMap(children[..i], hasStats, meta)
        invariant totalSize == SumSizes(children[..i], hasStats, meta)
      {
        var childSize := ChildSize(children[i], hasStats, meta);
        assert children[..i + 1][..i] == children[..i];
        childSizes := childSizes[children[i].path := childSize];
        totalSize := totalSize + childSize;
        i := i + 1;
      }
      assert children[..i] == children;
      if totalSize == 0 {
        totalSize := 1;
      }
      var sorted := SortBySize(children, childSizes);
      GenerateSquarifiedTreemap(sorted, childSizes, totalSize, FromMinSize(Pos(0.0, 0.0), width, height));
    }

    /** `generate_squarified_treemap`: one strip per child along the longer side, each as long as the child's share of the total. */
    method GenerateSquarifiedTreemap(children: seq<DirectoryEntry>, childSizes: map<Path, nat>, totalSize: nat, rect: Rect)
      requires totalSize > 0 && StripsDivisible(AvailableRect(rect))
      modifies this`squares
      ensures squares == old(squares) + TreemapSquares(children, childSizes, totalSize, AvailableRect(rect))
    {
      if |children| == 0 {
        return;
      }
      var padding := 5.0;
      var availableRect := FromMinSize(Pos(rect.min.x + padding, rect.min.y + padding),
                                       rect.Width() - padding * 2.0, rect.Height() - padding * 2.0);
      assert availableRect == AvailableRect(rect);
      var isHorizontal := availableRect.Width() >= availableRect.Height();
      var currentPos := availableRect.min;
      var remainingRect := availableRect;
      ghost var target := TreemapSquares(children, childSizes, totalSize, availableRect);
      assert SumLookup(childSizes, children[..0]) == 0;
      var i := 0;
      while i < |children|
        invariant 0 <= i <= |children|
        invariant squares == old(squares) + target[..i]
        invariant StripCursor(children, childSizes, totalSize, availableRect, i, currentPos, remainingRect)
      {
        var square;
        if isHorizontal {
          square, currentPos, remainingRect := PlaceAcross(children, childSizes, totalSize, availableRect, i, currentPos, remainingRect);
        } else {
          square, currentPos, remainingRect := PlaceDown(children, childSizes, totalSize, availableRect, i, currentPos, remainingRect);
        }
        squares := squares + [square];
        assert target[..i + 1] == target[..i] + [target[i]];
        AppendAssoc(old(squares), target[..i], [target[i]]);
        i := i + 1;
      }
      assert target[..i] == target;
    }

    /** `generate_detailed_layout`: the directory grid over the top 70%, the file grid below. */
    method GenerateDetailedLayout(entry: DirectoryEntry, width: real, height: real)
      modifies this`squares
      ensures squares == old(squares) + DetailedLayout(entry, width, height)
    {
      if !entry.isDirectory {
        return;
      }
      var children := entry.children;
      if |children| == 0 {
        return;
      }
      var directories := Filter(children, IsDir);
      var files := Filter(children, IsFile);
      var dirHeight := if directories != [] then height * 0.7 else 0.0;
      var fileHeight := if files != [] then height - dirHeight else 0.0;
      if directories != [] {
        PushGridSquares(directories, width, dirHeight, 0.0, 8.0, true);
      }
      if files != [] {
        PushGridSquares(files, width, fileHeight, dirHeight, 5.0, false);
      }
    }

    /** `generate_squares`: clear the squares and the selection, then lay out the root for the current zoom factor. */
    method GenerateSquares(meta: Path -> Option<nat>)
      requires canvasWidth > 10.0 && canvasHeight > 10.0
      modifies this`squares, this`selectedIndex
      ensures squares == GeneratedSquares(rootEntry, zoomFactor, directoryStats.Some?, meta, canvasWidth, canvasHeight)
      ensures selectedIndex.None?
      ensures SelectionMarked(squares, None) && forall k :: 0 <= k < |squares| ==> squares[k].animationProgress == 0.0
    {
      squares := [];
      selectedIndex := None;
      if rootEntry.Some? {
        var root := rootEntry.value;
        if zoomFactor < 2.0 {
          GenerateGridLayout(root, canvasWidth, canvasHeight);
        } else if zoomFactor < 3.0 {
          RoomyCanvasDivisible(canvasWidth, canvasHeight);
          GenerateTreemapLayout(root, canvasWidth, canvasHeight, meta);
        } else {
          GenerateDetailedLayout(root, canvasWidth, canvasHeight);
        }
      }
      GeneratedFresh(rootEntry, zoomFactor, directoryStats.Some?, meta, canvasWidth, canvasHeight);
    }

    /** `set_root_entry`: remember the root, compute its statistics, regenerate the squares. */
    method SetRootEntry(entry: DirectoryEntry, meta: Path -> Option<nat>)
      requires Valid()
      modifies this`rootEntry, this`directoryStats, this`squares, this`selectedIndex
      ensures Valid()
      ensures rootEntry == Some(entry) && directoryStats == Some(Statistics(entry, meta))
      ensures squares == GeneratedSquares(rootEntry, zoomFactor, directoryStats.Some?, meta, canvasWidth, canvasHeight)
      ensures selectedIndex.None?
    {
      rootEntry := Some(entry);
      var parser := new DirectoryParser();
      var stats := parser.GetStatistics(entry, meta);
      directoryStats := Some(stats);
      GenerateSquares(meta);
    }

    /** `handle_interaction`: hover the first square under the pointer and, on a click, move the selection to it. */
    method HandleInteraction(pointer: Option<Pos>, clicked: bool)
      requires Valid()
      modifies this`hoveredIndex, this`squares, this`selectedIndex
      ensures Valid()
      ensures hoveredIndex == (if pointer.Some? then FirstHit(old(squares), pointer.value) else None)
      ensures clicked && hoveredIndex.Some? ==>
        selectedIndex == hoveredIndex && squares == Select(old(squares), old(selectedIndex), hoveredIndex.value)
      ensures !(clicked && hoveredIndex.Some?) ==> selectedIndex == old(selectedIndex) && squares == old(squares)
    {
      hoveredIndex := None;
      var hoverIndex: Option<nat> := None;
      if pointer.Some? {
        hoverIndex := FindHovered(squares, pointer.value);
      }
      hoveredIndex := hoverIndex;
      if clicked && hoverIndex.Some? {
        SelectSquare(hoverIndex.value);
      }
    }

    /** The search loop of `handle_interaction`: the index of the first square whose rectangle contains `pos`. */
    static method FindHovered(squares: seq<VisualSquare>, pos: Pos) returns (hoverIndex: Option<nat>)
      ensures hoverIndex == FirstHit(squares, pos)
    {
      hoverIndex := None;
      var index := 0;
      while index < |squares|
        invariant 0 <= index <= |squares|
        invariant forall k :: 0 <= k < index ==> !squares[k].rect.Contains(pos)
      {
        if squares[index].rect.Contains(pos) {
          hoverIndex := Some(index);
          break;
        }
        index := index + 1;
      }
    }

    /** The click branch of `handle_interaction`: unmark the previous selection if it differs, then mark square `index`. */
    method SelectSquare(index: nat)
      requires Valid() && index < |squares|
      modifies this`squares, this`selectedIndex
      ensures Valid()
      ensures selectedIndex == Some(index) && squares == Select(old(squares), old(selectedIndex), index)
    {
      ghost var before := squares;
      if selectedIndex.Some? {
        var prevIndex := selectedIndex.value;
        if prevIndex != index {
          squares := squares[prevIndex := squares[prevIndex].(selected := false)];
        }
      }
      squares := squares[index := squares[index].(selected := true)];
      assert squares == Select(before, selectedIndex, index);
      SelectMoves(before, selectedIndex, index);
      selectedIndex := Some(index);
    }

    /** The loop of `zoom` that stores each square's current rectangle as its previous one. */
    method StoreRects()
      modifies this`squares
      ensures squares == Snapshot(old(squares))
    {
      ghost var before := squares;
      var i := 0;
      while i < |squares|
        invariant 0 <= i <= |squares| && |squares| == |before|
        invariant forall k :: 0 <= k < i ==> squares[k] == Snapshot(before)[k]
        invariant forall k :: i <= k < |squares| ==> squares[k] == before[k]
      {
        squares := squares[i := squares[i].(prevRect := Some(squares[i].rect), animationProgress := 0.0)];
        i := i + 1;
      }
    }

    /** The loop of `update_animation` that records the eased progress `e` on every square. */
    method RecordProgress(e: real)
      modifies this`squares
      ensures squares == Tick(old(squares), e, false)
    {
      ghost var before := squares;
      var i := 0;
      while i < |squares|
        invariant 0 <= i <= |squares| && |squares| == |before|
        invariant forall k :: 0 <= k < i ==> squares[k] == Tick(before, e, false)[k]
        invariant forall k :: i <= k < |squares| ==> squares[k] == before[k]
      {
        squares := squares[i := squares[i].(animationProgress := e)];
        i := i + 1;
      }
    }

    /** The loop of a finished animation that forgets every square's previous rectangle. */
    method ForgetRects()
      modifies this`squares
      ensures |squares| == |old(squares)|
      ensures forall k :: 0 <= k < |squares| ==> squares[k] == old(squares)[k].(prevRect := None)
    {
      ghost var before := squares;
      var i := 0;
      while i < |squares|
        invariant 0 <= i <= |squares| && |squares| == |before|
        invariant forall k :: 0 <= k < i ==> squares[k] == before[k].(prevRect := None)
        invariant forall k :: i <= k < |squares| ==> squares[k] == before[k]
      {
        squares := squares[i := squares[i].(prevRect := None)];
        i := i + 1;
      }
    }

    /**
     * `zoom`: step the target by 0.1 within [1, 4]; unless that changes it
     * by less than 0.01, store the current rectangles, start the animation
     * at `now` and regenerate the squares, which discards the stored
     * rectangles.
     */
    method Zoom(zoomIn: bool, now: real, meta: Path -> Option<nat>)
      requires Valid()
      modifies this`targetZoomFactor, this`animating, this`animationStartTime, this`squares, this`selectedIndex, this`rootEntry, this`directoryStats
      ensures Valid()
      ensures zoomFactor == old(zoomFactor) && rootEntry == old(rootEntry) && hoveredIndex == old(hoveredIndex)
      ensures ZoomIgnored(old(zoomFactor), old(targetZoomFactor), zoomIn) ==>
        && targetZoomFactor == old(targetZoomFactor) && animating == old(animating)
        && animationStartTime == old(animationStartTime) && squares == old(squares)
        && selectedIndex == old(selectedIndex) && directoryStats == old(directoryStats)
      ensures !ZoomIgnored(old(zoomFactor), old(targetZoomFactor), zoomIn) ==>
        && targetZoomFactor == NewTarget(old(zoomFactor), zoomIn) && animating && animationStartTime == now
        && (rootEntry.None? ==> squares == Snapshot(old(squares)) && selectedIndex == old(selectedIndex)
                                && directoryStats == old(directoryStats))
        && (rootEntry.Some? ==> squares == GeneratedSquares(rootEntry, zoomFactor, true, meta, canvasWidth, canvasHeight)
                                && selectedIndex.None?
                                && directoryStats == Some(Statistics(rootEntry.value, meta)))
    {
      var newTarget := NewTarget(zoomFactor, zoomIn);
      if Abs(newTarget - targetZoomFactor) < 0.01 {
        return;
      }
      NewTargetInRange(zoomFactor, zoomIn);
      StartZoom(newTarget, now, meta);
    }

    /** The effective part of `zoom`: set the target, store the rectangles, start the animation and regenerate. */
    method StartZoom(newTarget: real, now: real, meta: Path -> Option<nat>)
      requires Valid() && 1.0 <= newTarget <= 4.0
      modifies this`targetZoomFactor, this`animating, this`animationStartTime, this`squares, this`selectedIndex, this`rootEntry, this`directoryStats
      ensures Valid()
      ensures zoomFactor == old(zoomFactor) && rootEntry == old(rootEntry) && hoveredIndex == old(hoveredIndex)
      ensures targetZoomFactor == newTarget && animating && animationStartTime == now
      ensures rootEntry.None? ==> squares == Snapshot(old(squares)) && selectedIndex == old(selectedIndex)
                                  && directoryStats == old(directoryStats)
      ensures rootEntry.Some? ==> squares == GeneratedSquares(rootEntry, zoomFactor, true, meta, canvasWidth, canvasHeight)
                                  && selectedIndex.None?
                                  && directoryStats == Some(Statistics(rootEntry.value, meta))
    {
      targetZoomFactor := newTarget;
      ghost var before := squares;
      StoreRects();
      SnapshotKeeps(before, selectedIndex);
      animating := true;
      animationStartTime := now;
      if rootEntry.Some? {
        SetRootEntry(rootEntry.value, meta);
      }
    }

    /**
     * `update_animation`, with the progress kept within [0, 1]: ease the
     * progress, move the zoom factor towards the target, record the eased
     * progress on every square, and on completion land exactly on the target
     * and forget the previous rectangles.
     */
    method UpdateAnimation(now: real)
      requires Valid()
      modifies this`zoomFactor, this`squares, this`animating
      ensures Valid()
      ensures !old(animating) ==> zoomFactor == old(zoomFactor) && squares == old(squares) && !animating
      ensures old(animating) ==>
        var p := Progress(now - animationStartTime);
        var e := Ease(p);
        && animating == (p < 1.0)
        && zoomFactor == (if p >= 1.0 then targetZoomFactor else ZoomStep(old(zoomFactor), targetZoomFactor, e))
        && squares == Tick(old(squares), e, p >= 1.0)
    {
      if !animating {
        return;
      }
      var elapsed := now - animationStartTime;
      var progress := Progress(elapsed);
      var easedProgress := Ease(progress);
      EaseInUnit(progress);
      TickStaysBetween(zoomFactor, targetZoomFactor, elapsed);
      zoomFactor := ZoomStep(zoomFactor, targetZoomFactor, easedProgress);
      ghost var before := squares;
      RecordProgress(easedProgress);
      TickKeeps(before, selectedIndex, easedProgress, false);
      if progress >= 1.0 {
        animating := false;
        zoomFactor := targetZoomFactor;
        ForgetRects();
        assert squares == Tick(before, easedProgress, true);
        TickKeeps(before, selectedIndex, easedProgress, true);
      }
    }
  }
}
