# git_scroll: a verified model of the visualizer, the directory parser and the URL check

git_scroll clones a Git repository, reads its directory tree and draws it as
zoomable rectangles. This project models the three pieces of sequential logic
behind that picture, and proves what they promise.

- **The Visualizer** (`src/visualization/mod.rs`) holds the squares of the current
  layout, the selected and hovered squares, and a zoom animation. It lays out a
  `DirectoryEntry` in one of three ways, picked by the zoom factor:
  - a grid of the subdirectories;
  - a one-pass slice treemap of all children, sorted by size;
  - a detailed layout with the subdirectories over the top 70% and the files
    below.

  It also hit-tests the pointer to hover and select squares, clamps zoom
  requests to [1, 4], and eases the zoom factor towards its target on every
  animation tick.
- **The DirectoryParser** (`src/directory/mod.rs`) filters paths by substring
  ignore patterns, builds the tree from the file system, flattens it into its
  files, and summarises it: file and directory counts, total size, maximum depth
  and an extension histogram.
- **The GitHandler** (`src/git/mod.rs`) stores whether to keep the clone, and
  checks a URL against `^(https://|git@|file://|/).*(\.git)?$`.

The modules:

| module | file | what it holds |
|---|---|---|
| `Wrappers`, `RealArith` | `wrappers.dfy` | `Option`, `Result`, `Max`, and a handful of monotonicity facts about products of reals |
| `Geometry` | `geometry.dfy` | egui's `Pos`, `Rect`, `Rect::contains`, `Rect::from_min_size`, and the rectangle interpolation that `render` draws while animating |
| `Animation` | `animation.dfy` | `ease_in_out_quad`, the progress of an animation, one step of the zoom factor |
| `Directory` | `directory.dfy` | paths, `DirectoryEntry`, ignore patterns, flattening, statistics, the parser and the `DirectoryParser` class |
| `Layout` | `layout.dfy` | the three layouts as functions from an entry to its squares, and their properties |
| `Visualization` | `visualization.dfy` | file colours, hit-testing, selection, zoom arithmetic, and the `Visualizer` class |
| `Git` | `git.dfy` | `GitHandler::new` and `validate_url` |

The code that changes state in place is written as methods on classes:
- `Visualizer`: the layout loops push onto `squares`; the treemap loop moves a
  cursor; `handle_interaction`, `zoom` and `update_animation` loop over the
  squares.
- `DirectoryParser`: `collect_files_recursive` appends to a list;
  `calculate_statistics_recursive` threads the counters; `add_ignore_pattern`
  appends a pattern.

Each method is proved against a function of `Layout`, `Directory` or
`Visualization`, and the source's promises are proved as lemmas about those
functions. The `Visualizer` keeps an invariant, `Valid`:
- exactly the selected square is marked selected;
- both zoom factors lie in [1, 4], and they are equal when no animation runs;
- every square's animation progress lies in [0, 1];
- there are no squares without a root.

Outside inputs are parameters:
- The file system is an abstract tree (`FsNode`).
- `std::fs::metadata(path).len()` is an oracle `meta: Path -> Option<nat>`; `None` stands for metadata that cannot be read.
- The wall-clock time at which a zoom starts, and the time of each tick, are passed in as `now`.

Coordinates are `real`. Counters are unbounded `nat`.

## Model

| member | source | states |
|---|---|---|
| Geometry.FromMinSize | src/visualization/mod.rs:189-192 | the rectangle starts at the given corner with exactly the given width and height |
| Geometry.MixBetween | src/visualization/mod.rs:586-589 | interpolating one coordinate with a progress in [0, 1] lands between its previous and current value |
| Geometry.LerpRect | src/visualization/mod.rs:586-594 | defines the rectangle drawn while animating: each corner coordinate moves linearly from the previous rectangle to the current one; its properties are `LerpRectEnds`, `LerpRectSame` and `MixBetween` |
| Geometry.LerpRectEnds | src/visualization/mod.rs:580-597 | the drawn rectangle is the previous one at progress 0 and the current one at progress 1; for a progress in [0, 1], each corner coordinate lies between the two |
| Geometry.LerpRectSame | src/visualization/mod.rs:586-594 | interpolating a rectangle with itself gives that rectangle at any progress |
| Animation.Ease | src/visualization/mod.rs:40-46 | defines `ease_in_out_quad`: 2t² below 0.5, 1 − (2 − 2t)²/2 from 0.5 on; its properties are `EaseInUnit`, `EaseSymmetric`, `EaseMonotonic` and `EaseExamples` |
| Animation.EaseExamples | src/visualization/mod.rs:936-943 | ease(0) = 0, ease(0.5) = 0.5, ease(1) = 1, ease(0.25) < 0.25 and ease(0.75) > 0.75 |
| Animation.EaseInUnit | src/visualization/mod.rs:40-46 | the easing curve maps [0, 1] into [0, 1] |
| Animation.EaseSymmetric | src/visualization/mod.rs:40-46 | ease(1 - t) = 1 - ease(t) for every t |
| Animation.EaseMonotonic | src/visualization/mod.rs:40-46 | the easing curve never decreases on [0, 1] |
| Animation.EaseMonotonicLow | src/visualization/mod.rs:41-42 | a proof helper for `EaseMonotonic`: the branch 2t² never decreases below 0.5 |
| Animation.EaseMonotonicHigh | src/visualization/mod.rs:43-44 | a proof helper for `EaseMonotonic`: the branch 1 − (2 − 2t)²/2 never decreases from 0.5 to 1 |
| Animation.EaseMonotonicAcross | src/visualization/mod.rs:40-46 | a proof helper for `EaseMonotonic`: a value below 0.5 is eased to at most the value of any point from 0.5 on |
| Animation.RawProgress | src/visualization/mod.rs:853-856 | defines the progress as written, elapsed time over 0.3 s capped at 1 from above only; `RawProgressOvershoots` shows where it leaves [0, 1] and `ProgressAgrees` where it matches `Progress` |
| Animation.Progress | src/visualization/mod.rs:853-856 | the corrected progress lies in [0, 1]; it is 1 exactly when the 0.3 s duration has elapsed, and inside the duration it is elapsed time / duration |
| Animation.ZoomStep | src/visualization/mod.rs:862 | defines one tick of the zoom factor, moving the eased fraction of the way to the target; `ZoomStepBetween` and `TickStaysBetween` state where it lands |
| Animation.ZoomStepBetween | src/visualization/mod.rs:862 | moving a fraction in [0, 1] of the way to the target lands between the current zoom and the target |
| Animation.TickStaysBetween | src/visualization/mod.rs:853-862 | with the corrected progress, every tick leaves the zoom factor between its old value and the target |
| Animation.RawProgressOvershoots | src/visualization/mod.rs:853-862 | as written, a tick 0.6 s before the start gives progress -2 and eased value 8, which moves a zoom of 3.9 with target 4.0 to 4.7 |
| Animation.ProgressAgrees | src/visualization/mod.rs:856 | when time does not run backwards, the corrected progress equals the progress as written |
| Directory.FileName | src/directory/mod.rs:190 | defines `Path::file_name`: the last component when it is a plain name, else nothing; `ShouldIgnoreIffOccurs` states that a path without one is never ignored, and `ParseItemsChildren` relies on it giving back the joined name (:148-151) |
| Directory.AfterLastDot | src/visualization/mod.rs:794 | the text after the last dot is no longer than the name |
| Directory.AfterLastDotShape | src/visualization/mod.rs:794 | the text after the last dot is a dot-free suffix of the name; a dot stands before it unless it is the whole name |
| Directory.AfterLastDotAppend | src/visualization/mod.rs:794 | appending dot-free text to a name appends it to the text after the last dot |
| Directory.NameExtension | src/directory/mod.rs:253-254 | defines the extension of a file name as `Path::extension` splits it: the text after the last dot, none for "..", for a name without a dot or one whose only dot leads; `ExtensionShape`, `NameExtensionSplit`, `NameExtensionNone` and the extension examples state its properties |
| Directory.Extension | src/directory/mod.rs:253-254 | defines `Path::extension` of a path: the extension of its file name, none without one; `ExtensionShape`, `ExtensionExamples`, `ExtensionExamplesMore` and `AddFileTypes` state its properties |
| Directory.ExtensionShape | src/directory/mod.rs:253-254 | an extension is a dot-free suffix of the file name; a dot that is not the name's first character stands before it |
| Directory.NameExtensionSplit | src/directory/mod.rs:253-254 | a name with a non-empty stem, a dot and a dot-free tail has that tail as its extension (".." excepted) |
| Directory.NameExtensionNone | src/directory/mod.rs:253-254 | a name without a dot, or whose only dot is its first character, has no extension |
| Directory.ExtensionExamples | src/directory/mod.rs:253-254 | "main.rs" has extension "rs"; ".gitignore" has none |
| Directory.ExtensionExamplesMore | src/directory/mod.rs:253-254 | "archive.tar.gz" has extension "gz"; "Makefile" and the root have none |
| Directory.MatchesPattern | src/directory/mod.rs:193 | defines the closure passed to `any`: the file name equals the pattern or contains it; `ShouldIgnoreIffOccurs` shows the equality adds nothing and `IgnoredByName` that it is enough |
| Directory.ContainsIffOccurs | src/directory/mod.rs:193 | the substring scan succeeds exactly when the pattern occurs at some index of the name |
| Directory.NotContainsMissingChar | src/directory/mod.rs:193 | a name that lacks one of the pattern's characters does not contain the pattern |
| Directory.NotContainsLonger | src/directory/mod.rs:193 | a name shorter than the pattern does not contain it |
| Directory.ShouldIgnore | src/directory/mod.rs:189-199 | defines `should_ignore`: the path has a file name that equals or contains some pattern; `ShouldIgnoreIffOccurs`, `AddPatternEffect` and the default-pattern lemmas state its meaning |
| Directory.ShouldIgnoreIffOccurs | src/directory/mod.rs:189-199 | a path is ignored exactly when it has a file name and some pattern occurs in that name; the equality test adds nothing, and a path without a file name is never ignored |
| Directory.KeptUnlessContained | src/directory/mod.rs:189-199 | a file name that contains none of the patterns is kept |
| Directory.AddPatternEffect | src/directory/mod.rs:79-81 | with one more pattern, a path is ignored exactly when it was ignored before or its file name contains the new pattern |
| Directory.IgnoredByName | src/directory/mod.rs:193 | a path whose file name equals one of the patterns is ignored |
| Directory.DefaultIgnorePatterns | src/directory/mod.rs:50-60 | defines the list `new` installs: ".git", "node_modules", "target" and ".DS_Store", in that order; `DirectoryParser.constructor` installs it, and `DefaultPatternIgnoresGit`, `DefaultPatternIgnoresNodeModules`, `DefaultPatternKeeps` and `AddPatternExample` state what it ignores |
| Directory.DefaultPatternIgnoresGit | src/directory/mod.rs:290-295 | the default patterns ignore ".git" and "/path/to/.git" |
| Directory.DefaultPatternIgnoresNodeModules | src/directory/mod.rs:297-299 | the default patterns ignore "node_modules" and "/path/to/node_modules" |
| Directory.DefaultPatternKeeps | src/directory/mod.rs:301-303 | the default patterns keep every name shorter than four characters, "src" and "/path/to/src" among them |
| Directory.AddPatternExample | src/directory/mod.rs:323-334 | "temp" is kept by the defaults, and ignored once "temp" is added |
| Directory.CustomPatternExamples | src/directory/mod.rs:307-315 | the patterns "build" and "dist" ignore "build" and "dist" |
| Directory.CustomPatternKeeps | src/directory/mod.rs:317-319 | the patterns "build" and "dist" keep ".git" |
| Directory.CustomPatternKeepsModules | src/directory/mod.rs:317-319 | the patterns "build" and "dist" keep every name without a 'b' and an 'i', "node_modules" among them |
| Directory.NodesOfStep | src/directory/mod.rs:40-42 | the nodes below one more child are those below the earlier children followed by that child's nodes |
| Directory.Filter | src/directory/mod.rs:35-38 | a filter keeps no more entries than it is given |
| Directory.FilterConcat | src/directory/mod.rs:35-38 | filtering a concatenation concatenates the filtered parts |
| Directory.FilterPartition | src/directory/mod.rs:235-246 | every node is either a file or a directory: the two filters together keep every node |
| Directory.ListedFiles | src/directory/mod.rs:27-44 | defines what `get_all_files` returns from a depth-first node list: the paths of the file nodes that are not ignored, in order; `ListedFilesConcat`, `ListedFilesOfEntry` and `DirectoryParser.GetAllFiles` use it |
| Directory.ListedFilesConcat | src/directory/mod.rs:34-44 | the files listed for a concatenation are those of each part, in order |
| Directory.ListedPrefixAll | src/directory/mod.rs:40-42 | the files listed child by child for the first i children are those listed over all the nodes below them |
| Directory.ListedFilesOfEntry | src/directory/mod.rs:35-43 | a file entry lists its own path unless it is ignored; a directory lists what its children list, and its own name is not checked |
| Directory.SizeTotalConcat | src/directory/mod.rs:248-250 | the size total of a concatenation is the sum of the parts' totals |
| Directory.OwnExtension | src/directory/mod.rs:253-258 | each file contributes at most one extension |
| Directory.ExtensionsOf | src/directory/mod.rs:253-258 | there are no more extensions than files |
| Directory.ExtensionsOfConcat | src/directory/mod.rs:253-258 | the extensions of a concatenation are those of each part, in order |
| Directory.HeightIsDeepest | src/directory/mod.rs:230-241 | the tree has a node at depth Height, and no node deeper |
| Directory.HeightOfIsDeepest | src/directory/mod.rs:240-241 | the children's height is 0 or reached by some child one level down, and bounds every child's nodes |
| Directory.DepthBound | src/directory/mod.rs:230-241 | a proof helper for `HeightIsDeepest`: a node at depth d below an entry has d at most the entry's height |
| Directory.ChildDepthBound | src/directory/mod.rs:240-241 | a proof helper for `HeightOfIsDeepest`: a node at depth d below one of the children has d + 1 at most their height |
| Directory.HeightAttained | src/directory/mod.rs:230-241 | a proof helper for `HeightIsDeepest`: some node lies at depth Height |
| Directory.HeightOfAttained | src/directory/mod.rs:240-241 | a proof helper for `HeightOfIsDeepest`: a positive height of the children is reached by some child one level down |
| Directory.TallyConcat | src/directory/mod.rs:255-257 | tallying a concatenation tallies each part in turn |
| Directory.TallyCounts | src/directory/mod.rs:255-257 | a tally adds to each key's count the number of times the key occurs; the keys are exactly the old keys and the counted ones |
| Directory.CountNodesConcat | src/directory/mod.rs:229-261 | counting the nodes a and then b is counting a + b |
| Directory.AddNode | src/directory/mod.rs:234-258 | defines what one entry adds to the counters, depth aside: one directory, or one file with its readable size (0 when unreadable) and one count of its extension if it has one; `AddNodeCounts`, `AddFileTypes`, `CountNodesMeaning` and `AccumulateCounts` state what it computes |
| Directory.AddNodeCounts | src/directory/mod.rs:235-260 | one node's update of the counters depends only on the counters before it, and leaves the depth alone |
| Directory.CountNodesCounts | src/directory/mod.rs:229-261 | so do the counts of a whole sequence of nodes |
| Directory.MaxDepthStep | src/directory/mod.rs:230-233 | raising the depth past one more child is raising it to the height of all the children |
| Directory.Accumulate | src/directory/mod.rs:229-261 | defines `calculate_statistics_recursive` on one entry as the source writes it; `AccumulateDepth`, `AccumulateCounts` and `AccumulateIsNodes` state what it computes |
| Directory.AccumulateChildren | src/directory/mod.rs:238-241 | defines the loop over a directory's children at one more level of depth; `AccumulateChildrenDepth` and `AccumulateChildrenCounts` state what it computes |
| Directory.AccumulateDepth | src/directory/mod.rs:229-242 | the recursion raises max_depth to the depth of the subtree's deepest node |
| Directory.AccumulateChildrenDepth | src/directory/mod.rs:240-242 | the loop over a directory's children raises max_depth to the depth of their deepest node |
| Directory.AccumulateCounts | src/directory/mod.rs:229-261 | the recursion counts the nodes of the subtree in depth-first order |
| Directory.AccumulateChildrenCounts | src/directory/mod.rs:240-242 | the loop over the children counts the nodes below them in depth-first order |
| Directory.AccumulateIsNodes | src/directory/mod.rs:229-261 | the recursion equals the reference count of the subtree's nodes, with max_depth raised to the deepest node's depth |
| Directory.CountNodesMeaning | src/directory/mod.rs:235-260 | the reference count adds the number of files, the number of directories, the files' sizes and their extensions |
| Directory.CountNodesKinds | src/directory/mod.rs:235-246 | the reference count's file and directory totals grow by the number of file and directory nodes |
| Directory.CountNodesSize | src/directory/mod.rs:247-250 | the byte total grows by the readable sizes of the file nodes; unreadable files add nothing |
| Directory.AddFileTypes | src/directory/mod.rs:252-258 | a file adds its own extension, if it has one, to the histogram |
| Directory.FilterSnoc | src/directory/mod.rs:35-38 | filtering after appending one entry appends it exactly when it is kept |
| Directory.ExtensionsOfSnoc | src/directory/mod.rs:253-258 | appending one file appends its own extension |
| Directory.CountNodesTypes | src/directory/mod.rs:252-258 | the reference count's histogram is the tally of the file nodes' extensions |
| Directory.Statistics | src/directory/mod.rs:208-221 | defines `get_statistics`: the recursion started from zero counters at depth 0; `StatisticsAreCounts`, `StatisticsTotals`, `StatisticsDepth`, `StatisticsTypes` and `StatisticsHistogram` state its meaning |
| Directory.StatisticsAreCounts | src/directory/mod.rs:208-261 | get_statistics is the reference count of the tree's nodes in depth-first order, with max_depth the tree's height |
| Directory.StatisticsTotals | src/directory/mod.rs:235-250 | total_files counts the file nodes and total_directories the directory nodes, root included; together they count every node; total_size_bytes is the sum of the readable file sizes |
| Directory.StatisticsDepth | src/directory/mod.rs:230-241 | max_depth is the depth of the deepest node, with the root at depth 0 |
| Directory.StatisticsTypes | src/directory/mod.rs:252-258 | file_types[ext] is the number of files with extension ext; there are no other keys; the counts add up to at most total_files |
| Directory.StatisticsHistogram | src/directory/mod.rs:252-258 | the histogram is the tally, from empty, of the files' extensions in depth-first order |
| Directory.PrependNothing | src/directory/mod.rs:159-169 | prepending no children leaves a result as it is |
| Directory.PrependAssoc | src/directory/mod.rs:159-169 | prepending children one by one is prepending them together |
| Directory.ParseWellFormed | src/directory/mod.rs:117-180 | a parsed directory is a directory entry with the given name and path; file entries have no children; every child's path is its parent's joined with its name; no entry below it is ignored |
| Directory.ParseItemsWellFormed | src/directory/mod.rs:128-171 | every parsed child sits below the directory, is not ignored, and is well formed |
| Directory.Parse | src/directory/mod.rs:117-180 | defines `parse_directory_recursive`: the read error, else the first error of the listing, else a directory entry of the parsed children; `ParseWellFormed`, `ParseChildren` and `DirectoryParser.ParseDirectoryRecursive` state its properties |
| Directory.ParseItems | src/directory/mod.rs:128-171 | defines the listing loop: ignored items are skipped, an unreadable item or missing metadata is an error, a directory item is parsed recursively and a file item becomes a childless file entry; `ParseItemsWellFormed` and `ParseItemsChildren` state its properties |
| Directory.ParseItemsChildren | src/directory/mod.rs:128-171 | a listing parses only when every item is readable and every item that is not ignored has metadata; then there is exactly one child per kept item, in listing order, with that item's name and joined path, a directory exactly when the item is one, holding the parsed subtree or no children |
| Directory.ParseChildren | src/directory/mod.rs:117-180 | a directory parses only when its listing is readable; the result is a directory entry with the given name and path whose children are one per kept listing item, in order, as `ParseItemsChildren` states |
| Directory.DirectoryParser.constructor | src/directory/mod.rs:50-60 | new installs exactly ".git", "node_modules", "target" and ".DS_Store" |
| Directory.DirectoryParser.WithIgnorePatterns | src/directory/mod.rs:69-73 | with_ignore_patterns installs exactly the given patterns |
| Directory.DirectoryParser.AddIgnorePattern | src/directory/mod.rs:79-81 | add_ignore_pattern appends the pattern, and changes nothing else |
| Directory.DirectoryParser.GetAllFiles | src/directory/mod.rs:27-31 | get_all_files returns the paths of the unignored file nodes, in depth-first child order |
| Directory.DirectoryParser.CollectFilesRecursive | src/directory/mod.rs:34-44 | the list grows by exactly the unignored files below the entry, in depth-first order |
| Directory.DirectoryParser.GetStatistics | src/directory/mod.rs:208-221 | get_statistics returns the statistics of the whole tree, starting from zero at depth 0 |
| Directory.DirectoryParser.CalculateStatisticsRecursive | src/directory/mod.rs:229-261 | the counters end as the recursion over the subtree defines them |
| Directory.DirectoryParser.ParseDirectory | src/directory/mod.rs:90-107 | a missing path fails with "does not exist" and a file with "not a directory"; a directory is parsed under its file name, or "root" when it has none |
| Directory.DirectoryParser.ParseDirectoryRecursive | src/directory/mod.rs:117-180 | the listing loop returns the parsed directory, or the first error in listing order |
| Layout.SquareGrows | src/visualization/mod.rs:172 | a proof helper for `CeilSqrt`: c <= c * c for every positive c |
| Layout.CeilSqrtFrom | src/visualization/mod.rs:172 | the upward search ends at the least c with c * c >= n |
| Layout.CeilSqrt | src/visualization/mod.rs:172 | the column count is the least c with c * c >= n, and at least 1 for n > 0 |
| Layout.DivBelow | src/visualization/mod.rs:181 | a proof helper for `GridIndex`: an index below rows * cols falls in a row below rows |
| Layout.MulMonoNat | src/visualization/mod.rs:173 | a proof helper for `SquareGrows` and `DivBelow`: products of naturals grow with their first factor |
| Layout.RowsPositive | src/visualization/mod.rs:173 | a grid of at least one item has at least one row |
| Layout.GridShape | src/visualization/mod.rs:172-173 | cols * rows >= n, and the grid has no row to spare |
| Layout.GridIndex | src/visualization/mod.rs:180-182 | item i falls in a row below rows and a column below cols |
| Layout.GridCellsDistinct | src/visualization/mod.rs:181-182 | two different items never share a row and a column |
| Layout.GridSquares | src/visualization/mod.rs:180-207 | a grid has one square per item |
| Layout.GridSquareAt | src/visualization/mod.rs:180-206 | an unfolding step of `GridSquares` for the loop proof: square i of a grid stands for item i, in its padded cell |
| Layout.CellRectIs | src/visualization/mod.rs:184-192 | the rectangle the loop builds from the column, the row and the cell size is item i's padded cell |
| Layout.GridStep | src/visualization/mod.rs:172-206 | the square one pass of a grid loop pushes is square i of the grid |
| Layout.FilterMembers | src/visualization/mod.rs:162-164 | the kept entries are exactly the members that satisfy the predicate |
| Layout.GridLayout | src/visualization/mod.rs:155-207 | defines `generate_grid_layout`: nothing for a file, otherwise the grid of the subdirectories, 10 px inside their cells; `GridLayoutContents`, `GridLayoutEmpty`, `GridSquaresDisjoint` and `GridSquaresInside` state its properties |
| Layout.GridLayoutEmpty | src/visualization/mod.rs:158-169 | the grid is empty exactly for a file entry or a directory without subdirectories; otherwise every subdirectory is laid out |
| Layout.InverseWeight | src/visualization/mod.rs:203 | a proof helper for `GridSquareFields`: the n equal weights 1/n add up to 1 |
| Layout.GridSquareFields | src/visualization/mod.rs:197-206 | each grid square is a fresh square for its item: of the grid's kind, weight 1/n, unselected, not hovered, progress 0, no previous rectangle |
| Layout.GridLayoutContents | src/visualization/mod.rs:155-207 | one square per subdirectory, in child order, files skipped; each is a directory square of weight 1/n, fresh |
| Layout.AxisInside | src/visualization/mod.rs:176-191 | along one axis, cell k of count equal cells lies padding inside the span |
| Layout.CellInside | src/visualization/mod.rs:176-192 | each item's padded cell lies padding inside the grid's area |
| Layout.AddOneMul | src/visualization/mod.rs:184-185 | a proof helper for the slot lemmas: (x + 1) * y = x * y + y |
| Layout.SlotsOrdered | src/visualization/mod.rs:184-185 | the slot of a lower index ends where the slot of a higher one begins, or before |
| Layout.ColumnsApart | src/visualization/mod.rs:182-191 | with positive padding, cells in different columns share no point |
| Layout.RowsApart | src/visualization/mod.rs:181-191 | with positive padding, cells in different rows share no point |
| Layout.SlotsDisjoint | src/visualization/mod.rs:181-191 | with positive padding, cells in different slots share no point |
| Layout.CellsDisjoint | src/visualization/mod.rs:180-192 | with positive padding, the padded cells of two different items share no point |
| Layout.GridSquaresDisjoint | src/visualization/mod.rs:180-206 | no point lies in two different squares of a grid with positive padding over a non-negative area |
| Layout.GridSquaresInside | src/visualization/mod.rs:176-192 | every grid square lies padding inside the area of the grid |
| Layout.ChildSize | src/visualization/mod.rs:234-263 | defines a child's size in the first treemap pass: the metadata length (a directory's only when positive), else 1000 per child for a directory and 1000 for a file; `SizeMapLookup` states that the size map records it |
| Layout.SizeMap | src/visualization/mod.rs:230-267 | defines `child_sizes` after the first pass: each child's `ChildSize` under its path, a later child overwriting an earlier one; `SizeMapLookup` states what it records and `SumLookupOfSizeMap` that its entries sum to `SumSizes` |
| Layout.SumSizes | src/visualization/mod.rs:230-267 | defines `total_size` at the end of the first pass: the sum of the children's sizes; `TotalSize` and `SumLookupOfSizeMap` state its properties |
| Layout.TotalSize | src/visualization/mod.rs:268-274 | the total is at least 1, and equals the sum of the child sizes when that sum is positive |
| Layout.SizeMapLookup | src/visualization/mod.rs:234-267 | when paths are distinct, the first pass records each child's size under its path, by the metadata rule, and records nothing under other paths |
| Layout.Lookup | src/visualization/mod.rs:279-280 | defines `child_sizes.get(path).unwrap_or(&0)`: the recorded size, or 0 for a path with no entry; `SizeMapLookup` states which paths have entries |
| Layout.SumLookupConcat | src/visualization/mod.rs:328 | the recorded sizes of a concatenation add up part by part |
| Layout.SumLookupPrefix | src/visualization/mod.rs:326-331 | one more child adds its recorded size to the running sum |
| Layout.SumLookupMonotone | src/visualization/mod.rs:326-331 | running sums of the recorded sizes never decrease |
| Layout.SumLookupMatches | src/visualization/mod.rs:266-268 | where each child's size is recorded, the recorded sizes add up to the first pass's sum |
| Layout.SumLookupOfSizeMap | src/visualization/mod.rs:234-269 | when paths are distinct, the recorded sizes add up to the total of the first pass |
| Layout.InsertBySizeElements | src/visualization/mod.rs:277-282 | inserting one child adds exactly that child, and adds its size to the sum |
| Layout.InsertBySizeFrom | src/visualization/mod.rs:277-282 | everything after an insertion is the inserted child or came from the list |
| Layout.InsertBySizeSorted | src/visualization/mod.rs:277-282 | inserting into a list sorted by decreasing size keeps it sorted |
| Layout.SortBySize | src/visualization/mod.rs:277-282 | defines the sort of the children by decreasing recorded size, as an insertion sort; `SortBySizeSorted`, `SortBySizeElements` and `SortBySizeMeaning` state its properties |
| Layout.SortBySizeSorted | src/visualization/mod.rs:277-282 | the sort orders the children by non-increasing recorded size |
| Layout.SortBySizeElements | src/visualization/mod.rs:277-282 | the sort is a permutation of the children, and keeps the sum of their sizes |
| Layout.SortBySizeMeaning | src/visualization/mod.rs:277-282 | the sorted children are ordered by non-increasing size, are a permutation of the children, and have the same count and sum of sizes |
| Layout.FracSum | src/visualization/mod.rs:331 | shares of a total add up |
| Layout.FracWhole | src/visualization/mod.rs:331 | the whole total is share 1 |
| Layout.FracAtMostOne | src/visualization/mod.rs:331 | shares are non-negative, grow with the size, and a size at most the total has share at most 1 |
| Layout.Cancel | src/visualization/mod.rs:334-339 | dividing a horizontal item's area by the full height leaves width times share |
| Layout.CancelFirst | src/visualization/mod.rs:334-343 | dividing a vertical item's area by the full width leaves height times share |
| Layout.TreemapSquares | src/visualization/mod.rs:326-367 | the treemap has one square per sorted child |
| Layout.TreemapSquareFields | src/visualization/mod.rs:352-367 | an unfolding step of `TreemapSquares` for the loop proof: square i stands for sorted child i, takes that child's kind, is weighted by its share of the total, and is fresh |
| Layout.AvailableRect | src/visualization/mod.rs:314-318 | defines the rectangle the strips are laid in: five pixels inside the canvas on every side; `TreemapInside` and `TreemapLayoutTiles` state that the strips stay within it and tile it |
| Layout.Horizontal | src/visualization/mod.rs:321 | defines the fixed orientation: strips run left to right when the available rectangle is at least as wide as it is high; `HorizontalStrip` and `VerticalStrip` state the strip of each orientation |
| Layout.Strip | src/visualization/mod.rs:337-349 | defines a strip from its leading share and its own share of the available rectangle, across it in full; `StripEdges`, `StripFromCorner` and `StripToCorner` state its edges |
| Layout.StripOf | src/visualization/mod.rs:328-349 | defines the strip of sorted child i: it leads at the share of the children before it and is as long as its own share; `StripLead`, `StripTrail`, `StripAcross` and `TreemapContiguous` state its properties |
| Layout.HorizontalStrip | src/visualization/mod.rs:337-349 | a horizontal strip spans the full padded height, from one share of the width to the next |
| Layout.VerticalStrip | src/visualization/mod.rs:337-349 | a vertical strip spans the full padded width, from one share of the height to the next |
| Layout.SharesAdd | src/visualization/mod.rs:326-334 | the share up to and including child i is the share before it plus its own |
| Layout.TreemapRect | src/visualization/mod.rs:346-349 | an unfolding step of `TreemapSquares` for the strip lemmas: the rectangle of square i is sorted child i's strip |
| Layout.StripEdges | src/visualization/mod.rs:337-349 | a strip leads at the share before it, trails at that share plus its own, and spans the rectangle across |
| Layout.StripFromCorner | src/visualization/mod.rs:323 | a strip with nothing before it starts at the padded rectangle's corner |
| Layout.StripToCorner | src/visualization/mod.rs:337-349 | a strip that completes the whole share ends at the far corner |
| Layout.StripLead | src/visualization/mod.rs:370-381 | sorted child i starts at the share of the children before it |
| Layout.StripTrail | src/visualization/mod.rs:370-381 | sorted child i ends at the share of the children up to and including it |
| Layout.StripAcross | src/visualization/mod.rs:337-343 | each child's strip spans the padded rectangle across the direction of the strips |
| Layout.AtMonotone | src/visualization/mod.rs:370-381 | on a rectangle of non-negative extent, a larger share lies further along |
| Layout.AtEnds | src/visualization/mod.rs:315-318 | share 0 is the near edge of the padded rectangle and share 1 its far edge |
| Layout.TreemapAcross | src/visualization/mod.rs:337-343 | every treemap square spans the padded rectangle across the direction of the strips |
| Layout.TreemapContiguous | src/visualization/mod.rs:370-381 | each strip starts exactly where the one before it ends |
| Layout.TreemapStarts | src/visualization/mod.rs:323 | the first strip starts at the padded rectangle's corner |
| Layout.TreemapEnds | src/visualization/mod.rs:326-381 | when the recorded sizes add up to the total, the last strip ends at the far corner |
| Layout.TreemapOrdered | src/visualization/mod.rs:326-381 | on a rectangle of non-negative extent, strips come in order and overlap at most along a shared edge |
| Layout.SharesWithin | src/visualization/mod.rs:326-334 | when the sizes add up to no more than the total, the shares before and up to child i lie in order within [0, 1] |
| Layout.TreemapInside | src/visualization/mod.rs:314-381 | when the sizes add up to no more than the total, every strip lies within the padded rectangle |
| Layout.TreemapLayout | src/visualization/mod.rs:216-294 | defines `generate_treemap_layout`: nothing for a file or an empty directory, otherwise the strips of the children sorted by size; `TreemapLayoutTiles`, `TreemapContiguous`, `TreemapOrdered` and `TreemapInside` state its properties |
| Layout.TreemapLayoutTiles | src/visualization/mod.rs:216-294 | for a directory with distinct child paths and a positive total, the treemap emits every child exactly once, in non-increasing size order, and its strips run from one corner of the padded rectangle to the opposite one |
| Layout.DirBandHeight | src/visualization/mod.rs:415 | defines `dir_height`: 70% of the height when there are subdirectories, else 0; `DetailedBandsApart` states that directory squares end 8 px above it and file squares start 5 px below it |
| Layout.DetailedLayout | src/visualization/mod.rs:405-492 | defines `generate_detailed_layout`: a grid of the subdirectories over the top band, a grid of the files below it; `DetailedLayoutContents`, `DetailedBandsApart` and `DetailedDisjoint` state its properties |
| Layout.DetailedLayoutContents | src/visualization/mod.rs:405-492 | one square per child: the subdirectories first, then the files, each group in child order; directory squares weigh 1/dirs and file squares 1/files, and all are fresh |
| Layout.DetailedBandsApart | src/visualization/mod.rs:415-476 | on a canvas of non-negative size, directory squares end 8 pixels above the lower edge of the directory band (70% of the height when there are subdirectories, else 0) and file squares start 5 pixels below it |
| Layout.DetailedDisjoint | src/visualization/mod.rs:405-492 | on a canvas of non-negative size, no point lies in two different squares of the detailed layout |
| Layout.GeneratedSquares | src/visualization/mod.rs:120-146 | defines `generate_squares`: no squares without a root, else the layout the zoom factor selects on the 800 by 600 canvas; `LayoutByZoom` and `GeneratedUnmarked` state its properties |
| Layout.LayoutByZoom | src/visualization/mod.rs:134-144 | below zoom 2 the squares are one per subdirectory and all of directories; from zoom 2 on there is one square per child; which layout each range uses is stated by `GeneratedSquares` itself |
| Layout.GridUnmarked | src/visualization/mod.rs:197-206 | grid squares start unselected, not hovered, at progress 0 and without a previous rectangle |
| Layout.TreemapUnmarked | src/visualization/mod.rs:358-367 | treemap squares likewise |
| Layout.DetailedUnmarked | src/visualization/mod.rs:443-490 | detailed squares likewise |
| Layout.GeneratedUnmarked | src/visualization/mod.rs:120-145 | every generated square starts unselected, not hovered, at progress 0 and without a previous rectangle |
| Visualization.LastSegment | src/visualization/mod.rs:794 | the last segment is a dot-free suffix of the name; it is the whole name or follows a dot |
| Visualization.DefaultColor | src/visualization/mod.rs:801 | defines the fallback colour (180, 180, 180); `GetFileColor` states it is returned exactly when the table has no entry, and `UnknownTypeColor` gives the example of the unit test |
| Visualization.FileColors | src/visualization/mod.rs:772-784 | defines `initialize_file_colors`: the six types rs, js, py, md, txt and json with their colours; `ColoredIffKnownType`, `ColorOfType`, `RustColor` and `JavaScriptColor` state what it gives |
| Visualization.GetFileColor | src/visualization/mod.rs:793-802 | the colour is the table's entry for the last segment, and the default grey exactly when the table has none |
| Visualization.LastSegmentIff | src/visualization/mod.rs:794 | for dot-free k, the last segment is k exactly when the name is k or ends with "." followed by k |
| Visualization.ColoredIffKnownType | src/visualization/mod.rs:772-802 | a file is coloured exactly when its name is, or ends in "." followed by, one of rs, js, py, md, txt and json |
| Visualization.ColorOfType | src/visualization/mod.rs:776-801 | stem + "." + type gets that type's table colour, or the default |
| Visualization.RustColor | src/visualization/mod.rs:776 | "main.rs" is coloured (250, 100, 100) |
| Visualization.JavaScriptColor | src/visualization/mod.rs:777 | "script.js" is coloured (240, 220, 100) |
| Visualization.RustAndJavaScriptDiffer | src/visualization/mod.rs:888-896 | Rust and JavaScript files get different colours |
| Visualization.UnknownTypeColor | src/visualization/mod.rs:898-900 | "file.xyz" gets the default (180, 180, 180) |
| Visualization.FirstHit | src/visualization/mod.rs:506-514 | no index exactly when no rectangle contains the point; otherwise the lowest index whose rectangle contains it |
| Visualization.Select | src/visualization/mod.rs:520-533 | a click leaves the number of squares as it is |
| Visualization.SelectMoves | src/visualization/mod.rs:520-533 | a click moves the selection mark from the old square to the clicked one; every rectangle and every other field stays as it was |
| Visualization.NewTarget | src/visualization/mod.rs:810-815 | the new target is the zoom factor plus 0.1 capped at 4, or minus 0.1 floored at 1 |
| Visualization.NewTargetInRange | src/visualization/mod.rs:810-815 | from a zoom in [1, 4], the new target lies in [1, 4] and moves in the requested direction unless the zoom is already at that bound |
| Visualization.ZoomWithoutTicks | src/visualization/mod.rs:904-920 | without ticks, the zoom factor stays 1, so the second zoom-in targets 1.1 again and is ignored; the target cannot climb to 4 |
| Visualization.Snapshot | src/visualization/mod.rs:825-828 | storing the rectangles keeps the number of squares |
| Visualization.Tick | src/visualization/mod.rs:865-877 | a tick keeps the number of squares |
| Visualization.DrawRect | src/visualization/mod.rs:580-597 | defines the rectangle `render` draws for a square: `LerpRect` of the previous and the current rectangle while animating, else the current one; `DrawRectBetween` states where it lies |
| Visualization.DrawRectBetween | src/visualization/mod.rs:580-597 | the drawn rectangle is the square's own unless animating from a previous one, or at progress 1; while animating it lies corner by corner between the previous and the current rectangle |
| Visualization.StripArithmetic | src/visualization/mod.rs:334-343 | an item's extent, from its area and full cross extent, moves the cursor from its share before to its share after |
| Visualization.HorizontalStripIs | src/visualization/mod.rs:337-349 | a horizontal item computed from its area is the strip of its share |
| Visualization.VerticalStripIs | src/visualization/mod.rs:340-349 | a vertical item computed from its area is the strip of its share |
| Visualization.HorizontalAdvance | src/visualization/mod.rs:370-371 | when strips run across, the cursor moves past child i to the share up to and including it |
| Visualization.VerticalAdvance | src/visualization/mod.rs:376-377 | when strips run down, the cursor moves past child i likewise |
| Visualization.PlaceAcross | src/visualization/mod.rs:326-375 | one pass of the strip loop, strips running across: it builds treemap square i and moves the cursor and the remaining rectangle to child i + 1 |
| Visualization.PlaceDown | src/visualization/mod.rs:326-381 | one pass of the strip loop, strips running down: the same |
| Visualization.HorizontalTreemapStep | src/visualization/mod.rs:328-371 | the square computed for child i, strips running across, is treemap square i, and the cursor moves to the next share |
| Visualization.VerticalTreemapStep | src/visualization/mod.rs:328-377 | the same when strips run down |
| Visualization.TreemapSquareIs | src/visualization/mod.rs:346-367 | the square the loop pushes for child i is treemap square i |
| Visualization.RoomyCanvasDivisible | src/visualization/mod.rs:314-343 | a canvas wider and higher than the two 5-pixel margins leaves non-zero extents to divide by |
| Visualization.GeneratedFresh | src/visualization/mod.rs:120-145 | freshly generated squares carry no selection and no progress |
| Visualization.SnapshotKeeps | src/visualization/mod.rs:825-828 | storing the rectangles keeps the selection marks and resets every progress to 0 |
| Visualization.TickKeeps | src/visualization/mod.rs:865-877 | a tick keeps the selection marks and sets every progress to the eased value |
| Visualization.Visualizer.constructor | src/visualization/mod.rs:89-103 | new starts without a root, squares, selection or hover, at zoom 1 with target 1, not animating, start time 0, no statistics, 800 by 600 canvas; the invariant holds |
| Visualization.Visualizer.PushGridSquares | src/visualization/mod.rs:180-207 | the grid loop appends exactly the grid's squares |
| Visualization.Visualizer.GenerateGridLayout | src/visualization/mod.rs:155-208 | generate_grid_layout appends exactly the grid layout of the entry |
| Visualization.Visualizer.GenerateTreemapLayout | src/visualization/mod.rs:216-294 | generate_treemap_layout appends exactly the treemap layout of the entry |
| Visualization.Visualizer.GenerateSquarifiedTreemap | src/visualization/mod.rs:303-384 | the strip loop appends exactly one strip per child, in order |
| Visualization.Visualizer.GenerateDetailedLayout | src/visualization/mod.rs:392-493 | generate_detailed_layout appends exactly the detailed layout of the entry |
| Visualization.Visualizer.GenerateSquares | src/visualization/mod.rs:120-146 | generate_squares replaces the squares by the layout the zoom factor selects, or none without a root; it clears the selection, and no square is marked |
| Visualization.Visualizer.SetRootEntry | src/visualization/mod.rs:109-117 | set_root_entry stores the root and its statistics, regenerates the squares, clears the selection, and keeps the invariant |
| Visualization.Visualizer.HandleInteraction | src/visualization/mod.rs:501-534 | the hovered index is the first square under the pointer, or none without a pointer; a click on a square moves the selection to it; otherwise selection and squares are unchanged; the invariant holds |
| Visualization.Visualizer.FindHovered | src/visualization/mod.rs:506-514 | the search loop returns the first index whose rectangle contains the point |
| Visualization.Visualizer.SelectSquare | src/visualization/mod.rs:520-533 | the click branch unmarks the previous selection if it differs, marks the clicked square, and keeps the invariant |
| Visualization.Visualizer.StoreRects | src/visualization/mod.rs:825-828 | every square's current rectangle becomes its previous one, with progress 0 |
| Visualization.Visualizer.RecordProgress | src/visualization/mod.rs:865-867 | every square's progress becomes the eased value |
| Visualization.Visualizer.ForgetRects | src/visualization/mod.rs:875-877 | every square loses its previous rectangle and nothing else |
| Visualization.Visualizer.Zoom | src/visualization/mod.rs:808-841 | a request within 0.01 of the target changes nothing; otherwise the target becomes the clamped step, the animation starts at now, and the squares are regenerated (or only snapshotted without a root); the zoom factor is untouched and the invariant holds |
| Visualization.Visualizer.StartZoom | src/visualization/mod.rs:822-840 | the effective part of zoom: it sets the target, stores the rectangles, starts the animation and regenerates the squares |
| Visualization.Visualizer.UpdateAnimation | src/visualization/mod.rs:847-879 | without an animation nothing changes; otherwise the zoom moves by the eased progress towards the target (it stays between the two), every square records that progress, and once the duration has elapsed the animation stops exactly at the target with every previous rectangle cleared; the invariant holds |
| Git.NewHandler | src/git/mod.rs:18-22 | new stores exactly the given keep_repository flag |
| Git.ValidateUrl | src/git/mod.rs:31-36 | defines `validate_url` directly: an accepted prefix and no line feed; `ValidateUrlIffPattern` proves it equal to the regular expression's language |
| Git.ValidateUrlMatches | src/git/mod.rs:31-36 | every URL the direct check accepts matches the regular expression, with the optional suffix taken as empty |
| Git.NoLineFeedSplit | src/git/mod.rs:34 | a string helper for `PatternValidates`: a run without line feeds splits into two runs without line feeds |
| Git.PrefixAccepted | src/git/mod.rs:34 | each prefix of the alternation is one of the four the check accepts, and holds no line feed |
| Git.PatternValidates | src/git/mod.rs:31-36 | every URL the regular expression matches is accepted by the direct check |
| Git.ValidateUrlIffPattern | src/git/mod.rs:31-36 | validate_url holds exactly when the URL starts with https://, git@, file:// or / and contains no line feed; the optional .git suffix adds nothing |
| Git.AcceptedForm | src/git/mod.rs:34 | a URL that starts with one of the prefixes and contains no line feed is valid |
| Git.ValidateUrlAcceptsGithub | src/git/mod.rs:212 | "https://github.com/user/repo.git" is valid |
| Git.ValidateUrlAcceptsGitlab | src/git/mod.rs:213 | "https://gitlab.com/user/repo.git" is valid |
| Git.ValidateUrlAcceptsNoSuffix | src/git/mod.rs:214 | "https://github.com/user/repo" is valid |
| Git.ValidateUrlAcceptsSsh | src/git/mod.rs:215 | "git@github.com:user/repo.git" is valid |
| Git.ValidateUrlAcceptsFile | src/git/mod.rs:216 | "file:///path/to/repo" is valid |
| Git.ValidateUrlAcceptsPath | src/git/mod.rs:217 | "/absolute/path/to/repo" is valid |
| Git.DiffersAt | src/git/mod.rs:34 | a string helper for `ValidateUrlRejects`: a string that differs from a prefix at one of its positions does not start with it |
| Git.ValidateUrlRejects | src/git/mod.rs:220-221 | "invalid-url" and "ftp://github.com/user/repo.git" are rejected |
| Git.NewHandlerExamples | src/git/mod.rs:225-230 | new(true) keeps the repository, and new(false) does not |

## Left out

- Drawing: render (src/visualization/mod.rs:540-766) is left out, apart from the rectangle interpolation it computes (`Geometry.LerpRect`, `Visualization.DrawRect`). So are fonts, tooltips, the colour table's use in drawing, src/ui/mod.rs and the eframe loop of src/app.rs.
- Cloning: `clone_repository`, `cleanup` and `get_repository_metadata` (src/git/mod.rs:46-187) go through git2, chrono and the file system. The clone button of src/app.rs does too.
- File-system access: `std::fs::read_dir` becomes the `FsNode` tree, and `std::fs::metadata` becomes the `meta` oracle.
  - `Path::exists` and `Path::is_dir` become the optional root node of `ParseDirectory`.
  - The operating system's error texts become the `ParseError` constructors.
  - The order of a directory listing is whatever `FsNode` lists.
- Time: `SystemTime::now` becomes the `now` argument of `Zoom`.
- Floating point: f32 and f64 are modelled as exact reals.
  - Rounding is not modelled, nor infinities and NaN.
  - Nor is whether repeated steps of 0.1 land exactly on 4.0.
- Layout.CeilSqrt: computes the integer ceiling square root. For large n, `(n as f32).sqrt().ceil()` may round differently.
- Visualization.Visualizer.GenerateTreemapLayout: requires strip extents it can divide by. On a canvas no larger than the 10 pixels of margin, f32 division by zero gives infinities or NaN, which the model does not represent. The Visualizer's only canvas is 800 by 600, and `Valid` demands a canvas above 10 by 10.
- Visualization.Visualizer.GenerateSquarifiedTreemap: requires a positive total and non-zero extents, for the same reason. Its only caller passes a total of at least 1.
- Visualization.Visualizer.GenerateSquares: requires a canvas above 10 by 10, for the same reason. 800 by 600 meets it.
- Layout.SizeMapLookup: requires distinct child paths. `child_sizes` is keyed by `to_string_lossy`, so two children whose paths differ only in non-UTF-8 bytes would share one entry; the model keys by the path itself. Path strings and non-UTF-8 names are not modelled.
- Layout.TreemapLayoutTiles: requires distinct child paths, for the same reason. It also requires a positive sum of sizes, since with a sum of 0 the total is 1 and every strip is empty.
- Layout.SortBySize: is an insertion sort. It is stable, as `sort_by` is, but the proofs state sortedness and permutation, not stability.
- Counter widths: the usize and u64 counters of `DirectoryStatistics` and of the treemap's sizes are unbounded `nat`s. `(child.children.len() as u64) * 1000` and the byte totals cannot overflow in the model.
- Grid detail level: the `_detail_level` argument of `generate_grid_layout` (src/visualization/mod.rs:136) is unused by that method, so the model does not compute it.
- Hover flags: no square's `hovered` flag is ever set by the source, and the model keeps them false. `hovered_index` is not reset by regeneration, and the model keeps that too.
- Zoom snapshots: `zoom` stores each square's previous rectangle and then, with a root, regenerates through `set_root_entry`, which discards them. The model does the same and does not invent interpolation between matching squares.
- Visualization.Visualizer.UpdateAnimation: uses the progress clamped to [0, 1] (see Findings). As written, the source clamps only from above. The two agree whenever `now` is not before the start of the animation (`Animation.ProgressAgrees`).
- Zoom test: test_zoom_factors (src/visualization/mod.rs:904-933) expects the target to reach 4.0 after repeated zoom requests without ticks. That does not follow from the code, because each step is taken from `zoom_factor`, which only ticks move (`Visualization.ZoomWithoutTicks`).
- URL test in src/app.rs: the test at src/app.rs:228-230 contradicts the tests of src/git/mod.rs:214-215. The model follows src/git/mod.rs.
- Loop helpers: the loops of `zoom`, `update_animation` and the layouts are separate helper methods (`StoreRects`, `RecordProgress`, `ForgetRects`, `PushGridSquares`, `PlaceAcross`, `PlaceDown`). Each is a loop or loop body of the source.

## Findings

| source | as written | input that shows it | evidently intended | confidence | as-written member | corrected member |
|---|---|---|---|---|---|---|
| src/visualization/mod.rs:853-862 | the progress `(elapsed / animation_duration).min(1.0)` is clamped only from above | a tick 0.6 s before the start time (a clock stepped backwards): progress -2, eased value 8, zoom 3.9 with target 4.0 becomes 4.7, outside [1, 4] and past the target | progress clamped to [0, 1], so that the eased value lies in [0, 1] and the zoom stays between its old value and the target | not executed | Animation.RawProgressOvershoots | Animation.TickStaysBetween |
