/**
 * The directory tree of a cloned repository and the DirectoryParser that
 * builds, filters, flattens and summarises it (src/directory/mod.rs).
 *
 * Paths are sequences of components, in the form Rust's `Path::components`
 * yields them; the file system is an abstract tree (FsNode) and file sizes
 * come from an oracle `meta`, standing for `std::fs::metadata(path).len()`.
 */
module Directory {
  import opened Wrappers

  // ---------------------------------------------------------------------
  // Paths
  // ---------------------------------------------------------------------

  datatype Component = RootDir | CurDir | ParentDir | Normal(name: string)

  type Path = seq<Component>

  /** `dir.join(name)` for a plain entry name. */
  function Join(dir: Path, name: string): Path {
    dir + [Normal(name)]
  }

  /** `Path::file_name`: the last component when it is a normal one. */
  function FileName(path: Path): Option<string> {
    if |path| > 0 && path[|path| - 1].Normal? then Some(path[|path| - 1].name) else None
  }

  /** `split('.').last()`: the text after the last '.' of `s`, or the whole of `s` when it has none. */
  function AfterLastDot(s: string): (r: string)
    ensures |r| <= |s|
  {
    if s == [] || s[|s| - 1] == '.' then [] else AfterLastDot(s[..|s| - 1]) + [s[|s| - 1]]
  }

  /** The text after the last dot is a suffix without a dot, and a dot stands before it unless it is everything. */
  lemma {:induction false} AfterLastDotShape(s: string)
    ensures var r := AfterLastDot(s);
      && '.' !in r && s[|s| - |r|..] == r && (|r| == |s| || s[|s| - |r| - 1] == '.')
    decreases |s|
  {
    if s != [] && s[|s| - 1] != '.' {
      var init, c := s[..|s| - 1], s[|s| - 1];
      AfterLastDotShape(init);
      var r0 := AfterLastDot(init);
      var r := r0 + [c];
      assert AfterLastDot(s) == r;
      assert s == init + [c];
      assert s[|s| - |r|..] == init[|init| - |r0|..] + [c];
      if |r0| < |init| {
        assert s[|s| - |r| - 1] == init[|init| - |r0| - 1];
      }
    } else {
      assert s[|s|..] == [];
    }
  }

  /**
   * The extension of a file name as `Path::extension` computes it: the text
   * after the last '.', unless there is no '.', or the only '.' that could
   * split the name is its first character (".gitignore" has none), or the
   * name is "..".
   */
  function NameExtension(name: string): Option<string> {
    if name == ".." then None
    else
      var ext := AfterLastDot(name);
      if |ext| + 2 <= |name| then Some(ext) else None
  }

  function Extension(path: Path): Option<string> {
    match FileName(path)
    case None => None
    case Some(name) => NameExtension(name)
  }

  /** An extension never holds a dot and always stands after a dot that is not the first character. */
  lemma ExtensionShape(path: Path)
    requires Extension(path).Some?
    ensures var name := FileName(path).value; var ext := Extension(path).value;
      '.' !in ext && |ext| + 2 <= |name| && name[|name| - |ext|..] == ext && name[|name| - |ext| - 1] == '.'
  {
    AfterLastDotShape(FileName(path).value);
  }

  /** Text without a dot that follows `s` joins the text after its last dot. */
  lemma {:induction false} AfterLastDotAppend(s: string, t: string)
    requires '.' !in t
    ensures AfterLastDot(s + t) == AfterLastDot(s) + t
    decreases |t|
  {
    if t == [] {
      assert s + t == s;
    } else {
      var t' := t[..|t| - 1];
      assert (s + t)[..|s + t| - 1] == s + t';
      AfterLastDotAppend(s, t');
    }
  }

  /** A name other than ".." with a non-empty stem before its last dot has the text after that dot as extension. */
  lemma NameExtensionSplit(stem: string, ext: string)
    requires stem != [] && '.' !in ext
    requires stem + "." + ext != ".."
    ensures NameExtension(stem + "." + ext) == Some(ext)
  {
    var name := stem + "." + ext;
    assert name == (stem + ".") + ext;
    AfterLastDotAppend(stem + ".", ext);
    assert (stem + ".")[|stem + "."| - 1] == '.';
    assert AfterLastDot(stem + ".") == [];
    assert AfterLastDot(name) == ext;
  }

  /** A name without a dot, or whose only dot is its first character, has no extension. */
  lemma NameExtensionNone(stem: string, ext: string)
    requires stem == [] || stem == "."
    requires '.' !in ext
    ensures NameExtension(stem + ext) == None
  {
    AfterLastDotAppend(stem, ext);
    if stem == "." {
      assert |AfterLastDot(stem)| == 0;
    }
  }

  lemma ExtensionExamples()
    ensures Extension([Normal("main.rs")]) == Some("rs")
    ensures Extension([Normal(".gitignore")]) == None
  {
    NameExtensionSplit("main", "rs");
    assert "main" + "." + "rs" == "main.rs";
    NameExtensionNone(".", "gitignore");
    assert "." + "gitignore" == ".gitignore";
  }

  lemma ExtensionExamplesMore()
    ensures Extension([RootDir, Normal("src"), Normal("archive.tar.gz")]) == Some("gz")
    ensures Extension([Normal("Makefile")]) == None
    ensures Extension([RootDir]) == None
  {
    NameExtensionSplit("archive.tar", "gz");
    assert "archive.tar" + "." + "gz" == "archive.tar.gz";
    NameExtensionNone("", "Makefile");
    assert "" + "Makefile" == "Makefile";
  }

  // ---------------------------------------------------------------------
  // Substrings and the ignore filter
  // ---------------------------------------------------------------------

  predicate IsPrefix(p: string, s: string) {
    |p| <= |s| && s[..|p|] == p
  }

  /** `str::contains`, as a left-to-right scan. */
  predicate Contains(s: string, p: string)
    decreases |s|
  {
    IsPrefix(p, s) || (|s| > 0 && Contains(s[1..], p))
  }

  /** `p` occurs in `s` starting at index `i`. */
  predicate OccursAt(p: string, s: string, i: nat) {
    i + |p| <= |s| && s[i..i + |p|] == p
  }

  lemma {:induction false} ContainsIffOccurs(s: string, p: string)
    ensures Contains(s, p) <==> exists i: nat :: OccursAt(p, s, i)
    decreases |s|
  {
    if IsPrefix(p, s) {
      assert OccursAt(p, s, 0);
    } else if |s| == 0 {
      forall i: nat ensures !OccursAt(p, s, i) { }
    } else {
      ContainsIffOccurs(s[1..], p);
      if Contains(s[1..], p) {
        var i: nat :| OccursAt(p, s[1..], i);
        assert s[1..][i..i + |p|] == s[i + 1..i + 1 + |p|];
        assert OccursAt(p, s, i + 1);
      } else {
        forall i: nat ensures !OccursAt(p, s, i) {
          if 0 < i && i + |p| <= |s| {
            assert s[1..][i - 1..i - 1 + |p|] == s[i..i + |p|];
            assert !OccursAt(p, s[1..], i - 1);
          }
        }
      }
    }
  }

  /** A name that lacks one of the pattern's characters cannot contain it. */
  lemma NotContainsMissingChar(s: string, p: string, k: nat)
    requires k < |p| && p[k] !in s
    ensures !Contains(s, p)
  {
    ContainsIffOccurs(s, p);
    forall i: nat ensures !OccursAt(p, s, i) {
      if i + |p| <= |s| {
        assert s[i..i + |p|][k] == s[i + k];
      }
    }
  }

  lemma NotContainsLonger(s: string, p: string)
    requires |p| > |s|
    ensures !Contains(s, p)
  {
    ContainsIffOccurs(s, p);
  }

  /**
   * `should_ignore`: the path's file name equals or contains one of the
   * patterns; a path without a file name is kept.
   */
  predicate ShouldIgnore(patterns: seq<string>, path: Path) {
    match FileName(path)
    case None => false
    case Some(name) => exists i {:trigger MatchesPattern(name, patterns[i])} :: 0 <= i < |patterns| && MatchesPattern(name, patterns[i])
  }

  /** The test `should_ignore` applies to the file name for each pattern. */
  predicate MatchesPattern(name: string, pattern: string) {
    name == pattern || Contains(name, pattern)
  }

  /** The equality disjunct adds nothing: ignoring is exactly "some pattern occurs in the file name". */
  lemma ShouldIgnoreIffOccurs(patterns: seq<string>, path: Path)
    ensures ShouldIgnore(patterns, path) <==>
      FileName(path).Some? &&
      exists i: nat, k: nat :: i < |patterns| && OccursAt(patterns[i], FileName(path).value, k)
  {
    if FileName(path).Some? {
      var name := FileName(path).value;
      forall i | 0 <= i < |patterns|
        ensures MatchesPattern(name, patterns[i]) <==> exists k: nat :: OccursAt(patterns[i], name, k)
      {
        ContainsIffOccurs(name, patterns[i]);
        if name == patterns[i] {
          assert OccursAt(patterns[i], name, 0);
        }
      }
    }
  }

  /** A file name that contains none of the patterns is kept. */
  lemma KeptUnlessContained(patterns: seq<string>, path: Path)
    requires FileName(path).Some?
    requires forall i | 0 <= i < |patterns| :: !Contains(FileName(path).value, patterns[i])
    ensures !ShouldIgnore(patterns, path)
  {
  }

  const DefaultIgnorePatterns: seq<string> := [".git", "node_modules", "target", ".DS_Store"]

  /** Adding a pattern keeps everything ignored that was, and ignores exactly the names containing it besides. */
  lemma AddPatternEffect(patterns: seq<string>, pattern: string, path: Path)
    ensures ShouldIgnore(patterns + [pattern], path) <==>
      ShouldIgnore(patterns, path) || (FileName(path).Some? && Contains(FileName(path).value, pattern))
  {
    var ps := patterns + [pattern];
    if FileName(path).Some? {
      var name := FileName(path).value;
      if ShouldIgnore(patterns, path) {
        var i :| 0 <= i < |patterns| && MatchesPattern(name, patterns[i]);
        assert ps[i] == patterns[i];
        assert MatchesPattern(name, ps[i]);
      }
      if Contains(name, pattern) {
        assert ps[|patterns|] == pattern;
        assert MatchesPattern(name, ps[|patterns|]);
      }
      if ShouldIgnore(ps, path) {
        var i :| 0 <= i < |ps| && MatchesPattern(name, ps[i]);
        if i < |patterns| {
          assert ps[i] == patterns[i];
        } else if name == pattern {
          ContainsIffOccurs(name, pattern);
          assert OccursAt(pattern, name, 0);
        }
      }
    }
  }

  /** A path whose file name is one of the patterns is ignored. */
  lemma IgnoredByName(patterns: seq<string>, path: Path, i: nat)
    requires i < |patterns| && FileName(path) == Some(patterns[i])
    ensures ShouldIgnore(patterns, path)
  {
    assert MatchesPattern(patterns[i], patterns[i]);
  }

  /** The cases of the unit test of the default patterns (directory/mod.rs). */
  lemma DefaultPatternIgnoresGit()
    ensures ShouldIgnore(DefaultIgnorePatterns, [Normal(".git")])
    ensures ShouldIgnore(DefaultIgnorePatterns, [RootDir, Normal("path"), Normal("to"), Normal(".git")])
  {
    IgnoredByName(DefaultIgnorePatterns, [Normal(".git")], 0);
    IgnoredByName(DefaultIgnorePatterns, [RootDir, Normal("path"), Normal("to"), Normal(".git")], 0);
  }

  lemma DefaultPatternIgnoresNodeModules()
    ensures ShouldIgnore(DefaultIgnorePatterns, [Normal("node_modules")])
    ensures ShouldIgnore(DefaultIgnorePatterns, [RootDir, Normal("path"), Normal("to"), Normal("node_modules")])
  {
    IgnoredByName(DefaultIgnorePatterns, [Normal("node_modules")], 1);
    IgnoredByName(DefaultIgnorePatterns, [RootDir, Normal("path"), Normal("to"), Normal("node_modules")], 1);
  }

  lemma DefaultPatternKeeps(name: string)
    requires |name| < 4
    ensures !ShouldIgnore(DefaultIgnorePatterns, [Normal(name)])
    ensures !ShouldIgnore(DefaultIgnorePatterns, [RootDir, Normal("path"), Normal("to"), Normal(name)])
  {
    var d := DefaultIgnorePatterns;
    forall i | 0 <= i < |d| ensures !Contains(name, d[i]) {
      NotContainsLonger(name, d[i]);
    }
  }

  /** The unit test of `add_ignore_pattern`: "temp" is kept by the defaults and ignored once added. */
  lemma AddPatternExample()
    ensures !ShouldIgnore(DefaultIgnorePatterns, [Normal("temp")])
    ensures ShouldIgnore(DefaultIgnorePatterns + ["temp"], [Normal("temp")])
  {
    NotContainsMissingChar("temp", ".git", 0);
    NotContainsLonger("temp", "node_modules");
    NotContainsLonger("temp", "target");
    NotContainsLonger("temp", ".DS_Store");
    assert MatchesPattern("temp", (DefaultIgnorePatterns + ["temp"])[4]);
  }

  /** The unit test of `with_ignore_patterns`: the given patterns apply ... */
  lemma CustomPatternExamples()
    ensures ShouldIgnore(["build", "dist"], [Normal("build")])
    ensures ShouldIgnore(["build", "dist"], [Normal("dist")])
  {
    var c: seq<string> := ["build", "dist"];
    assert MatchesPattern("build", c[0]) && MatchesPattern("dist", c[1]);
  }

  /** ... and the default ones no longer do. */
  lemma CustomPatternKeeps()
    ensures !ShouldIgnore(["build", "dist"], [Normal(".git")])
  {
    var c: seq<string> := ["build", "dist"];
    NotContainsLonger(".git", c[0]);
    NotContainsMissingChar(".git", c[1], 0);
    KeptUnlessContained(c, [Normal(".git")]);
  }

  /** With the patterns "build" and "dist", every name lacking a 'b' and an 'i' is kept, "node_modules" among them. */
  lemma CustomPatternKeepsModules(name: string)
    requires 'b' !in name && 'i' !in name
    ensures !ShouldIgnore(["build", "dist"], [Normal(name)])
  {
    var c: seq<string> := ["build", "dist"];
    NotContainsMissingChar(name, c[0], 0);
    NotContainsMissingChar(name, c[1], 1);
    KeptUnlessContained(c, [Normal(name)]);
  }

  // ---------------------------------------------------------------------
  // The tree
  // ---------------------------------------------------------------------

  datatype DirectoryEntry = DirectoryEntry(name: string, path: Path, isDirectory: bool, children: seq<DirectoryEntry>)

  /** Every node of the tree in depth-first pre-order; the children of a file entry are not visited. */
  function Nodes(e: DirectoryEntry): seq<DirectoryEntry>
    decreases e
  {
    [e] + (if e.isDirectory then NodesOf(e.children) else [])
  }

  function NodesOf(es: seq<DirectoryEntry>): seq<DirectoryEntry>
    decreases es
  {
    if es == [] then [] else NodesOf(es[..|es| - 1]) + Nodes(es[|es| - 1])
  }

  lemma NodesOfStep(es: seq<DirectoryEntry>, i: nat)
    requires i < |es|
    ensures NodesOf(es[..i + 1]) == NodesOf(es[..i]) + Nodes(es[i])
  {
    assert es[..i + 1][..i] == es[..i];
  }

  predicate IsFile(e: DirectoryEntry) { !e.isDirectory }

  predicate IsDir(e: DirectoryEntry) { e.isDirectory }

  function Filter(s: seq<DirectoryEntry>, p: DirectoryEntry -> bool): (r: seq<DirectoryEntry>)
    ensures |r| <= |s|
  {
    if s == [] then []
    else
      Filter(s[..|s| - 1], p) + (if p(s[|s| - 1]) then [s[|s| - 1]] else [])
  }

  lemma {:induction false} FilterConcat(s: seq<DirectoryEntry>, t: seq<DirectoryEntry>, p: DirectoryEntry -> bool)
    ensures Filter(s + t, p) == Filter(s, p) + Filter(t, p)
    decreases |t|
  {
    if t != [] {
      var t' := t[..|t| - 1];
      assert (s + t)[..|s + t| - 1] == s + t';
      FilterConcat(s, t', p);
    } else {
      assert s + t == s;
    }
  }

  /** The paths of the file entries that the patterns do not ignore, in order. */
  function ListedFiles(patterns: seq<string>, nodes: seq<DirectoryEntry>): seq<Path> {
    if nodes == [] then []
    else
      var last := nodes[|nodes| - 1];
      ListedFiles(patterns, nodes[..|nodes| - 1]) + (if !last.isDirectory && !ShouldIgnore(patterns, last.path) then [last.path] else [])
  }

  lemma {:induction false} ListedFilesConcat(patterns: seq<string>, s: seq<DirectoryEntry>, t: seq<DirectoryEntry>)
    ensures ListedFiles(patterns, s + t) == ListedFiles(patterns, s) + ListedFiles(patterns, t)
    decreases |t|
  {
    if t != [] {
      assert (s + t)[..|s + t| - 1] == s + t[..|t| - 1];
      ListedFilesConcat(patterns, s, t[..|t| - 1]);
    } else {
      assert s + t == s;
    }
  }

  /** The unignored files below the first `i` of the sibling entries `cs`, listed entry by entry. */
  function ListedPrefix(patterns: seq<string>, cs: seq<DirectoryEntry>, i: nat): seq<Path>
    requires i <= |cs|
    decreases i
  {
    if i == 0 then [] else ListedPrefix(patterns, cs, i - 1) + ListedFiles(patterns, Nodes(cs[i - 1]))
  }

  lemma {:induction false} ListedPrefixAll(patterns: seq<string>, cs: seq<DirectoryEntry>, i: nat)
    requires i <= |cs|
    ensures ListedPrefix(patterns, cs, i) == ListedFiles(patterns, NodesOf(cs[..i]))
    decreases i
  {
    if i > 0 {
      ListedPrefixAll(patterns, cs, i - 1);
      NodesOfStep(cs, i - 1);
      ListedFilesConcat(patterns, NodesOf(cs[..i - 1]), Nodes(cs[i - 1]));
    }
  }

  /** A file entry lists its own path unless ignored; a directory entry lists what its children list. */
  lemma ListedFilesOfEntry(patterns: seq<string>, e: DirectoryEntry)
    ensures !e.isDirectory ==>
      ListedFiles(patterns, Nodes(e)) == if ShouldIgnore(patterns, e.path) then [] else [e.path]
    ensures e.isDirectory ==> ListedFiles(patterns, Nodes(e)) == ListedFiles(patterns, NodesOf(e.children))
  {
    assert ListedFiles(patterns, [e]) == if !e.isDirectory && !ShouldIgnore(patterns, e.path) then [e.path] else [];
    if e.isDirectory {
      ListedFilesConcat(patterns, [e], NodesOf(e.children));
    } else {
      assert Nodes(e) == [e];
    }
  }

  /** Sum of the sizes that `meta` reports for the entries; unreadable ones add nothing. */
  function SizeTotal(files: seq<DirectoryEntry>, meta: Path -> Option<nat>): nat {
    if files == [] then 0
    else SizeTotal(files[..|files| - 1], meta) + meta(files[|files| - 1].path).GetOr(0)
  }

  lemma {:induction false} SizeTotalConcat(s: seq<DirectoryEntry>, t: seq<DirectoryEntry>, meta: Path -> Option<nat>)
    ensures SizeTotal(s + t, meta) == SizeTotal(s, meta) + SizeTotal(t, meta)
    decreases |t|
  {
    if t != [] {
      assert (s + t)[..|s + t| - 1] == s + t[..|t| - 1];
      SizeTotalConcat(s, t[..|t| - 1], meta);
    } else {
      assert s + t == s;
    }
  }

  /** The extension of one entry's path, as a list of zero or one. */
  function OwnExtension(n: DirectoryEntry): (r: seq<string>)
    ensures |r| <= 1
  {
    if Extension(n.path).Some? then [Extension(n.path).value] else []
  }

  /** The extensions of the entries that have one, in order. */
  function ExtensionsOf(files: seq<DirectoryEntry>): (r: seq<string>)
    ensures |r| <= |files|
  {
    if files == [] then []
    else ExtensionsOf(files[..|files| - 1]) + OwnExtension(files[|files| - 1])
  }

  lemma {:induction false} ExtensionsOfConcat(s: seq<DirectoryEntry>, t: seq<DirectoryEntry>)
    ensures ExtensionsOf(s + t) == ExtensionsOf(s) + ExtensionsOf(t)
    decreases |t|
  {
    if t != [] {
      assert (s + t)[..|s + t| - 1] == s + t[..|t| - 1];
      ExtensionsOfConcat(s, t[..|t| - 1]);
    } else {
      assert s + t == s;
    }
  }

  /** The depth of the deepest node below `e`, with `e` at depth 0. */
  function Height(e: DirectoryEntry): nat
    decreases e
  {
    if e.isDirectory then HeightOf(e.children) else 0
  }

  /** The largest `1 + Height(c)` over the children `es`, or 0. */
  function HeightOf(es: seq<DirectoryEntry>): nat
    decreases es
  {
    if es == [] then 0 else Max(HeightOf(es[..|es| - 1]), 1 + Height(es[|es| - 1]))
  }

  /** `e` has a node at depth `d`, counting `e` itself as depth 0. */
  ghost predicate HasNodeAtDepth(e: DirectoryEntry, d: nat)
    decreases e
  {
    d == 0 || (e.isDirectory && exists c :: c in e.children && HasNodeAtDepth(c, d - 1))
  }

  lemma HeightIsDeepest(e: DirectoryEntry)
    ensures HasNodeAtDepth(e, Height(e))
    ensures forall d: nat :: HasNodeAtDepth(e, d) ==> d <= Height(e)
  {
    HeightAttained(e);
    forall d: nat | HasNodeAtDepth(e, d) ensures d <= Height(e) {
      DepthBound(e, d);
    }
  }

  lemma HeightOfIsDeepest(es: seq<DirectoryEntry>)
    ensures HeightOf(es) == 0 || exists c :: c in es && HasNodeAtDepth(c, HeightOf(es) - 1)
    ensures forall c, d: nat :: c in es && HasNodeAtDepth(c, d) ==> d + 1 <= HeightOf(es)
  {
    HeightOfAttained(es);
    forall c, d: nat | c in es && HasNodeAtDepth(c, d) ensures d + 1 <= HeightOf(es) {
      ChildDepthBound(es, c, d);
    }
  }

  /** A node at depth `d` below `e` is no deeper than the height of `e`. */
  lemma {:induction false} DepthBound(e: DirectoryEntry, d: nat)
    requires HasNodeAtDepth(e, d)
    ensures d <= Height(e)
    decreases e, 1
  {
    if d > 0 {
      var c :| c in e.children && HasNodeAtDepth(c, d - 1);
      ChildDepthBound(e.children, c, d - 1);
    }
  }

  /** A node at depth `d` below one of the children `es` is less deep than their height. */
  lemma {:induction false} ChildDepthBound(es: seq<DirectoryEntry>, c: DirectoryEntry, d: nat)
    requires c in es && HasNodeAtDepth(c, d)
    ensures d + 1 <= HeightOf(es)
    decreases es, 0
  {
    var init, last := es[..|es| - 1], es[|es| - 1];
    assert es == init + [last];
    assert HeightOf(es) == Max(HeightOf(init), 1 + Height(last));
    if c == last {
      DepthBound(last, d);
    } else {
      assert c in init;
      ChildDepthBound(init, c, d);
    }
  }

  /** The height of `e` is the depth of some node below it. */
  lemma {:induction false} HeightAttained(e: DirectoryEntry)
    ensures HasNodeAtDepth(e, Height(e))
    decreases e, 1
  {
    if e.isDirectory && Height(e) > 0 {
      HeightOfAttained(e.children);
    }
  }

  /** When the children `es` have a positive height, one of them has a node one level less deep. */
  lemma {:induction false} HeightOfAttained(es: seq<DirectoryEntry>)
    ensures HeightOf(es) > 0 ==> exists c :: c in es && HasNodeAtDepth(c, HeightOf(es) - 1)
    decreases es, 0
  {
    if es != [] {
      var init, last := es[..|es| - 1], es[|es| - 1];
      assert es == init + [last];
      assert HeightOf(es) == Max(HeightOf(init), 1 + Height(last));
      if HeightOf(es) == 1 + Height(last) {
        HeightAttained(last);
        assert last in es;
      } else {
        assert HeightOf(es) == HeightOf(init);
        HeightOfAttained(init);
        var c :| c in init && HasNodeAtDepth(c, HeightOf(init) - 1);
        assert c in es;
      }
    }
  }

  // ---------------------------------------------------------------------
  // Statistics
  // ---------------------------------------------------------------------

  datatype DirectoryStatistics = DirectoryStatistics(
    totalFiles: nat,
    totalDirectories: nat,
    totalSizeBytes: nat,
    maxDepth: nat,
    fileTypes: map<string, nat>)

  const EmptyStatistics := DirectoryStatistics(0, 0, 0, 0, map[])

  /** Count of `key` in a histogram, 0 when absent. */
  function Count(m: map<string, nat>, key: string): nat {
    if key in m then m[key] else 0
  }

  /** The histogram `m` with one more occurrence of each of `keys`. */
  function Tally(m: map<string, nat>, keys: seq<string>): map<string, nat> {
    if keys == [] then m
    else
      var m' := Tally(m, keys[..|keys| - 1]);
      var k := keys[|keys| - 1];
      m'[k := Count(m', k) + 1]
  }

  lemma {:induction false} TallyConcat(m: map<string, nat>, s: seq<string>, t: seq<string>)
    ensures Tally(m, s + t) == Tally(Tally(m, s), t)
    decreases |t|
  {
    if t != [] {
      assert (s + t)[..|s + t| - 1] == s + t[..|t| - 1];
      TallyConcat(m, s, t[..|t| - 1]);
    } else {
      assert s + t == s;
    }
  }

  /** A tally adds to each count the number of occurrences of the key, and keys appear exactly when counted. */
  lemma {:induction false} TallyCounts(m: map<string, nat>, keys: seq<string>)
    ensures forall k :: Count(Tally(m, keys), k) == Count(m, k) + multiset(keys)[k]
    ensures Tally(m, keys).Keys == m.Keys + set k | k in keys
    decreases |keys|
  {
    if keys != [] {
      var init := keys[..|keys| - 1];
      assert keys == init + [keys[|keys| - 1]];
      TallyCounts(m, init);
    }
  }

  /** The count of one node on its own: a directory, or a file with its size and its extension. */
  function AddNode(st: DirectoryStatistics, n: DirectoryEntry, meta: Path -> Option<nat>): DirectoryStatistics {
    if n.isDirectory then st.(totalDirectories := st.totalDirectories + 1)
    else
      var ext := Extension(n.path);
      st.(totalFiles := st.totalFiles + 1,
          totalSizeBytes := st.totalSizeBytes + meta(n.path).GetOr(0),
          fileTypes := if ext.Some? then st.fileTypes[ext.value := Count(st.fileTypes, ext.value) + 1]
                       else st.fileTypes)
  }

  /**
   * `calculate_statistics_recursive`: the statistics `st`, updated for the
   * subtree `e` standing at depth `depth`.
   */
  function Accumulate(st: DirectoryStatistics, e: DirectoryEntry, depth: nat, meta: Path -> Option<nat>): DirectoryStatistics
    decreases e
  {
    var here := AddNode(st.(maxDepth := Max(st.maxDepth, depth)), e, meta);
    if e.isDirectory then AccumulateChildren(here, e.children, depth, meta) else here
  }

  /** The statistics `st`, updated in turn for the children `es` of a directory at depth `depth`. */
  function AccumulateChildren(st: DirectoryStatistics, es: seq<DirectoryEntry>, depth: nat, meta: Path -> Option<nat>): DirectoryStatistics
    decreases es
  {
    if es == [] then st
    else Accumulate(AccumulateChildren(st, es[..|es| - 1], depth, meta), es[|es| - 1], depth + 1, meta)
  }

  /** `get_statistics`: the statistics of the whole tree below the root `e`. */
  function Statistics(e: DirectoryEntry, meta: Path -> Option<nat>): DirectoryStatistics {
    Accumulate(EmptyStatistics, e, 0, meta)
  }

  /** The reference definition: the counts of `st` updated for each of `nodes` in turn, regardless of the tree. */
  function CountNodes(st: DirectoryStatistics, nodes: seq<DirectoryEntry>, meta: Path -> Option<nat>): DirectoryStatistics {
    if nodes == [] then st
    else AddNode(CountNodes(st, nodes[..|nodes| - 1], meta), nodes[|nodes| - 1], meta)
  }

  /** Counting `a` and then `b` is counting `a + b`. */
  lemma {:induction false} CountNodesConcat(st: DirectoryStatistics, a: seq<DirectoryEntry>, b: seq<DirectoryEntry>, meta: Path -> Option<nat>)
    ensures CountNodes(CountNodes(st, a, meta), b, meta) == CountNodes(st, a + b, meta)
    decreases |b|
  {
    if b == [] {
      assert a + b == a;
    } else {
      var init := b[..|b| - 1];
      CountNodesConcat(st, a, init, meta);
      assert (a + b)[..|a + b| - 1] == a + init;
    }
  }

  /** `a` and `b` agree on every count, whatever their depths. */
  predicate SameCounts(a: DirectoryStatistics, b: DirectoryStatistics) {
    && a.totalFiles == b.totalFiles && a.totalDirectories == b.totalDirectories
    && a.totalSizeBytes == b.totalSizeBytes && a.fileTypes == b.fileTypes
  }

  /** Adding a node keeps the depth, and its counts depend only on the counts before. */
  lemma AddNodeCounts(a: DirectoryStatistics, b: DirectoryStatistics, n: DirectoryEntry, meta: Path -> Option<nat>)
    requires SameCounts(a, b)
    ensures SameCounts(AddNode(a, n, meta), AddNode(b, n, meta))
    ensures AddNode(a, n, meta).maxDepth == a.maxDepth
  {
  }

  /** So do the counts of a whole sequence of nodes. */
  lemma {:induction false} CountNodesCounts(a: DirectoryStatistics, b: DirectoryStatistics, nodes: seq<DirectoryEntry>, meta: Path -> Option<nat>)
    requires SameCounts(a, b)
    ensures SameCounts(CountNodes(a, nodes, meta), CountNodes(b, nodes, meta))
    decreases |nodes|
  {
    if nodes != [] {
      var init := nodes[..|nodes| - 1];
      CountNodesCounts(a, b, init, meta);
      AddNodeCounts(CountNodes(a, init, meta), CountNodes(b, init, meta), nodes[|nodes| - 1], meta);
    }
  }

  /** Raising a depth to that of one more child is raising it to the height of all the children. */
  lemma MaxDepthStep(d: nat, depth: nat, h0: nat, h1: nat, hs: nat)
    requires hs == Max(h0, 1 + h1)
    ensures Max(Max(d, depth + h0), depth + 1 + h1) == Max(d, depth + hs)
  {
  }

  /** The fold over the tree raises the depth to that of its deepest node. */
  lemma {:induction false} AccumulateDepth(st: DirectoryStatistics, e: DirectoryEntry, depth: nat, meta: Path -> Option<nat>)
    ensures Accumulate(st, e, depth, meta).maxDepth == Max(st.maxDepth, depth + Height(e))
    decreases e
  {
    var lifted := st.(maxDepth := Max(st.maxDepth, depth));
    var here := AddNode(lifted, e, meta);
    AddNodeCounts(lifted, lifted, e, meta);
    if e.isDirectory {
      AccumulateChildrenDepth(here, e.children, depth, meta);
    }
  }

  lemma {:induction false} AccumulateChildrenDepth(st: DirectoryStatistics, es: seq<DirectoryEntry>, depth: nat, meta: Path -> Option<nat>)
    requires st.maxDepth >= depth
    ensures AccumulateChildren(st, es, depth, meta).maxDepth == Max(st.maxDepth, depth + HeightOf(es))
    decreases es
  {
    if es != [] {
      var init, last := es[..|es| - 1], es[|es| - 1];
      var mid := AccumulateChildren(st, init, depth, meta);
      AccumulateChildrenDepth(st, init, depth, meta);
      AccumulateDepth(mid, last, depth + 1, meta);
      assert AccumulateChildren(st, es, depth, meta) == Accumulate(mid, last, depth + 1, meta);
      assert HeightOf(es) == Max(HeightOf(init), 1 + Height(last));
      MaxDepthStep(st.maxDepth, depth, HeightOf(init), Height(last), HeightOf(es));
    }
  }

  /** The fold over the tree counts its nodes in depth-first order. */
  lemma {:induction false} AccumulateCounts(st: DirectoryStatistics, e: DirectoryEntry, depth: nat, meta: Path -> Option<nat>)
    ensures SameCounts(Accumulate(st, e, depth, meta), CountNodes(st, Nodes(e), meta))
    decreases e
  {
    var lifted := st.(maxDepth := Max(st.maxDepth, depth));
    var here := AddNode(lifted, e, meta);
    assert [e][..0] == [];
    assert CountNodes(st, [e][..0], meta) == st;
    var one := CountNodes(st, [e], meta);
    assert one == AddNode(st, e, meta);
    AddNodeCounts(lifted, st, e, meta);
    if e.isDirectory {
      var below := NodesOf(e.children);
      AccumulateChildrenCounts(here, e.children, depth, meta);
      CountNodesCounts(here, one, below, meta);
      CountNodesConcat(st, [e], below, meta);
      assert Nodes(e) == [e] + below;
    } else {
      assert Nodes(e) == [e];
    }
  }

  lemma {:induction false} AccumulateChildrenCounts(st: DirectoryStatistics, es: seq<DirectoryEntry>, depth: nat, meta: Path -> Option<nat>)
    ensures SameCounts(AccumulateChildren(st, es, depth, meta), CountNodes(st, NodesOf(es), meta))
    decreases es
  {
    if es != [] {
      var init, last := es[..|es| - 1], es[|es| - 1];
      var mid := AccumulateChildren(st, init, depth, meta);
      var counted := CountNodes(st, NodesOf(init), meta);
      AccumulateChildrenCounts(st, init, depth, meta);
      AccumulateCounts(mid, last, depth + 1, meta);
      CountNodesCounts(mid, counted, Nodes(last), meta);
      CountNodesConcat(st, NodesOf(init), Nodes(last), meta);
      assert NodesOf(es) == NodesOf(init) + Nodes(last);
      assert AccumulateChildren(st, es, depth, meta) == Accumulate(mid, last, depth + 1, meta);
    } else {
      assert CountNodes(st, NodesOf(es), meta) == st;
    }
  }

  /** The fold over the tree counts its nodes in depth-first order and raises the depth to that of its deepest node. */
  lemma AccumulateIsNodes(st: DirectoryStatistics, e: DirectoryEntry, depth: nat, meta: Path -> Option<nat>)
    ensures Accumulate(st, e, depth, meta) == CountNodes(st, Nodes(e), meta).(maxDepth := Max(st.maxDepth, depth + Height(e)))
  {
    AccumulateCounts(st, e, depth, meta);
    AccumulateDepth(st, e, depth, meta);
  }

  /** What the reference definition counts: the files and directories among `nodes`, the files' sizes and their extensions. */
  lemma CountNodesMeaning(st: DirectoryStatistics, nodes: seq<DirectoryEntry>, meta: Path -> Option<nat>)
    ensures var r := CountNodes(st, nodes, meta); var files := Filter(nodes, IsFile);
      && r.totalFiles == st.totalFiles + |files|
      && r.totalDirectories == st.totalDirectories + |Filter(nodes, IsDir)|
      && r.totalSizeBytes == st.totalSizeBytes + SizeTotal(files, meta)
      && r.maxDepth == st.maxDepth
      && r.fileTypes == Tally(st.fileTypes, ExtensionsOf(files))
  {
    CountNodesKinds(st, nodes, meta);
    CountNodesSize(st, nodes, meta);
    CountNodesTypes(st, nodes, meta);
  }

  lemma {:induction false} CountNodesKinds(st: DirectoryStatistics, nodes: seq<DirectoryEntry>, meta: Path -> Option<nat>)
    ensures var r := CountNodes(st, nodes, meta);
      && r.totalFiles == st.totalFiles + |Filter(nodes, IsFile)|
      && r.totalDirectories == st.totalDirectories + |Filter(nodes, IsDir)|
      && r.maxDepth == st.maxDepth
    decreases |nodes|
  {
    if nodes != [] {
      CountNodesKinds(st, nodes[..|nodes| - 1], meta);
    }
  }

  lemma {:induction false} CountNodesSize(st: DirectoryStatistics, nodes: seq<DirectoryEntry>, meta: Path -> Option<nat>)
    ensures CountNodes(st, nodes, meta).totalSizeBytes == st.totalSizeBytes + SizeTotal(Filter(nodes, IsFile), meta)
    decreases |nodes|
  {
    if nodes != [] {
      var init, last := nodes[..|nodes| - 1], nodes[|nodes| - 1];
      CountNodesSize(st, init, meta);
      var fi := Filter(init, IsFile);
      assert CountNodes(st, nodes, meta) == AddNode(CountNodes(st, init, meta), last, meta);
      if last.isDirectory {
        assert Filter(nodes, IsFile) == fi;
      } else {
        var files := fi + [last];
        assert Filter(nodes, IsFile) == files;
        assert files[..|files| - 1] == fi;
        assert SizeTotal(files, meta) == SizeTotal(fi, meta) + meta(last.path).GetOr(0);
      }
    }
  }

  /** A file adds its own extension, if any, to the histogram. */
  lemma AddFileTypes(st: DirectoryStatistics, n: DirectoryEntry, meta: Path -> Option<nat>)
    requires !n.isDirectory
    ensures AddNode(st, n, meta).fileTypes == Tally(st.fileTypes, OwnExtension(n))
  {
    if Extension(n.path).Some? {
      assert OwnExtension(n)[..0] == [];
    }
  }

  lemma FilterSnoc(s: seq<DirectoryEntry>, e: DirectoryEntry, p: DirectoryEntry -> bool)
    ensures Filter(s + [e], p) == Filter(s, p) + (if p(e) then [e] else [])
  {
    assert (s + [e])[..|s|] == s;
  }

  lemma ExtensionsOfSnoc(s: seq<DirectoryEntry>, e: DirectoryEntry)
    ensures ExtensionsOf(s + [e]) == ExtensionsOf(s) + OwnExtension(e)
  {
    assert (s + [e])[..|s|] == s;
  }

  lemma {:induction false} CountNodesTypes(st: DirectoryStatistics, nodes: seq<DirectoryEntry>, meta: Path -> Option<nat>)
    ensures CountNodes(st, nodes, meta).fileTypes == Tally(st.fileTypes, ExtensionsOf(Filter(nodes, IsFile)))
    decreases |nodes|
  {
    if nodes != [] {
      var init, last := nodes[..|nodes| - 1], nodes[|nodes| - 1];
      assert nodes == init + [last];
      CountNodesTypes(st, init, meta);
      FilterSnoc(init, last, IsFile);
      var r0 := CountNodes(st, init, meta);
      var fi := Filter(init, IsFile);
      assert CountNodes(st, nodes, meta) == AddNode(r0, last, meta);
      if last.isDirectory {
        assert Filter(nodes, IsFile) == fi;
      } else {
        assert Filter(nodes, IsFile) == fi + [last];
        AddFileTypes(r0, last, meta);
        ExtensionsOfSnoc(fi, last);
        TallyConcat(st.fileTypes, ExtensionsOf(fi), OwnExtension(last));
      }
    }
  }

  /** `get_statistics` counts the nodes of the tree in depth-first order, and its depth is the tree's height. */
  lemma StatisticsAreCounts(e: DirectoryEntry, meta: Path -> Option<nat>)
    ensures Statistics(e, meta) == CountNodes(EmptyStatistics, Nodes(e), meta).(maxDepth := Height(e))
  {
    AccumulateIsNodes(EmptyStatistics, e, 0, meta);
  }

  /** The totals count the files and the directories of the tree, the root included, and the bytes of its files. */
  lemma StatisticsTotals(e: DirectoryEntry, meta: Path -> Option<nat>)
    ensures var st := Statistics(e, meta); var files := Filter(Nodes(e), IsFile);
      && st.totalFiles == |files|
      && st.totalDirectories == |Filter(Nodes(e), IsDir)|
      && st.totalFiles + st.totalDirectories == |Nodes(e)|
      && st.totalSizeBytes == SizeTotal(files, meta)
  {
    StatisticsAreCounts(e, meta);
    CountNodesMeaning(EmptyStatistics, Nodes(e), meta);
    FilterPartition(Nodes(e));
  }

  /** The maximum depth is that of the deepest node of the tree. */
  lemma StatisticsDepth(e: DirectoryEntry, meta: Path -> Option<nat>)
    ensures var st := Statistics(e, meta);
      && st.maxDepth == Height(e)
      && HasNodeAtDepth(e, st.maxDepth)
      && (forall d: nat :: HasNodeAtDepth(e, d) ==> d <= st.maxDepth)
  {
    StatisticsAreCounts(e, meta);
    HeightIsDeepest(e);
  }

  /** The histogram counts each extension as often as the files of the tree have it, and has no other keys. */
  lemma StatisticsTypes(e: DirectoryEntry, meta: Path -> Option<nat>)
    ensures var st := Statistics(e, meta); var exts := ExtensionsOf(Filter(Nodes(e), IsFile));
      && (forall ext :: Count(st.fileTypes, ext) == multiset(exts)[ext])
      && st.fileTypes.Keys == set ext | ext in exts
      && |exts| <= st.totalFiles
  {
    StatisticsHistogram(e, meta);
    StatisticsTotals(e, meta);
    TallyCounts(map[], ExtensionsOf(Filter(Nodes(e), IsFile)));
  }

  /** The histogram is the tally, from empty, of the extensions of the tree's files in depth-first order. */
  lemma StatisticsHistogram(e: DirectoryEntry, meta: Path -> Option<nat>)
    ensures Statistics(e, meta).fileTypes == Tally(map[], ExtensionsOf(Filter(Nodes(e), IsFile)))
  {
    StatisticsAreCounts(e, meta);
    CountNodesTypes(EmptyStatistics, Nodes(e), meta);
  }

  lemma {:induction false} FilterPartition(s: seq<DirectoryEntry>)
    ensures |Filter(s, IsFile)| + |Filter(s, IsDir)| == |s|
    decreases |s|
  {
    if s != [] {
      FilterPartition(s[..|s| - 1]);
    }
  }

  // ---------------------------------------------------------------------
  // The file system, as read_dir and metadata would report it
  // ---------------------------------------------------------------------

  /** A file, or a directory whose listing can or cannot be read. */
  datatype FsNode =
    | FsFile(name: string)
    | FsDir(name: string, readable: bool, items: seq<FsItem>)

  /** One result of iterating a directory listing: an unreadable entry, or an entry whose metadata may fail. */
  datatype FsItem = Unreadable | Item(node: FsNode, metadataOk: bool)

  datatype ParseError = PathDoesNotExist | NotADirectory | ReadDirFailed | EntryFailed | MetadataFailed

  /** `parse_directory_recursive`: the entry for the directory `node` at `path`, or the first error met. */
  function Parse(patterns: seq<string>, node: FsNode, path: Path, name: string): Result<DirectoryEntry, ParseError>
    requires node.FsDir?
    decreases node.items, 1
  {
    if !node.readable then Err(ReadDirFailed)
    else match ParseItems(patterns, node.items, path)
      case Err(e) => Err(e)
      case Ok(cs) => Ok(DirectoryEntry(name, path, true, cs))
  }

  function ParseItems(patterns: seq<string>, items: seq<FsItem>, dir: Path): Result<seq<DirectoryEntry>, ParseError>
    decreases items, 0
  {
    if items == [] then Ok([])
    else
      match items[0]
      case Unreadable => Err(EntryFailed)
      case Item(node, metadataOk) =>
        var path := Join(dir, node.name);
        if ShouldIgnore(patterns, path) then ParseItems(patterns, items[1..], dir)
        else if !metadataOk then Err(MetadataFailed)
        else
          var name := FileName(path).GetOr("unknown");
          assert items[0] in items && node < items[0];
          var head := if node.FsDir? then Parse(patterns, node, path, name) else Ok(DirectoryEntry(name, path, false, []));
          match head
          case Err(e) => Err(e)
          case Ok(c) =>
            match ParseItems(patterns, items[1..], dir)
            case Err(e) => Err(e)
            case Ok(cs) => Ok([c] + cs)
  }

  function Prepend(cs: seq<DirectoryEntry>, r: Result<seq<DirectoryEntry>, ParseError>): Result<seq<DirectoryEntry>, ParseError> {
    match r
    case Ok(rest) => Ok(cs + rest)
    case Err(e) => Err(e)
  }

  lemma PrependNothing(r: Result<seq<DirectoryEntry>, ParseError>)
    ensures Prepend([], r) == r
  {
    if r.Ok? {
      assert [] + r.value == r.value;
    }
  }

  lemma PrependAssoc(cs: seq<DirectoryEntry>, c: DirectoryEntry, r: Result<seq<DirectoryEntry>, ParseError>)
    ensures Prepend(cs, Prepend([c], r)) == Prepend(cs + [c], r)
  {
    if r.Ok? {
      assert cs + ([c] + r.value) == (cs + [c]) + r.value;
    }
  }

  /** Files have no children, and each child's path is its parent's path joined with its name. */
  ghost predicate WellFormed(e: DirectoryEntry)
    decreases e
  {
    (!e.isDirectory ==> e.children == []) &&
    forall c :: c in e.children ==> c.path == Join(e.path, c.name) && WellFormed(c)
  }

  /** No entry below `e` has a path the patterns ignore. */
  ghost predicate Unignored(patterns: seq<string>, e: DirectoryEntry)
    decreases e
  {
    forall c :: c in e.children ==> !ShouldIgnore(patterns, c.path) && Unignored(patterns, c)
  }

  lemma {:induction false} ParseWellFormed(patterns: seq<string>, node: FsNode, path: Path, name: string)
    requires node.FsDir?
    ensures Parse(patterns, node, path, name).Ok? ==>
      var e := Parse(patterns, node, path, name).value;
      e.isDirectory && e.name == name && e.path == path && WellFormed(e) && Unignored(patterns, e)
    decreases node.items, 1
  {
    if node.readable {
      ParseItemsWellFormed(patterns, node.items, path);
    }
  }

  lemma {:induction false} ParseItemsWellFormed(patterns: seq<string>, items: seq<FsItem>, dir: Path)
    ensures ParseItems(patterns, items, dir).Ok? ==>
      forall c :: c in ParseItems(patterns, items, dir).value ==>
        c.path == Join(dir, c.name) && !ShouldIgnore(patterns, c.path) && WellFormed(c) && Unignored(patterns, c)
    decreases items, 0
  {
    if items != [] && items[0].Item? {
      assert items[0] in items;
      var node := items[0].node;
      var path := Join(dir, node.name);
      ParseItemsWellFormed(patterns, items[1..], dir);
      if !ShouldIgnore(patterns, path) && items[0].metadataOk {
        var name := FileName(path).GetOr("unknown");
        assert name == node.name;
        if node.FsDir? {
          assert node < items[0];
          ParseWellFormed(patterns, node, path, name);
        }
      }
    }
  }

  /** The listing items that `parse_directory_recursive` turns into children: each readable item whose path is not ignored, in listing order. */
  function KeptNodes(patterns: seq<string>, items: seq<FsItem>, dir: Path): (r: seq<FsNode>)
    ensures |r| <= |items|
  {
    if items == [] then []
    else
      var rest := KeptNodes(patterns, items[1..], dir);
      if items[0].Item? && !ShouldIgnore(patterns, Join(dir, items[0].node.name)) then [items[0].node] + rest else rest
  }

  /**
   * The child built from the listing item `node` of the directory at `dir`: it has the item's
   * name and joined path, is a directory exactly when the item is one, holds the parsed
   * subtree when it is a directory and no children when it is a file.
   */
  predicate ChildOf(patterns: seq<string>, c: DirectoryEntry, node: FsNode, dir: Path) {
    var path := Join(dir, node.name);
    && c.name == node.name && c.path == path && c.isDirectory == node.FsDir?
    && (if node.FsDir? then Parse(patterns, node, path, node.name) == Ok(c) else c.children == [])
  }

  /**
   * A listing parses only when every item is readable and every item that is not ignored has
   * metadata; then the children are the kept items, one each and in listing order.
   */
  lemma {:induction false} ParseItemsChildren(patterns: seq<string>, items: seq<FsItem>, dir: Path)
    ensures ParseItems(patterns, items, dir).Ok? ==>
      forall i :: 0 <= i < |items| ==>
        items[i].Item? && (!ShouldIgnore(patterns, Join(dir, items[i].node.name)) ==> items[i].metadataOk)
    ensures ParseItems(patterns, items, dir).Ok? ==>
      var cs := ParseItems(patterns, items, dir).value;
      var kept := KeptNodes(patterns, items, dir);
      |cs| == |kept| && forall i :: 0 <= i < |cs| ==> ChildOf(patterns, cs[i], kept[i], dir)
    decreases items
  {
    if items != [] && ParseItems(patterns, items, dir).Ok? {
      var node := items[0].node;
      var path := Join(dir, node.name);
      ParseItemsChildren(patterns, items[1..], dir);
      var cs := ParseItems(patterns, items, dir).value;
      var rest := ParseItems(patterns, items[1..], dir);
      var kept := KeptNodes(patterns, items, dir);
      assert rest.Ok?;
      forall i | 0 <= i < |items|
        ensures items[i].Item? && (!ShouldIgnore(patterns, Join(dir, items[i].node.name)) ==> items[i].metadataOk)
      {
        if i > 0 {
          assert items[i] == items[1..][i - 1];
        }
      }
      if ShouldIgnore(patterns, path) {
        assert cs == rest.value && kept == KeptNodes(patterns, items[1..], dir);
      } else {
        var name := FileName(path).GetOr("unknown");
        assert name == node.name;
        assert items[0] in items && node < items[0];
        var head := if node.FsDir? then Parse(patterns, node, path, name) else Ok(DirectoryEntry(name, path, false, []));
        assert head.Ok? && cs == [head.value] + rest.value;
        if node.FsDir? {
          assert head.value.name == name && head.value.path == path && head.value.isDirectory;
        }
        assert ChildOf(patterns, cs[0], node, dir);
        assert kept == [node] + KeptNodes(patterns, items[1..], dir);
        forall i | 0 < i < |cs|
          ensures ChildOf(patterns, cs[i], kept[i], dir)
        {
          assert cs[i] == rest.value[i - 1] && kept[i] == KeptNodes(patterns, items[1..], dir)[i - 1];
        }
      }
    }
  }

  /** A directory parses only when its listing is readable, and then its children are those of `ParseItemsChildren`. */
  lemma ParseChildren(patterns: seq<string>, node: FsNode, path: Path, name: string)
    requires node.FsDir?
    ensures Parse(patterns, node, path, name).Ok? ==>
      var e := Parse(patterns, node, path, name).value;
      var kept := KeptNodes(patterns, node.items, path);
      && node.readable && e.isDirectory && e.name == name && e.path == path
      && |e.children| == |kept| && forall i :: 0 <= i < |kept| ==> ChildOf(patterns, e.children[i], kept[i], path)
  {
    ParseItemsChildren(patterns, node.items, path);
  }

  // ---------------------------------------------------------------------
  // DirectoryParser
  // ---------------------------------------------------------------------

  class DirectoryParser {
    var ignorePatterns: seq<string>

    /** `new`: the default patterns. */
    constructor ()
      ensures ignorePatterns == DefaultIgnorePatterns
    {
      ignorePatterns := DefaultIgnorePatterns;
    }

    /** `with_ignore_patterns`: exactly the given patterns. */
    constructor WithIgnorePatterns(patterns: seq<string>)
      ensures ignorePatterns == patterns
    {
      ignorePatterns := patterns;
    }

    method AddIgnorePattern(pattern: string)
      modifies this
      ensures ignorePatterns == old(ignorePatterns) + [pattern]
    {
      ignorePatterns := ignorePatterns + [pattern];
    }

    /** `get_all_files`: the unignored file entries of the tree, in depth-first order. */
    method GetAllFiles(entry: DirectoryEntry) returns (files: seq<Path>)
      ensures files == ListedFiles(ignorePatterns, Nodes(entry))
    {
      files := CollectFilesRecursive(entry, []);
    }

    /** `collect_files_recursive`: `files`, followed by the unignored file entries below `entry`. */
    method CollectFilesRecursive(entry: DirectoryEntry, files: seq<Path>) returns (out: seq<Path>)
      ensures out == files + ListedFiles(ignorePatterns, Nodes(entry))
      decreases entry
    {
      ListedFilesOfEntry(ignorePatterns, entry);
      if !entry.isDirectory {
        if !ShouldIgnore(ignorePatterns, entry.path) {
          out := files + [entry.path];
        } else {
          out := files;
        }
      } else {
        var cs := entry.children;
        out := files;
        var i := 0;
        while i < |cs|
          invariant 0 <= i <= |cs|
          invariant out == files + ListedPrefix(ignorePatterns, cs, i)
        {
          assert cs[i] in entry.children;
          AppendAssoc(files, ListedPrefix(ignorePatterns, cs, i), ListedFiles(ignorePatterns, Nodes(cs[i])));
          out := CollectFilesRecursive(cs[i], out);
          i := i + 1;
        }
        ListedPrefixAll(ignorePatterns, cs, i);
        assert cs[..i] == cs;
      }
    }

    method GetStatistics(entry: DirectoryEntry, meta: Path -> Option<nat>) returns (stats: DirectoryStatistics)
      ensures stats == Statistics(entry, meta)
    {
      stats := CalculateStatisticsRecursive(entry, EmptyStatistics, 0, meta);
    }

    method CalculateStatisticsRecursive(entry: DirectoryEntry, stats: DirectoryStatistics, depth: nat, meta: Path -> Option<nat>)
      returns (out: DirectoryStatistics)
      ensures out == Accumulate(stats, entry, depth, meta)
      decreases entry
    {
      out := stats;
      if depth > out.maxDepth {
        out := out.(maxDepth := depth);
      }
      if entry.isDirectory {
        out := out.(totalDirectories := out.totalDirectories + 1);
        var cs := entry.children;
        ghost var base := out;
        assert base == AddNode(stats.(maxDepth := Max(stats.maxDepth, depth)), entry, meta);
        var i := 0;
        while i < |cs|
          invariant 0 <= i <= |cs|
          invariant out == AccumulateChildren(base, cs[..i], depth, meta)
        {
          assert cs[i] in entry.children;
          out := CalculateStatisticsRecursive(cs[i], out, depth + 1, meta);
          assert cs[..i + 1][..i] == cs[..i];
          i := i + 1;
        }
        assert cs[..i] == cs;
      } else {
        out := out.(totalFiles := out.totalFiles + 1);
        out := out.(totalSizeBytes := out.totalSizeBytes + meta(entry.path).GetOr(0));
        var ext := Extension(entry.path);
        if ext.Some? {
          out := out.(fileTypes := out.fileTypes[ext.value := Count(out.fileTypes, ext.value) + 1]);
        }
      }
    }

    /** `parse_directory`: the tree under `rootPath`, where `root` is what the file system holds there. */
    method ParseDirectory(rootPath: Path, root: Option<FsNode>) returns (r: Result<DirectoryEntry, ParseError>)
      ensures root.None? ==> r == Err(PathDoesNotExist)
      ensures root.Some? && root.value.FsFile? ==> r == Err(NotADirectory)
      ensures root.Some? && root.value.FsDir? ==>
        r == Parse(ignorePatterns, root.value, rootPath, FileName(rootPath).GetOr("root"))
    {
      if root.None? {
        return Err(PathDoesNotExist);
      }
      if !root.value.FsDir? {
        return Err(NotADirectory);
      }
      var rootName := FileName(rootPath).GetOr("root");
      r := ParseDirectoryRecursive(root.value, rootPath, rootName);
    }

    method ParseDirectoryRecursive(dir: FsNode, dirPath: Path, dirName: string) returns (r: Result<DirectoryEntry, ParseError>)
      requires dir.FsDir?
      ensures r == Parse(ignorePatterns, dir, dirPath, dirName)
      decreases dir
    {
      if !dir.readable {
        return Err(ReadDirFailed);
      }
      var items := dir.items;
      var children: seq<DirectoryEntry> := [];
      var i := 0;
      assert items[0..] == items;
      PrependNothing(ParseItems(ignorePatterns, items, dirPath));
      while i < |items|
        invariant 0 <= i <= |items|
        invariant ParseItems(ignorePatterns, items, dirPath) == Prepend(children, ParseItems(ignorePatterns, items[i..], dirPath))
      {
        ghost var rest := ParseItems(ignorePatterns, items[i + 1..], dirPath);
        assert items[i..][0] == items[i] && items[i..][1..] == items[i + 1..];
        if items[i].Unreadable? {
          assert ParseItems(ignorePatterns, items[i..], dirPath) == Err(EntryFailed);
          return Err(EntryFailed);
        }
        var node := items[i].node;
        var path := Join(dirPath, node.name);
        if ShouldIgnore(ignorePatterns, path) {
          assert ParseItems(ignorePatterns, items[i..], dirPath) == rest;
          i := i + 1;
          continue;
        }
        if !items[i].metadataOk {
          assert ParseItems(ignorePatterns, items[i..], dirPath) == Err(MetadataFailed);
          return Err(MetadataFailed);
        }
        var name := FileName(path).GetOr("unknown");
        if node.FsDir? {
          assert items[i] in dir.items;
          var sub := ParseDirectoryRecursive(node, path, name);
          if sub.Err? {
            assert ParseItems(ignorePatterns, items[i..], dirPath) == Err(sub.error);
            return Err(sub.error);
          }
          assert ParseItems(ignorePatterns, items[i..], dirPath) == Prepend([sub.value], rest);
          PrependAssoc(children, sub.value, rest);
          children := children + [sub.value];
        } else {
          var file := DirectoryEntry(name, path, false, []);
          assert ParseItems(ignorePatterns, items[i..], dirPath) == Prepend([file], rest);
          PrependAssoc(children, file, rest);
          children := children + [file];
        }
        i := i + 1;
      }
      assert items[i..] == [];
      assert children + [] == children;
      assert ParseItems(ignorePatterns, items, dirPath) == Ok(children);
      r := Ok(DirectoryEntry(dirName, dirPath, true, children));
    }
  }
}
