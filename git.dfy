/**
 * The repository handler (src/git/mod.rs): its one setting and the URL
 * check run before cloning. Cloning, clean-up and metadata go through git2
 * and the file system and are not part of this model.
 */
module Git {

  /** Whether the clone is kept on disk after the session. */
  datatype GitHandler = GitHandler(keepRepository: bool)

  /** `GitHandler::new`. */
  function NewHandler(keepRepository: bool): (h: GitHandler)
    ensures h.keepRepository == keepRepository
  {
    GitHandler(keepRepository)
  }

  /** The alternatives of the anchored group at the head of the URL pattern. */
  const UrlPrefixes: seq<string> := ["https://", "git@", "file://", "/"]

  predicate StartsWith(s: string, p: string) {
    |p| <= |s| && s[..|p|] == p
  }

  /**
   * `validate_url`: the URL begins with one of the accepted prefixes and
   * holds no line feed, which the regex's `.` does not match and its `$`
   * (end of text) does not let through.
   */
  predicate ValidateUrl(url: string) {
    (StartsWith(url, "https://") || StartsWith(url, "git@") || StartsWith(url, "file://") || StartsWith(url, "/"))
    && '\n' !in url
  }

  /**
   * The language of `^(https://|git@|file://|/).*(\.git)?$` over a whole
   * string: a prefix alternative, a run without line feeds, then nothing or
   * ".git".
   */
  ghost predicate MatchesUrlPattern(url: string) {
    exists k: nat, m: nat ::
      && k < |UrlPrefixes|
      && |UrlPrefixes[k]| <= m <= |url|
      && url[..|UrlPrefixes[k]|] == UrlPrefixes[k]
      && '\n' !in url[|UrlPrefixes[k]|..m]
      && (url[m..] == "" || url[m..] == ".git")
  }

  /** Every URL the direct check accepts is matched by the pattern, taking the optional suffix as empty ... */
  lemma ValidateUrlMatches(url: string)
    requires ValidateUrl(url)
    ensures MatchesUrlPattern(url)
  {
    var ps := UrlPrefixes;
    var k: nat := if StartsWith(url, ps[0]) then 0 else if StartsWith(url, ps[1]) then 1
                  else if StartsWith(url, ps[2]) then 2 else 3;
    assert url[|url|..] == "";
    forall ch | ch in url[|ps[k]|..|url|] ensures ch != '\n' {
      var j :| 0 <= j < |url[|ps[k]|..|url|]| && url[|ps[k]|..|url|][j] == ch;
      assert url[|ps[k]| + j] == ch;
    }
    assert url[..|ps[k]|] == ps[k];
  }

  /** A string cut in three pieces without line feeds has none. */
  lemma NoLineFeedSplit(s: string, a: nat, b: nat)
    requires a <= b <= |s| && '\n' !in s[..a] && '\n' !in s[a..b] && '\n' !in s[b..]
    ensures '\n' !in s
  {
    assert s == s[..a] + s[a..b] + s[b..];
  }

  /** A URL that begins with alternative `k` begins with an accepted prefix, and that prefix holds no line feed. */
  lemma PrefixAccepted(url: string, k: nat)
    requires k < |UrlPrefixes| && StartsWith(url, UrlPrefixes[k])
    ensures StartsWith(url, "https://") || StartsWith(url, "git@") || StartsWith(url, "file://") || StartsWith(url, "/")
    ensures '\n' !in UrlPrefixes[k]
  {
    if k == 0 {
      assert UrlPrefixes[0] == "https://";
    } else if k == 1 {
      assert UrlPrefixes[1] == "git@";
    } else if k == 2 {
      assert UrlPrefixes[2] == "file://";
    } else {
      assert UrlPrefixes[3] == "/";
    }
  }

  /** ... and every URL the pattern matches is accepted by the direct check. */
  lemma PatternValidates(url: string)
    requires MatchesUrlPattern(url)
    ensures ValidateUrl(url)
  {
    var ps := UrlPrefixes;
    var k: nat, m: nat :| k < |ps| && |ps[k]| <= m <= |url| && url[..|ps[k]|] == ps[k]
      && '\n' !in url[|ps[k]|..m] && (url[m..] == "" || url[m..] == ".git");
    PrefixAccepted(url, k);
    assert '\n' !in url[m..];
    NoLineFeedSplit(url, |ps[k]|, m);
  }

  /** The direct check accepts exactly the strings the pattern matches; the optional suffix adds nothing. */
  lemma ValidateUrlIffPattern(url: string)
    ensures ValidateUrl(url) <==> MatchesUrlPattern(url)
  {
    if ValidateUrl(url) {
      ValidateUrlMatches(url);
    }
    if MatchesUrlPattern(url) {
      PatternValidates(url);
    }
  }

  /** A URL without line feeds that begins with one of the alternatives is accepted. */
  lemma AcceptedForm(url: string, k: nat)
    requires k < |UrlPrefixes| && StartsWith(url, UrlPrefixes[k]) && '\n' !in url
    ensures ValidateUrl(url)
  {
    PrefixAccepted(url, k);
  }

  /** The accepted URLs of the unit test: HTTPS with ".git" on two hosts ... */
  lemma ValidateUrlAcceptsGithub()
    ensures ValidateUrl("https://github.com/user/repo.git")
  {
    var url := "https://github.com/user/repo.git";
    assert url[..8] == "https://";
    AcceptedForm(url, 0);
  }

  lemma ValidateUrlAcceptsGitlab()
    ensures ValidateUrl("https://gitlab.com/user/repo.git")
  {
    var url := "https://gitlab.com/user/repo.git";
    assert url[..8] == "https://";
    AcceptedForm(url, 0);
  }

  /** ... HTTPS without ".git" ... */
  lemma ValidateUrlAcceptsNoSuffix()
    ensures ValidateUrl("https://github.com/user/repo")
  {
    var url := "https://github.com/user/repo";
    assert url[..8] == "https://";
    AcceptedForm(url, 0);
  }

  /** ... SSH, file URLs and absolute paths. */
  lemma ValidateUrlAcceptsSsh()
    ensures ValidateUrl("git@github.com:user/repo.git")
  {
    var url := "git@github.com:user/repo.git";
    assert url[..4] == "git@";
    AcceptedForm(url, 1);
  }

  lemma ValidateUrlAcceptsFile()
    ensures ValidateUrl("file:///path/to/repo")
  {
    var url := "file:///path/to/repo";
    assert url[..7] == "file://";
    AcceptedForm(url, 2);
  }

  lemma ValidateUrlAcceptsPath()
    ensures ValidateUrl("/absolute/path/to/repo")
  {
    var url := "/absolute/path/to/repo";
    assert url[..1] == "/";
    AcceptedForm(url, 3);
  }

  lemma DiffersAt(url: string, p: string, j: nat)
    requires j < |p| && j < |url| && url[j] != p[j]
    ensures !StartsWith(url, p)
  {
  }

  /** The rejected URLs of the unit test: no accepted prefix. */
  lemma ValidateUrlRejects()
    ensures !ValidateUrl("invalid-url")
    ensures !ValidateUrl("ftp://github.com/user/repo.git")
  {
    var u := "invalid-url";
    DiffersAt(u, "https://", 0);
    DiffersAt(u, "git@", 0);
    DiffersAt(u, "file://", 0);
    DiffersAt(u, "/", 0);
    var f := "ftp://github.com/user/repo.git";
    DiffersAt(f, "https://", 0);
    DiffersAt(f, "git@", 0);
    DiffersAt(f, "file://", 1);
    DiffersAt(f, "/", 0);
  }

  /** The unit test of `new`: the flag is stored as given. */
  lemma NewHandlerExamples()
    ensures NewHandler(true).keepRepository
    ensures !NewHandler(false).keepRepository
  {
  }
}
