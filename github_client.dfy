/** The GitHub client (app/github_client.py): parsing a repository reference
    into `owner/name`, and the shapes of the commit list, latest commit and
    activity results over an abstract view of what GitHub answers. */
module GitHubClient {
  import opened Types
  import Text

  /** The characters `rstrip('.git')` removes from the end: a set, not a suffix. */
  const StripSet: set<char> := {'.', 'g', 'i', 't'}
  const Host := "github.com"
  const HostSlash := "github.com/"
  const HttpsPrefix := "https://"

  /** The repository name made of the `/`-segments of the path after the
      host: the first two joined by `/`, or the only one. */
  function SegmentsName(path: seq<string>): Option<string>
  {
    if |path| >= 2 then Some(path[0] + "/" + path[1])
    else if |path| == 1 then Some(path[0])
    else None
  }

  /** The name taken from the text after the first `github.com/` (Python's
      `parts[1]` is the text between the first and the second occurrence);
      `None` when `github.com/` does not occur. */
  function HostPath(s: string): Option<string>
  {
    var parts := Text.Split(s, HostSlash);
    if |parts| > 1 then SegmentsName(Text.Split(parts[1], "/")) else None
  }

  /** `GitHubClient.parse_repo_url`. */
  function ParseRepoUrl(repoUrl: Option<string>): (r: Option<string>)
    ensures repoUrl.None? || repoUrl.value == "" ==> r.None?
  {
    if repoUrl.None? || repoUrl.value == "" then None
    else
      var s := Text.RStrip(repoUrl.value, StripSet);
      var viaHost := if Text.Contains(s, Host) then HostPath(s) else None;
      if viaHost.Some? then viaHost
      else if '/' in s then Some(s)
      else None
  }

  /** An occurrence of `github.com/` is one of `github.com` followed by `/`. */
  lemma HostSlashOccurs(s: string, i: int)
    requires Text.OccursAt(s, HostSlash, i)
    ensures Text.OccursAt(s, Host, i) && s[i + 10] == '/'
  {
    var w := s[i..i + 11];
    assert w == HostSlash;
    assert w[10] == '/';
    assert s[i..i + 10] == w[..10] == Host;
  }

  /** The result is `None` exactly when the input is missing or empty, or no
      `/` is left once the trailing `.`, `g`, `i`, `t` characters are gone. */
  lemma ParseRepoUrlNoneIff(repoUrl: Option<string>)
    ensures ParseRepoUrl(repoUrl).None? <==>
      repoUrl.None? || repoUrl.value == "" || '/' !in Text.RStrip(repoUrl.value, StripSet)
  {
    if repoUrl.Some? && repoUrl.value != "" {
      var s := Text.RStrip(repoUrl.value, StripSet);
      Text.ContainsChar(s, '/');
      Text.SplitSingleIff(s, HostSlash);
      if Text.Contains(s, HostSlash) {
        var i :| 0 <= i <= |s| && Text.OccursAt(s, HostSlash, i);
        HostSlashOccurs(s, i);
      }
    }
  }

  /** Splitting on `/` at its first occurrence. */
  lemma SplitAtSlash(p: string, q: string)
    requires '/' !in p
    ensures Text.Split(p + "/" + q, "/") == [p] + Text.Split(q, "/")
  {
    forall j | 0 <= j < |p| ensures !Text.OccursAt(p + "/" + q, "/", j) {
      assert (p + "/" + q)[j] == p[j];
    }
    Text.SplitFirst(p, "/", q);
  }

  /** Text without `/` splits on `/` into itself. */
  lemma SplitNoSlash(p: string)
    requires '/' !in p
    ensures Text.Split(p, "/") == [p]
  {
    Text.ContainsChar(p, '/');
    Text.SplitNoSeparator(p, "/");
  }

  /** Stripping `p + q`, where `p` does not end in a stripped character,
      only ever strips inside `q`. */
  lemma RStripAfter(p: string, q: string)
    requires p != [] && p[|p| - 1] !in StripSet
    ensures Text.RStrip(p + q, StripSet) == p + Text.RStrip(q, StripSet)
  {
    var kept := Text.RStrip(q, StripSet);
    var tail := q[|kept|..];
    assert q == kept + tail;
    var x := p + kept;
    assert p + q == x + tail;
    assert x[|x| - 1] !in StripSet by {
      if kept == [] { assert x[|x| - 1] == p[|p| - 1]; } else { assert x[|x| - 1] == kept[|kept| - 1]; }
    }
    Text.RStripOfSuffix(x, tail, StripSet);
  }

  /** `/` is not stripped, so stripping `p/q` only ever strips inside `q`. */
  lemma RStripAfterSlash(p: string, q: string)
    ensures Text.RStrip(p + "/" + q, StripSet) == p + "/" + Text.RStrip(q, StripSet)
  {
    RStripAfter(p + "/", q);
  }

  /** Text without an `m` mentions neither `github.com` nor `github.com/`. */
  lemma NoHostWithoutM(s: string)
    requires 'm' !in s
    ensures !Text.Contains(s, Host) && !Text.Contains(s, HostSlash)
  {
    forall i | 0 <= i <= |s| ensures !Text.OccursAt(s, Host, i) && !Text.OccursAt(s, HostSlash, i) {
      if i + 10 <= |s| { assert s[i..i + 10][9] == s[i + 9]; }
      if i + 11 <= |s| { assert s[i..i + 11][9] == s[i + 9]; }
    }
  }

  /** No character of `HttpsPrefix` can start `github.com/`, so in a URL that
      starts with it the first occurrence is the one right after it. */
  lemma SplitUrl(rest: string)
    requires !Text.Contains(rest, HostSlash)
    ensures Text.Split(HttpsPrefix + HostSlash + rest, HostSlash) == [HttpsPrefix, rest]
  {
    var s := HttpsPrefix + HostSlash + rest;
    forall j | 0 <= j < |HttpsPrefix| ensures !Text.OccursAt(s, HostSlash, j) {
      assert s[j] == HttpsPrefix[j] != 'g';
      assert s[j..j + 11][0] == s[j];
    }
    Text.SplitFirst(HttpsPrefix, HostSlash, rest);
    Text.SplitNoSeparator(rest, HostSlash);
  }

  /** A URL on the host mentions the host. */
  lemma UrlMentionsHost(rest: string)
    ensures Text.Contains(HttpsPrefix + HostSlash + rest, Host)
  {
    var x := HttpsPrefix + HostSlash + rest;
    assert x[8..18] == Host;
    assert Text.OccursAt(x, Host, 8);
  }

  /** The name taken after the host of a URL that mentions it once. */
  lemma HostPathOfUrl(rest: string)
    requires !Text.Contains(rest, HostSlash)
    ensures HostPath(HttpsPrefix + HostSlash + rest) == SegmentsName(Text.Split(rest, "/"))
  {
    SplitUrl(rest);
  }

  /** When the host branch yields a name, that name is the result. */
  lemma ParseRepoUrlViaHost(u: string)
    requires u != ""
    requires Text.Contains(Text.RStrip(u, StripSet), Host) && HostPath(Text.RStrip(u, StripSet)).Some?
    ensures ParseRepoUrl(Some(u)) == HostPath(Text.RStrip(u, StripSet))
  {
  }

  /** Text that mentions `github.com/` after the strip always takes the host
      branch: the name comes from the text after its first occurrence. With
      `ParseRepoUrlPlainPath` this covers every non-empty reference. */
  lemma ParseRepoUrlOfHostSlash(u: string)
    requires u != ""
    requires Text.Contains(Text.RStrip(u, StripSet), HostSlash)
    ensures HostPath(Text.RStrip(u, StripSet)).Some?
    ensures ParseRepoUrl(Some(u)) == HostPath(Text.RStrip(u, StripSet))
  {
    var s := Text.RStrip(u, StripSet);
    var i :| 0 <= i <= |s| && Text.OccursAt(s, HostSlash, i);
    HostSlashOccurs(s, i);
    assert Text.Contains(s, Host);
    Text.SplitSingleIff(s, HostSlash);
  }

  /** A URL `https://github.com/` + `rest`, where `rest` does not mention
      `github.com/` again, gives the name made of the segments of `rest`
      with its trailing `.`, `g`, `i`, `t` characters removed. */
  lemma ParseRepoUrlOfUrl(rest: string)
    requires !Text.Contains(rest, HostSlash)
    ensures ParseRepoUrl(Some(HttpsPrefix + HostSlash + rest)) ==
            SegmentsName(Text.Split(Text.RStrip(rest, StripSet), "/"))
  {
    var u := HttpsPrefix + HostSlash + rest;
    var kept := Text.RStrip(rest, StripSet);
    RStripAfter(HttpsPrefix + HostSlash, rest);
    Text.NotContainsPrefix(rest, HostSlash, |kept|);
    assert rest[..|kept|] == kept;
    UrlMentionsHost(kept);
    HostPathOfUrl(kept);
    ParseRepoUrlViaHost(u);
  }

  /** A full URL `https://github.com/o/r`, with or without trailing characters
      that `rstrip` removes (such as `.git`), gives `o/r` — provided the name
      `r` does not itself end in one of them. */
  lemma ParseRepoUrlFullUrl(o: string, r: string, suffix: string)
    requires '/' !in o && '/' !in r && |r| > 0 && r[|r| - 1] !in StripSet
    requires forall i :: 0 <= i < |suffix| ==> suffix[i] in StripSet
    requires !Text.Contains(o + "/" + r + suffix, HostSlash)
    ensures ParseRepoUrl(Some(HttpsPrefix + HostSlash + o + "/" + r + suffix)) == Some(o + "/" + r)
  {
    var rest := o + "/" + r + suffix;
    assert HttpsPrefix + HostSlash + o + "/" + r + suffix == HttpsPrefix + HostSlash + rest;
    ParseRepoUrlOfUrl(rest);
    SegmentsOfOwnerRepo(o, r, suffix);
  }

  /** The first two segments of `o/r/deeper`, after the strip, are `o` and `r`. */
  lemma SegmentsOfDeepPath(o: string, r: string, deeper: string)
    requires '/' !in o && '/' !in r
    ensures SegmentsName(Text.Split(Text.RStrip(o + "/" + r + "/" + deeper, StripSet), "/")) == Some(o + "/" + r)
  {
    var kept := Text.RStrip(deeper, StripSet);
    RStripAfterSlash(o + "/" + r, deeper);
    Regroup(o, r, kept);
    SegmentsOfTwo(o, r, kept);
  }

  /** `o/r/k` read as `o` and then `r/k`. */
  lemma Regroup(o: string, r: string, k: string)
    ensures o + "/" + r + "/" + k == o + "/" + (r + "/" + k)
  {
  }

  /** The segments of `o/r/rest` start with `o` and `r`. */
  lemma SegmentsOfTwo(o: string, r: string, rest: string)
    requires '/' !in o && '/' !in r
    ensures SegmentsName(Text.Split(o + "/" + (r + "/" + rest), "/")) == Some(o + "/" + r)
  {
    SplitAtSlash(o, r + "/" + rest);
    SplitAtSlash(r, rest);
  }

  /** Below `github.com/o/r/`, any deeper path is dropped. */
  lemma ParseRepoUrlDeepPath(o: string, r: string, deeper: string)
    requires '/' !in o && '/' !in r
    requires !Text.Contains(o + "/" + r + "/" + deeper, HostSlash)
    ensures ParseRepoUrl(Some(HttpsPrefix + HostSlash + o + "/" + r + "/" + deeper)) == Some(o + "/" + r)
  {
    var rest := o + "/" + r + "/" + deeper;
    assert HttpsPrefix + HostSlash + o + "/" + r + "/" + deeper == HttpsPrefix + HostSlash + rest;
    ParseRepoUrlOfUrl(rest);
    SegmentsOfDeepPath(o, r, deeper);
  }

  /** A single segment after `github.com/` comes back as it is (after the
      strip), even when it is empty: `https://github.com/` gives `""`, not `None`. */
  lemma ParseRepoUrlSingleSegment(x: string)
    requires '/' !in x && !Text.Contains(x, HostSlash)
    ensures ParseRepoUrl(Some(HttpsPrefix + HostSlash + x)) == Some(Text.RStrip(x, StripSet))
  {
    ParseRepoUrlOfUrl(x);
    var kept := Text.RStrip(x, StripSet);
    assert '/' !in kept by { assert forall i :: 0 <= i < |kept| ==> kept[i] == x[i]; }
    SplitNoSlash(kept);
  }

  /** Text in which `github.com/` does not occur is returned as it is,
      stripped, when it has a `/`; `github.com` elsewhere in it does not
      matter. */
  lemma ParseRepoUrlPlainPath(s: string)
    requires s != ""
    requires !Text.Contains(Text.RStrip(s, StripSet), HostSlash)
    ensures ParseRepoUrl(Some(s)) ==
      if '/' in Text.RStrip(s, StripSet) then Some(Text.RStrip(s, StripSet)) else None
  {
    Text.SplitSingleIff(Text.RStrip(s, StripSet), HostSlash);
  }

  /** The SSH form mentions `github.com` but not `github.com/`, so it is
      returned whole, only stripped. */
  lemma ParseRepoUrlSshForm()
    ensures ParseRepoUrl(Some("git@github.com:org/repo.git")) == Some("git@github.com:org/repo")
  {
    var x := "git@github.com:org/repo";
    assert "git@github.com:org/repo.git" == x + ".git";
    Text.RStripOfSuffix(x, ".git", StripSet);
    assert !Text.Contains(x, HostSlash) by {
      forall i | 0 <= i <= |x| ensures !Text.OccursAt(x, HostSlash, i) {
        if i + 11 <= |x| {
          var w := x[i..i + 11];
          assert w[0] == x[i] && w[10] == x[i + 10];
          if i == 8 {
            assert w[0] != HostSlash[0];
          } else {
            assert w[10] != HostSlash[10];
          }
        }
      }
    }
    assert x[18] == '/';
    ParseRepoUrlPlainPath(x + ".git");
  }

  /** `o/r`, followed by characters that are stripped, names `o/r` when `r`
      does not end in one of them. */
  lemma SegmentsOfOwnerRepo(o: string, r: string, suffix: string)
    requires '/' !in o && '/' !in r && |r| > 0 && r[|r| - 1] !in StripSet
    requires forall i :: 0 <= i < |suffix| ==> suffix[i] in StripSet
    ensures SegmentsName(Text.Split(Text.RStrip(o + "/" + r + suffix, StripSet), "/")) == Some(o + "/" + r)
  {
    Text.RStripOfSuffix(o + "/" + r, suffix, StripSet);
    var stripped := Text.RStrip(o + "/" + r + suffix, StripSet);
    assert stripped == o + "/" + r;
    SplitAtSlash(o, r);
    SplitNoSlash(r);
  }

  /** The first two examples of the docstring, for a URL given as `u`. */
  lemma ExampleOnHost(u: string, o: string, r: string, suffix: string)
    requires o == "org" && r == "repo" && (suffix == "" || suffix == ".git")
    requires u == HttpsPrefix + HostSlash + o + "/" + r + suffix
    ensures ParseRepoUrl(Some(u)) == Some("org/repo")
  {
    NoHostWithoutM(o + "/" + r + suffix);
    ParseRepoUrlFullUrl(o, r, suffix);
    assert o + "/" + r == "org/repo";
  }

  /** The first example of the docstring. */
  lemma ParseRepoUrlExampleUrl()
    ensures ParseRepoUrl(Some("https://github.com/org/repo")) == Some("org/repo")
  {
    ExampleOnHost("https://github.com/org/repo", "org", "repo", "");
  }

  /** The second example of the docstring. */
  lemma ParseRepoUrlExampleGitUrl()
    ensures ParseRepoUrl(Some("https://github.com/org/repo.git")) == Some("org/repo")
  {
    ExampleOnHost("https://github.com/org/repo.git", "org", "repo", ".git");
  }

  /** The third example of the docstring. */
  lemma ParseRepoUrlExamplePath()
    ensures ParseRepoUrl(Some("org/repo")) == Some("org/repo")
  {
    Text.RStripOfSuffix("org/repo", "", StripSet);
    assert "org/repo" + "" == "org/repo";
    NoHostWithoutM("org/repo");
  }

  /** `rstrip('.git')` removes characters, not the suffix: `org/digit` loses `igit`. */
  lemma ParseRepoUrlStripsCharacters()
    ensures ParseRepoUrl(Some("org/digit")) == Some("org/d")
  {
    assert "org/digit" == "org/d" + "igit";
    Text.RStripOfSuffix("org/d", "igit", StripSet);
    NoHostWithoutM("org/d");
    assert "org/d"[3] == '/';
  }

  /** The bare host URL gives the empty string. */
  lemma ParseRepoUrlBareHost()
    ensures ParseRepoUrl(Some("https://github.com/")) == Some("")
  {
    BareHostUrl();
    NoHostWithoutM("");
    ParseRepoUrlSingleSegment("");
  }

  /** The bare host URL spelled with the constants. */
  lemma BareHostUrl()
    ensures HttpsPrefix + HostSlash + "" == "https://github.com/"
  {
    assert HttpsPrefix + HostSlash + "" == HttpsPrefix + HostSlash;
  }

  /** The author of a commit as the API reports it. */
  datatype CommitAuthor = CommitAuthor(name: string, date: Instant)

  /** A commit as the API reports it. */
  datatype RawCommit = RawCommit(sha: string, message: string, author: Option<CommitAuthor>, htmlUrl: string)

  /** A repository as the API reports it. `commits` is what iterating over
      `get_commits()` yields, newest first, up to its end or to the first
      failing page; the client keeps what it had collected in both cases. */
  datatype Repo = Repo(htmlUrl: string, updatedAt: Instant, commits: seq<RawCommit>)

  /** What GitHub answers for one token: repositories by full name
      (`get_repo("owner/name")`) and the user's own ones by bare name
      (`get_user().get_repo(name)`). A missing key is a failed lookup. */
  datatype GitHub = GitHub(byFullName: map<string, Repo>, ownRepos: map<string, Repo>)

  /** The repository lookup the client makes for `repoName`: by full name
      when it contains `/`, else among the user's own repositories. */
  function Lookup(gh: GitHub, repoName: string): (r: Option<Repo>)
    ensures r.Some? <==> (if '/' in repoName then repoName in gh.byFullName else repoName in gh.ownRepos)
  {
    if '/' in repoName then
      if repoName in gh.byFullName then Some(gh.byFullName[repoName]) else None
    else if repoName in gh.ownRepos then Some(gh.ownRepos[repoName])
    else None
  }

  /** One entry of the commit list. */
  datatype Commit = Commit(sha: string, message: string, author: string, date: Option<Instant>, url: string)

  /** The commit dictionary built from an API commit. */
  function CommitOf(c: RawCommit): Commit
  {
    Commit(c.sha, c.message,
           if c.author.Some? then c.author.value.name else "Unknown",
           if c.author.Some? then Some(c.author.value.date) else None,
           c.htmlUrl)
  }

  /** The cap on the commit list. */
  const MaxCommits := 10

  function Min(a: int, b: int): int { if a <= b then a else b }

  /** `get_repository_commits` (without `since`): the first ten commits
      converted, or none when the lookup fails. */
  method GetRepositoryCommits(gh: GitHub, repoName: string) returns (commits: seq<Commit>)
    ensures Lookup(gh, repoName).None? ==> commits == []
    ensures Lookup(gh, repoName).Some? ==>
      var raw := Lookup(gh, repoName).value.commits;
      |commits| == Min(MaxCommits, |raw|) &&
      forall i :: 0 <= i < |commits| ==> commits[i] == CommitOf(raw[i])
  {
    var repo := Lookup(gh, repoName);
    if repo.None? {
      return [];
    }
    var raw := repo.value.commits;
    var n := Min(MaxCommits, |raw|);
    commits := [];
    var i := 0;
    while i < n
      invariant 0 <= i <= n
      invariant |commits| == i
      invariant forall k :: 0 <= k < i ==> commits[k] == CommitOf(raw[k])
    {
      commits := commits + [CommitOf(raw[i])];
      i := i + 1;
    }
  }

  /** `get_latest_commit`: the first listed commit, if any. */
  method GetLatestCommit(gh: GitHub, repoName: string) returns (latest: Option<Commit>)
    ensures latest.Some? <==> Lookup(gh, repoName).Some? && |Lookup(gh, repoName).value.commits| > 0
    ensures latest.Some? ==> latest.value == CommitOf(Lookup(gh, repoName).value.commits[0])
  {
    var commits := GetRepositoryCommits(gh, repoName);
    latest := if |commits| > 0 then Some(commits[0]) else None;
  }

  /** The dictionary `get_repository_activity` returns. */
  datatype Activity = Activity(
    exists_: bool,
    hasCommits: bool,
    lastCommit: Option<Commit>,
    updatedAt: Option<Instant>,
    url: Option<string>)

  /** `get_repository_activity`: on a failed lookup the repository does not
      exist and has no commits or URL; otherwise it exists, and has commits
      exactly when a latest commit was found. */
  method GetRepositoryActivity(gh: GitHub, repoName: string) returns (info: Activity)
    ensures Lookup(gh, repoName).None? ==>
      info == Activity(false, false, None, None, None)
    ensures Lookup(gh, repoName).Some? ==>
      var repo := Lookup(gh, repoName).value;
      && info.exists_
      && (info.hasCommits <==> info.lastCommit.Some?)
      && (info.hasCommits <==> |repo.commits| > 0)
      && (info.lastCommit.Some? ==> info.lastCommit.value == CommitOf(repo.commits[0]))
      && info.updatedAt == Some(repo.updatedAt)
      && info.url == Some(repo.htmlUrl)
  {
    var repo := Lookup(gh, repoName);
    if repo.None? {
      return Activity(false, false, None, None, None);
    }
    var latest := GetLatestCommit(gh, repoName);
    info := Activity(true, latest.Some?, latest, Some(repo.value.updatedAt), Some(repo.value.htmlUrl));
  }
}
