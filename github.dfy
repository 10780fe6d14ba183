/** `parseGitHubUrl` (`server/lib/github.ts`): the pattern
    `^https?://github.com/([^/]+)/([^/]+?)(?:.git)?(?:/tree/([^/]+)(/(.*))?)?$`
    written as a parser over `/`-separated segments. */
module GitHub {
  import opened Common

  /** `{ owner, repo, branch, path }` */
  datatype GitHubRef = GitHubRef(owner: string, repo: string, branch: Option<string>, path: string)

  /** The characters `.` in a JavaScript pattern does not match. */
  predicate IsLineTerminator(c: char)
  {
    c == '\n' || c == '\r' || c == '\U{2028}' || c == '\U{2029}'
  }

  predicate NoLineTerminator(s: string)
  {
    forall i :: 0 <= i < |s| ==> !IsLineTerminator(s[i])
  }

  /** The lazy repository group gives up one trailing `.git` when something
      is left in front of it. */
  predicate StripsGit(segment: string)
  {
    |segment| > 4 && EndsWith(segment, ".git")
  }

  /** The text up to the first `/`, and the rest from that `/` on. */
  function CutAtSlash(s: string): (r: (string, string))
    ensures r.0 + r.1 == s && !HasChar(r.0, '/')
    ensures r.1 == [] || r.1[0] == '/'
  {
    var j := IndexOf(s, '/');
    if j == -1 then (s, []) else (s[..j], s[j..])
  }

  /** `parseGitHubUrl`: `None` when the pattern does not match. */
  function ParseGitHubUrl(url: string): (r: Option<GitHubRef>)
    ensures r.Some? ==> StartsWith(url, "https://github.com/") || StartsWith(url, "http://github.com/")
    ensures r.Some? ==> WellFormed(r.value)
  {
    if StartsWith(url, "https://github.com/") then ParseAfterHost(url[19..])
    else if StartsWith(url, "http://github.com/") then ParseAfterHost(url[18..])
    else None
  }

  /** Owner, repository segment and the optional `/tree/...` tail. */
  function ParseAfterHost(s: string): (r: Option<GitHubRef>)
    ensures r.Some? ==> WellFormed(r.value)
  {
    var (owner, afterOwner) := CutAtSlash(s);
    if owner == [] || afterOwner == [] then None
    else
      var (segment, tail) := CutAtSlash(afterOwner[1..]);
      if segment == [] then None
      else
        var repo := if StripsGit(segment) then segment[..|segment| - 4] else segment;
        match ParseTail(tail)
        case None => None
        case Some((branch, path)) => Some(GitHubRef(owner, repo, branch, path))
  }

  /** `(?:/tree/([^/]+)(/(.*))?)?$` */
  function ParseTail(tail: string): (r: Option<(Option<string>, string)>)
    ensures r.Some? && r.value.0.Some? ==> r.value.0.value != [] && !HasChar(r.value.0.value, '/')
    ensures r.Some? ==> NoLineTerminator(r.value.1)
    ensures r == Some((None, [])) <==> tail == []
  {
    if tail == [] then Some((None, []))
    else if !StartsWith(tail, "/tree/") then None
    else
      var (branch, rest) := CutAtSlash(tail[6..]);
      if branch == [] then None
      else if rest == [] then Some((Some(branch), []))
      else if NoLineTerminator(rest[1..]) then Some((Some(branch), rest[1..]))
      else None
  }

  /** What the pattern can capture. */
  predicate WellFormed(g: GitHubRef)
  {
    && g.owner != [] && !HasChar(g.owner, '/')
    && g.repo != [] && !HasChar(g.repo, '/')
    && (g.branch.Some? ==> g.branch.value != [] && !HasChar(g.branch.value, '/'))
    && (g.branch.None? ==> g.path == [])
    && NoLineTerminator(g.path)
  }

  /** The URLs that carry `g`: either scheme, with or without `.git` after
      the repository, and, for a branch with an empty path, with or without
      the slash after the branch. */
  function FormatGitHubUrl(g: GitHubRef, https: bool, dotGit: bool, slash: bool): string
  {
    (if https then "https://github.com/" else "http://github.com/") + PathText(g, dotGit, slash)
  }

  /** The part after the host. */
  function PathText(g: GitHubRef, dotGit: bool, slash: bool): string
  {
    g.owner + ("/" + RepoSegment(g.repo, dotGit) + TreeTail(g, slash))
  }

  function RepoSegment(repo: string, dotGit: bool): string
  {
    repo + (if dotGit then ".git" else "")
  }

  function TreeTail(g: GitHubRef, slash: bool): string
  {
    match g.branch
    case None => ""
    case Some(b) => "/tree/" + b + (if g.path != [] || slash then "/" + g.path else "")
  }

  // ---------------------------------------------------------------------
  // Properties

  lemma CutAtSlashOf(a: string, b: string)
    requires !HasChar(a, '/') && (b == [] || b[0] == '/')
    ensures CutAtSlash(a + b) == (a, b)
  {
    var s := a + b;
    forall i | 0 <= i < |a|
      ensures s[i] != '/'
    {
      assert s[i] == a[i];
    }
    if b != [] {
      assert s[|a|] == '/';
      assert IndexOf(s, '/') == |a|;
      assert s[..|a|] == a && s[|a|..] == b;
    } else {
      assert s == a;
    }
  }

  /** `ParseTail` on a `/tree/` tail already cut at the branch. */
  lemma ParseTreeTail(b: string, rest: string)
    requires b != [] && !HasChar(b, '/') && (rest == [] || rest[0] == '/')
    requires rest != [] ==> NoLineTerminator(rest[1..])
    ensures ParseTail("/tree/" + (b + rest)) == Some((Some(b), if rest == [] then [] else rest[1..]))
  {
    AppendSlices("/tree/", b + rest);
    CutAtSlashOf(b, rest);
  }

  lemma TailRoundTrip(g: GitHubRef, slash: bool)
    requires WellFormed(g)
    ensures ParseTail(TreeTail(g, slash)) == Some((g.branch, g.path))
  {
    if g.branch.Some? {
      var b := g.branch.value;
      var rest := if g.path != [] || slash then "/" + g.path else "";
      AppendAssoc("/tree/", b, rest);
      if rest != [] {
        AppendSlices("/", g.path);
      }
      ParseTreeTail(b, rest);
    }
  }

  /** `ParseAfterHost` on a text already cut into its parts. */
  lemma AfterHostOfParts(owner: string, segment: string, tail: string)
    requires owner != [] && !HasChar(owner, '/')
    requires segment != [] && !HasChar(segment, '/')
    requires tail == [] || tail[0] == '/'
    ensures ParseAfterHost(owner + ("/" + segment + tail)) ==
      match ParseTail(tail)
      case None => None
      case Some((branch, path)) =>
        Some(GitHubRef(owner, if StripsGit(segment) then segment[..|segment| - 4] else segment, branch, path))
  {
    var afterOwner := "/" + segment + tail;
    CutAtSlashOf(owner, afterOwner);
    AppendAssoc("/", segment, tail);
    AppendSlices("/", segment + tail);
    CutAtSlashOf(segment, tail);
  }

  lemma RepoSegmentOf(repo: string, dotGit: bool)
    requires repo != [] && !HasChar(repo, '/') && (dotGit || !StripsGit(repo))
    ensures var segment := RepoSegment(repo, dotGit);
      && segment != [] && !HasChar(segment, '/')
      && (if StripsGit(segment) then segment[..|segment| - 4] else segment) == repo
  {
    var segment := RepoSegment(repo, dotGit);
    forall i | 0 <= i < |segment|
      ensures segment[i] != '/'
    {
      if i < |repo| {
        assert segment[i] == repo[i];
      }
    }
    if dotGit {
      assert segment[|segment| - 4..] == ".git";
      assert segment[..|segment| - 4] == repo;
    }
  }

  lemma PathRoundTrip(g: GitHubRef, dotGit: bool, slash: bool)
    requires WellFormed(g) && (dotGit || !StripsGit(g.repo))
    ensures ParseAfterHost(PathText(g, dotGit, slash)) == Some(g)
  {
    RepoSegmentOf(g.repo, dotGit);
    TailRoundTrip(g, slash);
    AfterHostOfParts(g.owner, RepoSegment(g.repo, dotGit), TreeTail(g, slash));
  }

  /** The `https://github.com/` prefix is removed whole. */
  lemma HttpsPrefix(path: string)
    ensures ParseGitHubUrl("https://github.com/" + path) == ParseAfterHost(path)
  {
    var url := "https://github.com/" + path;
    assert url[..19] == "https://github.com/" && url[19..] == path;
  }

  /** The `http://github.com/` prefix is removed whole. */
  lemma HttpPrefix(path: string)
    ensures ParseGitHubUrl("http://github.com/" + path) == ParseAfterHost(path)
  {
    var url := "http://github.com/" + path;
    assert !StartsWith(url, "https://github.com/") by {
      assert url[4] == ':';
    }
    assert url[..18] == "http://github.com/" && url[18..] == path;
  }

  /** Every well-formed reference is recovered from each URL that carries it
      (a repository that itself ends in `.git` needs the `.git` suffix). */
  lemma ParseFormat(g: GitHubRef, https: bool, dotGit: bool, slash: bool)
    requires WellFormed(g) && (dotGit || !StripsGit(g.repo))
    ensures ParseGitHubUrl(FormatGitHubUrl(g, https, dotGit, slash)) == Some(g)
  {
    var path := PathText(g, dotGit, slash);
    if https {
      HttpsPrefix(path);
    } else {
      HttpPrefix(path);
    }
    PathRoundTrip(g, dotGit, slash);
  }

  lemma TailOnlyFormatted(tail: string)
    requires ParseTail(tail).Some?
    ensures exists slash :: tail == TreeTail(GitHubRef([], [], ParseTail(tail).value.0, ParseTail(tail).value.1), slash)
  {
    if tail == [] {
      assert tail == TreeTail(GitHubRef([], [], None, []), false);
    } else {
      var after := tail[6..];
      assert tail == tail[..6] + after;
      var cut := CutAtSlash(after);
      var branch, rest := cut.0, cut.1;
      AppendAssoc("/tree/", branch, rest);
      if rest == [] {
        assert ParseTail(tail) == Some((Some(branch), []));
        assert branch + rest == branch;
        assert tail == TreeTail(GitHubRef([], [], Some(branch), []), false);
      } else {
        var path := rest[1..];
        assert ParseTail(tail) == Some((Some(branch), path));
        assert rest == "/" + path;
        assert tail == TreeTail(GitHubRef([], [], Some(branch), path), true);
      }
    }
  }

  lemma Reassemble(s: string, owner: string, afterOwner: string, segment: string, tail: string)
    requires owner + afterOwner == s && afterOwner != [] && afterOwner[0] == '/'
    requires segment + tail == afterOwner[1..]
    ensures s == owner + ("/" + segment + tail)
  {
    assert afterOwner == "/" + (segment + tail);
  }

  /** A text `ParseAfterHost` accepts is an owner, a repository segment and a tail. */
  lemma AfterHostParts(s: string) returns (owner: string, segment: string, tail: string)
    requires ParseAfterHost(s).Some?
    ensures owner != [] && !HasChar(owner, '/')
    ensures segment != [] && !HasChar(segment, '/')
    ensures tail == [] || tail[0] == '/'
    ensures s == owner + ("/" + segment + tail)
  {
    var cut1 := CutAtSlash(s);
    var afterOwner;
    owner, afterOwner := cut1.0, cut1.1;
    var cut2 := CutAtSlash(afterOwner[1..]);
    segment, tail := cut2.0, cut2.1;
    Reassemble(s, owner, afterOwner, segment, tail);
  }

  /** The segment is the repository with `.git` put back when it was stripped. */
  lemma SegmentOfRepo(segment: string)
    ensures segment == RepoSegment(if StripsGit(segment) then segment[..|segment| - 4] else segment, StripsGit(segment))
  {
    if StripsGit(segment) {
      var k := |segment| - 4;
      assert segment[k..] == ".git";
      assert segment == segment[..k] + segment[k..];
    }
  }

  lemma PathOnlyFormatted(s: string)
    requires ParseAfterHost(s).Some?
    ensures exists dotGit, slash :: s == PathText(ParseAfterHost(s).value, dotGit, slash)
  {
    var owner, segment, tail := AfterHostParts(s);
    AfterHostOfParts(owner, segment, tail);
    var g := ParseAfterHost(s).value;
    var dotGit := StripsGit(segment);
    SegmentOfRepo(segment);
    TailOnlyFormatted(tail);
    var slash :| tail == TreeTail(GitHubRef([], [], g.branch, g.path), slash);
    assert tail == TreeTail(g, slash);
    assert s == PathText(g, dotGit, slash);
  }

  /** Conversely, every URL the parser accepts is one that carries its result. */
  lemma ParseOnlyFormatted(url: string)
    requires ParseGitHubUrl(url).Some?
    ensures exists https, dotGit, slash :: url == FormatGitHubUrl(ParseGitHubUrl(url).value, https, dotGit, slash)
  {
    var https := StartsWith(url, "https://github.com/");
    var prefix := if https then "https://github.com/" else "http://github.com/";
    var rest := url[|prefix|..];
    assert url == prefix + rest;
    PathOnlyFormatted(rest);
    var dotGit, slash :| rest == PathText(ParseAfterHost(rest).value, dotGit, slash);
    assert url == FormatGitHubUrl(ParseGitHubUrl(url).value, https, dotGit, slash);
  }
}
