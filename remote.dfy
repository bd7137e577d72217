/**
 * Finding the `OWNER/REPO` identifier of the GitHub repository
 * (`_parse_github_repo_from_remote`, `_detect_github_repo`).
 *
 * The two anchored regular expressions
 *   ^https?://github\.com/([^/]+)/([^/]+?)(?:\.git)?/?$
 *   ^git@github\.com:([^/]+)/([^/]+?)(?:\.git)?$
 * are stated as `RemoteShape` (the strings they match, with every way of
 * splitting a match into groups) and `LazyShape` (the split the regex engine
 * reports: the lazy repository group takes the shortest name it can).
 */
module Remote {
  import opened Wrappers
  import opened Text

  /** The three URL forms, in the order they are tried: the first regular
      expression covers `https://` and `http://`, the second the SSH form. */
  datatype Form = Https | Http | Ssh

  function Prefix(f: Form): string {
    match f
    case Https => "https://github.com/"
    case Http => "http://github.com/"
    case Ssh => "git@github.com:"
  }

  /** Only the HTTP(S) expression admits a trailing slash. */
  predicate AllowsSlash(f: Form) {
    f != Ssh
  }

  /** A path segment `[^/]+`. */
  predicate Segment(x: string) {
    |x| > 0 && '/' !in x
  }

  /** What may follow the repository name: `(?:\.git)?/?` in the HTTPS form
      (`allowSlash`), `(?:\.git)?` in the SSH form. */
  predicate IsTail(tail: string, allowSlash: bool) {
    tail == "" || tail == ".git" || (allowSlash && (tail == "/" || tail == ".git/"))
  }

  /** An `OWNER/REPO` identifier: two segments around exactly one slash. */
  ghost predicate IsRepoId(id: string) {
    exists i :: 0 <= i < |id| && id[i] == '/' && Segment(id[..i]) && Segment(id[i + 1..])
  }

  /** `rest` is `OWNER/REPO` and a tail, with `owner` and `repo` as the regex groups. */
  ghost predicate OwnerRepoShape(rest: string, allowSlash: bool, owner: string, repo: string, tail: string) {
    rest == owner + "/" + (repo + tail) && Segment(owner) && Segment(repo) && IsTail(tail, allowSlash)
  }

  /** `s` opens with the prefix of form `f` and the rest is `OWNER/REPO` and a tail. */
  ghost predicate FormShape(s: string, f: Form, owner: string, repo: string, tail: string) {
    StartsWith(s, Prefix(f)) && OwnerRepoShape(s[|Prefix(f)|..], AllowsSlash(f), owner, repo, tail)
  }

  /** `s` is matched by one of the two regular expressions, with `owner` and
      `repo` as the two groups and `tail` as the rest. */
  ghost predicate RemoteShape(s: string, owner: string, repo: string, tail: string) {
    exists f :: FormShape(s, f, owner, repo, tail)
  }

  /** The match the regex engine reports: among all splits, the shortest repository group. */
  ghost predicate LazyShape(s: string, owner: string, repo: string, tail: string) {
    && RemoteShape(s, owner, repo, tail)
    && forall o, r, t :: RemoteShape(s, o, r, t) ==> |repo| <= |r|
  }

  /** The length of the lazy repository group in `rest`: the shortest non-empty
      name that leaves an allowed tail. */
  function RepoLength(rest: string, allowSlash: bool): (n: nat)
    ensures n <= |rest| && (n > 0 ==> IsTail(rest[n..], allowSlash))
  {
    if allowSlash && EndsWith(rest, ".git/") && |rest| > 5 then |rest| - 5
    else if EndsWith(rest, ".git") && |rest| > 4 then |rest| - 4
    else if allowSlash && EndsWith(rest, "/") && |rest| > 1 then |rest| - 1
    else |rest|
  }

  /** The repository group `([^/]+?)` with its tail: None when the shortest
      candidate name holds a slash or there is none. */
  function RepoName(rest: string, allowSlash: bool): (r: Option<string>)
    ensures r.Some? ==> Segment(r.value) && StartsWith(rest, r.value) && IsTail(rest[|r.value|..], allowSlash)
  {
    var n := RepoLength(rest, allowSlash);
    if 0 < n && '/' !in rest[..n] then Some(rest[..n]) else None
  }

  /** Any allowed split of `rest` into a name and a tail has a name at least as
      long as the one `RepoName` picks. */
  lemma RepoNameShortest(rest: string, allowSlash: bool, repo: string, tail: string)
    requires rest == repo + tail && Segment(repo) && IsTail(tail, allowSlash)
    ensures RepoName(rest, allowSlash).Some?
    ensures |RepoName(rest, allowSlash).value| <= |repo|
  {
    assert rest[|repo|..] == tail;
    var n := RepoLength(rest, allowSlash);
    if tail == ".git" {
      assert rest[|rest| - 1] == 't';
    } else if tail == "/" {
      assert rest[|rest| - 1] == '/';
    }
    assert n <= |repo|;
    assert rest[..n] == repo[..n];
  }

  /** Everything before the first slash of `rest` is slash-free. */
  lemma BeforeFirstSlash(rest: string, i: nat)
    requires FirstAt(rest, "/", i)
    ensures '/' !in rest[..i] && rest == rest[..i] + "/" + rest[i + 1..]
  {
    forall j | 0 <= j < i ensures rest[..i][j] != '/' {
      assert !OccursAt(rest, "/", j);
      assert rest[j..j + 1] == [rest[j]];
    }
    assert rest[i..i + 1] == "/";
  }

  /** `([^/]+)/` and then the repository group. */
  function OwnerRepo(rest: string, allowSlash: bool): (r: Option<string>)
    ensures r.Some? ==> IsRepoId(r.value)
  {
    match IndexOf(rest, "/")
    case None => None
    case Some(i) =>
      if i == 0 then None
      else
        match RepoName(rest[i + 1..], allowSlash)
        case None => None
        case Some(repo) =>
          var owner := rest[..i];
          BeforeFirstSlash(rest, i);
          var id := owner + "/" + repo;
          assert id[..i] == owner && id[i + 1..] == repo;
          Some(id)
  }

  /** Every split of `rest` into the two groups puts the owner before the first
      slash, and has a repository name no shorter than the one `OwnerRepo` reports. */
  lemma OwnerRepoComplete(rest: string, allowSlash: bool, owner: string, repo: string, tail: string)
    requires OwnerRepoShape(rest, allowSlash, owner, repo, tail)
    ensures IndexOf(rest, "/") == Some(|owner|) && rest[|owner| + 1..] == repo + tail
    ensures OwnerRepo(rest, allowSlash) == Some(owner + "/" + RepoName(repo + tail, allowSlash).value)
    ensures |RepoName(repo + tail, allowSlash).value| <= |repo|
  {
    FirstSlash(owner, repo + tail);
    assert rest[..|owner|] == owner && rest[|owner| + 1..] == repo + tail;
    RepoNameShortest(repo + tail, allowSlash, repo, tail);
  }

  /** A successful `OwnerRepo` is one of the splits. */
  lemma OwnerRepoSound(rest: string, allowSlash: bool)
    requires OwnerRepo(rest, allowSlash).Some?
    ensures IndexOf(rest, "/").Some? && RepoName(rest[IndexOf(rest, "/").value + 1..], allowSlash).Some?
    ensures var i := IndexOf(rest, "/").value;
      var repo := RepoName(rest[i + 1..], allowSlash).value;
      && OwnerRepoShape(rest, allowSlash, rest[..i], repo, rest[i + 1..][|repo|..])
      && OwnerRepo(rest, allowSlash).value == rest[..i] + "/" + repo
  {
    var i := IndexOf(rest, "/").value;
    BeforeFirstSlash(rest, i);
    var after := rest[i + 1..];
    var repo := RepoName(after, allowSlash).value;
    assert after == repo + after[|repo|..];
  }

  /** The form whose prefix opens `s`, trying them in order. */
  function FormOf(s: string): (r: Option<Form>)
    ensures r.Some? ==> StartsWith(s, Prefix(r.value))
    ensures r.None? ==> forall f :: !StartsWith(s, Prefix(f))
  {
    if StartsWith(s, Prefix(Https)) then Some(Https)
    else if StartsWith(s, Prefix(Http)) then Some(Http)
    else if StartsWith(s, Prefix(Ssh)) then Some(Ssh)
    else None
  }

  /** The two anchored regular expressions, tried in order on a stripped URL. */
  function MatchRemote(s: string): (r: Option<string>)
    ensures r.Some? ==> IsRepoId(r.value)
  {
    match FormOf(s)
    case None => None
    case Some(f) => OwnerRepo(s[|Prefix(f)|..], AllowsSlash(f))
  }

  /** `_parse_github_repo_from_remote`: strip, then match. */
  function ParseGithubRepoFromRemote(remoteUrl: string): (r: Option<string>)
    ensures r.Some? ==> IsRepoId(r.value)
  {
    MatchRemote(Trim(remoteUrl))
  }

  /** No string starts with the prefixes of two different forms, so the order
      in which they are tried does not matter. */
  lemma PrefixesExclusive(s: string, f: Form, g: Form)
    requires StartsWith(s, Prefix(f)) && StartsWith(s, Prefix(g))
    ensures f == g
  {
    assert s[0] == Prefix(f)[0] == Prefix(g)[0];
    assert s[4] == Prefix(f)[4] == Prefix(g)[4];
  }

  /** Under any shape, `FormOf` finds that shape's form. */
  lemma ShapeForm(s: string, f: Form, owner: string, repo: string, tail: string)
    requires FormShape(s, f, owner, repo, tail)
    ensures FormOf(s) == Some(f)
  {
    PrefixesExclusive(s, f, FormOf(s).value);
  }

  /** Replacing the repository group of a shape by the one `RepoName` picks
      gives a shape again. */
  lemma ReportedShape(s: string, f: Form, owner: string, repo: string, tail: string)
    requires FormShape(s, f, owner, repo, tail)
    ensures RepoName(repo + tail, AllowsSlash(f)).Some?
    ensures var name := RepoName(repo + tail, AllowsSlash(f)).value;
      && |name| <= |repo| && name == repo[..|name|]
      && FormShape(s, f, owner, name, (repo + tail)[|name|..])
  {
    RepoNameShortest(repo + tail, AllowsSlash(f), repo, tail);
    var name := RepoName(repo + tail, AllowsSlash(f)).value;
    var t := (repo + tail)[|name|..];
    assert repo + tail == name + t;
  }

  /** Completeness on a stripped URL: whenever one of the regular expressions
      matches, `MatchRemote` succeeds, and with the lazy group it reports that match. */
  lemma MatchFindsShape(s: string, owner: string, repo: string, tail: string)
    requires RemoteShape(s, owner, repo, tail)
    ensures MatchRemote(s).Some?
    ensures LazyShape(s, owner, repo, tail) ==> MatchRemote(s) == Some(owner + "/" + repo)
  {
    var f :| FormShape(s, f, owner, repo, tail);
    ShapeForm(s, f, owner, repo, tail);
    OwnerRepoComplete(s[|Prefix(f)|..], AllowsSlash(f), owner, repo, tail);
    if LazyShape(s, owner, repo, tail) {
      LazyIsReported(s, f, owner, repo, tail);
    }
  }

  /** Under the lazy split, `RepoName` picks exactly the lazy repository group. */
  lemma LazyIsReported(s: string, f: Form, owner: string, repo: string, tail: string)
    requires FormShape(s, f, owner, repo, tail) && LazyShape(s, owner, repo, tail)
    ensures RepoName(repo + tail, AllowsSlash(f)) == Some(repo)
  {
    ReportedShape(s, f, owner, repo, tail);
    var name := RepoName(repo + tail, AllowsSlash(f)).value;
    assert RemoteShape(s, owner, name, (repo + tail)[|name|..]);
  }

  /** A successful match comes with the split `OwnerRepo` found. */
  lemma MatchSplit(s: string) returns (f: Form, owner: string, repo: string, tail: string)
    requires MatchRemote(s).Some?
    ensures FormOf(s) == Some(f) && FormShape(s, f, owner, repo, tail)
    ensures MatchRemote(s).value == owner + "/" + repo
    ensures var rest := s[|Prefix(f)|..];
      repo == RepoName(rest[IndexOf(rest, "/").value + 1..], AllowsSlash(f)).value
  {
    f := FormOf(s).value;
    var rest := s[|Prefix(f)|..];
    OwnerRepoSound(rest, AllowsSlash(f));
    var i := IndexOf(rest, "/").value;
    owner := rest[..i];
    repo := RepoName(rest[i + 1..], AllowsSlash(f)).value;
    tail := rest[i + 1..][|repo|..];
  }

  /** No split of a matched URL has a shorter repository group than the reported one. */
  lemma MatchShortest(s: string, f: Form, o: string, r: string, t: string)
    requires FormOf(s) == Some(f) && RemoteShape(s, o, r, t)
    ensures var rest := s[|Prefix(f)|..];
      && IndexOf(rest, "/").Some?
      && RepoName(rest[IndexOf(rest, "/").value + 1..], AllowsSlash(f)).Some?
      && |RepoName(rest[IndexOf(rest, "/").value + 1..], AllowsSlash(f)).value| <= |r|
  {
    var g :| FormShape(s, g, o, r, t);
    ShapeForm(s, g, o, r, t);
    OwnerRepoComplete(s[|Prefix(f)|..], AllowsSlash(f), o, r, t);
  }

  /** Soundness on a stripped URL: a successful match is the regex engine's match. */
  lemma MatchIsLazy(s: string)
    requires MatchRemote(s).Some?
    ensures exists owner, repo, tail ::
      && LazyShape(s, owner, repo, tail)
      && MatchRemote(s).value == owner + "/" + repo
  {
    var f, owner, repo, tail := MatchSplit(s);
    forall o, r, t | RemoteShape(s, o, r, t) ensures |repo| <= |r| {
      MatchShortest(s, f, o, r, t);
    }
    assert LazyShape(s, owner, repo, tail);
  }

  /** Completeness: whenever one of the regular expressions matches the stripped
      URL, parsing succeeds, and it reports the lazy (shortest) repository group. */
  lemma ParseFindsMatch(remoteUrl: string, owner: string, repo: string, tail: string)
    requires RemoteShape(Trim(remoteUrl), owner, repo, tail)
    ensures ParseGithubRepoFromRemote(remoteUrl).Some?
    ensures LazyShape(Trim(remoteUrl), owner, repo, tail) ==>
      ParseGithubRepoFromRemote(remoteUrl) == Some(owner + "/" + repo)
  {
    MatchFindsShape(Trim(remoteUrl), owner, repo, tail);
  }

  /** Soundness: a successful parse is the regex engine's match of the stripped URL. */
  lemma ParseIsLazyMatch(remoteUrl: string)
    requires ParseGithubRepoFromRemote(remoteUrl).Some?
    ensures exists owner, repo, tail ::
      && LazyShape(Trim(remoteUrl), owner, repo, tail)
      && ParseGithubRepoFromRemote(remoteUrl).value == owner + "/" + repo
  {
    MatchIsLazy(Trim(remoteUrl));
  }

  /** `_detect_github_repo`: `env` is the value of ZIKUU_GITHUB_REPO (None when
      unset) and `remote` what `_run_git` returned for `remote.origin.url`
      (its stripped output, None when git failed). */
  function DetectGithubRepo(env: Option<string>, remote: Option<string>): (r: Option<string>)
    // a non-blank variable wins, stripped but otherwise verbatim
    ensures Trim(env.GetOr("")) != "" ==> r == Some(Trim(env.GetOr("")))
    // otherwise the identifier comes from a remote URL matching one of the two forms, or there is none
    ensures Trim(env.GetOr("")) == "" ==>
      (r.Some? <==> remote.Some? && exists o, rp, t :: RemoteShape(Trim(remote.value), o, rp, t))
    ensures Trim(env.GetOr("")) == "" && r.Some? ==> IsRepoId(r.value)
    // and it is then the parse of that URL
    ensures Trim(env.GetOr("")) == "" ==> r == (if remote.Some? then ParseGithubRepoFromRemote(remote.value) else None)
    // whatever the source, the identifier is not blank
    ensures r.Some? ==> Trim(r.value) != ""
  {
    var envRepo := Trim(env.GetOr(""));
    if envRepo != "" then
      TrimIdempotent(env.GetOr(""));
      Some(envRepo)
    else if remote.Some? && remote.value != "" then
      var parsed := ParseGithubRepoFromRemote(remote.value);
      if parsed.Some? then
        ParseIsLazyMatch(remote.value);
        RepoIdNotBlank(parsed.value);
        parsed
      else
        NoShapeWhenUnparsed(remote.value);
        None
    else
      EmptyUrlHasNoShape();
      None
  }

  /** Without a successful parse, no form matches. */
  lemma NoShapeWhenUnparsed(remoteUrl: string)
    requires ParseGithubRepoFromRemote(remoteUrl).None?
    ensures forall o, rp, t :: !RemoteShape(Trim(remoteUrl), o, rp, t)
  {
    forall o, rp, t ensures !RemoteShape(Trim(remoteUrl), o, rp, t) {
      if RemoteShape(Trim(remoteUrl), o, rp, t) {
        ParseFindsMatch(remoteUrl, o, rp, t);
      }
    }
  }

  /** The empty URL matches neither form. */
  lemma EmptyUrlHasNoShape()
    ensures forall o, rp, t :: !RemoteShape(Trim(""), o, rp, t)
  {
    assert Trim("") == "";
  }

  /** An identifier holds a slash, so it is never blank. */
  lemma RepoIdNotBlank(id: string)
    requires IsRepoId(id)
    ensures Trim(id) != ""
  {
    var i :| 0 <= i < |id| && id[i] == '/' && Segment(id[..i]) && Segment(id[i + 1..]);
    NonSpaceSurvivesTrim(id, i);
  }
}
