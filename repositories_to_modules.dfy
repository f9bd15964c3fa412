/**
 * `repositories-to-modules`: the normalisation of the repository URLs of
 * the input file, and the filter that keeps the accepted ones in order.
 */
module RepositoriesToModules {
  import opened Wrappers
  import opened Strings
  import opened Sequences

  const HttpScheme: string := "http://"
  const HttpsScheme: string := "https://"
  const GitHubHost: string := "github.com/"
  const HttpGitHub: string := HttpScheme + GitHubHost
  const HttpsGitHub: string := HttpsScheme + GitHubHost

  /**
   * `^https://github.com/[^/]+/[^/]+$` as Go's `regexp` reads it: the
   * unescaped `.` matches any character but a newline, each `[^/]+` is a
   * non-empty run of characters other than `/`, and `$` is the end of
   * the text.
   */
  predicate MatchesGitHubRepository(s: string)
  {
    && |s| >= 19
    && s[..14] == "https://github"
    && s[14] != '\n'
    && s[15..19] == "com/"
    && OwnerSlashRepo(s[19..])
  }

  /** `[^/]+/[^/]+` matching the whole of `t`. */
  predicate OwnerSlashRepo(t: string)
  {
    var cut := Cut(t, '/');
    cut.found && cut.before != "" && cut.after != "" && '/' !in cut.after
  }

  /** The `unhandled repository URL` error, with the URL after trimming. */
  datatype NormalizeError = UnhandledRepositoryURL(repository: string)

  /** `http://github.com/` becomes `https://github.com/`; anything else is left alone. */
  function UpgradeScheme(repository: string): string
  {
    if HasPrefix(repository, HttpGitHub) then HttpsScheme + TrimPrefix(repository, HttpScheme) else repository
  }

  /** One trailing `.git`, then one trailing `/`, removed. */
  function TrimRepository(repository: string): string
  {
    TrimSuffix(TrimSuffix(UpgradeScheme(repository), ".git"), "/")
  }

  /** `normalizeRepository`; a `Failure` stands for Go's `("", err)`. */
  function NormalizeRepository(repository: string): (r: Result<string, NormalizeError>)
    ensures r.Success? ==> MatchesGitHubRepository(r.value)
  {
    var trimmed := TrimRepository(repository);
    if MatchesGitHubRepository(trimmed) then Success(trimmed)
    else Failure(UnhandledRepositoryURL(trimmed))
  }

  // ------------------------------------------------------- the regex

  /** A URL of the form the pattern describes matches it. */
  lemma MatchesOf(c: char, owner: string, repo: string)
    requires c != '\n'
    requires owner != "" && repo != "" && '/' !in owner && '/' !in repo
    ensures MatchesGitHubRepository("https://github" + [c] + "com/" + owner + "/" + repo)
  {
    var s := "https://github" + [c] + "com/" + owner + "/" + repo;
    assert s[..14] == "https://github";
    assert s[15..19] == "com/";
    assert s[19..] == owner + ['/'] + repo;
    CutAt(owner, '/', repo);
  }

  /** Every matching URL has that form, with owner and repository read off after the host. */
  lemma MatchesParts(s: string)
    requires MatchesGitHubRepository(s)
    ensures var cut := Cut(s[19..], '/');
      && s == "https://github" + [s[14]] + "com/" + cut.before + "/" + cut.after
      && s[14] != '\n'
      && cut.before != "" && cut.after != "" && '/' !in cut.before && '/' !in cut.after
  {
    var cut := Cut(s[19..], '/');
    assert s == s[..14] + [s[14]] + s[15..19] + s[19..];
  }

  /** `https://github.com/` is spelled as the pattern's host with `.` for the dot. */
  lemma HostSpelling()
    ensures HttpsGitHub == "https://github" + ['.'] + "com/"
  {
  }

  lemma MatchesRepository(owner: string, repo: string)
    requires owner != "" && repo != "" && '/' !in owner && '/' !in repo
    ensures MatchesGitHubRepository(HttpsGitHub + owner + "/" + repo)
  {
    HostSpelling();
    MatchesOf('.', owner, repo);
  }

  /** The unescaped `.` lets in any host of the form `github?com` other than with a newline. */
  lemma DotMatchesAnyCharacter(c: char, owner: string, repo: string)
    requires c != '\n'
    requires owner != "" && repo != "" && '/' !in owner && '/' !in repo
    requires !HasSuffix(repo, ".git")
    ensures NormalizeRepository("https://github" + [c] + "com/" + owner + "/" + repo)
      == Success("https://github" + [c] + "com/" + owner + "/" + repo)
  {
    var head := "https://github" + [c] + "com/" + owner + "/";
    var s := head + repo;
    MatchesOf(c, owner, repo);
    assert head[|head| - 1] == '/';
    SuffixAfterSlash(head, repo, ".git");
    NormalizeFixes(s);
  }

  // --------------------------------------------------- normalisation

  /** Acceptance is exactly the trimmed URL matching; the error names the trimmed URL. */
  lemma NormalizeRepositorySpec(repository: string)
    ensures var trimmed := TrimRepository(repository);
      && (NormalizeRepository(repository).Success? <==> MatchesGitHubRepository(trimmed))
      && (NormalizeRepository(repository).Success? ==> NormalizeRepository(repository).value == trimmed)
      && (NormalizeRepository(repository).Failure? ==>
            NormalizeRepository(repository).error == UnhandledRepositoryURL(trimmed))
  {
  }

  /** `http://github.com/` + rest is upgraded to `https://github.com/` + rest. */
  lemma UpgradeHttp(rest: string)
    ensures UpgradeScheme(HttpGitHub + rest) == HttpsGitHub + rest
  {
    TrimPrefixConcat(HttpGitHub, rest);
    ConcatAssoc(HttpScheme, GitHubHost, rest);
    TrimPrefixConcat(HttpScheme, GitHubHost + rest);
    ConcatAssoc(HttpsScheme, GitHubHost, rest);
  }

  /** An `https://github.com/` URL is left alone: it already differs from `http://` at the scheme. */
  lemma UpgradeHttps(rest: string)
    ensures UpgradeScheme(HttpsGitHub + rest) == HttpsGitHub + rest
  {
    var s := HttpsGitHub + rest;
    assert s[4] == 's';
    assert !HasPrefix(s, HttpGitHub);
  }

  /** Only the `http://github.com/` prefix is upgraded, to `https://github.com/` and the same rest. */
  lemma UpgradeSchemeSpec(repository: string)
    ensures HasPrefix(repository, HttpGitHub) ==>
      UpgradeScheme(repository) == HttpsGitHub + repository[|HttpGitHub|..]
    ensures !HasPrefix(repository, HttpGitHub) ==> UpgradeScheme(repository) == repository
  {
    if HasPrefix(repository, HttpGitHub) {
      var rest := repository[|HttpGitHub|..];
      assert repository == HttpGitHub + rest;
      UpgradeHttp(rest);
    }
  }

  /** An accepted URL without a `.git` ending is normalised to itself. */
  lemma NormalizeFixes(s: string)
    requires MatchesGitHubRepository(s)
    requires !HasSuffix(s, ".git")
    ensures NormalizeRepository(s) == Success(s)
  {
    assert s[4] == s[..14][4] == 's';
    assert !HasPrefix(s, HttpGitHub);
    MatchesParts(s);
    var cut := Cut(s[19..], '/');
    assert s[|s| - 1] == cut.after[|cut.after| - 1];
    NotSuffixByLast(s, "/");
  }

  /** The URL of `owner/repo` as the host followed by the path. */
  lemma UrlSplit(owner: string, repo: string)
    ensures HttpsGitHub + owner + "/" + repo == HttpsGitHub + (owner + "/" + repo)
  {
    ConcatAssoc(HttpsGitHub + owner, "/", repo);
    ConcatAssoc(HttpsGitHub, owner, "/" + repo);
    ConcatAssoc(owner, "/", repo);
  }

  /** `…/repo.git/` keeps its `.git`: the `/` is trimmed only after the `.git` check. */
  lemma TrailingSlashKeepsGit(owner: string, repo: string)
    requires owner != "" && repo != "" && '/' !in owner && '/' !in repo
    ensures var url := HttpsGitHub + owner + "/" + repo;
      NormalizeRepository(url + ".git/") == Success(url + ".git")
  {
    var path := owner + "/" + repo;
    var url := HttpsGitHub + owner + "/" + repo;
    var kept := url + ".git";
    var s := url + ".git/";
    UrlSplit(owner, repo);
    ConcatAssoc(HttpsGitHub, path, ".git/");
    UpgradeHttps(path + ".git/");
    assert s[|s| - 1] == '/';
    NotSuffixByLast(s, ".git");
    assert ".git/" == ".git" + "/";
    ConcatAssoc(url, ".git", "/");
    TrimSuffixConcat(kept, "/");
    assert TrimRepository(s) == kept;
    assert '/' !in repo + ".git";
    ConcatAssoc(HttpsGitHub + owner + "/", repo, ".git");
    MatchesRepository(owner, repo + ".git");
  }

  /** A `.git` ending is removed. */
  lemma GitSuffixTrimmed(owner: string, repo: string)
    requires owner != "" && repo != "" && '/' !in owner && '/' !in repo
    ensures var url := HttpsGitHub + owner + "/" + repo;
      NormalizeRepository(url + ".git") == Success(url)
  {
    var path := owner + "/" + repo;
    var url := HttpsGitHub + owner + "/" + repo;
    var s := url + ".git";
    UrlSplit(owner, repo);
    ConcatAssoc(HttpsGitHub, path, ".git");
    UpgradeHttps(path + ".git");
    TrimSuffixConcat(url, ".git");
    assert url[|url| - 1] == repo[|repo| - 1];
    NotSuffixByLast(url, "/");
    assert TrimRepository(s) == url;
    MatchesRepository(owner, repo);
  }

  /** Past a `/`, a suffix without `/` is a suffix of what follows the `/`. */
  lemma SuffixAfterSlash(a: string, b: string, suffix: string)
    requires a != [] && a[|a| - 1] == '/' && '/' !in suffix
    ensures HasSuffix(a + b, suffix) <==> HasSuffix(b, suffix)
  {
    var s := a + b;
    if |suffix| <= |b| {
      assert s[|s| - |suffix|..] == b[|b| - |suffix|..];
    } else if |suffix| <= |s| {
      assert s[|s| - |suffix|..][|suffix| - |b| - 1] == s[|a| - 1];
    }
  }

  /** An `http://github.com/` URL is accepted as its `https` form. */
  lemma HttpUpgraded(owner: string, repo: string)
    requires owner != "" && repo != "" && '/' !in owner && '/' !in repo
    requires !HasSuffix(repo, ".git")
    ensures NormalizeRepository(HttpGitHub + owner + "/" + repo)
      == Success(HttpsGitHub + owner + "/" + repo)
  {
    var path := owner + "/" + repo;
    var url := HttpsGitHub + owner + "/" + repo;
    ConcatAssoc(HttpGitHub + owner, "/", repo);
    ConcatAssoc(HttpGitHub, owner, "/" + repo);
    ConcatAssoc(owner, "/", repo);
    UrlSplit(owner, repo);
    UpgradeHttp(path);
    var head := HttpsGitHub + owner + "/";
    SuffixAfterSlash(head, repo, ".git");
    assert url[|url| - 1] == repo[|repo| - 1];
    NotSuffixByLast(url, "/");
    assert TrimRepository(HttpGitHub + path) == url;
    MatchesRepository(owner, repo);
  }

  /** Normalising is not idempotent: a second pass removes the `.git` the first one kept. */
  lemma NormalizeNotIdempotent(owner: string, repo: string)
    requires owner != "" && repo != "" && '/' !in owner && '/' !in repo
    ensures var once := NormalizeRepository(HttpsGitHub + owner + "/" + repo + ".git/");
      && once.Success?
      && NormalizeRepository(once.value) == Success(HttpsGitHub + owner + "/" + repo)
      && NormalizeRepository(once.value) != once
  {
    TrailingSlashKeepsGit(owner, repo);
    GitSuffixTrimmed(owner, repo);
    var url := HttpsGitHub + owner + "/" + repo;
    assert |url + ".git"| != |url|;
  }

  /** A URL with no repository segment is rejected. */
  lemma OwnerOnlyRejected(owner: string)
    requires owner != "" && '/' !in owner && !HasSuffix(owner, ".git")
    ensures NormalizeRepository(HttpsGitHub + owner) == Failure(UnhandledRepositoryURL(HttpsGitHub + owner))
  {
    var s := HttpsGitHub + owner;
    UpgradeHttps(owner);
    assert HttpsGitHub[|HttpsGitHub| - 1] == '/';
    SuffixAfterSlash(HttpsGitHub, owner, ".git");
    assert s[|s| - 1] == owner[|owner| - 1];
    NotSuffixByLast(s, "/");
    assert TrimRepository(s) == s;
    assert s[19..] == owner;
    CutAbsent(owner, '/');
  }

  // --------------------------------------------------------- the filter

  /** A line's repository when `normalizeRepository` accepts it. */
  function AcceptedRepository(line: string): (r: Option<string>)
    ensures r.Some? <==> NormalizeRepository(line).Success?
    ensures r.Some? ==> r.value == NormalizeRepository(line).value
  {
    var n := NormalizeRepository(line);
    if n.Success? then Some(n.value) else None
  }

  /** The accepted repositories of the input lines, in input order. */
  function Accepted(lines: seq<string>): seq<string>
  {
    FilterMap(lines, AcceptedRepository)
  }

  /** The scanner loop: rejected lines are dropped, accepted ones kept in order. */
  method ReadRepositories(lines: seq<string>) returns (repositories: seq<string>)
    ensures repositories == Accepted(lines)
  {
    repositories := [];
    for i := 0 to |lines|
      invariant repositories == Accepted(lines[..i])
    {
      FilterMapStep(lines, i, AcceptedRepository);
      var repository := NormalizeRepository(lines[i]);
      if repository.Failure? {
        continue;
      }
      repositories := repositories + [repository.value];
    }
    assert lines[..|lines|] == lines;
  }

  /** A repository is kept exactly when some line normalises to it; every one kept matches the pattern. */
  lemma AcceptedSpec(lines: seq<string>, r: string)
    ensures r in Accepted(lines) <==> exists i :: 0 <= i < |lines| && NormalizeRepository(lines[i]) == Success(r)
    ensures r in Accepted(lines) ==> MatchesGitHubRepository(r)
  {
    FilterMapSpec(lines, AcceptedRepository, r);
    if r in Accepted(lines) {
      var i :| 0 <= i < |lines| && AcceptedRepository(lines[i]) == Some(r);
      assert NormalizeRepository(lines[i]) == Success(r);
    }
    if exists i :: 0 <= i < |lines| && NormalizeRepository(lines[i]) == Success(r) {
      var i :| 0 <= i < |lines| && NormalizeRepository(lines[i]) == Success(r);
      assert AcceptedRepository(lines[i]) == Some(r);
    }
  }
}
