/**
 * The frontier engine of `process-modules`: seed loading, admission of
 * module paths to the work queue, the two-tier (cached-only, then
 * authoritative) proxy lookups of one module, the construction of its
 * dependency rows, and the organisation label derived from a path.
 *
 * The proxy client and the graph store are oracles.  The engine is run
 * sequentially: the goroutines, the semaphore and the channels are
 * replaced by a queue that is taken from in order.
 */
module ProcessModules {
  import opened Wrappers
  import opened Strings
  import opened Dedup
  import opened Mod
  import opened GoProxy

  // ------------------------------------------------------------- seeding

  /** The seed modules of a seed file: one per line, path lower-cased, version empty. */
  function Seeds(lines: seq<string>): (r: seq<ModuleVersion>)
    ensures |r| == |lines|
    ensures forall i :: 0 <= i < |lines| ==> r[i].path == ToLower(lines[i]) && r[i].version == ""
  {
    seq(|lines|, i requires 0 <= i < |lines| => ModuleVersion(ToLower(lines[i]), ""))
  }

  /** `loadInitialModules`: the scanner loop over the seed file's lines. */
  method LoadInitialModules(lines: seq<string>) returns (modules: seq<ModuleVersion>)
    ensures modules == Seeds(lines)
    ensures forall i, k :: 0 <= i < |modules| && 0 <= k < |modules[i].path| ==> !IsUpperAscii(modules[i].path[k])
  {
    modules := [];
    for i := 0 to |lines|
      invariant modules == Seeds(lines[..i])
    {
      assert Seeds(lines[..i + 1]) == Seeds(lines[..i]) + [ModuleVersion(ToLower(lines[i]), "")];
      modules := modules + [ModuleVersion(ToLower(lines[i]), "")];
    }
    assert lines[..|lines|] == lines;
  }

  /** Case variants of one seed path are one module. */
  lemma SeedsIdentifyCaseVariants(lines: seq<string>, i: nat, j: nat)
    requires i < |lines| && j < |lines|
    ensures Seeds(lines)[i].path == Seeds(lines)[j].path <==> EqualFold(lines[i], lines[j])
  {
    ToLowerIdentifiesCaseVariants(lines[i], lines[j]);
  }

  // ----------------------------------------------------------- admission

  function PathOf(m: ModuleVersion): string { m.path }

  /**
   * The `pendingModules` set and the `chModules` queue.  `admitted` is
   * every module ever enqueued, in order; the queue is the part of it not
   * yet taken.
   */
  class Frontier {
    var pending: set<string>
    var queue: seq<ModuleVersion>
    ghost var admitted: seq<ModuleVersion>

    ghost predicate Valid()
      reads this
    {
      && DistinctKeys(admitted, PathOf)
      && KeysOf(admitted, PathOf) == pending
      && |queue| <= |admitted|
      && queue == admitted[|admitted| - |queue|..]
    }

    constructor()
      ensures Valid()
      ensures pending == {} && queue == [] && admitted == []
    {
      pending := {};
      queue := [];
      admitted := [];
    }

    /**
     * `LoadOrStore(m.Path)` followed, when the path was new, by sending `m`
     * on the queue.  The test is on the path only: the version plays no part.
     */
    method Admit(m: ModuleVersion) returns (enqueued: bool)
      requires Valid()
      modifies this
      ensures Valid()
      ensures enqueued <==> m.path !in old(pending)
      ensures pending == old(pending) + {m.path}
      ensures queue == old(queue) + (if enqueued then [m] else [])
      ensures admitted == old(admitted) + (if enqueued then [m] else [])
    {
      enqueued := m.path !in pending;
      if enqueued {
        KeysOfAppend(admitted, [m], PathOf);
        KeysOfSingleton(m, PathOf);
        forall i | 0 <= i < |admitted| ensures PathOf(admitted[i]) != m.path {
          assert PathOf(admitted[i]) in KeysOf(admitted, PathOf);
        }
        assert (admitted + [m])[|admitted| + 1 - (|queue| + 1)..] == queue + [m];
        admitted := admitted + [m];
        queue := queue + [m];
        pending := pending + {m.path};
      }
    }

    /**
     * Admitting a list of modules in order (the seed loop and the
     * dependency loop): exactly the first occurrences of paths not yet
     * pending are enqueued, and their number is returned.
     */
    method AdmitAll(modules: seq<ModuleVersion>) returns (loaded: nat)
      requires Valid()
      modifies this
      ensures Valid()
      ensures queue == old(queue) + FirstOccurrences(modules, PathOf, old(pending))
      ensures admitted == old(admitted) + FirstOccurrences(modules, PathOf, old(pending))
      ensures pending == old(pending) + KeysOf(modules, PathOf)
      ensures loaded == |FirstOccurrences(modules, PathOf, old(pending))|
    {
      ghost var p0, q0, a0 := pending, queue, admitted;
      loaded := 0;
      assert modules[..0] == [];
      for i := 0 to |modules|
        invariant AdmittedUpTo(modules, i, p0, q0, a0, loaded)
      {
        loaded := AdmitNext(modules, i, p0, q0, a0, loaded);
      }
      assert modules[..|modules|] == modules;
    }

    /** The loop invariant of `AdmitAll` after the first `i` modules. */
    ghost predicate AdmittedUpTo(modules: seq<ModuleVersion>, i: nat, p0: set<string>, q0: seq<ModuleVersion>,
                                 a0: seq<ModuleVersion>, loaded: nat)
      reads this
    {
      && i <= |modules|
      && Valid()
      && queue == q0 + FirstOccurrences(modules[..i], PathOf, p0)
      && admitted == a0 + FirstOccurrences(modules[..i], PathOf, p0)
      && pending == p0 + KeysOf(modules[..i], PathOf)
      && loaded == |FirstOccurrences(modules[..i], PathOf, p0)|
    }

    /** One turn of the `AdmitAll` loop. */
    method AdmitNext(modules: seq<ModuleVersion>, i: nat, ghost p0: set<string>, ghost q0: seq<ModuleVersion>,
                     ghost a0: seq<ModuleVersion>, loaded: nat) returns (loaded': nat)
      requires i < |modules| && AdmittedUpTo(modules, i, p0, q0, a0, loaded)
      modifies this
      ensures AdmittedUpTo(modules, i + 1, p0, q0, a0, loaded')
    {
      var m := modules[i];
      ghost var seen := modules[..i];
      assert modules[..i + 1] == seen + [m];
      KeysOfAppend(seen, [m], PathOf);
      KeysOfSingleton(m, PathOf);
      var enqueued := Admit(m);
      if enqueued {
        FirstOccurrencesSnocNew(seen, m, PathOf, p0);
        loaded' := loaded + 1;
      } else {
        FirstOccurrencesSnocSeen(seen, m, PathOf, p0);
        loaded' := loaded;
      }
    }

    /** Receiving the next module from the queue. */
    method Take() returns (m: ModuleVersion)
      requires Valid() && queue != []
      modifies this
      ensures Valid()
      ensures m == old(queue)[0] && queue == old(queue)[1..]
      ensures pending == old(pending) && admitted == old(admitted)
    {
      m := queue[0];
      queue := queue[1..];
    }
  }

  /**
   * No path is ever admitted twice, and admission in rounds (the seeds,
   * then the dependencies of each processed module) admits exactly what
   * one pass over all of them would.
   */
  lemma AdmissionInRounds(first: seq<ModuleVersion>, second: seq<ModuleVersion>, pending: set<string>)
    ensures FirstOccurrences(first, PathOf, pending)
            + FirstOccurrences(second, PathOf, pending + KeysOf(first, PathOf))
         == FirstOccurrences(first + second, PathOf, pending)
    ensures DistinctKeys(FirstOccurrences(first + second, PathOf, pending), PathOf)
    ensures KeysOf(FirstOccurrences(first + second, PathOf, pending), PathOf)
         == KeysOf(first + second, PathOf) - pending
  {
    FirstOccurrencesAppend(first, second, PathOf, pending);
    FirstOccurrencesSpec(first + second, PathOf, pending);
  }

  /** A second module with an already pending path is never enqueued, whatever its version. */
  lemma AdmissionIgnoresVersion(admittedBefore: seq<ModuleVersion>, m: ModuleVersion, pending: set<string>)
    requires exists i :: 0 <= i < |admittedBefore| && admittedBefore[i].path == m.path
    ensures FirstOccurrences(admittedBefore + [m], PathOf, pending) == FirstOccurrences(admittedBefore, PathOf, pending)
  {
    var i :| 0 <= i < |admittedBefore| && admittedBefore[i].path == m.path;
    assert PathOf(admittedBefore[i]) in KeysOf(admittedBefore, PathOf);
    FirstOccurrencesSnocSeen(admittedBefore, m, PathOf, pending);
  }

  // ------------------------------------------------------ organisation

  /** `extractOrg`: the first matching prefix rule decides the label. */
  function ExtractOrg(modulePath: string): string
  {
    if HasPrefix(modulePath, "github.com/") then
      GitHubSplit(modulePath);
      Split(modulePath, '/')[1]
    else if HasPrefix(modulePath, "google.golang.org/") then "google"
    else if HasPrefix(modulePath, "golang.org/") || HasPrefix(modulePath, "github.com/pkg/") then "golang"
    else if HasPrefix(modulePath, "k8s.io/") || HasPrefix(modulePath, "sigs.k8s.io/") then "kubernetes"
    else if HasPrefix(modulePath, "go.uber.org/") then "uber-go"
    else if HasPrefix(modulePath, "gorm.io/gorm") then "go-gorm"
    else if HasPrefix(modulePath, "go.opentelemetry.io/") then "open-telemetry"
    else if HasPrefix(modulePath, "go.mongodb.org/") then "mongodb"
    else ""
  }

  /** A `github.com/` path splits on `/` into the host and then the owner. */
  lemma GitHubSplit(modulePath: string)
    requires HasPrefix(modulePath, "github.com/")
    ensures |Split(modulePath, '/')| >= 2
    ensures Split(modulePath, '/')[1] == Split(modulePath[11..], '/')[0]
  {
    var host := "github.com";
    assert '/' !in host;
    assert modulePath == host + ['/'] + modulePath[11..];
    IndexOfSplit(host, '/', modulePath[11..]);
  }

  /** For a `github.com/` path the label is its second `/`-separated segment. */
  lemma ExtractOrgGitHub(modulePath: string)
    requires HasPrefix(modulePath, "github.com/")
    ensures ExtractOrg(modulePath) == Split(modulePath[11..], '/')[0]
  {
    GitHubSplit(modulePath);
  }

  /** That segment is the owner, up to the next `/`. */
  lemma ExtractOrgGitHubOwner(owner: string, rest: string)
    requires '/' !in owner
    ensures ExtractOrg("github.com/" + owner) == owner
    ensures ExtractOrg("github.com/" + owner + "/" + rest) == owner
  {
    var g := "github.com/";
    var tail := owner + "/" + rest;
    ConcatAssoc(g + owner, "/", rest);
    ConcatAssoc(g, owner, "/" + rest);
    ConcatAssoc(owner, "/", rest);
    TrimPrefixConcat(g, owner);
    TrimPrefixConcat(g, tail);
    ExtractOrgGitHub(g + owner);
    ExtractOrgGitHub(g + tail);
    IndexOfSplit(owner, '/', rest);
    CutAbsent(owner, '/');
  }

  /**
   * The `github.com/pkg/` alternative of the `golang` rule is never
   * reached: the `github.com/` rule before it answers `pkg`.
   */
  lemma PkgRuleUnreachable(rest: string)
    ensures ExtractOrg("github.com/pkg/" + rest) == "pkg"
  {
    assert "github.com/pkg/" + rest == "github.com/" + "pkg" + "/" + rest;
    ExtractOrgGitHubOwner("pkg", rest);
  }

  /** Outside `github.com/`, each fixed label is produced by exactly its own prefixes. */
  lemma ExtractOrgFixedLabels(modulePath: string)
    requires !HasPrefix(modulePath, "github.com/")
    ensures ExtractOrg(modulePath) == "google" <==> HasPrefix(modulePath, "google.golang.org/")
    ensures ExtractOrg(modulePath) == "golang" <==> HasPrefix(modulePath, "golang.org/")
    ensures ExtractOrg(modulePath) == "kubernetes"
        <==> HasPrefix(modulePath, "k8s.io/") || HasPrefix(modulePath, "sigs.k8s.io/")
    ensures ExtractOrg(modulePath) == "uber-go" <==> HasPrefix(modulePath, "go.uber.org/")
    ensures ExtractOrg(modulePath) == "go-gorm" <==> HasPrefix(modulePath, "gorm.io/gorm")
    ensures ExtractOrg(modulePath) == "open-telemetry" <==> HasPrefix(modulePath, "go.opentelemetry.io/")
    ensures ExtractOrg(modulePath) == "mongodb" <==> HasPrefix(modulePath, "go.mongodb.org/")
  {
    PrefixesDisjoint(modulePath);
  }

  /** A path outside every rule gets the empty label. */
  lemma ExtractOrgUnmatched(modulePath: string)
    requires !HasPrefix(modulePath, "github.com/") && !HasPrefix(modulePath, "google.golang.org/")
    requires !HasPrefix(modulePath, "golang.org/") && !HasPrefix(modulePath, "k8s.io/")
    requires !HasPrefix(modulePath, "sigs.k8s.io/") && !HasPrefix(modulePath, "go.uber.org/")
    requires !HasPrefix(modulePath, "gorm.io/gorm") && !HasPrefix(modulePath, "go.opentelemetry.io/")
    requires !HasPrefix(modulePath, "go.mongodb.org/")
    ensures ExtractOrg(modulePath) == ""
  {
  }

  /**
   * The non-`github.com/` prefixes are pairwise exclusive: each fixes
   * characters at positions 0, 2 or 3 that the others contradict.
   */
  lemma PrefixesDisjoint(s: string)
    ensures HasPrefix(s, "github.com/pkg/") ==> HasPrefix(s, "github.com/")
    ensures HasPrefix(s, "google.golang.org/") ==> s[0] == 'g' && s[2] == 'o'
    ensures HasPrefix(s, "golang.org/") ==> s[0] == 'g' && s[2] == 'l'
    ensures HasPrefix(s, "k8s.io/") ==> s[0] == 'k'
    ensures HasPrefix(s, "sigs.k8s.io/") ==> s[0] == 's'
    ensures HasPrefix(s, "go.uber.org/") ==> s[0] == 'g' && s[2] == '.' && s[3] == 'u'
    ensures HasPrefix(s, "gorm.io/gorm") ==> s[0] == 'g' && s[2] == 'r'
    ensures HasPrefix(s, "go.opentelemetry.io/") ==> s[0] == 'g' && s[2] == '.' && s[3] == 'o'
    ensures HasPrefix(s, "go.mongodb.org/") ==> s[0] == 'g' && s[2] == '.' && s[3] == 'm'
  {
    if HasPrefix(s, "github.com/pkg/") { assert s[..11] == s[..15][..11]; }
    NamedHostsDisjoint(s);
    GoHostsDisjoint(s);
  }

  lemma NamedHostsDisjoint(s: string)
    ensures HasPrefix(s, "google.golang.org/") ==> s[0] == 'g' && s[2] == 'o'
    ensures HasPrefix(s, "golang.org/") ==> s[0] == 'g' && s[2] == 'l'
    ensures HasPrefix(s, "k8s.io/") ==> s[0] == 'k'
    ensures HasPrefix(s, "sigs.k8s.io/") ==> s[0] == 's'
  {
    PrefixChars(s, "google.golang.org/");
    PrefixChars(s, "golang.org/");
    PrefixChars(s, "k8s.io/");
    PrefixChars(s, "sigs.k8s.io/");
  }

  lemma GoHostsDisjoint(s: string)
    ensures HasPrefix(s, "go.uber.org/") ==> s[0] == 'g' && s[2] == '.' && s[3] == 'u'
    ensures HasPrefix(s, "gorm.io/gorm") ==> s[0] == 'g' && s[2] == 'r'
    ensures HasPrefix(s, "go.opentelemetry.io/") ==> s[0] == 'g' && s[2] == '.' && s[3] == 'o'
    ensures HasPrefix(s, "go.mongodb.org/") ==> s[0] == 'g' && s[2] == '.' && s[3] == 'm'
  {
    PrefixChars(s, "go.uber.org/");
    PrefixChars(s, "gorm.io/gorm");
    PrefixChars(s, "go.opentelemetry.io/");
    PrefixChars(s, "go.mongodb.org/");
  }

  /** A prefix of at least four characters fixes the first four characters. */
  lemma PrefixChars(s: string, p: string)
    requires |p| >= 4
    ensures HasPrefix(s, p) ==> s[0] == p[0] && s[1] == p[1] && s[2] == p[2] && s[3] == p[3]
  {
    if HasPrefix(s, p) {
      assert s[..|p|][0] == s[0] && s[..|p|][1] == s[1];
      assert s[..|p|][2] == s[2] && s[..|p|][3] == s[3];
    }
  }

  // -------------------------------------------------- the proxy lookups

  /** The two client calls `processModule` makes, as oracles. */
  datatype Client = Client(
    latest: (string, bool) -> Result<ModuleInfo, ProxyError>,
    modFile: (string, string, bool) -> Result<ModFile, ProxyError>)

  /** One call made on the client, with its `cachedOnly` flag. */
  datatype Call = LatestCall(path: string, cachedOnly: bool) | ModFileCall(path: string, version: string, cachedOnly: bool)

  /**
   * Why a module was skipped.  Every skip is logged and returns neither
   * dependencies nor an error.
   */
  datatype SkipReason =
    | LatestTimeout(cachedOnly: bool)
    | LatestFailed(cachedOnly: bool)
    | LatestNotFound
    | ModFileTimeout(cachedOnly: bool)
    | ModFileInvalid(cachedOnly: bool)
    | ModFileFailed(cachedOnly: bool)
    | ModFileNotFound
    | NoModuleDirective

  /** The calls a lookup made and what it settled on. */
  datatype Lookup<T> = Lookup(calls: seq<Call>, result: Result<T, SkipReason>)

  /**
   * The version to process: the given one, or else the latest one, asked
   * of the cache first and of the proxy itself only when the cache does
   * not know the module.
   */
  function ResolveVersion(client: Client, m: ModuleVersion): Lookup<string>
  {
    if m.version != "" then Lookup([], Success(m.version))
    else
      var first := LatestCall(m.path, true);
      var cached := client.latest(m.path, true);
      if cached.Success? then Lookup([first], Success(cached.value.version))
      else if cached.error.IsTimeout() then Lookup([first], Failure(LatestTimeout(true)))
      else if cached.error != ModuleNotFound then Lookup([first], Failure(LatestFailed(true)))
      else
        var calls := [first, LatestCall(m.path, false)];
        var direct := client.latest(m.path, false);
        if direct.Success? then Lookup(calls, Success(direct.value.version))
        else if direct.error.IsTimeout() then Lookup(calls, Failure(LatestTimeout(false)))
        else if direct.error == ModuleNotFound then Lookup(calls, Failure(LatestNotFound))
        else Lookup(calls, Failure(LatestFailed(false)))
  }

  /** The go.mod file of the resolved version, by the same two tiers. */
  function FetchModFile(client: Client, path: string, version: string): Lookup<ModFile>
  {
    var first := ModFileCall(path, version, true);
    var cached := client.modFile(path, version, true);
    if cached.Success? then Lookup([first], Success(cached.value))
    else if cached.error.IsTimeout() then Lookup([first], Failure(ModFileTimeout(true)))
    else if cached.error == InvalidModFile then Lookup([first], Failure(ModFileInvalid(true)))
    else if cached.error != ModuleNotFound then Lookup([first], Failure(ModFileFailed(true)))
    else
      var calls := [first, ModFileCall(path, version, false)];
      var direct := client.modFile(path, version, false);
      if direct.Success? then Lookup(calls, Success(direct.value))
      else if direct.error.IsTimeout() then Lookup(calls, Failure(ModFileTimeout(false)))
      else if direct.error == InvalidModFile then Lookup(calls, Failure(ModFileInvalid(false)))
      else if direct.error == ModuleNotFound then Lookup(calls, Failure(ModFileNotFound))
      else Lookup(calls, Failure(ModFileFailed(false)))
  }

  /** A module whose version is known is not looked up. */
  lemma KnownVersionIsKept(client: Client, m: ModuleVersion)
    requires m.version != ""
    ensures ResolveVersion(client, m) == Lookup([], Success(m.version))
  {
  }

  /**
   * The two tiers of the latest-version lookup: the cached-only call comes
   * first; exactly a cached `ModuleNotFound` leads to one authoritative
   * call; the version comes from the call that succeeded.
   */
  lemma ResolveVersionTwoTier(client: Client, m: ModuleVersion)
    requires m.version == ""
    ensures var l := ResolveVersion(client, m);
      var cached := client.latest(m.path, true);
      var direct := client.latest(m.path, false);
      && 1 <= |l.calls| <= 2 && l.calls[0] == LatestCall(m.path, true)
      && (|l.calls| == 2 <==> cached == Failure(ModuleNotFound))
      && (|l.calls| == 2 ==> l.calls[1] == LatestCall(m.path, false))
      && (l.result.Success? <==> cached.Success? || (cached == Failure(ModuleNotFound) && direct.Success?))
      && (cached.Success? ==> l.result == Success(cached.value.version))
      && (cached == Failure(ModuleNotFound) && direct.Success? ==> l.result == Success(direct.value.version))
      && (l.result.Failure? ==> l.result.error.LatestTimeout? || l.result.error.LatestFailed? || l.result.error.LatestNotFound?)
  {
  }

  /**
   * The two tiers of the go.mod lookup: a cached `InvalidModFile`, timeout
   * or other error ends the lookup; only a cached `ModuleNotFound` leads to
   * one authoritative call.
   */
  lemma FetchModFileTwoTier(client: Client, path: string, version: string)
    ensures var l := FetchModFile(client, path, version);
      var cached := client.modFile(path, version, true);
      var direct := client.modFile(path, version, false);
      && 1 <= |l.calls| <= 2 && l.calls[0] == ModFileCall(path, version, true)
      && (|l.calls| == 2 <==> cached == Failure(ModuleNotFound))
      && (|l.calls| == 2 ==> l.calls[1] == ModFileCall(path, version, false))
      && (l.result.Success? <==> cached.Success? || (cached == Failure(ModuleNotFound) && direct.Success?))
      && (cached.Success? ==> l.result == Success(cached.value))
      && (cached == Failure(ModuleNotFound) && direct.Success? ==> l.result == Success(direct.value))
      && (cached == Failure(InvalidModFile) ==> l.result == Failure(ModFileInvalid(true)))
  {
  }

  /** The client over the proxy: every call goes to the URL `GoProxy` builds for it. */
  function ProxyClient(infoFetch: string -> Exchange<Decoded<ModuleInfo>>, modFetch: string -> Exchange<ModBody>): Client
  {
    Client((p: string, c: bool) => GetModuleLatestInfo(infoFetch, p, c),
           (p: string, v: string, c: bool) => GetModuleModFile(modFetch, p, v, c))
  }

  /**
   * Over the proxy, the authoritative latest-version request is sent
   * exactly when the cached-only request was answered with a 404, and the
   * authoritative go.mod request exactly when the cached-only one was.
   */
  lemma AuthoritativeRequestIffCached404(
      infoFetch: string -> Exchange<Decoded<ModuleInfo>>, modFetch: string -> Exchange<ModBody>,
      m: ModuleVersion, version: string)
    requires m.version == ""
    ensures var e := infoFetch(LatestInfoURL(m.path, true));
      |ResolveVersion(ProxyClient(infoFetch, modFetch), m).calls| == 2 <==> e.Response? && e.status == StatusNotFound
    ensures var e := modFetch(ModFileURL(m.path, version, true));
      |FetchModFile(ProxyClient(infoFetch, modFetch), m.path, version).calls| == 2 <==> e.Response? && e.status == StatusNotFound
  {
    var client := ProxyClient(infoFetch, modFetch);
    ResolveVersionTwoTier(client, m);
    FetchModFileTwoTier(client, m.path, version);
    LatestInfoOutcomeSpec(infoFetch(LatestInfoURL(m.path, true)));
    ModFileOutcomeSpec(modFetch(ModFileURL(m.path, version, true)));
  }

  // -------------------------------------------------------- dependencies

  /** A requirement as it is recorded: its path lower-cased. */
  function Lowered(r: Require): ModuleVersion
  {
    ModuleVersion(ToLower(r.mod.path), r.mod.version)
  }

  /** The direct requirements of a go.mod file, in file order, lower-cased. */
  function DirectRequirements(require: seq<Require>): (r: seq<ModuleVersion>)
    ensures |r| <= |require|
    ensures forall k, j :: 0 <= k < |r| && 0 <= j < |r[k].path| ==> !IsUpperAscii(r[k].path[j])
    decreases |require|
  {
    if require == [] then []
    else
      var last := require[|require| - 1];
      DirectRequirements(require[..|require| - 1]) + (if last.indirect then [] else [Lowered(last)])
  }

  /** Filtering a file in two parts is filtering each part. */
  lemma {:induction false} DirectRequirementsAppend(xs: seq<Require>, ys: seq<Require>)
    ensures DirectRequirements(xs + ys) == DirectRequirements(xs) + DirectRequirements(ys)
    decreases |ys|
  {
    if ys == [] {
      assert xs + ys == xs;
    } else {
      var init := ys[..|ys| - 1];
      assert (xs + ys)[..|xs + ys| - 1] == xs + init;
      assert (xs + ys)[|xs + ys| - 1] == ys[|ys| - 1];
      DirectRequirementsAppend(xs, init);
    }
  }

  /**
   * A module is among the direct requirements exactly when some
   * requirement that is not `// indirect` lower-cases to it.
   */
  lemma {:induction false} DirectRequirementsMembers(require: seq<Require>, m: ModuleVersion)
    ensures m in DirectRequirements(require)
        <==> exists i :: 0 <= i < |require| && !require[i].indirect && Lowered(require[i]) == m
    decreases |require|
  {
    if require != [] {
      var n := |require| - 1;
      var init := require[..n];
      DirectRequirementsMembers(init, m);
      if exists i :: 0 <= i < |init| && !init[i].indirect && Lowered(init[i]) == m {
        var i :| 0 <= i < |init| && !init[i].indirect && Lowered(init[i]) == m;
        assert require[i] == init[i];
      }
      if exists i :: 0 <= i < |require| && !require[i].indirect && Lowered(require[i]) == m {
        var i :| 0 <= i < |require| && !require[i].indirect && Lowered(require[i]) == m;
        if i < n {
          assert init[i] == require[i];
        }
      }
    }
  }

  /** A file whose requirements are all `// indirect` has no dependencies. */
  lemma {:induction false} AllIndirectNoDependencies(require: seq<Require>)
    requires forall i :: 0 <= i < |require| ==> require[i].indirect
    ensures DirectRequirements(require) == []
    decreases |require|
  {
    if require != [] {
      AllIndirectNoDependencies(require[..|require| - 1]);
    }
  }

  /** One dependency row: the requirement, its organisation, and the module that requires it. */
  datatype DependencyRow = DependencyRow(
    dependencyName: string, dependencyVersion: string, dependencyOrg: string,
    dependentName: string, dependentVersion: string, dependentOrg: string)

  function Row(dependency: ModuleVersion, dependent: ModuleVersion): DependencyRow
  {
    DependencyRow(dependency.path, dependency.version, ExtractOrg(dependency.path),
                  dependent.path, dependent.version, ExtractOrg(dependent.path))
  }

  /** The rows sent to the graph store: one per dependency, in the same order. */
  function DependencyRows(dependsOn: seq<ModuleVersion>, dependent: ModuleVersion): (rows: seq<DependencyRow>)
    ensures |rows| == |dependsOn|
    ensures forall k :: 0 <= k < |rows| ==>
      && rows[k].dependencyName == dependsOn[k].path && rows[k].dependencyVersion == dependsOn[k].version
      && rows[k].dependentName == dependent.path && rows[k].dependentVersion == dependent.version
      && rows[k].dependencyOrg == ExtractOrg(dependsOn[k].path) && rows[k].dependentOrg == ExtractOrg(dependent.path)
  {
    seq(|dependsOn|, k requires 0 <= k < |dependsOn| => Row(dependsOn[k], dependent))
  }

  /** The dependency loop of `processModule`. */
  method BuildDependencies(require: seq<Require>, dependent: ModuleVersion)
    returns (dependsOn: seq<ModuleVersion>, rows: seq<DependencyRow>)
    ensures dependsOn == DirectRequirements(require)
    ensures rows == DependencyRows(dependsOn, dependent)
  {
    dependsOn := [];
    rows := [];
    for i := 0 to |require|
      invariant dependsOn == DirectRequirements(require[..i])
      invariant rows == DependencyRows(dependsOn, dependent)
    {
      assert require[..i + 1][..i] == require[..i];
      var dependency := require[i];
      if !dependency.indirect {
        var m := Lowered(dependency);
        dependsOn := dependsOn + [m];
        rows := rows + [Row(m, dependent)];
      }
    }
    assert require[..|require|] == require;
  }

  // ------------------------------------------------------ processModule

  /** The two graph-store writes. */
  datatype Write = MergeNode(name: string, version: string) | MergeDependencies(rows: seq<DependencyRow>)

  /**
   * What `processModule` returns: a skip (`nil, nil`), a failed write
   * (`nil, err`) or the dependencies to admit.
   */
  datatype Outcome = Skipped(reason: SkipReason) | WriteFailed(write: Write) | Processed(dependsOn: seq<ModuleVersion>)

  datatype Run = Run(calls: seq<Call>, writes: seq<Write>, outcome: Outcome)

  /** `processModule` as a function of its oracles; `persist` says whether a write succeeds. */
  function Processing(client: Client, persist: Write -> bool, m: ModuleVersion): Run
  {
    var resolved := ResolveVersion(client, m);
    if resolved.result.Failure? then Run(resolved.calls, [], Skipped(resolved.result.error))
    else
      var fetched := FetchModFile(client, m.path, resolved.result.value);
      var calls := resolved.calls + fetched.calls;
      if fetched.result.Failure? then Run(calls, [], Skipped(fetched.result.error))
      else
        var file := fetched.result.value;
        match file.moduleDirective
        case None => Run(calls, [], Skipped(NoModuleDirective))
        case Some(self) =>
          var node := MergeNode(self.path, self.version);
          if !persist(node) then Run(calls, [node], WriteFailed(node))
          else
            var dependsOn := DirectRequirements(file.require);
            var edges := MergeDependencies(DependencyRows(dependsOn, self));
            if !persist(edges) then Run(calls, [node, edges], WriteFailed(edges))
            else Run(calls, [node, edges], Processed(dependsOn))
  }

  method ProcessModule(client: Client, persist: Write -> bool, m: ModuleVersion) returns (run: Run)
    ensures run == Processing(client, persist, m)
  {
    var resolved := ResolveVersion(client, m);
    if resolved.result.Failure? {
      return Run(resolved.calls, [], Skipped(resolved.result.error));
    }
    var fetched := FetchModFile(client, m.path, resolved.result.value);
    var calls := resolved.calls + fetched.calls;
    if fetched.result.Failure? {
      return Run(calls, [], Skipped(fetched.result.error));
    }
    var file := fetched.result.value;
    if file.moduleDirective.None? {
      return Run(calls, [], Skipped(NoModuleDirective));
    }
    var self := file.moduleDirective.value;
    var node := MergeNode(self.path, self.version);
    if !persist(node) {
      return Run(calls, [node], WriteFailed(node));
    }
    var dependsOn, rows := BuildDependencies(file.require, self);
    var edges := MergeDependencies(rows);
    if !persist(edges) {
      return Run(calls, [node, edges], WriteFailed(edges));
    }
    return Run(calls, [node, edges], Processed(dependsOn));
  }

  /**
   * Lookup failures and a go.mod without a `module` line are skips that
   * write nothing; only a write that the store refuses is an error, and it
   * is the last write attempted.
   */
  lemma OnlyWritesFail(client: Client, persist: Write -> bool, m: ModuleVersion)
    ensures var run := Processing(client, persist, m);
      && (run.outcome.Skipped? <==> run.writes == [])
      && (run.outcome.WriteFailed? <==> run.writes != [] && !persist(run.writes[|run.writes| - 1]))
      && (run.outcome.WriteFailed? ==> run.outcome.write == run.writes[|run.writes| - 1])
      && (forall k :: 0 <= k < |run.writes| - 1 ==> persist(run.writes[k]))
    ensures var run := Processing(client, persist, m);
      var resolved := ResolveVersion(client, m);
      resolved.result.Failure? ==> run.outcome == Skipped(resolved.result.error) && run.writes == []
    ensures var run := Processing(client, persist, m);
      var resolved := ResolveVersion(client, m);
      resolved.result.Success? ==>
        var fetched := FetchModFile(client, m.path, resolved.result.value);
        && (fetched.result.Failure? ==> run.outcome == Skipped(fetched.result.error) && run.writes == [])
        && (fetched.result.Success? && fetched.result.value.moduleDirective.None? ==>
              run.outcome == Skipped(NoModuleDirective) && run.writes == [])
    ensures var run := Processing(client, persist, m);
      var resolved := ResolveVersion(client, m);
      run.outcome.WriteFailed? ==>
        && resolved.result.Success?
        && var fetched := FetchModFile(client, m.path, resolved.result.value);
           fetched.result.Success? && fetched.result.value.moduleDirective.Some?
  {
  }

  /**
   * A processed module wrote its node, keyed by the go.mod file's own
   * `module` line, and then one row per direct requirement; the returned
   * dependencies are those requirements.
   */
  lemma ProcessedWritesNodeThenRows(client: Client, persist: Write -> bool, m: ModuleVersion)
    requires Processing(client, persist, m).outcome.Processed?
    ensures var run := Processing(client, persist, m);
      var resolved := ResolveVersion(client, m);
      var file := FetchModFile(client, m.path, resolved.result.value).result.value;
      && resolved.result.Success?
      && file.moduleDirective.Some?
      && run.writes == [MergeNode(file.moduleDirective.value.path, file.moduleDirective.value.version),
                        MergeDependencies(DependencyRows(run.outcome.dependsOn, file.moduleDirective.value))]
      && run.outcome.dependsOn == DirectRequirements(file.require)
      && persist(run.writes[0]) && persist(run.writes[1])
  {
  }

  // -------------------------------------------------------- the handler

  /** The dependencies a module hands back for admission. */
  function DependenciesOf(client: Client, persist: Write -> bool, m: ModuleVersion): seq<ModuleVersion>
  {
    var outcome := Processing(client, persist, m).outcome;
    if outcome.Processed? then outcome.dependsOn else []
  }

  /** `x` is a dependency handed back by one of the first `bound` processed modules. */
  ghost predicate HandedBack(client: Client, persist: Write -> bool, x: ModuleVersion,
                             processed: seq<ModuleVersion>, bound: int)
  {
    exists j :: 0 <= j < |processed| && j < bound && x in DependenciesOf(client, persist, processed[j])
  }

  /**
   * Every module admitted after the distinct seeds is a dependency handed
   * back by a module processed before it in the queue.
   */
  ghost predicate Provenance(client: Client, persist: Write -> bool,
                             admitted: seq<ModuleVersion>, firsts: nat, processed: seq<ModuleVersion>)
  {
    forall k :: firsts <= k < |admitted| ==> HandedBack(client, persist, admitted[k], processed, k)
  }

  lemma HandedBackExtend(client: Client, persist: Write -> bool, x: ModuleVersion,
                         processed: seq<ModuleVersion>, bound: int, m: ModuleVersion)
    requires HandedBack(client, persist, x, processed, bound)
    ensures HandedBack(client, persist, x, processed + [m], bound)
  {
    var j :| 0 <= j < |processed| && j < bound && x in DependenciesOf(client, persist, processed[j]);
    assert (processed + [m])[j] == processed[j];
  }

  lemma ProvenanceTake(client: Client, persist: Write -> bool,
                       admitted: seq<ModuleVersion>, firsts: nat, processed: seq<ModuleVersion>, m: ModuleVersion)
    requires Provenance(client, persist, admitted, firsts, processed)
    ensures Provenance(client, persist, admitted, firsts, processed + [m])
  {
    forall k | firsts <= k < |admitted|
      ensures HandedBack(client, persist, admitted[k], processed + [m], k)
    {
      HandedBackExtend(client, persist, admitted[k], processed, k, m);
    }
  }

  lemma ProvenanceAdmit(client: Client, persist: Write -> bool,
                        admitted: seq<ModuleVersion>, firsts: nat, processed: seq<ModuleVersion>,
                        pending: set<string>)
    requires Provenance(client, persist, admitted, firsts, processed)
    requires 0 < |processed| <= |admitted|
    ensures var deps := DependenciesOf(client, persist, processed[|processed| - 1]);
      Provenance(client, persist, admitted + FirstOccurrences(deps, PathOf, pending), firsts, processed)
  {
    var last := |processed| - 1;
    var deps := DependenciesOf(client, persist, processed[last]);
    var added := FirstOccurrences(deps, PathOf, pending);
    var after := admitted + added;
    FirstOccurrencesSubset(deps, PathOf, pending);
    forall k | firsts <= k < |after|
      ensures HandedBack(client, persist, after[k], processed, k)
    {
      if k < |admitted| {
        assert after[k] == admitted[k];
      } else {
        assert after[k] == added[k - |admitted|];
        HandedBackByLast(client, persist, after[k], processed, k, deps);
      }
    }
  }

  /** A dependency of the last module processed was handed back before any later position. */
  lemma HandedBackByLast(client: Client, persist: Write -> bool, x: ModuleVersion, processed: seq<ModuleVersion>,
                         bound: int, deps: seq<ModuleVersion>)
    requires 0 < |processed| <= bound
    requires deps == DependenciesOf(client, persist, processed[|processed| - 1])
    requires exists i :: 0 <= i < |deps| && x == deps[i]
    ensures HandedBack(client, persist, x, processed, bound)
  {
    var last := |processed| - 1;
    assert x in DependenciesOf(client, persist, processed[last]);
  }

  /** One worker: process a module and hand back what it depends on. */
  method ProcessAndHandBack(client: Client, persist: Write -> bool, m: ModuleVersion) returns (deps: seq<ModuleVersion>)
    ensures deps == DependenciesOf(client, persist, m)
  {
    var run := ProcessModule(client, persist, m);
    deps := if run.outcome.Processed? then run.outcome.dependsOn else [];
  }

  /**
   * The handler run sequentially for at most `budget` modules: the seeds
   * are admitted, then modules are taken in queue order, processed, and
   * their dependencies admitted.  No path is processed twice, the distinct
   * seeds come first, and every later module is a direct dependency of a
   * module processed before it.
   */
  method Crawl(lines: seq<string>, client: Client, persist: Write -> bool, budget: nat)
    returns (processed: seq<ModuleVersion>)
    ensures |processed| <= budget
    ensures DistinctKeys(processed, PathOf)
    ensures var seeds := FirstOccurrences(Seeds(lines), PathOf, {});
      forall k :: 0 <= k < |processed| && k < |seeds| ==> processed[k] == seeds[k]
    ensures Provenance(client, persist, processed, |FirstOccurrences(Seeds(lines), PathOf, {})|, processed)
    ensures |processed| < budget ==> KeysOf(Seeds(lines), PathOf) <= KeysOf(processed, PathOf)
    ensures |processed| < budget ==> DependenciesCovered(client, persist, processed, KeysOf(processed, PathOf))
  {
    var seeds := LoadInitialModules(lines);
    var frontier := new Frontier();
    var _ := frontier.AdmitAll(seeds);
    ghost var firsts := FirstOccurrences(seeds, PathOf, {});
    processed := [];
    while |processed| < budget && frontier.queue != []
      invariant CrawlInvariant(frontier, client, persist, firsts, processed)
      invariant |processed| <= budget
      invariant KeysOf(seeds, PathOf) <= frontier.pending
      invariant DependenciesCovered(client, persist, processed, frontier.pending)
      decreases budget - |processed|
    {
      processed := CrawlStep(frontier, client, persist, firsts, processed);
    }
    DistinctKeysPrefix(processed, frontier.queue, PathOf);
    ProvenancePrefix(client, persist, processed, frontier.queue, |firsts|);
    if |processed| < budget {
      assert frontier.queue == [] && processed + [] == processed;
      assert frontier.pending == KeysOf(processed, PathOf);
    }
  }

  /**
   * Every dependency handed back by a processed module has its path in
   * `paths`.
   */
  ghost predicate DependenciesCovered(client: Client, persist: Write -> bool,
                                      processed: seq<ModuleVersion>, paths: set<string>)
  {
    forall j, i :: 0 <= j < |processed| && 0 <= i < |DependenciesOf(client, persist, processed[j])| ==>
      DependenciesOf(client, persist, processed[j])[i].path in paths
  }

  /** Admitting the dependencies of the module just processed keeps them all covered. */
  lemma DependenciesCoveredStep(client: Client, persist: Write -> bool, processed: seq<ModuleVersion>,
                                m: ModuleVersion, paths: set<string>, paths': set<string>)
    requires DependenciesCovered(client, persist, processed, paths)
    requires paths + KeysOf(DependenciesOf(client, persist, m), PathOf) <= paths'
    ensures DependenciesCovered(client, persist, processed + [m], paths')
  {
    var next := processed + [m];
    var deps := DependenciesOf(client, persist, m);
    forall j, i | 0 <= j < |next| && 0 <= i < |DependenciesOf(client, persist, next[j])|
      ensures DependenciesOf(client, persist, next[j])[i].path in paths'
    {
      if j < |processed| {
        assert next[j] == processed[j];
      } else {
        assert next[j] == m;
        assert PathOf(deps[i]) in KeysOf(deps, PathOf);
      }
    }
  }

  /**
   * What holds between two steps of the handler: the modules processed so
   * far followed by the queue are everything admitted, the distinct seeds
   * were admitted first, and every later admission was handed back by an
   * earlier module.
   */
  ghost predicate CrawlInvariant(frontier: Frontier, client: Client, persist: Write -> bool,
                                 firsts: seq<ModuleVersion>, processed: seq<ModuleVersion>)
    reads frontier
  {
    && frontier.Valid()
    && processed + frontier.queue == frontier.admitted
    && |firsts| <= |frontier.admitted|
    && (forall k :: 0 <= k < |firsts| ==> frontier.admitted[k] == firsts[k])
    && Provenance(client, persist, frontier.admitted, |firsts|, processed)
  }

  /** One step of the handler: take the next module, process it, admit what it hands back. */
  method CrawlStep(frontier: Frontier, client: Client, persist: Write -> bool,
                   ghost firsts: seq<ModuleVersion>, processed: seq<ModuleVersion>)
    returns (next: seq<ModuleVersion>)
    requires CrawlInvariant(frontier, client, persist, firsts, processed) && frontier.queue != []
    modifies frontier
    ensures CrawlInvariant(frontier, client, persist, firsts, next)
    ensures next == processed + [old(frontier.queue[0])]
    ensures old(frontier.pending) <= frontier.pending
    ensures DependenciesCovered(client, persist, processed, old(frontier.pending)) ==>
              DependenciesCovered(client, persist, next, frontier.pending)
  {
    ghost var queued := frontier.queue;
    var m := frontier.Take();
    TakeKeepsOrder(processed, queued);
    var deps := ProcessAndHandBack(client, persist, m);
    ProvenanceTake(client, persist, frontier.admitted, |firsts|, processed, m);
    next := processed + [m];
    assert next[|next| - 1] == m;
    ProvenanceAdmit(client, persist, frontier.admitted, |firsts|, next, frontier.pending);
    ghost var waiting, admittedBefore := frontier.queue, frontier.admitted;
    ghost var pendingBefore := frontier.pending;
    var _ := frontier.AdmitAll(deps);
    if DependenciesCovered(client, persist, processed, pendingBefore) {
      DependenciesCoveredStep(client, persist, processed, m, pendingBefore, frontier.pending);
    }
    ghost var added := frontier.queue[|waiting|..];
    assert frontier.queue == waiting + added;
    assert next + (waiting + added) == (next + waiting) + added;
    assert forall k :: 0 <= k < |admittedBefore| ==> frontier.admitted[k] == admittedBefore[k];
  }

  lemma TakeKeepsOrder(processed: seq<ModuleVersion>, queue: seq<ModuleVersion>)
    requires queue != []
    ensures (processed + [queue[0]]) + queue[1..] == processed + queue
  {
    assert queue == [queue[0]] + queue[1..];
  }

  lemma ProvenancePrefix(client: Client, persist: Write -> bool,
                         processed: seq<ModuleVersion>, queue: seq<ModuleVersion>, firsts: nat)
    requires Provenance(client, persist, processed + queue, firsts, processed)
    ensures Provenance(client, persist, processed, firsts, processed)
  {
    forall k | firsts <= k < |processed|
      ensures HandedBack(client, persist, processed[k], processed, k)
    {
      assert (processed + queue)[k] == processed[k];
    }
  }
}
