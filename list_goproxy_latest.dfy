/**
 * `list-goproxy-latest`: the latest-version policy of one module (a cached
 * lookup under backoff, then one authoritative lookup) and the dispatch
 * loop that looks every distinct module name up once and writes one CSV
 * row per successful lookup.
 */
module ListGoProxyLatest {
  import opened Wrappers
  import opened Dedup
  import opened GoProxy

  // ------------------------------------------------------------ backoff

  /** What one try of a backoff operation returned: `nil`, a retryable error, or `backoff.Permanent(err)`. */
  datatype Attempt<T, E> = Done(value: T) | Retryable(error: E) | Permanent(error: E)

  /** How many tries were made and what `backoff.Retry` returned. */
  datatype Retried<T, E> = Retried(tries: nat, result: Result<T, E>)

  /**
   * `backoff.Retry` with `WithMaxTries(maxTries)`, from try `n` on; `op(n)`
   * is what the `n`-th try returns.  Waiting between tries is not modelled.
   */
  function RetryFrom<T, E>(op: nat -> Attempt<T, E>, maxTries: nat, n: nat): (r: Retried<T, E>)
    requires 1 <= n <= maxTries
    ensures n <= r.tries <= maxTries
    decreases maxTries - n
  {
    match op(n)
    case Done(v) => Retried(n, Success(v))
    case Permanent(e) => Retried(n, Failure(e))
    case Retryable(e) => if n == maxTries then Retried(n, Failure(e)) else RetryFrom(op, maxTries, n + 1)
  }

  function Retry<T, E>(op: nat -> Attempt<T, E>, maxTries: nat): Retried<T, E>
    requires 1 <= maxTries
  {
    RetryFrom(op, maxTries, 1)
  }

  /**
   * The retry loop: every try before the last was retryable; the last one
   * decided the result, and it is retryable only when the tries ran out.
   */
  lemma {:induction false} RetryFromSpec<T, E>(op: nat -> Attempt<T, E>, maxTries: nat, n: nat)
    requires 1 <= n <= maxTries
    ensures var r := RetryFrom(op, maxTries, n);
      && n <= r.tries <= maxTries
      && (forall k :: n <= k < r.tries ==> op(k).Retryable?)
      && (r.result.Success? <==> op(r.tries).Done?)
      && (op(r.tries).Done? ==> r.result == Success(op(r.tries).value))
      && (!op(r.tries).Done? ==> r.result == Failure(op(r.tries).error))
      && (op(r.tries).Retryable? ==> r.tries == maxTries)
    decreases maxTries - n
  {
    if op(n).Retryable? && n < maxTries {
      RetryFromSpec(op, maxTries, n + 1);
    }
  }

  /** An operation that never returns a retryable error is tried exactly once. */
  lemma RetryWithoutRetryableErrors<T, E>(op: nat -> Attempt<T, E>, maxTries: nat)
    requires 1 <= maxTries
    requires forall k :: 1 <= k <= maxTries ==> !op(k).Retryable?
    ensures Retry(op, maxTries).tries == 1
  {
  }

  const MaxTries: nat := 3

  // ---------------------------------------- getLatestModuleInfo as written

  /**
   * The backoff operation as written: a cached `ModuleNotFound` is
   * permanent, and every other outcome, errors included, is returned as a
   * success carrying the client's result (the zero `ModuleInfo` on error).
   */
  function CachedAttempt(reply: Result<ModuleInfo, ProxyError>): Attempt<ModuleInfo, ProxyError>
  {
    if reply == Failure(ModuleNotFound) then Permanent(ModuleNotFound)
    else Done(if reply.Success? then reply.value else ZeroInfo)
  }

  /** What one latest-version lookup did and returned. */
  datatype LatestLookup = LatestLookup(cachedTries: nat, authoritativeCalled: bool, result: Result<ModuleInfo, ProxyError>)

  /**
   * `getLatestModuleInfo`.  `cached(n)` is the reply to the `n`-th
   * cached-only `GetModuleLatestInfo`, `authoritative` the reply to the
   * uncached one.  The three error branches after the authoritative call
   * differ only in their messages; each wraps the client's error.
   */
  function GetLatestModuleInfo(cached: nat -> Result<ModuleInfo, ProxyError>, authoritative: Result<ModuleInfo, ProxyError>)
    : LatestLookup
  {
    var r := Retry((n: nat) => CachedAttempt(cached(n)), MaxTries);
    if r.result.Success? then LatestLookup(r.tries, false, r.result)
    else if r.result.error.IsTimeout() then LatestLookup(r.tries, false, r.result)
    else if r.result.error != ModuleNotFound then LatestLookup(r.tries, false, r.result)
    else LatestLookup(r.tries, true, authoritative)
  }

  /**
   * As written, the cached lookup is tried once: a cached `ModuleNotFound`
   * alone leads to the authoritative lookup, and every other cached
   * outcome is a success.
   */
  lemma GetLatestModuleInfoAsWritten(cached: nat -> Result<ModuleInfo, ProxyError>, authoritative: Result<ModuleInfo, ProxyError>)
    ensures var l := GetLatestModuleInfo(cached, authoritative);
      && l.cachedTries == 1
      && (l.authoritativeCalled <==> cached(1) == Failure(ModuleNotFound))
      && (l.authoritativeCalled ==> l.result == authoritative)
      && (cached(1).Success? ==> l.result == cached(1))
      && (cached(1).Failure? && cached(1) != Failure(ModuleNotFound) ==> l.result == Success(ZeroInfo))
  {
    var op := (n: nat) => CachedAttempt(cached(n));
    RetryFromSpec(op, MaxTries, 1);
    assert !op(1).Retryable?;
  }

  /**
   * The discrepancy: a cached lookup that timed out is reported as a
   * successful lookup of the empty version, after a single try and
   * without the authoritative fallback.
   */
  lemma TimeoutBecomesEmptyVersion(cached: nat -> Result<ModuleInfo, ProxyError>, authoritative: Result<ModuleInfo, ProxyError>)
    requires cached(1) == Failure(Failed(ExecuteRequest, true))
    ensures GetLatestModuleInfo(cached, authoritative) == LatestLookup(1, false, Success(ZeroInfo))
    ensures GetLatestModuleInfo(cached, authoritative).result.value.version == ""
  {
    GetLatestModuleInfoAsWritten(cached, authoritative);
  }

  // ----------------------------------------- getLatestModuleInfo corrected

  /** The backoff operation as intended: errors other than `ModuleNotFound` are retried. */
  function CachedAttemptRetrying(reply: Result<ModuleInfo, ProxyError>): Attempt<ModuleInfo, ProxyError>
  {
    if reply.Success? then Done(reply.value)
    else if reply.error == ModuleNotFound then Permanent(ModuleNotFound)
    else Retryable(reply.error)
  }

  /** `getLatestModuleInfo` with the intended backoff operation; the rest is unchanged. */
  function GetLatestModuleInfoRetrying(cached: nat -> Result<ModuleInfo, ProxyError>, authoritative: Result<ModuleInfo, ProxyError>)
    : LatestLookup
  {
    var r := Retry((n: nat) => CachedAttemptRetrying(cached(n)), MaxTries);
    if r.result.Success? then LatestLookup(r.tries, false, r.result)
    else if r.result.error.IsTimeout() then LatestLookup(r.tries, false, r.result)
    else if r.result.error != ModuleNotFound then LatestLookup(r.tries, false, r.result)
    else LatestLookup(r.tries, true, authoritative)
  }

  /**
   * The intended policy: at most three cached tries, every try but the
   * last one failed with an error other than `ModuleNotFound`; the
   * authoritative lookup is made exactly after a cached `ModuleNotFound`;
   * the result is always a reply the proxy actually gave, so a lookup
   * that kept timing out is a timeout error.
   */
  lemma GetLatestModuleInfoRetryingSpec(cached: nat -> Result<ModuleInfo, ProxyError>, authoritative: Result<ModuleInfo, ProxyError>)
    ensures var l := GetLatestModuleInfoRetrying(cached, authoritative);
      && 1 <= l.cachedTries <= MaxTries
      && (forall k :: 1 <= k < l.cachedTries ==> cached(k).Failure? && cached(k).error != ModuleNotFound)
      && (l.authoritativeCalled <==> cached(l.cachedTries) == Failure(ModuleNotFound))
      && (l.authoritativeCalled ==> l.result == authoritative)
      && (!l.authoritativeCalled ==> l.result == cached(l.cachedTries))
      && (l.cachedTries < MaxTries && !l.authoritativeCalled ==> cached(l.cachedTries).Success?)
  {
    var op := (n: nat) => CachedAttemptRetrying(cached(n));
    RetryFromSpec(op, MaxTries, 1);
    var r := Retry(op, MaxTries);
    forall k | 1 <= k < r.tries ensures cached(k).Failure? && cached(k).error != ModuleNotFound {
      assert op(k).Retryable?;
    }
  }

  /** With the intended operation, three cached timeouts are a timeout error, not an empty version. */
  lemma RetryingReportsTimeouts(cached: nat -> Result<ModuleInfo, ProxyError>, authoritative: Result<ModuleInfo, ProxyError>)
    requires forall k :: 1 <= k <= MaxTries ==> cached(k) == Failure(Failed(ExecuteRequest, true))
    ensures GetLatestModuleInfoRetrying(cached, authoritative) == LatestLookup(3, false, Failure(Failed(ExecuteRequest, true)))
  {
    GetLatestModuleInfoRetryingSpec(cached, authoritative);
  }

  // ------------------------------------------------------- the dispatcher

  /** The CSV header of the output file. */
  const Header: seq<string> := ["module", "latest"]

  function Id(s: string): string { s }

  /** The module names of the result records, skipping records with no string `name`. */
  function Names(records: seq<Option<string>>): (r: seq<string>)
    ensures |r| <= |records|
    decreases |records|
  {
    if records == [] then []
    else
      var last := records[|records| - 1];
      Names(records[..|records| - 1]) + (if last.Some? then [last.value] else [])
  }

  /** One row `module,latest` per name whose lookup succeeded, in lookup order. */
  function LatestRows(names: seq<string>, lookup: string -> Result<ModuleInfo, ProxyError>): (rows: seq<seq<string>>)
    ensures |rows| <= |names|
    decreases |names|
  {
    if names == [] then []
    else
      var last := names[|names| - 1];
      var r := lookup(last);
      LatestRows(names[..|names| - 1], lookup) + (if r.Success? then [[last, r.value.version]] else [])
  }

  /** A row is written exactly for a looked-up name whose lookup succeeded, with the version found. */
  lemma {:induction false} LatestRowsSpec(names: seq<string>, lookup: string -> Result<ModuleInfo, ProxyError>, row: seq<string>)
    ensures row in LatestRows(names, lookup) <==>
      exists i :: 0 <= i < |names| && lookup(names[i]).Success? && row == [names[i], lookup(names[i]).value.version]
    decreases |names|
  {
    if names != [] {
      var init := names[..|names| - 1];
      LatestRowsSpec(init, lookup, row);
      if exists i :: 0 <= i < |init| && lookup(init[i]).Success? && row == [init[i], lookup(init[i]).value.version] {
        var i :| 0 <= i < |init| && lookup(init[i]).Success? && row == [init[i], lookup(init[i]).value.version];
        assert names[i] == init[i];
      }
      if exists i :: 0 <= i < |names| && lookup(names[i]).Success? && row == [names[i], lookup(names[i]).value.version] {
        var i :| 0 <= i < |names| && lookup(names[i]).Success? && row == [names[i], lookup(names[i]).value.version];
        if i < |init| {
          assert init[i] == names[i];
        }
      }
    }
  }

  /**
   * The handler: read the names, look each distinct one up once (the
   * `modulesSet` check), and write the header and then one row per
   * successful lookup.  Rows are in lookup order here; the source writes
   * them in the order the concurrent lookups finish.
   */
  method ListLatest(records: seq<Option<string>>, lookup: string -> Result<ModuleInfo, ProxyError>)
    returns (lookedUp: seq<string>, rows: seq<seq<string>>)
    ensures lookedUp == FirstOccurrences(Names(records), Id, {})
    ensures rows == [Header] + LatestRows(lookedUp, lookup)
  {
    var modulesSet: set<string> := {};
    lookedUp := [];
    var results: seq<seq<string>> := [];
    for i := 0 to |records|
      invariant modulesSet == KeysOf(Names(records[..i]), Id)
      invariant lookedUp == FirstOccurrences(Names(records[..i]), Id, {})
      invariant results == LatestRows(lookedUp, lookup)
    {
      NamesStep(records, i);
      var record := records[i];
      if record.Some? {
        var name := record.value;
        KeysOfAppend(Names(records[..i]), [name], Id);
        KeysOfSingleton(name, Id);
        if name !in modulesSet {
          FirstOccurrencesSnocNew(Names(records[..i]), name, Id, {});
          LatestRowsSnoc(lookedUp, name, lookup);
          modulesSet := modulesSet + {name};
          lookedUp := lookedUp + [name];
          var info := lookup(name);
          if info.Success? {
            results := results + [[name, info.value.version]];
          }
        } else {
          FirstOccurrencesSnocSeen(Names(records[..i]), name, Id, {});
        }
      } else {
        assert Names(records[..i + 1]) == Names(records[..i]) + [];
        assert Names(records[..i]) + [] == Names(records[..i]);
      }
    }
    assert records[..|records|] == records;
    rows := [Header] + results;
  }

  lemma NamesStep(records: seq<Option<string>>, i: nat)
    requires i < |records|
    ensures Names(records[..i + 1]) == Names(records[..i]) + (if records[i].Some? then [records[i].value] else [])
  {
    assert records[..i + 1][..i] == records[..i];
  }

  lemma LatestRowsSnoc(names: seq<string>, name: string, lookup: string -> Result<ModuleInfo, ProxyError>)
    ensures LatestRows(names + [name], lookup)
      == LatestRows(names, lookup) + (if lookup(name).Success? then [[name, lookup(name).value.version]] else [])
  {
    assert (names + [name])[..|names|] == names;
  }

  /** Each distinct name is looked up exactly once. */
  lemma LookedUpOnce(records: seq<Option<string>>)
    ensures var lookedUp := FirstOccurrences(Names(records), Id, {});
      && DistinctKeys(lookedUp, Id)
      && KeysOf(lookedUp, Id) == KeysOf(Names(records), Id)
  {
    FirstOccurrencesSpec(Names(records), Id, {});
  }

  /** The lookup each name gets when the policy is `getLatestModuleInfo` as written. */
  function AsWrittenLookup(cached: (string, nat) -> Result<ModuleInfo, ProxyError>, authoritative: string -> Result<ModuleInfo, ProxyError>)
    : string -> Result<ModuleInfo, ProxyError>
  {
    (name: string) => GetLatestModuleInfo((n: nat) => cached(name, n), authoritative(name)).result
  }

  function RetryingLookup(cached: (string, nat) -> Result<ModuleInfo, ProxyError>, authoritative: string -> Result<ModuleInfo, ProxyError>)
    : string -> Result<ModuleInfo, ProxyError>
  {
    (name: string) => GetLatestModuleInfoRetrying((n: nat) => cached(name, n), authoritative(name)).result
  }

  /**
   * As written, a module whose cached lookup timed out gets a row with an
   * empty latest version; with the intended policy it gets no row when
   * all three tries time out.
   */
  lemma TimedOutModuleRow(names: seq<string>, cached: (string, nat) -> Result<ModuleInfo, ProxyError>,
                          authoritative: string -> Result<ModuleInfo, ProxyError>, i: nat)
    requires i < |names|
    requires forall k :: 1 <= k <= MaxTries ==> cached(names[i], k) == Failure(Failed(ExecuteRequest, true))
    ensures [names[i], ""] in LatestRows(names, AsWrittenLookup(cached, authoritative))
    ensures forall v :: [names[i], v] !in LatestRows(names, RetryingLookup(cached, authoritative))
  {
    var asWritten := AsWrittenLookup(cached, authoritative);
    var retrying := RetryingLookup(cached, authoritative);
    TimeoutBecomesEmptyVersion((n: nat) => cached(names[i], n), authoritative(names[i]));
    LatestRowsSpec(names, asWritten, [names[i], ""]);
    RetryingReportsTimeouts((n: nat) => cached(names[i], n), authoritative(names[i]));
    assert retrying(names[i]).Failure?;
    forall v ensures [names[i], v] !in LatestRows(names, retrying) {
      LatestRowsSpec(names, retrying, [names[i], v]);
    }
  }
}
