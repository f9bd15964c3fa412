/**
 * The Go module proxy client: the URLs it requests, how it maps an HTTP
 * exchange to a value or an error, and the decode loop of the module
 * index.  The HTTP round trip, JSON decoding and `modfile.Parse` are
 * oracles: a lookup receives a function from the URL it requests to the
 * exchange that request produced.
 */
module GoProxy {
  import opened Wrappers
  import opened Strings
  import opened Mod

  const ProxyURL: string := "https://proxy.golang.org"
  const IndexURL: string := "https://index.golang.org"
  const CachedOnlySegment: string := "/cached-only"

  /** The `limit` the index is always asked for. */
  const ListIndexMaxLimit: nat := 2000

  const StatusOK: int := 200
  const StatusNotFound: int := 404

  datatype Origin = Origin(vcs: string, url: string, hash: string)

  /** `ModuleInfo`; `time` stands for the decoded `time.Time`. */
  datatype ModuleInfo = ModuleInfo(version: string, time: int, origin: Origin)

  const ZeroInfo := ModuleInfo("", 0, Origin("", "", ""))

  /** One entry of the module index; `timestamp` stands for the decoded `time.Time`. */
  datatype Index = Index(path: string, version: string, timestamp: int)

  /** Where a lookup failed before or after the status code was seen. */
  datatype Stage = CreateRequest | ExecuteRequest | ReadResponse | DecodeResponse

  /**
   * The errors a lookup returns.  `ModuleNotFound` and `InvalidModFile` are
   * the sentinel errors `ErrModuleNotFound` and `ErrInvalidModFile`; a
   * `Failed` error wraps the underlying error, which is a network timeout
   * exactly when `timeout` holds.
   */
  datatype ProxyError =
    | ModuleNotFound
    | InvalidModFile
    | UnexpectedStatus(code: int)
    | Failed(stage: Stage, timeout: bool)
  {
    /** `errors.As(err, &netErr) && netErr.Timeout()`. */
    predicate IsTimeout() { Failed? && timeout }
  }

  /** What one HTTP request produced. */
  datatype Exchange<B> =
    | RequestInvalid            // `http.NewRequestWithContext` refused the URL
    | RequestFailed(timeout: bool)  // `Do` returned an error
    | Response(status: int, body: B)

  /** The JSON decoding of a response body. */
  datatype Decoded<T> = Decoded(value: T) | Undecodable(timeout: bool)

  /** Reading a `.mod` body and handing it to `modfile.Parse`. */
  datatype ModBody = ParsedModFile(file: ModFile) | Unparsable | ReadFailed(timeout: bool)

  // ---------------------------------------------------------------- URLs

  function CachedOnlyPath(cachedOnly: bool): (r: string)
    ensures cachedOnly ==> r == CachedOnlySegment
    ensures !cachedOnly ==> r == ""
  {
    if cachedOnly then CachedOnlySegment else ""
  }

  function LatestInfoURL(modulePath: string, cachedOnly: bool): string
  {
    ProxyURL + CachedOnlyPath(cachedOnly) + "/" + modulePath + "/@latest"
  }

  function InfoURL(modulePath: string, version: string, cachedOnly: bool): string
  {
    ProxyURL + CachedOnlyPath(cachedOnly) + "/" + modulePath + "/@v/" + version + ".info"
  }

  function ModFileURL(modulePath: string, version: string, cachedOnly: bool): string
  {
    ProxyURL + CachedOnlyPath(cachedOnly) + "/" + modulePath + "/@v/" + version + ".mod"
  }

  /**
   * `/cached-only` is inserted exactly when it is asked for: the two URLs of
   * one lookup differ, by that segment right after the host.
   */
  lemma LatestInfoURLCachedOnly(modulePath: string, c1: bool, c2: bool)
    ensures LatestInfoURL(modulePath, c1) == LatestInfoURL(modulePath, c2) <==> c1 == c2
    ensures LatestInfoURL(modulePath, true) == ProxyURL + CachedOnlySegment + LatestInfoURL(modulePath, false)[|ProxyURL|..]
  {
    assert |LatestInfoURL(modulePath, true)| == |LatestInfoURL(modulePath, false)| + |CachedOnlySegment|;
  }

  lemma InfoURLCachedOnly(modulePath: string, version: string, c1: bool, c2: bool)
    ensures InfoURL(modulePath, version, c1) == InfoURL(modulePath, version, c2) <==> c1 == c2
    ensures InfoURL(modulePath, version, true)
         == ProxyURL + CachedOnlySegment + InfoURL(modulePath, version, false)[|ProxyURL|..]
  {
    assert |InfoURL(modulePath, version, true)| == |InfoURL(modulePath, version, false)| + |CachedOnlySegment|;
  }

  lemma ModFileURLCachedOnly(modulePath: string, version: string, c1: bool, c2: bool)
    ensures ModFileURL(modulePath, version, c1) == ModFileURL(modulePath, version, c2) <==> c1 == c2
    ensures ModFileURL(modulePath, version, true)
         == ProxyURL + CachedOnlySegment + ModFileURL(modulePath, version, false)[|ProxyURL|..]
  {
    assert |ModFileURL(modulePath, version, true)| == |ModFileURL(modulePath, version, false)| + |CachedOnlySegment|;
  }

  /**
   * The segment is not escaped: a module whose path began with
   * `cached-only/` would be looked up, uncached, at the cached-only URL of
   * the rest of its path.
   */
  lemma CachedOnlySegmentIsAmbiguous(rest: string)
    ensures LatestInfoURL("cached-only/" + rest, false) == LatestInfoURL(rest, true)
  {
  }

  /** Two different modules are never looked up at the same URL. */
  lemma URLsDistinguishModules(p: string, q: string, version: string, cachedOnly: bool)
    requires p != q
    ensures LatestInfoURL(p, cachedOnly) != LatestInfoURL(q, cachedOnly)
    ensures InfoURL(p, version, cachedOnly) != InfoURL(q, version, cachedOnly)
    ensures ModFileURL(p, version, cachedOnly) != ModFileURL(q, version, cachedOnly)
  {
    var h := ProxyURL + CachedOnlyPath(cachedOnly) + "/";
    CancelAround(h, p, q, "/@latest");
    CancelAround(h, p, q, "/@v/" + version + ".info");
    CancelAround(h, p, q, "/@v/" + version + ".mod");
    VersionURLShape(h, p, version, ".info");
    VersionURLShape(h, q, version, ".info");
    VersionURLShape(h, p, version, ".mod");
    VersionURLShape(h, q, version, ".mod");
  }

  /** A per-version URL as the host part, the path and the rest. */
  lemma VersionURLShape(h: string, p: string, version: string, ext: string)
    ensures h + p + "/@v/" + version + ext == h + p + ("/@v/" + version + ext)
  {
    ConcatAssoc(h + p + "/@v/", version, ext);
    ConcatAssoc(h + p, "/@v/", version + ext);
    ConcatAssoc("/@v/", version, ext);
  }

  lemma CancelAround(h: string, p: string, q: string, t: string)
    ensures h + p + t == h + q + t ==> p == q
  {
    if h + p + t == h + q + t {
      var a := h + p + t;
      assert |p| == |q|;
      assert a[|h|..|h| + |p|] == p;
      assert a[|h|..|h| + |q|] == q;
    }
  }

  /** The `.info` and `.mod` documents of a version are different URLs. */
  lemma InfoAndModFileURLsDiffer(modulePath: string, version: string, cachedOnly: bool)
    ensures InfoURL(modulePath, version, cachedOnly) != ModFileURL(modulePath, version, cachedOnly)
  {
    var i := InfoURL(modulePath, version, cachedOnly);
    var m := ModFileURL(modulePath, version, cachedOnly);
    assert |i| == |m| + 1;
  }

  // ------------------------------------------------- status-to-error mapping

  /** The error of an exchange that produced no status code, if any. */
  function TransportError<B>(e: Exchange<B>): (r: Option<ProxyError>)
    ensures r.None? <==> e.Response?
    ensures e.RequestInvalid? ==> r == Some(Failed(CreateRequest, false))
    ensures e.RequestFailed? ==> r == Some(Failed(ExecuteRequest, e.timeout))
  {
    match e
    case RequestInvalid => Some(Failed(CreateRequest, false))
    case RequestFailed(timeout) => Some(Failed(ExecuteRequest, timeout))
    case Response(_, _) => None
  }

  /** How `GetModuleLatestInfo` reads one exchange. */
  function LatestInfoOutcome(e: Exchange<Decoded<ModuleInfo>>): (r: Result<ModuleInfo, ProxyError>)
  {
    match e
    case Response(status, body) =>
      if status != StatusOK then
        if status == StatusNotFound then Failure(ModuleNotFound) else Failure(UnexpectedStatus(status))
      else (match body
            case Decoded(info) => Success(info)
            case Undecodable(timeout) => Failure(Failed(DecodeResponse, timeout)))
    case _ => Failure(TransportError(e).value)
  }

  /** How `GetModuleInfo` reads one exchange: there is no 404 case. */
  function InfoOutcome(e: Exchange<Decoded<ModuleInfo>>): (r: Result<ModuleInfo, ProxyError>)
  {
    match e
    case Response(status, body) =>
      if status != StatusOK then Failure(UnexpectedStatus(status))
      else (match body
            case Decoded(info) => Success(info)
            case Undecodable(timeout) => Failure(Failed(DecodeResponse, timeout)))
    case _ => Failure(TransportError(e).value)
  }

  /** How `GetModuleModFile` reads one exchange. */
  function ModFileOutcome(e: Exchange<ModBody>): (r: Result<ModFile, ProxyError>)
  {
    match e
    case Response(status, body) =>
      if status != StatusOK then
        if status == StatusNotFound then Failure(ModuleNotFound) else Failure(UnexpectedStatus(status))
      else (match body
            case ParsedModFile(file) => Success(file)
            case Unparsable => Failure(InvalidModFile)
            case ReadFailed(timeout) => Failure(Failed(ReadResponse, timeout)))
    case _ => Failure(TransportError(e).value)
  }

  function GetModuleLatestInfo(fetch: string -> Exchange<Decoded<ModuleInfo>>, modulePath: string, cachedOnly: bool)
    : (r: Result<ModuleInfo, ProxyError>)
  {
    LatestInfoOutcome(fetch(LatestInfoURL(modulePath, cachedOnly)))
  }

  function GetModuleInfo(fetch: string -> Exchange<Decoded<ModuleInfo>>, modulePath: string, version: string, cachedOnly: bool)
    : (r: Result<ModuleInfo, ProxyError>)
  {
    InfoOutcome(fetch(InfoURL(modulePath, version, cachedOnly)))
  }

  function GetModuleModFile(fetch: string -> Exchange<ModBody>, modulePath: string, version: string, cachedOnly: bool)
    : (r: Result<ModFile, ProxyError>)
  {
    ModFileOutcome(fetch(ModFileURL(modulePath, version, cachedOnly)))
  }

  /**
   * The latest-info mapping: a value only from a 200 with a decodable body;
   * `ModuleNotFound` exactly for a 404; every other status its own error;
   * a timeout error only when the transport or the decoder timed out.
   */
  lemma LatestInfoOutcomeSpec(e: Exchange<Decoded<ModuleInfo>>)
    ensures var r := LatestInfoOutcome(e);
      && (r.Success? <==> e.Response? && e.status == StatusOK && e.body.Decoded?)
      && (r.Success? ==> r.value == e.body.value)
      && (r == Failure(ModuleNotFound) <==> e.Response? && e.status == StatusNotFound)
      && (e.Response? && e.status != StatusOK && e.status != StatusNotFound ==> r == Failure(UnexpectedStatus(e.status)))
      && (!e.Response? ==> r == Failure(TransportError(e).value))
      && ((r.Failure? && r.error.IsTimeout()) <==>
           ((e.RequestFailed? && e.timeout)
            || (e.Response? && e.status == StatusOK && e.body.Undecodable? && e.body.timeout)))
  {
  }

  /** `GetModuleInfo` never reports `ModuleNotFound`: a 404 is an unexpected status. */
  lemma InfoOutcomeNeverNotFound(e: Exchange<Decoded<ModuleInfo>>)
    ensures InfoOutcome(e) != Failure(ModuleNotFound)
    ensures e.Response? && e.status == StatusNotFound ==> InfoOutcome(e) == Failure(UnexpectedStatus(StatusNotFound))
    ensures LatestInfoOutcome(e) != Failure(ModuleNotFound) ==> InfoOutcome(e) == LatestInfoOutcome(e)
  {
  }

  /**
   * The mod-file mapping: a file only from a 200 whose body parses;
   * `ModuleNotFound` exactly for a 404; `InvalidModFile` exactly for a 200
   * whose body was read but does not parse.
   */
  lemma ModFileOutcomeSpec(e: Exchange<ModBody>)
    ensures var r := ModFileOutcome(e);
      && (r.Success? <==> e.Response? && e.status == StatusOK && e.body.ParsedModFile?)
      && (r.Success? ==> r.value == e.body.file)
      && (r == Failure(ModuleNotFound) <==> e.Response? && e.status == StatusNotFound)
      && (r == Failure(InvalidModFile) <==> e.Response? && e.status == StatusOK && e.body.Unparsable?)
      && (e.Response? && e.status != StatusOK && e.status != StatusNotFound ==> r == Failure(UnexpectedStatus(e.status)))
      && ((r.Failure? && r.error.IsTimeout()) <==>
           ((e.RequestFailed? && e.timeout)
            || (e.Response? && e.status == StatusOK && e.body.ReadFailed? && e.body.timeout)))
  {
  }

  // ------------------------------------------------------------ the index

  /** The request `ListIndex` sends: its URL and its query parameters. */
  datatype IndexRequest = IndexRequest(url: string, query: map<string, seq<string>>)

  /** `strconv.Itoa` on a natural number. */
  function Decimal(n: nat): (r: string)
    ensures |r| >= 1
    ensures forall k :: 0 <= k < |r| ==> '0' <= r[k] <= '9'
  {
    var d := [(('0' as int) + n % 10) as char];
    if n < 10 then d else Decimal(n / 10) + d
  }

  function DigitValue(c: char): int { c as int - '0' as int }

  /** The value a string of decimal digits denotes. */
  function DecimalValue(s: string): int
  {
    if s == [] then 0 else 10 * DecimalValue(s[..|s| - 1]) + DigitValue(s[|s| - 1])
  }

  /** Reading back what `Decimal` writes gives the number. */
  lemma {:induction false} DecimalRoundTrip(n: nat)
    ensures DecimalValue(Decimal(n)) == n
    decreases n
  {
    var s := Decimal(n);
    var d := [(('0' as int) + n % 10) as char];
    if n < 10 {
      assert s == d && s[..0] == [];
    } else {
      DecimalRoundTrip(n / 10);
      assert s == Decimal(n / 10) + d;
      assert s[..|s| - 1] == Decimal(n / 10);
    }
  }

  /** `since` is the already formatted RFC 3339 timestamp. */
  function ListIndexRequest(since: string): (r: IndexRequest)
    ensures r.url == IndexURL + "/index"
    ensures r.query.Keys == {"since", "limit", "include"}
    ensures r.query["since"] == [since] && r.query["include"] == [""]
    ensures |r.query["limit"]| == 1 && DecimalValue(r.query["limit"][0]) == ListIndexMaxLimit
  {
    DecimalRoundTrip(ListIndexMaxLimit);
    IndexRequest(IndexURL + "/index",
      map["since" := [since], "limit" := [Decimal(ListIndexMaxLimit)], "include" := [""]])
  }

  /**
   * One call of the JSON stream decoder; the end of the sequence of steps
   * is `io.EOF`.
   */
  datatype DecodeStep = Entry(index: Index) | Malformed(timeout: bool)

  /** What the decode loop yields from a stream: the entries up to EOF, or the first decode error. */
  function DecodeAll(steps: seq<DecodeStep>): Result<seq<Index>, ProxyError>
  {
    if steps == [] then Success([])
    else match steps[0]
      case Malformed(timeout) => Failure(Failed(DecodeResponse, timeout))
      case Entry(index) =>
        var rest := DecodeAll(steps[1..]);
        if rest.Success? then Success([index] + rest.value) else rest
  }

  predicate AllEntries(steps: seq<DecodeStep>)
  {
    forall k :: 0 <= k < |steps| ==> steps[k].Entry?
  }

  /** The stream decodes exactly when every step is an entry, and then yields the entries in stream order. */
  lemma {:induction false} DecodeAllSpec(steps: seq<DecodeStep>)
    ensures DecodeAll(steps).Success? <==> AllEntries(steps)
    ensures DecodeAll(steps).Success? ==>
      |DecodeAll(steps).value| == |steps|
      && forall k :: 0 <= k < |steps| ==> DecodeAll(steps).value[k] == steps[k].index
    ensures DecodeAll(steps).Failure? ==> DecodeAll(steps).error.Failed? && DecodeAll(steps).error.stage == DecodeResponse
    decreases |steps|
  {
    if steps != [] {
      DecodeAllSpec(steps[1..]);
      if steps[0].Entry? {
        if AllEntries(steps[1..]) {
          assert AllEntries(steps) by {
            forall k | 0 <= k < |steps| ensures steps[k].Entry? {
              if k > 0 { assert steps[k] == steps[1..][k - 1]; }
            }
          }
        } else {
          var k :| 0 <= k < |steps[1..]| && !steps[1..][k].Entry?;
          assert !steps[k + 1].Entry?;
        }
      }
    }
  }

  /** The decode loop after the first `n` steps have been decoded successfully. */
  lemma DecodeAllPrefix(steps: seq<DecodeStep>, n: nat)
    requires n < |steps| && AllEntries(steps[..n])
    ensures steps[n].Entry? ==> AllEntries(steps[..n + 1])
  {
    var s := steps[..n + 1];
    if steps[n].Entry? {
      forall k | 0 <= k < |s| ensures s[k].Entry? {
        if k < n { assert s[k] == steps[..n][k]; }
      }
    }
  }

  /** The first malformed step, after entries only, is the error reported. */
  lemma {:induction false} DecodeAllFirstError(steps: seq<DecodeStep>, n: nat)
    requires n < |steps| && AllEntries(steps[..n]) && steps[n].Malformed?
    ensures DecodeAll(steps) == Failure(Failed(DecodeResponse, steps[n].timeout))
    decreases n
  {
    if n > 0 {
      assert steps[..n][0].Entry?;
      assert steps[1..][..n - 1] == steps[..n][1..];
      var tail := steps[1..][..n - 1];
      assert AllEntries(tail) by {
        forall k | 0 <= k < |tail| ensures tail[k].Entry? {
          assert tail[k] == steps[..n][k + 1];
        }
      }
      DecodeAllFirstError(steps[1..], n - 1);
    }
  }

  /**
   * `ListIndex`: request the index since a timestamp and decode the
   * streamed entries until EOF.  A decode error drops everything decoded
   * so far.
   */
  method ListIndex(fetch: IndexRequest -> Exchange<seq<DecodeStep>>, since: string)
    returns (r: Result<seq<Index>, ProxyError>)
    ensures var e := fetch(ListIndexRequest(since));
      && (!e.Response? ==> r == Failure(TransportError(e).value))
      && (e.Response? && e.status != StatusOK ==> r == Failure(UnexpectedStatus(e.status)))
      && (e.Response? && e.status == StatusOK ==> r == DecodeAll(e.body))
  {
    var request := ListIndexRequest(since);
    var e := fetch(request);
    if !e.Response? {
      return Failure(TransportError(e).value);
    }
    if e.status != StatusOK {
      return Failure(UnexpectedStatus(e.status));
    }
    var steps := e.body;
    DecodeAllSpec(steps);
    var indexes: seq<Index> := [];
    var i := 0;
    while i < |steps|
      invariant 0 <= i <= |steps|
      invariant AllEntries(steps[..i])
      invariant |indexes| == i && forall k :: 0 <= k < i ==> indexes[k] == steps[k].index
    {
      DecodeAllPrefix(steps, i);
      match steps[i]
      case Malformed(timeout) =>
        DecodeAllFirstError(steps, i);
        return Failure(Failed(DecodeResponse, timeout));
      case Entry(index) =>
        indexes := indexes + [index];
      i := i + 1;
    }
    assert steps[..i] == steps;
    assert indexes == DecodeAll(steps).value;
    return Success(indexes);
  }
}
