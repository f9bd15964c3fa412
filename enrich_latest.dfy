/**
 * `enrich-latest`: reads `module,latest` CSV rows, parses each latest
 * version and writes the parseable ones to the graph in batches of at
 * most 1000, flushing whenever the batch is full and once at the end.
 */
module EnrichLatest {
  import opened Wrappers
  import opened Sequences
  import Semver

  /** One record of the CSV file after the header: a module name and its latest version. */
  datatype Record = Record(name: string, latest: string)

  /** A line as `csv.Reader` with `FieldsPerRecord = 2` returns it: two fields, or a read error. */
  datatype CsvLine = Fields(record: Record) | BadLine

  /** `moduleUpdate`: the record's name and raw latest string, and the parsed version's parts. */
  datatype ModuleUpdate = ModuleUpdate(name: string, latest: string, latestMajor: string, latestMinor: string,
                                       latestPatch: string, latestLabel: string)

  const BatchSize: nat := 1000

  /** The update a record gives, or `None` when its version does not parse. */
  function UpdateOf(r: Record): (u: Option<ModuleUpdate>)
    ensures u.Some? <==> Semver.Parse(r.latest).err.None?
    ensures u.Some? ==> u.value.name == r.name && u.value.latest == r.latest
  {
    var parsed := Semver.Parse(r.latest);
    if parsed.err.Some? then None
    else Some(ModuleUpdate(r.name, r.latest, parsed.semver.major, parsed.semver.minor,
                           parsed.semver.patch, parsed.semver.labelText))
  }

  /** The updates of the parseable records, in input order. */
  function Updates(records: seq<Record>): seq<ModuleUpdate>
  {
    FilterMap(records, UpdateOf)
  }

  /** The batches the loop forms: full chunks of `n`, then the non-empty remainder. */
  function Chunks<T>(xs: seq<T>, n: nat): seq<seq<T>>
    requires 0 < n
    decreases |xs|
  {
    if xs == [] then []
    else if |xs| <= n then [xs]
    else [xs[..n]] + Chunks(xs[n..], n)
  }

  function Concat<T>(cs: seq<seq<T>>): seq<T>
    decreases |cs|
  {
    if cs == [] then [] else cs[0] + Concat(cs[1..])
  }

  // ----------------------------------------------------- the graph session

  /**
   * The write session.  `accepts(k)` is whether the `k`-th batch update
   * succeeds; `committed` holds the batches that did, in order.
   */
  class Session {
    const accepts: nat -> bool
    var committed: seq<seq<ModuleUpdate>>

    constructor(accepts: nat -> bool)
      ensures this.accepts == accepts && committed == []
    {
      this.accepts := accepts;
      committed := [];
    }

    /** The `UNWIND $updates` query: all of `updates` is committed, or none of it. */
    method Run(updates: seq<ModuleUpdate>) returns (ok: bool)
      modifies this
      ensures ok == accepts(|old(committed)|)
      ensures committed == if ok then old(committed) + [updates] else old(committed)
    {
      ok := accepts(|committed|);
      if ok {
        committed := committed + [updates];
      }
    }
  }

  /** The `batch` slice and its `flushBatch` closure. */
  class Batch {
    const session: Session
    var updates: seq<ModuleUpdate>

    constructor(session: Session)
      ensures this.session == session && updates == []
    {
      this.session := session;
      updates := [];
    }

    method Add(u: ModuleUpdate)
      modifies this
      ensures updates == old(updates) + [u]
    {
      updates := updates + [u];
    }

    /**
     * Flushing an empty batch does nothing; otherwise the batch is written
     * and, on success, emptied.  A failed write leaves the batch as it was.
     */
    method Flush() returns (ok: bool)
      modifies this, session
      ensures old(updates) == [] ==> ok && updates == [] && session.committed == old(session.committed)
      ensures old(updates) != [] ==> ok == session.accepts(|old(session.committed)|)
      ensures old(updates) != [] && ok ==> session.committed == old(session.committed) + [old(updates)] && updates == []
      ensures old(updates) != [] && !ok ==> session.committed == old(session.committed) && updates == old(updates)
    {
      if updates == [] {
        return true;
      }
      ok := session.Run(updates);
      if ok {
        updates := [];
      }
    }
  }

  // ------------------------------------------------------------ the handler

  predicate Readable(lines: seq<CsvLine>)
  {
    forall i :: 0 <= i < |lines| ==> lines[i].Fields?
  }

  /** The records after the header. */
  function Records(lines: seq<CsvLine>): (rs: seq<Record>)
    requires Readable(lines)
    ensures |rs| == |lines| && forall i :: 0 <= i < |lines| ==> rs[i] == lines[i].record
  {
    seq(|lines|, i requires 0 <= i < |lines| => lines[i].record)
  }

  /** The read loop: every record after the header, or failure at the first unreadable line. */
  method ReadRecords(lines: seq<CsvLine>) returns (records: seq<Record>, ok: bool)
    ensures ok <==> Readable(lines)
    ensures ok ==> records == Records(lines)
  {
    records := [];
    for i := 0 to |lines|
      invariant Readable(lines[..i])
      invariant records == Records(lines[..i])
    {
      if lines[i].BadLine? {
        assert !Readable(lines);
        return [], false;
      }
      records := records + [lines[i].record];
    }
    assert lines[..|lines|] == lines;
    ok := true;
  }

  /**
   * The header is skipped (an empty file has none and is fine); an
   * unreadable header or record stops the run before any write.
   */
  predicate InputReadable(lines: seq<CsvLine>)
  {
    lines == [] || Readable(lines)
  }

  function InputRecords(lines: seq<CsvLine>): seq<Record>
    requires InputReadable(lines)
  {
    if lines == [] then [] else Records(lines[1..])
  }

  /** The header and record reads: the records after the header, or failure before any write. */
  method ReadInput(lines: seq<CsvLine>) returns (records: seq<Record>, ok: bool)
    ensures ok <==> InputReadable(lines)
    ensures ok ==> records == InputRecords(lines)
  {
    if lines == [] {
      return [], true;
    }
    if lines[0].BadLine? {
      return [], false;
    }
    assert Readable(lines) <==> Readable(lines[1..]) by {
      if Readable(lines[1..]) {
        forall i | 0 <= i < |lines| ensures lines[i].Fields? {
          if i > 0 { assert lines[i] == lines[1..][i - 1]; }
        }
      }
    }
    records, ok := ReadRecords(lines[1..]);
  }

  /**
   * What the record loop keeps: the committed batches followed by the
   * pending one are the updates so far; every committed batch is full and
   * was accepted; the pending batch is below the threshold.
   */
  ghost predicate Batched(batch: Batch, updates: seq<ModuleUpdate>)
    reads batch, batch.session
  {
    var committed := batch.session.committed;
    && Concat(committed) + batch.updates == updates
    && (forall k :: 0 <= k < |committed| ==> |committed[k]| == BatchSize && batch.session.accepts(k))
    && |batch.updates| < BatchSize
  }

  /** One parseable record: append its update, and flush when the batch is full. */
  method AddAndMaybeFlush(batch: Batch, u: ModuleUpdate, ghost updates: seq<ModuleUpdate>) returns (ok: bool)
    modifies batch, batch.session
    requires Batched(batch, updates)
    ensures ok ==> Batched(batch, updates + [u])
    ensures !ok ==>
      var committed := batch.session.committed;
      && Concat(committed) + batch.updates == updates + [u]
      && (forall k :: 0 <= k < |committed| ==> |committed[k]| == BatchSize && batch.session.accepts(k))
      && |batch.updates| == BatchSize
      && !batch.session.accepts(|committed|)
  {
    batch.Add(u);
    if |batch.updates| < BatchSize {
      return true;
    }
    var full := batch.updates;
    var done := batch.session.committed;
    ok := batch.Flush();
    if ok {
      ConcatSnoc(done, full);
    }
  }

  /**
   * What a run wrote: the batches `Chunks` forms from `updates`, up to
   * the first one the session rejected; `ok` says that none was.
   */
  predicate WrittenUntilRejected(committed: seq<seq<ModuleUpdate>>, updates: seq<ModuleUpdate>, accepts: nat -> bool, ok: bool)
  {
    var cs := Chunks(updates, BatchSize);
    && |committed| <= |cs| && committed == cs[..|committed|]
    && (forall k :: 0 <= k < |committed| ==> accepts(k))
    && (ok <==> |committed| == |cs|)
    && (!ok ==> !accepts(|committed|))
  }

  /** The record loop and the final flush. */
  method WriteBatches(records: seq<Record>, accepts: nat -> bool) returns (ok: bool, committed: seq<seq<ModuleUpdate>>)
    ensures WrittenUntilRejected(committed, Updates(records), accepts, ok)
  {
    var session := new Session(accepts);
    var batch := new Batch(session);
    for i := 0 to |records|
      invariant batch.session == session && session.accepts == accepts
      invariant Batched(batch, Updates(records[..i]))
    {
      ok := RecordStep(batch, records, i);
      if !ok {
        return false, session.committed;
      }
    }
    assert records[..|records|] == records;
    ok := FinalFlush(batch, Updates(records));
    committed := session.committed;
  }

  /** One record: skipped when its version does not parse, otherwise added, with a flush when the batch is full. */
  method RecordStep(batch: Batch, records: seq<Record>, i: nat) returns (ok: bool)
    modifies batch, batch.session
    requires i < |records|
    requires Batched(batch, Updates(records[..i]))
    ensures ok ==> Batched(batch, Updates(records[..i + 1]))
    ensures !ok ==> WrittenUntilRejected(batch.session.committed, Updates(records), batch.session.accepts, false)
  {
    FilterMapStep(records, i, UpdateOf);
    var u := UpdateOf(records[i]);
    if u.None? {
      return true;
    }
    ok := AddAndMaybeFlush(batch, u.value, Updates(records[..i]));
    if !ok {
      FlushFailedMidway(batch.session.committed, batch.updates, records, i);
    }
  }

  /** The final `flushBatch`: the remainder, if any, is the last batch `Chunks` forms. */
  method FinalFlush(batch: Batch, ghost updates: seq<ModuleUpdate>) returns (ok: bool)
    modifies batch, batch.session
    requires Batched(batch, updates)
    ensures WrittenUntilRejected(batch.session.committed, updates, batch.session.accepts, ok)
  {
    var done := batch.session.committed;
    var rest := batch.updates;
    ChunksAfterFull(done, rest, BatchSize);
    ok := batch.Flush();
    if rest == [] {
      assert Chunks(rest, BatchSize) == [];
      assert done + [] == done;
    } else {
      assert Chunks(rest, BatchSize) == [rest];
      assert (done + [rest])[..|done|] == done;
    }
  }

  /**
   * `EnrichLatestHandler`: an unreadable header or record is exit code 1
   * with nothing written; otherwise the batches are written as
   * `WriteBatches` says and the exit code is 0 exactly when all succeed.
   */
  method EnrichLatest(lines: seq<CsvLine>, accepts: nat -> bool) returns (exitCode: int, committed: seq<seq<ModuleUpdate>>)
    ensures !InputReadable(lines) ==> exitCode == 1 && committed == []
    ensures exitCode == 0 || exitCode == 1
    ensures InputReadable(lines) ==> WrittenUntilRejected(committed, Updates(InputRecords(lines)), accepts, exitCode == 0)
  {
    var records, ok := ReadInput(lines);
    if !ok {
      return 1, [];
    }
    ok, committed := WriteBatches(records, accepts);
    exitCode := if ok then 0 else 1;
  }

  lemma {:induction false} ConcatSnoc<T>(cs: seq<seq<T>>, c: seq<T>)
    ensures Concat(cs + [c]) == Concat(cs) + c
    decreases |cs|
  {
    if cs == [] {
      assert [c][1..] == [];
    } else {
      assert (cs + [c])[1..] == cs[1..] + [c];
      ConcatSnoc(cs[1..], c);
    }
  }

  /** Full batches in front are chunked as themselves. */
  lemma {:induction false} ChunksAfterFull<T>(cs: seq<seq<T>>, ys: seq<T>, n: nat)
    requires 0 < n
    requires forall k :: 0 <= k < |cs| ==> |cs[k]| == n
    ensures Chunks(Concat(cs) + ys, n) == cs + Chunks(ys, n)
    decreases |cs|
  {
    if cs != [] {
      var xs := Concat(cs) + ys;
      var tail := Concat(cs[1..]) + ys;
      assert xs == cs[0] + tail;
      assert cs == [cs[0]] + cs[1..];
      ChunksAfterFull(cs[1..], ys, n);
      assert Chunks(tail, n) == cs[1..] + Chunks(ys, n);
      if tail == [] {
        assert cs[1..] == [] && Chunks(ys, n) == [];
        assert xs == cs[0];
        assert Chunks(xs, n) == [cs[0]];
      } else {
        assert |xs| > n;
        assert xs[..n] == cs[0] && xs[n..] == tail;
        assert Chunks(xs, n) == [cs[0]] + (cs[1..] + Chunks(ys, n));
      }
    } else {
      assert Concat(cs) + ys == ys;
    }
  }

  /** A flush that fails on a full batch rejects the batch `Chunks` puts right after the committed ones. */
  lemma FlushFailedMidway(done: seq<seq<ModuleUpdate>>, full: seq<ModuleUpdate>, records: seq<Record>, i: nat)
    requires i < |records|
    requires Concat(done) + full == Updates(records[..i + 1])
    requires forall k :: 0 <= k < |done| ==> |done[k]| == BatchSize
    requires |full| == BatchSize
    ensures var cs := Chunks(Updates(records), BatchSize);
      |done| < |cs| && cs[..|done|] == done && cs[|done|] == full
  {
    assert records == records[..i + 1] + records[i + 1..];
    FilterMapAppend(records[..i + 1], records[i + 1..], UpdateOf);
    FullBatchNext(done, full, Updates(records[i + 1..]), BatchSize);
  }

  /** After full batches, a full batch is the next chunk, whatever follows it. */
  lemma FullBatchNext<T>(done: seq<seq<T>>, full: seq<T>, rest: seq<T>, n: nat)
    requires 0 < n
    requires forall k :: 0 <= k < |done| ==> |done[k]| == n
    requires |full| == n
    ensures var cs := Chunks(Concat(done) + full + rest, n);
      |done| < |cs| && cs[..|done|] == done && cs[|done|] == full
  {
    var tail := full + rest;
    assert Concat(done) + full + rest == Concat(done) + tail;
    ChunksAfterFull(done, tail, n);
    assert tail[..n] == full;
    assert Chunks(tail, n)[0] == full;
    var cs := done + Chunks(tail, n);
    assert cs[..|done|] == done;
  }

  // --------------------------------------------------------- the partners

  /**
   * The batches hold every update exactly once, in order; none is empty
   * or larger than `n`, and all but the last are full.
   */
  lemma {:induction false} ChunksSpec<T>(xs: seq<T>, n: nat)
    requires 0 < n
    ensures var cs := Chunks(xs, n);
      && Concat(cs) == xs
      && (forall k :: 0 <= k < |cs| ==> 0 < |cs[k]| <= n)
      && (forall k :: 0 <= k < |cs| - 1 ==> |cs[k]| == n)
    decreases |xs|
  {
    if |xs| > n {
      ChunksSpec(xs[n..], n);
      var cs := Chunks(xs, n);
      assert cs[1..] == Chunks(xs[n..], n);
      assert xs == xs[..n] + xs[n..];
      forall k | 0 <= k < |cs| ensures 0 < |cs[k]| <= n {
        if k > 0 { assert cs[k] == Chunks(xs[n..], n)[k - 1]; }
      }
      forall k | 0 <= k < |cs| - 1 ensures |cs[k]| == n {
        if k > 0 { assert cs[k] == Chunks(xs[n..], n)[k - 1]; }
      }
    } else if xs != [] {
      assert Chunks(xs, n) == [xs];
      assert Concat([xs]) == xs + Concat([xs][1..]);
    }
  }

  /**
   * A record ends up in an update exactly when its version parses, and
   * then with its own name, raw version and parsed parts.
   */
  lemma UpdatesSpec(records: seq<Record>, u: ModuleUpdate)
    ensures u in Updates(records) <==>
      exists i :: 0 <= i < |records| && UpdateOf(records[i]) == Some(u)
  {
    FilterMapSpec(records, UpdateOf, u);
  }

  /** The update of a parseable record carries the parts `Parse` found. */
  lemma UpdateOfParts(r: Record)
    requires Semver.Parse(r.latest).err.None?
    ensures var sv := Semver.Parse(r.latest).semver;
      UpdateOf(r) == Some(ModuleUpdate(r.name, r.latest, sv.major, sv.minor, sv.patch, sv.labelText))
  {
  }
}
