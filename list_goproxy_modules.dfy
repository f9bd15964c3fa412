/**
 * `list-goproxy-modules`: a producer walks the module index from `since`
 * and stops after the first entry past `until`; the consumer writes one
 * CSV row per distinct `path@version`, keeping the first occurrence.
 */
module ListGoProxyModules {
  import opened Strings
  import opened Dedup
  import opened GoProxy

  /**
   * One element of the index iterator: an entry with the cursor after it
   * and whether the progress bar accepted the update, or an error.
   * Timestamps are abstract instants, ordered as integers.
   */
  datatype IndexItem = Item(index: Index, current: int, progressOk: bool) | IterFailed

  // ------------------------------------------------------------ producer

  /**
   * The entries the producer sends: every entry up to the first error or
   * progress failure (that entry is still sent) or the first entry whose
   * cursor is after `until` (that one is sent too).
   */
  function Produced(items: seq<IndexItem>, until: int): (sent: seq<Index>)
    ensures |sent| <= |items|
    decreases |items|
  {
    if items == [] || items[0].IterFailed? then []
    else if !items[0].progressOk || items[0].current > until then [items[0].index]
    else [items[0].index] + Produced(items[1..], until)
  }

  /** The producer goroutine, up to `close(chIndex)`. */
  method ProduceIndex(items: seq<IndexItem>, until: int) returns (sent: seq<Index>)
    ensures sent == Produced(items, until)
  {
    sent := [];
    var i := 0;
    while i < |items|
      invariant 0 <= i <= |items|
      invariant Produced(items, until) == sent + Produced(items[i..], until)
    {
      var item := items[i];
      if item.IterFailed? {
        return;
      }
      sent := sent + [item.index];
      if !item.progressOk || item.current > until {
        return;
      }
      assert items[i..][1..] == items[i + 1..];
      i := i + 1;
    }
  }

  /** How many clean entries come before the item that ends production (or the end of the stream). */
  function StopIndex(items: seq<IndexItem>, until: int): (n: nat)
    ensures n <= |items|
    decreases |items|
  {
    if items == [] || items[0].IterFailed? || !items[0].progressOk || items[0].current > until then 0
    else 1 + StopIndex(items[1..], until)
  }

  /**
   * Production stops at `StopIndex`: the entries before it are sent in
   * order with cursors not after `until`; the item there, when there is
   * one, is an error (not sent), or it is sent and is past `until` or
   * failed the progress update.
   */
  lemma {:induction false} ProducedSpec(items: seq<IndexItem>, until: int)
    ensures StopsAt(items, until, StopIndex(items, until), Produced(items, until))
    decreases |items|
  {
    var sent := Produced(items, until);
    if items == [] || items[0].IterFailed? || !items[0].progressOk || items[0].current > until {
      assert |sent| == (if items == [] || items[0].IterFailed? then 0 else 1);
    } else {
      ProducedSpec(items[1..], until);
      var rest := Produced(items[1..], until);
      var n := StopIndex(items[1..], until);
      assert sent == [items[0].index] + rest;
      forall k | 0 <= k < n ensures items[k + 1] == items[1..][k] {
      }
      assert StopsAt(items, until, n + 1, sent);
    }
  }

  ghost predicate StopsAt(items: seq<IndexItem>, until: int, n: nat, sent: seq<Index>)
    requires n <= |items|
  {
    && (forall k :: 0 <= k < n ==> items[k].Item? && items[k].progressOk && items[k].current <= until)
    && (n == |items| ==> |sent| == n)
    && (n < |items| && items[n].IterFailed? ==> |sent| == n)
    && (n < |items| && items[n].Item? ==>
          |sent| == n + 1 && sent[n] == items[n].index && (!items[n].progressOk || items[n].current > until))
    && (forall k :: 0 <= k < n ==> sent[k] == items[k].index)
  }

  /** The entry whose cursor passes `until` is the last one sent. */
  lemma PastUntilIsLast(items: seq<IndexItem>, until: int, n: nat)
    requires n < |items|
    requires forall k :: 0 <= k < n ==> items[k].Item? && items[k].progressOk && items[k].current <= until
    requires items[n].Item? && items[n].current > until
    ensures Produced(items, until) == Produced(items[..n], until) + [items[n].index]
  {
    ProducedUpTo(items, until, n);
  }

  /** An error after `n` clean entries ends production with exactly those entries. */
  lemma ErrorStopsProduction(items: seq<IndexItem>, until: int, n: nat)
    requires n < |items|
    requires forall k :: 0 <= k < n ==> items[k].Item? && items[k].progressOk && items[k].current <= until
    requires items[n].IterFailed?
    ensures Produced(items, until) == Produced(items[..n], until)
    ensures |Produced(items, until)| == n
  {
    ProducedUpTo(items, until, n);
    ProducedClean(items[..n], until);
  }

  lemma {:induction false} ProducedUpTo(items: seq<IndexItem>, until: int, n: nat)
    requires n <= |items|
    requires forall k :: 0 <= k < n ==> items[k].Item? && items[k].progressOk && items[k].current <= until
    ensures Produced(items, until) == Produced(items[..n], until) + Produced(items[n..], until)
    decreases n
  {
    if n > 0 {
      ProducedUpTo(items[1..], until, n - 1);
      assert items[1..][..n - 1] == items[..n][1..];
      assert items[1..][n - 1..] == items[n..];
      assert items[..n][0] == items[0];
    } else {
      assert items[..0] == [] && items[0..] == items;
    }
  }

  lemma {:induction false} ProducedClean(items: seq<IndexItem>, until: int)
    requires forall k :: 0 <= k < |items| ==> items[k].Item? && items[k].progressOk && items[k].current <= until
    ensures |Produced(items, until)| == |items|
    decreases |items|
  {
    if items != [] {
      ProducedClean(items[1..], until);
    }
  }

  // ------------------------------------------------------------ consumer

  /** The CSV header, written before any entry. */
  const Header: seq<string> := ["timestamp", "module", "version"]

  /** The dedup key `Path + "@" + Version`. */
  function IndexKey(i: Index): string
  {
    i.path + "@" + i.version
  }

  /** One CSV row; the RFC 3339 timestamp formatting is a parameter. */
  function Row(i: Index, formatTime: int -> string): (row: seq<string>)
    ensures |row| == 3 && row[1] == i.path && row[2] == i.version
  {
    [formatTime(i.timestamp), i.path, i.version]
  }

  function Rows(entries: seq<Index>, formatTime: int -> string): (rows: seq<seq<string>>)
    ensures |rows| == |entries| && forall k :: 0 <= k < |entries| ==> rows[k] == Row(entries[k], formatTime)
  {
    seq(|entries|, k requires 0 <= k < |entries| => Row(entries[k], formatTime))
  }

  /** The consumer loop over `chIndex`. */
  method WriteModules(sent: seq<Index>, formatTime: int -> string) returns (written: seq<Index>, rows: seq<seq<string>>)
    ensures written == FirstOccurrences(sent, IndexKey, {})
    ensures rows == [Header] + Rows(written, formatTime)
  {
    var modulesSet: set<string> := {};
    written := [];
    rows := [Header];
    for k := 0 to |sent|
      invariant modulesSet == KeysOf(sent[..k], IndexKey)
      invariant written == FirstOccurrences(sent[..k], IndexKey, {})
      invariant rows == [Header] + Rows(written, formatTime)
    {
      var i := sent[k];
      var key := IndexKey(i);
      assert sent[..k + 1] == sent[..k] + [i];
      KeysOfAppend(sent[..k], [i], IndexKey);
      KeysOfSingleton(i, IndexKey);
      if key in modulesSet {
        FirstOccurrencesSnocSeen(sent[..k], i, IndexKey, {});
        continue;
      }
      FirstOccurrencesSnocNew(sent[..k], i, IndexKey, {});
      modulesSet := modulesSet + {key};
      written := written + [i];
      rows := rows + [Row(i, formatTime)];
    }
    assert sent[..|sent|] == sent;
  }

  /** `ListGoProxyModulesHandler`: the producer's entries, deduplicated, after the header. */
  method ListGoProxyModules(items: seq<IndexItem>, until: int, formatTime: int -> string) returns (rows: seq<seq<string>>)
    ensures rows == [Header] + Rows(FirstOccurrences(Produced(items, until), IndexKey, {}), formatTime)
  {
    var sent := ProduceIndex(items, until);
    var written;
    written, rows := WriteModules(sent, formatTime);
  }

  // ------------------------------------------------------------ partners

  /**
   * The rows written are one per distinct key, each the first entry with
   * that key, in order of first occurrence.
   */
  lemma WrittenOncePerKey(sent: seq<Index>)
    ensures var written := FirstOccurrences(sent, IndexKey, {});
      && DistinctKeys(written, IndexKey)
      && KeysOf(written, IndexKey) == KeysOf(sent, IndexKey)
  {
    FirstOccurrencesSpec(sent, IndexKey, {});
  }

  /** Module paths contain no `@`, and then the key determines the path and the version. */
  lemma IndexKeyInjective(a: Index, b: Index)
    requires '@' !in a.path && '@' !in b.path
    ensures IndexKey(a) == IndexKey(b) <==> a.path == b.path && a.version == b.version
  {
    assert IndexKey(a) == a.path + ['@'] + a.version;
    assert IndexKey(b) == b.path + ['@'] + b.version;
    CutAt(a.path, '@', a.version);
    CutAt(b.path, '@', b.version);
  }

  /** The same module version seen twice (say at two timestamps) is written once, with the first timestamp. */
  lemma RepeatedVersionWrittenOnce(a: Index, b: Index)
    requires a.path == b.path && a.version == b.version
    ensures FirstOccurrences([a, b], IndexKey, {}) == [a]
  {
    assert [a, b] == [a] + [b];
    KeysOfSingleton(a, IndexKey);
    FirstOccurrencesSnocNew([], a, IndexKey, {});
    FirstOccurrencesSnocSeen([a], b, IndexKey, {});
  }
}
