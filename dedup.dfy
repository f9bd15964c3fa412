/**
 * First-occurrence filtering against a growing set of seen keys: the
 * pattern behind `sync.Map.LoadOrStore` admission of module paths, the
 * `path@version` de-duplication of the module index and the de-duplication
 * of module names before their latest version is looked up.
 */
module Dedup {

  /** The keys of the elements of `xs`. */
  function KeysOf<T, K>(xs: seq<T>, key: T -> K): set<K>
  {
    set i | 0 <= i < |xs| :: key(xs[i])
  }

  /**
   * The elements of `xs` whose key is neither in `seen` nor the key of an
   * earlier element, in their original order.
   */
  function FirstOccurrences<T, K>(xs: seq<T>, key: T -> K, seen: set<K>): seq<T>
    decreases |xs|
  {
    if xs == [] then []
    else if key(xs[0]) in seen then FirstOccurrences(xs[1..], key, seen)
    else [xs[0]] + FirstOccurrences(xs[1..], key, seen + {key(xs[0])})
  }

  /** No two elements of `xs` share a key. */
  predicate DistinctKeys<T, K(==)>(xs: seq<T>, key: T -> K)
  {
    forall i, j :: 0 <= i < j < |xs| ==> key(xs[i]) != key(xs[j])
  }

  lemma KeysOfAppend<T, K>(xs: seq<T>, ys: seq<T>, key: T -> K)
    ensures KeysOf(xs + ys, key) == KeysOf(xs, key) + KeysOf(ys, key)
  {
    var zs := xs + ys;
    forall k | k in KeysOf(zs, key) ensures k in KeysOf(xs, key) + KeysOf(ys, key) {
      var i :| 0 <= i < |zs| && key(zs[i]) == k;
      if i < |xs| {
        assert zs[i] == xs[i];
      } else {
        assert zs[i] == ys[i - |xs|];
      }
    }
    forall k | k in KeysOf(xs, key) + KeysOf(ys, key) ensures k in KeysOf(zs, key) {
      if k in KeysOf(xs, key) {
        var i :| 0 <= i < |xs| && key(xs[i]) == k;
        assert zs[i] == xs[i];
      } else {
        var i :| 0 <= i < |ys| && key(ys[i]) == k;
        assert zs[|xs| + i] == ys[i];
      }
    }
  }

  lemma KeysOfSingleton<T, K>(x: T, key: T -> K)
    ensures KeysOf([x], key) == {key(x)}
  {
    assert [x][0] == x;
  }

  /**
   * Filtering a concatenation is filtering the first part, then filtering
   * the second part against everything the first part has seen: admitting
   * modules in several rounds is the same as admitting them all at once.
   */
  lemma {:induction false} FirstOccurrencesAppend<T, K>(xs: seq<T>, ys: seq<T>, key: T -> K, seen: set<K>)
    ensures FirstOccurrences(xs + ys, key, seen)
         == FirstOccurrences(xs, key, seen) + FirstOccurrences(ys, key, seen + KeysOf(xs, key))
    decreases |xs|
  {
    if xs == [] {
      assert xs + ys == ys;
      assert KeysOf(xs, key) == {};
      assert seen + KeysOf(xs, key) == seen;
    } else {
      var x := xs[0];
      assert (xs + ys)[0] == x && (xs + ys)[1..] == xs[1..] + ys;
      assert xs == [x] + xs[1..];
      KeysOfAppend([x], xs[1..], key);
      assert KeysOf([x], key) == {key(x)};
      if key(x) in seen {
        FirstOccurrencesAppend(xs[1..], ys, key, seen);
        assert seen + KeysOf(xs[1..], key) == seen + KeysOf(xs, key);
      } else {
        FirstOccurrencesAppend(xs[1..], ys, key, seen + {key(x)});
        assert seen + {key(x)} + KeysOf(xs[1..], key) == seen + KeysOf(xs, key);
      }
    }
  }

  /** One step of a filtering loop: an element whose key was already seen is dropped. */
  lemma FirstOccurrencesSnocSeen<T, K>(xs: seq<T>, x: T, key: T -> K, seen: set<K>)
    requires key(x) in seen + KeysOf(xs, key)
    ensures FirstOccurrences(xs + [x], key, seen) == FirstOccurrences(xs, key, seen)
  {
    FirstOccurrencesAppend(xs, [x], key, seen);
    assert FirstOccurrences([x][1..], key, seen + KeysOf(xs, key)) == [];
  }

  /** One step of a filtering loop: an element with a new key is kept. */
  lemma FirstOccurrencesSnocNew<T, K>(xs: seq<T>, x: T, key: T -> K, seen: set<K>)
    requires key(x) !in seen + KeysOf(xs, key)
    ensures FirstOccurrences(xs + [x], key, seen) == FirstOccurrences(xs, key, seen) + [x]
  {
    FirstOccurrencesAppend(xs, [x], key, seen);
    assert FirstOccurrences([x][1..], key, seen + KeysOf(xs, key) + {key(x)}) == [];
  }

  /**
   * What the filter keeps: every kept key is new, no key is kept twice, and
   * every new key of the input is kept.
   */
  lemma {:induction false} FirstOccurrencesSpec<T, K>(xs: seq<T>, key: T -> K, seen: set<K>)
    ensures var r := FirstOccurrences(xs, key, seen);
      && DistinctKeys(r, key)
      && KeysOf(r, key) == KeysOf(xs, key) - seen
      && |r| <= |xs|
    decreases |xs|
  {
    var r := FirstOccurrences(xs, key, seen);
    if xs == [] {
      assert KeysOf(xs, key) == {};
      assert KeysOf(r, key) == {};
    } else {
      var x := xs[0];
      assert xs == [x] + xs[1..];
      KeysOfAppend([x], xs[1..], key);
      assert KeysOf([x], key) == {key(x)};
      if key(x) in seen {
        FirstOccurrencesSpec(xs[1..], key, seen);
      } else {
        var s := seen + {key(x)};
        var t := FirstOccurrences(xs[1..], key, s);
        FirstOccurrencesSpec(xs[1..], key, s);
        assert r == [x] + t;
        KeysOfAppend([x], t, key);
        forall i, j | 0 <= i < j < |r| ensures key(r[i]) != key(r[j]) {
          if i == 0 {
            assert r[j] == t[j - 1] && r[j] in t;
            assert key(r[j]) in KeysOf(t, key);
          } else {
            assert r[i] == t[i - 1] && r[j] == t[j - 1];
          }
        }
      }
    }
  }

  /** A kept element is the first element of the input with its key. */
  lemma {:induction false} FirstOccurrencesAreFirst<T, K>(xs: seq<T>, key: T -> K, seen: set<K>, i: nat)
    requires i < |xs|
    requires key(xs[i]) !in seen
    requires forall j :: 0 <= j < i ==> key(xs[j]) != key(xs[i])
    ensures xs[i] in FirstOccurrences(xs, key, seen)
    decreases i
  {
    if i == 0 {
    } else {
      var x := xs[0];
      var s := if key(x) in seen then seen else seen + {key(x)};
      assert key(xs[1..][i - 1]) !in s;
      FirstOccurrencesAreFirst(xs[1..], key, s, i - 1);
    }
  }

  /** Re-filtering against everything already seen keeps nothing. */
  lemma {:induction false} FirstOccurrencesOfSeen<T, K>(xs: seq<T>, key: T -> K, seen: set<K>)
    requires KeysOf(xs, key) <= seen
    ensures FirstOccurrences(xs, key, seen) == []
    decreases |xs|
  {
    if xs != [] {
      assert KeysOf(xs[1..], key) <= KeysOf(xs, key) by {
        forall k | k in KeysOf(xs[1..], key) ensures k in KeysOf(xs, key) {
          var i :| 0 <= i < |xs[1..]| && key(xs[1..][i]) == k;
          assert xs[1..][i] == xs[i + 1];
        }
      }
      FirstOccurrencesOfSeen(xs[1..], key, seen);
    }
  }

  /** The filter keeps only elements of its input. */
  lemma {:induction false} FirstOccurrencesSubset<T, K>(xs: seq<T>, key: T -> K, seen: set<K>)
    ensures forall k :: 0 <= k < |FirstOccurrences(xs, key, seen)| ==>
      exists i :: 0 <= i < |xs| && FirstOccurrences(xs, key, seen)[k] == xs[i]
    decreases |xs|
  {
    if xs != [] {
      var s := if key(xs[0]) in seen then seen else seen + {key(xs[0])};
      var r := FirstOccurrences(xs, key, seen);
      var t := FirstOccurrences(xs[1..], key, s);
      FirstOccurrencesSubset(xs[1..], key, s);
      assert key(xs[0]) in seen ==> r == t;
      assert key(xs[0]) !in seen ==> r == [xs[0]] + t;
      forall k | 0 <= k < |r| ensures exists i :: 0 <= i < |xs| && r[k] == xs[i] {
        if key(xs[0]) in seen {
          var i :| 0 <= i < |xs[1..]| && t[k] == xs[1..][i];
          assert r[k] == xs[i + 1];
          assert 0 <= i + 1 < |xs| && r[k] == xs[i + 1];
        } else if k == 0 {
          assert r[0] == xs[0];
        } else {
          var i :| 0 <= i < |xs[1..]| && t[k - 1] == xs[1..][i];
          assert r[k] == xs[i + 1];
          assert 0 <= i + 1 < |xs| && r[k] == xs[i + 1];
        }
      }
    }
    assert xs == [] ==> FirstOccurrences(xs, key, seen) == [];
  }

  /** A prefix of a sequence with distinct keys has distinct keys. */
  lemma DistinctKeysPrefix<T, K>(xs: seq<T>, ys: seq<T>, key: T -> K)
    requires DistinctKeys(xs + ys, key)
    ensures DistinctKeys(xs, key)
  {
    forall i, j | 0 <= i < j < |xs| ensures key(xs[i]) != key(xs[j]) {
      assert (xs + ys)[i] == xs[i] && (xs + ys)[j] == xs[j];
    }
  }
}
