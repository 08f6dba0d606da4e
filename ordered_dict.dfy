/**
 * A Python `dict` as the script uses it: an association list in insertion
 * order. Assigning to a key that is already present replaces its value where
 * it stands; a new key goes to the end. Iterating `items()` walks the list.
 */
module OrderedDict {
  import opened Wrappers

  type Dict<K, V> = seq<(K, V)>

  predicate HasKey<K(==), V>(d: Dict<K, V>, k: K) {
    exists i :: 0 <= i < |d| && d[i].0 == k
  }

  /** No key occurs twice. */
  predicate UniqueKeys<K(==), V>(d: Dict<K, V>) {
    forall i, j :: 0 <= i < j < |d| ==> d[i].0 != d[j].0
  }

  /** `d.get(k)`. */
  function Get<K(==), V>(d: Dict<K, V>, k: K): (r: Option<V>)
    ensures r.None? <==> !HasKey(d, k)
    ensures r.Some? ==> exists i :: 0 <= i < |d| && d[i] == (k, r.value)
  {
    if d == [] then None
    else if d[0].0 == k then Some(d[0].1)
    else
      var r := Get(d[1..], k);
      assert HasKey(d, k) ==> HasKey(d[1..], k) by {
        if HasKey(d, k) {
          var i :| 0 <= i < |d| && d[i].0 == k;
          assert d[1..][i - 1].0 == k;
        }
      }
      r
  }

  /** `d[k] = v`. */
  function Put<K(==), V>(d: Dict<K, V>, k: K, v: V): (r: Dict<K, V>)
    ensures |r| == if HasKey(d, k) then |d| else |d| + 1
    ensures forall i :: 0 <= i < |d| ==> r[i].0 == d[i].0
    ensures r[|r| - 1].0 == k || HasKey(d, k)
  {
    if d == [] then [(k, v)]
    else if d[0].0 == k then [(k, v)] + d[1..]
    else
      var rest := Put(d[1..], k, v);
      HasKeyTail(d, k);
      [d[0]] + rest
  }

  /** A key other than the first one's is present exactly when it is present further on. */
  lemma HasKeyTail<K, V>(d: Dict<K, V>, k: K)
    requires d != [] && d[0].0 != k
    ensures HasKey(d, k) <==> HasKey(d[1..], k)
  {
    if HasKey(d, k) {
      var i :| 0 <= i < |d| && d[i].0 == k;
      assert d[1..][i - 1].0 == k;
    }
    if HasKey(d[1..], k) {
      var i :| 0 <= i < |d[1..]| && d[1..][i].0 == k;
      assert d[i + 1].0 == k;
    }
  }

  /** After `d[k] = v`, `k` maps to `v` and every other key maps to what it did. */
  lemma {:induction false} PutGet<K, V>(d: Dict<K, V>, k: K, v: V, j: K)
    requires UniqueKeys(d)
    ensures Get(Put(d, k, v), j) == if j == k then Some(v) else Get(d, j)
  {
    if d != [] && d[0].0 != k {
      PutGet(d[1..], k, v, j);
    }
  }

  /** Assignment never creates a duplicate key. */
  lemma PutUnique<K, V>(d: Dict<K, V>, k: K, v: V)
    requires UniqueKeys(d)
    ensures UniqueKeys(Put(d, k, v))
  {
    var r := Put(d, k, v);
    forall i, j | 0 <= i < j < |r| ensures r[i].0 != r[j].0 {
      if j == |d| {
        assert !HasKey(d, k) && r[j].0 == k;
        assert d[i].0 != k;
      }
    }
  }

  /** Every pair of `Put(d, k, v)` is either `(k, v)` or a pair of `d`. */
  lemma {:induction false} PutPairs<K, V>(d: Dict<K, V>, k: K, v: V, i: nat)
    requires i < |Put(d, k, v)|
    ensures Put(d, k, v)[i] == (k, v) || (i < |d| && Put(d, k, v)[i] == d[i])
  {
    if d != [] && d[0].0 != k && i > 0 {
      PutPairs(d[1..], k, v, i - 1);
    }
  }

  /**
   * The dictionary built by assigning the present entries of `entries` in
   * order, starting from `{}`; a `None` entry assigns nothing.
   */
  function Build<K(==), V>(entries: seq<Option<(K, V)>>): (d: Dict<K, V>)
    ensures UniqueKeys(d)
  {
    if entries == [] then []
    else
      var d := Build(entries[..|entries| - 1]);
      match entries[|entries| - 1]
      case None => d
      case Some((k, v)) =>
        PutUnique(d, k, v);
        Put(d, k, v)
  }

  /** Every pair of the built dictionary is one of the entries. */
  lemma {:induction false} BuildPairs<K, V>(entries: seq<Option<(K, V)>>, i: nat)
    requires i < |Build(entries)|
    ensures exists j :: 0 <= j < |entries| && entries[j] == Some(Build(entries)[i])
  {
    var n := |entries| - 1;
    var init := entries[..n];
    var d := Build(init);
    match entries[n]
    case None =>
      BuildPairs(init, i);
      var j :| 0 <= j < |init| && init[j] == Some(d[i]);
      assert entries[j] == init[j];
    case Some((k, v)) =>
      PutPairs(d, k, v, i);
      if i < |d| && Put(d, k, v)[i] == d[i] {
        BuildPairs(init, i);
        var j :| 0 <= j < |init| && init[j] == Some(d[i]);
        assert entries[j] == init[j];
      } else {
        assert entries[n] == Some(Build(entries)[i]);
      }
  }

  /** Entry `e` assigns key `k`. */
  predicate Assigns<K(==), V>(e: Option<(K, V)>, k: K) {
    e.Some? && e.value.0 == k
  }

  /** Entry `i` assigns `v` to `k` and no later entry assigns `k`. */
  predicate IsLastAssignment<K(==), V(==)>(entries: seq<Option<(K, V)>>, k: K, v: V, i: nat) {
    && i < |entries|
    && entries[i] == Some((k, v))
    && forall j :: i < j < |entries| ==> !Assigns(entries[j], k)
  }

  /** The last entry assigning `k` assigns `v`. */
  ghost predicate LastAssigns<K, V>(entries: seq<Option<(K, V)>>, k: K, v: V) {
    exists i: nat :: IsLastAssignment(entries, k, v, i)
  }

  /** The last entry decides `k` if it assigns `k`; otherwise the earlier entries do. */
  lemma BuildGetStep<K, V>(entries: seq<Option<(K, V)>>, k: K)
    requires entries != []
    ensures var last := entries[|entries| - 1];
      Get(Build(entries), k) == if Assigns(last, k) then Some(last.value.1) else Get(Build(entries[..|entries| - 1]), k)
  {
    var last := entries[|entries| - 1];
    if last.Some? {
      PutGet(Build(entries[..|entries| - 1]), last.value.0, last.value.1, k);
    }
  }

  /** `k` is in the built dictionary exactly when some entry assigns it. */
  lemma {:induction false} BuildHasKey<K, V>(entries: seq<Option<(K, V)>>, k: K)
    ensures Get(Build(entries), k).None? <==> forall i :: 0 <= i < |entries| ==> !Assigns(entries[i], k)
  {
    if entries != [] {
      var n := |entries| - 1;
      var prefix := entries[..n];
      BuildGetStep(entries, k);
      if !Assigns(entries[n], k) {
        BuildHasKey(prefix, k);
        assert forall i :: 0 <= i < n ==> prefix[i] == entries[i];
      }
    }
  }

  /** When the last entry assigns `k`, it is the last entry assigning `k`, and no other is. */
  lemma LastAssignsAtEnd<K, V>(entries: seq<Option<(K, V)>>, k: K, v: V)
    requires entries != [] && Assigns(entries[|entries| - 1], k)
    ensures LastAssigns(entries, k, v) <==> entries[|entries| - 1] == Some((k, v))
  {
    var n := |entries| - 1;
    if LastAssigns(entries, k, v) {
      var i: nat :| IsLastAssignment(entries, k, v, i);
      assert i == n;
    }
    if entries[n] == Some((k, v)) {
      assert IsLastAssignment(entries, k, v, n);
    }
  }

  /** Entry `i` of `entries[start..]` is the last assignment there exactly when entry `start + i` is one of `entries`. */
  lemma LastAssignmentShift<K, V>(entries: seq<Option<(K, V)>>, start: nat, k: K, v: V, i: nat)
    requires start <= |entries|
    ensures IsLastAssignment(entries[start..], k, v, i) <==> IsLastAssignment(entries, k, v, start + i)
  {
    var tail := entries[start..];
    if IsLastAssignment(tail, k, v, i) {
      forall j | start + i < j < |entries| ensures !Assigns(entries[j], k) {
        assert entries[j] == tail[j - start];
      }
    }
  }

  /** An entry that does not assign `k` changes nothing about which entry assigns `k` last. */
  lemma LastAssignsSkip<K, V>(entries: seq<Option<(K, V)>>, k: K, v: V)
    requires entries != [] && !Assigns(entries[|entries| - 1], k)
    ensures LastAssigns(entries, k, v) <==> LastAssigns(entries[..|entries| - 1], k, v)
  {
    var n := |entries| - 1;
    var init := entries[..n];
    if LastAssigns(init, k, v) {
      var i: nat :| IsLastAssignment(init, k, v, i);
      assert entries[i] == init[i];
      forall j | i < j < |entries| ensures !Assigns(entries[j], k) {
        if j < n { assert entries[j] == init[j]; }
      }
      assert IsLastAssignment(entries, k, v, i);
    }
    if LastAssigns(entries, k, v) {
      var i: nat :| IsLastAssignment(entries, k, v, i);
      assert init[i] == entries[i];
      forall j | i < j < n ensures !Assigns(init[j], k) {
        assert init[j] == entries[j];
      }
      assert IsLastAssignment(init, k, v, i);
    }
  }

  /**
   * Later assignments win: the value of `k` in the built dictionary is the one
   * that the last entry assigning `k` gives it.
   */
  lemma {:induction false} BuildLastWins<K, V>(entries: seq<Option<(K, V)>>, k: K, v: V)
    ensures Get(Build(entries), k) == Some(v) <==> LastAssigns(entries, k, v)
  {
    if entries != [] {
      var n := |entries| - 1;
      BuildGetStep(entries, k);
      if Assigns(entries[n], k) {
        LastAssignsAtEnd(entries, k, v);
      } else {
        BuildLastWins(entries[..n], k, v);
        LastAssignsSkip(entries, k, v);
      }
    }
  }
}
