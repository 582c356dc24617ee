/** Key-wise upserts folded left over a sequence of entries: the shape of a
    dictionary comprehension over rows (`{k(r): v(r) for r in rows}`) and of a
    loop of `put_item` calls against a table keyed by one attribute. */
module LastWins {
  import opened Types

  /** The keys that `entries` write. */
  function KeysOf<V>(entries: seq<(string, V)>): set<string> {
    set i | 0 <= i < |entries| :: entries[i].0
  }

  /** `m` after writing each entry in turn; a later entry replaces an earlier one. */
  function Upserts<V>(m: map<string, V>, entries: seq<(string, V)>): (r: map<string, V>)
    ensures r.Keys == m.Keys + KeysOf(entries)
    decreases |entries|
  {
    if |entries| == 0 then m
    else
      var last := entries[|entries| - 1];
      var before := entries[..|entries| - 1];
      assert KeysOf(entries) == KeysOf(before) + {last.0} by {
        assert forall i :: 0 <= i < |before| ==> before[i] == entries[i];
      }
      Upserts(m, before)[last.0 := last.1]
  }

  /** Folding one more entry of `entries` is one more upsert. */
  lemma UpsertsStep<V>(m: map<string, V>, entries: seq<(string, V)>, i: int)
    requires 0 <= i < |entries|
    ensures Upserts(m, entries[..i + 1]) == Upserts(m, entries[..i])[entries[i].0 := entries[i].1]
  {
    assert entries[..i + 1][..i] == entries[..i];
  }

  /** The value of the last entry for `k`, if one writes `k`. */
  function LastFor<V>(entries: seq<(string, V)>, k: string): Option<V>
    decreases |entries|
  {
    if |entries| == 0 then None
    else if entries[|entries| - 1].0 == k then Some(entries[|entries| - 1].1)
    else LastFor(entries[..|entries| - 1], k)
  }

  /** An entry no later entry overrides. */
  predicate IsLastFor<V>(entries: seq<(string, V)>, i: int) {
    0 <= i < |entries| && forall j :: i < j < |entries| ==> entries[j].0 != entries[i].0
  }

  /** `LastFor` finds a value exactly for the written keys, and it is the value
      of the last entry for that key. */
  lemma {:induction false} LastForIsLastEntry<V>(entries: seq<(string, V)>, k: string)
    ensures LastFor(entries, k).Some? <==> k in KeysOf(entries)
    ensures forall i :: IsLastFor(entries, i) && entries[i].0 == k ==> LastFor(entries, k) == Some(entries[i].1)
    decreases |entries|
  {
    if |entries| > 0 {
      var n := |entries| - 1;
      var before := entries[..n];
      LastForIsLastEntry(before, k);
      assert forall i :: 0 <= i < n ==> before[i] == entries[i];
      assert KeysOf(entries) == KeysOf(before) + {entries[n].0};
      forall i | IsLastFor(entries, i) && entries[i].0 == k
        ensures LastFor(entries, k) == Some(entries[i].1)
      {
        if i < n {
          assert entries[n].0 != k;
          assert IsLastFor(before, i);
        }
      }
    }
  }

  /** The fold holds, for every key, the last value written to it, and the
      original value for keys no entry writes. */
  lemma {:induction false} UpsertsHoldsLastWrite<V>(m: map<string, V>, entries: seq<(string, V)>, k: string)
    ensures k in Upserts(m, entries) <==> k in m || LastFor(entries, k).Some?
    ensures LastFor(entries, k).Some? ==> Upserts(m, entries)[k] == LastFor(entries, k).value
    ensures LastFor(entries, k).None? && k in m ==> Upserts(m, entries)[k] == m[k]
    decreases |entries|
  {
    if |entries| > 0 && entries[|entries| - 1].0 != k {
      UpsertsHoldsLastWrite(m, entries[..|entries| - 1], k);
    }
  }

  /** For a written key the last entry wins. */
  lemma UpsertsLastWins<V>(m: map<string, V>, entries: seq<(string, V)>, i: int)
    requires IsLastFor(entries, i)
    ensures entries[i].0 in Upserts(m, entries)
    ensures Upserts(m, entries)[entries[i].0] == entries[i].1
  {
    var k := entries[i].0;
    LastForIsLastEntry(entries, k);
    UpsertsHoldsLastWrite(m, entries, k);
  }

  /** Keys no entry writes keep their presence and their value. */
  lemma UpsertsKeepsUnwritten<V>(m: map<string, V>, entries: seq<(string, V)>, k: string)
    requires k !in KeysOf(entries)
    ensures k in Upserts(m, entries) <==> k in m
    ensures k in m ==> Upserts(m, entries)[k] == m[k]
  {
    LastForIsLastEntry(entries, k);
    UpsertsHoldsLastWrite(m, entries, k);
  }

  /** Folding the same entries a second time changes nothing. */
  lemma UpsertsReplay<V>(m: map<string, V>, entries: seq<(string, V)>)
    ensures Upserts(Upserts(m, entries), entries) == Upserts(m, entries)
  {
    var once := Upserts(m, entries);
    var twice := Upserts(once, entries);
    forall k | k in twice
      ensures twice[k] == once[k]
    {
      UpsertsHoldsLastWrite(once, entries, k);
      UpsertsHoldsLastWrite(m, entries, k);
    }
  }

  /** Folding over two batches in turn is folding over their concatenation. */
  lemma {:induction false} UpsertsAppend<V>(m: map<string, V>, first: seq<(string, V)>, second: seq<(string, V)>)
    ensures Upserts(m, first + second) == Upserts(Upserts(m, first), second)
    decreases |second|
  {
    if |second| == 0 {
      assert first + second == first;
    } else {
      var n := |second| - 1;
      assert (first + second)[..|first + second| - 1] == first + second[..n];
      assert (first + second)[|first + second| - 1] == second[n];
      UpsertsAppend(m, first, second[..n]);
    }
  }

  /** A fold writes at most one new key per entry. */
  lemma {:induction false} KeysOfSize<V>(entries: seq<(string, V)>)
    ensures |KeysOf(entries)| <= |entries|
    decreases |entries|
  {
    if |entries| > 0 {
      var n := |entries| - 1;
      var before := entries[..n];
      assert forall i :: 0 <= i < n ==> before[i] == entries[i];
      assert KeysOf(entries) == KeysOf(before) + {entries[n].0};
      KeysOfSize(before);
    }
  }
}
