/** `std::map<std::string, V>` as the registry and the context hold it: an
    association list kept in strictly increasing key order, so keys are unique
    and iteration visits them in name order. */
module SortedMap {
  import StringOrder
  import opened Results

  datatype Pair<V> = Pair(key: string, value: V)

  ghost predicate Sorted<V>(m: seq<Pair<V>>)
  {
    forall i, j :: 0 <= i < j < |m| ==> StringOrder.Less(m[i].key, m[j].key)
  }

  /** A map with its entries in iteration order. */
  type Table<V> = m: seq<Pair<V>> | Sorted(m) witness []

  /** Every key of `m` sorts after `lo`. */
  ghost predicate AllAbove<V>(m: seq<Pair<V>>, lo: string)
  {
    forall i :: 0 <= i < |m| ==> StringOrder.Less(lo, m[i].key)
  }

  function Keys<V>(m: seq<Pair<V>>): (ks: seq<string>)
    ensures |ks| == |m|
    ensures forall i :: 0 <= i < |m| ==> ks[i] == m[i].key
  {
    seq(|m|, i requires 0 <= i < |m| => m[i].key)
  }

  /** The abstract map an association list stands for; the first entry for a
      key wins, which on a sorted list is the only one. */
  ghost function View<V>(m: seq<Pair<V>>): map<string, V>
  {
    if |m| == 0 then map[] else View(m[1..])[m[0].key := m[0].value]
  }

  lemma {:induction false} ViewDomain<V>(m: seq<Pair<V>>)
    ensures forall i :: 0 <= i < |m| ==> m[i].key in View(m)
    ensures forall k :: k in View(m) ==> exists i :: 0 <= i < |m| && m[i].key == k
  {
    if |m| > 0 {
      ViewDomain(m[1..]);
      assert forall i :: 1 <= i < |m| ==> m[i] == m[1..][i - 1];
      forall k | k in View(m)
        ensures exists i :: 0 <= i < |m| && m[i].key == k
      {
        if k != m[0].key {
          var t :| 0 <= t < |m[1..]| && m[1..][t].key == k;
          assert m[t + 1].key == k;
        }
      }
    }
  }

  /** On a sorted list every entry is what the view holds for its key. */
  lemma {:induction false} ViewValues<V>(m: seq<Pair<V>>)
    requires Sorted(m)
    ensures forall i :: 0 <= i < |m| ==> m[i].key in View(m) && View(m)[m[i].key] == m[i].value
  {
    ViewDomain(m);
    if |m| > 0 {
      ViewValues(m[1..]);
      StringOrder.Irreflexive(m[0].key);
      assert forall i :: 1 <= i < |m| ==> m[i] == m[1..][i - 1];
    }
  }

  /** The keys after the first one all sort above it. */
  lemma TailAbove<V>(m: seq<Pair<V>>)
    requires Sorted(m) && |m| > 0
    ensures AllAbove(m[1..], m[0].key)
  {
    assert forall i :: 0 <= i < |m| - 1 ==> m[1..][i] == m[i + 1];
  }

  lemma ConsSorted<V>(x: Pair<V>, m: seq<Pair<V>>)
    requires Sorted(m) && AllAbove(m, x.key)
    ensures Sorted([x] + m)
  {
    var r := [x] + m;
    assert forall i :: 1 <= i < |r| ==> r[i] == m[i - 1];
  }

  /** A key below every key of the list is not in it. */
  lemma AboveNotIn<V>(m: seq<Pair<V>>, lo: string)
    requires AllAbove(m, lo)
    ensures lo !in View(m)
  {
    ViewDomain(m);
    if lo in View(m) {
      var i :| 0 <= i < |m| && m[i].key == lo;
      StringOrder.Irreflexive(lo);
    }
  }

  function Find<V>(m: Table<V>, k: string): (r: Option<V>)
    ensures r.None? <==> k !in View(m)
    ensures r.Some? ==> r.value == View(m)[k]
  {
    if |m| == 0 then None
    else if m[0].key == k then Some(m[0].value)
    else Find(m[1..], k)
  }

  // ---------------------------------------------------------------- insertion

  function Insert<V>(m: seq<Pair<V>>, k: string, v: V): seq<Pair<V>>
  {
    if |m| == 0 then [Pair(k, v)]
    else if m[0].key == k then [Pair(k, v)] + m[1..]
    else if StringOrder.Less(k, m[0].key) then [Pair(k, v)] + m
    else [m[0]] + Insert(m[1..], k, v)
  }

  lemma {:induction false} InsertAbove<V>(m: seq<Pair<V>>, k: string, v: V, lo: string)
    requires Sorted(m) && AllAbove(m, lo) && StringOrder.Less(lo, k)
    ensures AllAbove(Insert(m, k, v), lo)
  {
    if |m| > 0 && m[0].key != k && !StringOrder.Less(k, m[0].key) {
      TailAbove(m);
      assert AllAbove(m[1..], lo);
      InsertAbove(m[1..], k, v, lo);
    }
  }

  lemma {:induction false} InsertSorted<V>(m: seq<Pair<V>>, k: string, v: V)
    requires Sorted(m)
    ensures Sorted(Insert(m, k, v))
  {
    if |m| == 0 {
    } else if m[0].key == k {
      TailAbove(m);
      ConsSorted(Pair(k, v), m[1..]);
    } else if StringOrder.Less(k, m[0].key) {
      forall i | 1 <= i < |m|
        ensures StringOrder.Less(k, m[i].key)
      {
        StringOrder.Transitive(k, m[0].key, m[i].key);
      }
      ConsSorted(Pair(k, v), m);
    } else {
      StringOrder.Total(k, m[0].key);
      TailAbove(m);
      InsertAbove(m[1..], k, v, m[0].key);
      InsertSorted(m[1..], k, v);
      ConsSorted(m[0], Insert(m[1..], k, v));
    }
  }

  lemma {:induction false} InsertView<V>(m: seq<Pair<V>>, k: string, v: V)
    ensures View(Insert(m, k, v)) == View(m)[k := v]
  {
    if |m| > 0 && m[0].key != k {
      if StringOrder.Less(k, m[0].key) {
        assert ([Pair(k, v)] + m)[1..] == m;
      } else {
        InsertView(m[1..], k, v);
        assert ([m[0]] + Insert(m[1..], k, v))[1..] == Insert(m[1..], k, v);
      }
    } else if |m| > 0 {
      assert ([Pair(k, v)] + m[1..])[1..] == m[1..];
    }
  }

  lemma {:induction false} InsertLength<V>(m: seq<Pair<V>>, k: string, v: V)
    requires Sorted(m)
    ensures |Insert(m, k, v)| == if k in View(m) then |m| else |m| + 1
  {
    if |m| > 0 && m[0].key != k {
      if StringOrder.Less(k, m[0].key) {
        forall i | 1 <= i < |m|
          ensures StringOrder.Less(k, m[i].key)
        {
          StringOrder.Transitive(k, m[0].key, m[i].key);
        }
        AboveNotIn(m, k);
      } else {
        InsertLength(m[1..], k, v);
      }
    }
  }

  /** `m[k] = v`: inserts `k`, or overwrites its value when present. */
  function Put<V>(m: Table<V>, k: string, v: V): (r: Table<V>)
    ensures View(r) == View(m)[k := v]
    ensures |r| == if k in View(m) then |m| else |m| + 1
  {
    InsertSorted(m, k, v);
    InsertView(m, k, v);
    InsertLength(m, k, v);
    Insert(m, k, v)
  }

  /** `m.emplace(k, v)`: inserts only when `k` is absent, and says whether it did. */
  function Emplace<V>(m: Table<V>, k: string, v: V): (r: (Table<V>, bool))
    ensures r.1 <==> k !in View(m)
    ensures r.1 ==> View(r.0) == View(m)[k := v] && |r.0| == |m| + 1
    ensures !r.1 ==> r.0 == m
  {
    if Find(m, k).Some? then (m, false) else (Put(m, k, v), true)
  }

  // ------------------------------------------------------------------ erasure

  function Remove<V>(m: seq<Pair<V>>, k: string): seq<Pair<V>>
  {
    if |m| == 0 then m
    else if m[0].key == k then m[1..]
    else [m[0]] + Remove(m[1..], k)
  }

  lemma {:induction false} RemoveAbove<V>(m: seq<Pair<V>>, k: string, lo: string)
    requires AllAbove(m, lo)
    ensures AllAbove(Remove(m, k), lo)
  {
    if |m| > 0 && m[0].key != k {
      assert AllAbove(m[1..], lo);
      RemoveAbove(m[1..], k, lo);
    }
  }

  lemma {:induction false} RemoveSorted<V>(m: seq<Pair<V>>, k: string)
    requires Sorted(m)
    ensures Sorted(Remove(m, k))
  {
    if |m| > 0 && m[0].key != k {
      TailAbove(m);
      RemoveAbove(m[1..], k, m[0].key);
      RemoveSorted(m[1..], k);
      ConsSorted(m[0], Remove(m[1..], k));
    }
  }

  lemma {:induction false} RemoveView<V>(m: seq<Pair<V>>, k: string)
    requires Sorted(m)
    ensures View(Remove(m, k)) == View(m) - {k}
    ensures |Remove(m, k)| == if k in View(m) then |m| - 1 else |m|
  {
    if |m| > 0 {
      TailAbove(m);
      if m[0].key == k {
        AboveNotIn(m[1..], k);
      } else {
        RemoveView(m[1..], k);
        assert ([m[0]] + Remove(m[1..], k))[1..] == Remove(m[1..], k);
      }
    }
  }

  /** `m.erase(k)`: removes `k` when present. */
  function Erase<V>(m: Table<V>, k: string): (r: Table<V>)
    ensures View(r) == View(m) - {k}
    ensures |r| == if k in View(m) then |m| - 1 else |m|
  {
    RemoveSorted(m, k);
    RemoveView(m, k);
    Remove(m, k)
  }
}
