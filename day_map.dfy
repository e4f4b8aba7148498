/**
 * The JavaScript `Map` keyed by ISO day that each analytics route fills, and
 * the `Array.from(map.entries()).map(...).sort(byDate)` pipeline that turns it
 * into the chart series. A map is its entries in insertion order; `set` on a
 * present key replaces the value in place, on an absent key appends.
 */
module DayMap {
  import opened Wrappers

  /** One `[dateKey, value]` pair; in the output series, `{date, ...value}`. */
  datatype Entry<V> = Entry(key: int, value: V)

  /** `map.get(k)`: None for `undefined`. */
  function Get<V>(m: seq<Entry<V>>, k: int): Option<V>
  {
    if m == [] then None
    else if m[0].key == k then Some(m[0].value)
    else Get(m[1..], k)
  }

  /** `map.set(k, v)`. */
  function Set<V>(m: seq<Entry<V>>, k: int, v: V): seq<Entry<V>>
  {
    if m == [] then [Entry(k, v)]
    else if m[0].key == k then [Entry(k, v)] + m[1..]
    else [m[0]] + Set(m[1..], k, v)
  }

  /** Each key occurs once, as in every JavaScript `Map`. */
  predicate DistinctKeys<V>(m: seq<Entry<V>>)
  {
    m == [] || (Get(m[1..], m[0].key).None? && DistinctKeys(m[1..]))
  }

  /** Ascending by date, each date once. */
  predicate Ascending<V>(m: seq<Entry<V>>)
  {
    forall i, j :: 0 <= i < j < |m| ==> m[i].key < m[j].key
  }

  /** After `set(k, v)`, `get(k)` is v and every other key reads as before. */
  lemma {:induction false} GetSet<V>(m: seq<Entry<V>>, k: int, v: V, j: int)
    ensures Get(Set(m, k, v), j) == if j == k then Some(v) else Get(m, j)
  {
    if m != [] && m[0].key != k {
      GetSet(m[1..], k, v, j);
      assert Set(m, k, v)[1..] == Set(m[1..], k, v);
    }
  }

  /** `set` keeps keys distinct and adds one entry exactly when the key was absent. */
  lemma {:induction false} SetShape<V>(m: seq<Entry<V>>, k: int, v: V)
    requires DistinctKeys(m)
    ensures DistinctKeys(Set(m, k, v))
    ensures |Set(m, k, v)| == if Get(m, k).Some? then |m| else |m| + 1
  {
    if m != [] {
      var s := Set(m, k, v);
      if m[0].key == k {
        assert s[1..] == m[1..];
      } else {
        SetShape(m[1..], k, v);
        assert s[1..] == Set(m[1..], k, v);
        GetSet(m[1..], k, v, m[0].key);
      }
    }
  }

  /** The keys in insertion order. */
  function Keys<V>(m: seq<Entry<V>>): seq<int>
  {
    if m == [] then [] else [m[0].key] + Keys(m[1..])
  }

  /** A key reads as absent exactly when it is not among the keys. */
  lemma {:induction false} GetKeys<V>(m: seq<Entry<V>>, k: int)
    ensures Get(m, k).None? <==> k !in Keys(m)
  {
    if m != [] {
      GetKeys(m[1..], k);
    }
  }

  /** `set` on a present key replaces its value in place: the keys and their order stay. */
  lemma {:induction false} SetKeys<V>(m: seq<Entry<V>>, k: int, v: V)
    requires Get(m, k).Some?
    ensures Keys(Set(m, k, v)) == Keys(m)
  {
    if m[0].key != k {
      SetKeys(m[1..], k, v);
      assert Set(m, k, v)[1..] == Set(m[1..], k, v);
    } else {
      assert Set(m, k, v)[1..] == m[1..];
    }
  }

  /** Two maps with the same keys in the same order that agree on every key are the same map. */
  lemma {:induction false} SameKeysSameGet<V>(m1: seq<Entry<V>>, m2: seq<Entry<V>>)
    requires DistinctKeys(m1) && Keys(m1) == Keys(m2)
    requires forall k :: Get(m1, k) == Get(m2, k)
    ensures m1 == m2
  {
    if m1 != [] {
      var k := m1[0].key;
      assert Keys(m2) != [];
      assert m2[0].key == Keys(m2)[0] == k;
      assert Get(m1, k) == Some(m1[0].value);
      assert Get(m2, k) == Some(m2[0].value);
      assert Keys(m1[1..]) == Keys(m1)[1..] == Keys(m2)[1..] == Keys(m2[1..]);
      GetKeys(m1[1..], k);
      GetKeys(m2[1..], k);
      forall j ensures Get(m1[1..], j) == Get(m2[1..], j) {
        if j != k {
          assert Get(m1, j) == Get(m1[1..], j);
          assert Get(m2, j) == Get(m2[1..], j);
        }
      }
      SameKeysSameGet(m1[1..], m2[1..]);
      assert m1 == [m1[0]] + m1[1..];
      assert m2 == [m2[0]] + m2[1..];
    }
  }

  /** The first entry of a map with the key, if any, is that key's entry. */
  lemma {:induction false} GetHead<V>(m: seq<Entry<V>>, k: int)
    requires Get(m, k).Some?
    ensures exists i :: 0 <= i < |m| && m[i] == Entry(k, Get(m, k).value)
  {
    if m[0].key != k {
      GetHead(m[1..], k);
      var i :| 0 <= i < |m[1..]| && m[1..][i] == Entry(k, Get(m, k).value);
      assert m[i + 1] == m[1..][i];
    }
  }

  /** An entry that is present can be looked up, when keys are distinct. */
  lemma {:induction false} GetAt<V>(m: seq<Entry<V>>, i: nat)
    requires DistinctKeys(m) && i < |m|
    ensures Get(m, m[i].key) == Some(m[i].value)
  {
    if i > 0 {
      GetAt(m[1..], i - 1);
      assert m[1..][i - 1] == m[i];
    }
  }

  /** Place an entry before the first entry whose key is not smaller. */
  function Insert<V>(e: Entry<V>, s: seq<Entry<V>>): (r: seq<Entry<V>>)
    ensures |r| == |s| + 1
    ensures r[0] == e || (s != [] && r[0] == s[0])
  {
    if s == [] || e.key <= s[0].key then [e] + s else [s[0]] + Insert(e, s[1..])
  }

  /** `Array.from(map.entries()).sort((a, b) => date(a) - date(b))`, a stable sort by key. */
  function SortByKey<V>(m: seq<Entry<V>>): (r: seq<Entry<V>>)
    ensures |r| == |m|
  {
    if m == [] then [] else Insert(m[0], SortByKey(m[1..]))
  }

  lemma {:induction false} GetInsert<V>(e: Entry<V>, s: seq<Entry<V>>, k: int)
    ensures Get(Insert(e, s), k) == if k == e.key then Some(e.value) else Get(s, k)
  {
    if !(s == [] || e.key <= s[0].key) {
      var r := Insert(e, s);
      assert r[1..] == Insert(e, s[1..]);
      GetInsert(e, s[1..], k);
    }
  }

  lemma {:induction false} InsertAscending<V>(e: Entry<V>, s: seq<Entry<V>>)
    requires Ascending(s) && Get(s, e.key).None?
    ensures Ascending(Insert(e, s))
  {
    if s != [] {
      GetInsert(e, s, e.key);
      if e.key > s[0].key {
        var t := Insert(e, s[1..]);
        assert Get(s[1..], e.key).None?;
        assert Ascending(s[1..]) by {
          forall i, j | 0 <= i < j < |s[1..]| ensures s[1..][i].key < s[1..][j].key {
            assert s[1..][i] == s[i + 1] && s[1..][j] == s[j + 1];
          }
        }
        InsertAscending(e, s[1..]);
        AscendingCons(s[0], t);
        assert Insert(e, s) == [s[0]] + t;
      } else {
        assert e.key != s[0].key;
        AscendingCons(e, s);
      }
    }
  }

  /** Prepending a key smaller than the first keeps a series ascending. */
  lemma {:induction false} AscendingCons<V>(e: Entry<V>, t: seq<Entry<V>>)
    requires Ascending(t) && (t == [] || e.key < t[0].key)
    ensures Ascending([e] + t)
  {
    var r := [e] + t;
    forall i, j | 0 <= i < j < |r| ensures r[i].key < r[j].key {
      assert r[j] == t[j - 1];
      if i > 0 {
        assert r[i] == t[i - 1];
      } else if j > 1 {
        assert t[0].key < t[j - 1].key;
      }
    }
  }

  /** Sorting changes no lookup. */
  lemma {:induction false} GetSort<V>(m: seq<Entry<V>>, k: int)
    ensures Get(SortByKey(m), k) == Get(m, k)
  {
    if m != [] {
      GetInsert(m[0], SortByKey(m[1..]), k);
      GetSort(m[1..], k);
    }
  }

  /** A map with distinct keys sorts into a series ascending by date with each date once. */
  lemma {:induction false} SortAscending<V>(m: seq<Entry<V>>)
    requires DistinctKeys(m)
    ensures Ascending(SortByKey(m))
    ensures DistinctKeys(SortByKey(m))
  {
    if m != [] {
      SortAscending(m[1..]);
      GetSort(m[1..], m[0].key);
      InsertAscending(m[0], SortByKey(m[1..]));
    }
    AscendingDistinct(SortByKey(m));
  }

  lemma {:induction false} AscendingDistinct<V>(s: seq<Entry<V>>)
    requires Ascending(s)
    ensures DistinctKeys(s)
  {
    if s != [] {
      assert Ascending(s[1..]) by {
        forall i, j | 0 <= i < j < |s[1..]| ensures s[1..][i].key < s[1..][j].key {
          assert s[1..][i] == s[i + 1] && s[1..][j] == s[j + 1];
        }
      }
      AscendingDistinct(s[1..]);
      if Get(s[1..], s[0].key).Some? {
        GetHead(s[1..], s[0].key);
      }
    }
  }

  /** The sum of the values of an integer-valued series. */
  function SumValues(m: seq<Entry<int>>): int
  {
    if m == [] then 0 else m[0].value + SumValues(m[1..])
  }

  /** `set(k, v)` replaces k's old value (0 when absent) by v in the sum. */
  lemma {:induction false} SumSet(m: seq<Entry<int>>, k: int, v: int)
    ensures SumValues(Set(m, k, v)) == SumValues(m) - Get(m, k).GetOr(0) + v
  {
    if m != [] {
      var s := Set(m, k, v);
      if m[0].key == k {
        assert s[1..] == m[1..];
      } else {
        SumSet(m[1..], k, v);
        assert s[1..] == Set(m[1..], k, v);
      }
    }
  }

  /** Sorting does not change the sum. */
  lemma {:induction false} SumSort(m: seq<Entry<int>>)
    ensures SumValues(SortByKey(m)) == SumValues(m)
  {
    if m != [] {
      SumSort(m[1..]);
      SumInsert(m[0], SortByKey(m[1..]));
    }
  }

  lemma {:induction false} SumInsert(e: Entry<int>, s: seq<Entry<int>>)
    ensures SumValues(Insert(e, s)) == e.value + SumValues(s)
  {
    if !(s == [] || e.key <= s[0].key) {
      var r := Insert(e, s);
      assert r[1..] == Insert(e, s[1..]);
      SumInsert(e, s[1..]);
    } else {
      assert ([e] + s)[1..] == s;
    }
  }
}
