/** What the database does for the store: list a table newest first
    (`ORDER BY ... DESC`) and pick the primary key of a new row. */
module Ordering {

  /** `s` is ordered by non-increasing `key`. */
  predicate SortedDesc<T>(s: seq<T>, key: T -> int) {
    forall i, j :: 0 <= i < j < |s| ==> key(s[i]) >= key(s[j])
  }

  /** Inserts `x` into a list ordered by non-increasing `key`. */
  function InsertDesc<T>(x: T, s: seq<T>, key: T -> int): (r: seq<T>)
    requires SortedDesc(s, key)
    ensures SortedDesc(r, key)
    ensures multiset(r) == multiset(s) + multiset{x}
  {
    if s == [] || key(s[0]) <= key(x) then [x] + s
    else
      var rest := InsertDesc(x, s[1..], key);
      assert forall j :: 0 <= j < |rest| ==> key(rest[j]) <= key(s[0]) by {
        forall j | 0 <= j < |rest| ensures key(rest[j]) <= key(s[0]) {
          assert rest[j] in multiset(rest);
          if rest[j] != x {
            assert rest[j] in multiset(s[1..]);
            var m :| 0 <= m < |s[1..]| && s[1..][m] == rest[j];
            assert s[m + 1] == rest[j];
          }
        }
      }
      assert s == [s[0]] + s[1..];
      [s[0]] + rest
  }

  /** All rows of `table`, each once, ordered by non-increasing `key`; rows
      with equal keys come in no promised order. */
  method SortByKeyDesc<T(==)>(table: map<nat, T>, key: T -> int) returns (r: seq<T>)
    ensures SortedDesc(r, key)
    ensures multiset(r) == multiset(table.Values)
  {
    var rest := table.Values;
    r := [];
    while rest != {}
      invariant rest <= table.Values
      invariant SortedDesc(r, key)
      invariant multiset(r) + multiset(rest) == multiset(table.Values)
      decreases |rest|
    {
      var x :| x in rest;
      r := InsertDesc(x, r, key);
      assert multiset(rest - {x}) + multiset{x} == multiset(rest);
      rest := rest - {x};
    }
  }

  /** SQLite's rowid for a new row of a table without AUTOINCREMENT: one more
      than the largest rowid in use, and 1 in an empty table. */
  method NextRowId(ids: set<nat>) returns (id: nat)
    ensures id >= 1
    ensures forall k :: k in ids ==> k < id
    ensures id == 1 || id - 1 in ids
  {
    id := 1;
    var rest := ids;
    while rest != {}
      invariant rest <= ids
      invariant id >= 1
      invariant forall k :: k in ids && k !in rest ==> k < id
      invariant id == 1 || id - 1 in ids
      decreases |rest|
    {
      var k :| k in rest;
      if id <= k {
        id := k + 1;
      }
      rest := rest - {k};
    }
  }

  /** A table whose rows carry their own key holds as many distinct rows as
      keys, so a listing with each row once has one entry per key. */
  lemma {:induction false} KeyedValuesCount<T>(table: map<nat, T>, keyOf: T -> nat)
    requires forall k :: k in table ==> keyOf(table[k]) == k
    ensures |table.Values| == |table|
    decreases |table|
  {
    if table != map[] {
      var k :| k in table;
      var smaller := table - {k};
      assert smaller.Keys == table.Keys - {k};
      assert |smaller| == |table| - 1;
      KeyedValuesCount(smaller, keyOf);
      forall v | v in table.Values ensures v in smaller.Values + {table[k]} {
        var k' :| k' in table && table[k'] == v;
        if k' != k { assert smaller[k'] == v; }
      }
      assert table.Values == smaller.Values + {table[k]};
      assert table[k] !in smaller.Values;
    }
  }
}
