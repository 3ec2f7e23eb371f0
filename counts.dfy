/**
 * The key -> count table behind the shared `HashMap<String, u32>`
 * (src-tauri/src/main.rs:21), as a value. `Bump` is the update that every
 * writer performs under the lock: `*map.entry(key).or_insert(0) += 1`
 * (src-tauri/src/main.rs:26 and :44).
 */
module Counts {
  type Table = map<string, nat>

  /** The count of `k`, zero for a key the table does not hold. */
  function Count(m: Table, k: string): nat {
    if k in m then m[k] else 0
  }

  /** One increment: a missing key enters at 1, a present key goes up by 1. */
  function Bump(m: Table, k: string): (r: Table)
    ensures r.Keys == m.Keys + {k}
    ensures k !in m ==> r[k] == 1
    ensures k in m ==> r[k] == m[k] + 1
    ensures forall j :: j in m && j != k ==> r[j] == m[j]
  {
    m[k := Count(m, k) + 1]
  }

  /** Every key present has been incremented at least once. */
  ghost predicate AllPositive(m: Table) {
    forall k :: k in m ==> m[k] >= 1
  }

  /** The table after the increments `ks`, applied in order. */
  function Replay(m: Table, ks: seq<string>): Table
    decreases |ks|
  {
    if ks == [] then m else Replay(Bump(m, ks[0]), ks[1..])
  }

  /** `n` increments of the same key. */
  function Repeat(k: string, n: nat): (ks: seq<string>)
    ensures |ks| == n
  {
    if n == 0 then [] else [k] + Repeat(k, n - 1)
  }

  /**
   * No increment is lost: after any sequence of increments every key's count
   * has grown by the number of times the sequence names it, and the key set
   * has grown by exactly the keys it names.
   */
  lemma {:induction false} ReplayCounts(m: Table, ks: seq<string>)
    ensures forall k :: Count(Replay(m, ks), k) == Count(m, k) + multiset(ks)[k]
    ensures Replay(m, ks).Keys == m.Keys + set i | 0 <= i < |ks| :: ks[i]
    decreases |ks|
  {
    if ks != [] {
      ReplayCounts(Bump(m, ks[0]), ks[1..]);
      assert ks == [ks[0]] + ks[1..];
      assert multiset(ks) == multiset{ks[0]} + multiset(ks[1..]);
      var tail := set i | 0 <= i < |ks[1..]| :: ks[1..][i];
      var all := set i | 0 <= i < |ks| :: ks[i];
      assert all == {ks[0]} + tail by {
        forall x | x in all ensures x in {ks[0]} + tail {
          var i :| 0 <= i < |ks| && ks[i] == x;
          if i > 0 { assert ks[1..][i - 1] == x; }
        }
        forall x | x in tail ensures x in all {
          var i :| 0 <= i < |ks[1..]| && ks[1..][i] == x;
          assert ks[i + 1] == x;
        }
      }
    }
  }

  /** Counts never go down and keys never disappear. */
  lemma {:induction false} ReplayNeverDecreases(m: Table, ks: seq<string>)
    ensures forall k :: k in m ==> k in Replay(m, ks) && Replay(m, ks)[k] >= m[k]
    decreases |ks|
  {
    if ks != [] {
      ReplayNeverDecreases(Bump(m, ks[0]), ks[1..]);
    }
  }

  /** Increments keep every present count at 1 or more. */
  lemma {:induction false} ReplayKeepsPositive(m: Table, ks: seq<string>)
    requires AllPositive(m)
    ensures AllPositive(Replay(m, ks))
    decreases |ks|
  {
    if ks != [] {
      ReplayKeepsPositive(Bump(m, ks[0]), ks[1..]);
    }
  }

  /** `n` increments of one key add exactly `n` to it and touch nothing else. */
  lemma {:induction false} RepeatedIncrement(m: Table, k: string, n: nat)
    ensures Replay(m, Repeat(k, n)) == if n == 0 then m else m[k := Count(m, k) + n]
    decreases n
  {
    if n > 0 {
      var ks := Repeat(k, n);
      assert ks[0] == k && ks[1..] == Repeat(k, n - 1);
      RepeatedIncrement(Bump(m, k), k, n - 1);
    }
  }

  /** Starting from the empty table, `n` increments of one key give count `n`. */
  lemma FromEmpty(k: string, n: nat)
    requires n >= 1
    ensures Replay(map[], Repeat(k, n)) == map[k := n]
  {
    RepeatedIncrement(map[], k, n);
  }

  /** Sum of the counts over a set of keys of the table. */
  ghost function SumOver(m: Table, keys: set<string>): nat
    requires keys <= m.Keys
    decreases keys
  {
    if keys == {} then 0 else var k :| k in keys; m[k] + SumOver(m, keys - {k})
  }

  /** The sum of all counts: the number of increments the table has seen. */
  ghost function Total(m: Table): nat {
    SumOver(m, m.Keys)
  }

  /** The sum does not depend on which key is taken out first. */
  lemma {:induction false} SumOverPick(m: Table, keys: set<string>, k: string)
    requires keys <= m.Keys && k in keys
    ensures SumOver(m, keys) == m[k] + SumOver(m, keys - {k})
    decreases keys
  {
    var j :| j in keys && SumOver(m, keys) == m[j] + SumOver(m, keys - {j});
    if j != k {
      SumOverPick(m, keys - {j}, k);
      SumOverPick(m, keys - {k}, j);
      assert keys - {j} - {k} == keys - {k} - {j};
    }
  }

  /** The sum over some keys only reads the counts of those keys. */
  lemma {:induction false} SumOverFrame(m: Table, m': Table, keys: set<string>)
    requires keys <= m.Keys && keys <= m'.Keys
    requires forall k :: k in keys ==> m[k] == m'[k]
    ensures SumOver(m, keys) == SumOver(m', keys)
    decreases keys
  {
    if keys != {} {
      var k :| k in keys && SumOver(m, keys) == m[k] + SumOver(m, keys - {k});
      SumOverPick(m', keys, k);
      SumOverFrame(m, m', keys - {k});
    }
  }

  /** Every increment raises the sum of all counts by exactly one. */
  lemma BumpTotal(m: Table, k: string)
    ensures Total(Bump(m, k)) == Total(m) + 1
  {
    var r := Bump(m, k);
    SumOverPick(r, r.Keys, k);
    if k in m {
      assert r.Keys == m.Keys;
      SumOverPick(m, m.Keys, k);
      SumOverFrame(r, m, m.Keys - {k});
    } else {
      assert r.Keys - {k} == m.Keys;
      SumOverFrame(r, m, m.Keys);
    }
  }

  /** A run of increments raises the sum by its length. */
  lemma {:induction false} ReplayTotal(m: Table, ks: seq<string>)
    ensures Total(Replay(m, ks)) == Total(m) + |ks|
    decreases |ks|
  {
    if ks != [] {
      BumpTotal(m, ks[0]);
      ReplayTotal(Bump(m, ks[0]), ks[1..]);
    }
  }
}
