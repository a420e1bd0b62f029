/**
 * Go's `range` over a map visits the keys in an unspecified order. The model takes that
 * order as a parameter; this module says when a sequence is such an order, and relates
 * sums taken along it to an order-independent total.
 */
module Enumerations {
  /** Every position of `order` names a key of `m`. */
  predicate KeysIn<K, V>(order: seq<K>, m: map<K, V>) {
    forall i | 0 <= i < |order| :: order[i] in m
  }

  /**
   * `order` lists every key of `m` exactly once: one of the orders in which Go's `range`
   * may visit the map.
   */
  predicate Enumerates<K, V>(order: seq<K>, m: map<K, V>) {
    && KeysIn(order, m)
    && (forall k | k in m :: k in order)
    && (forall i, j | 0 <= i < j < |order| :: order[i] != order[j])
  }

  /** An enumeration of a map's keys is as long as the map. */
  lemma EnumerationSize<K, V>(order: seq<K>, m: map<K, V>)
    requires Enumerates(order, m)
    ensures |order| == |m|
  {
    var ks := set i | 0 <= i < |order| :: order[i];
    assert ks == m.Keys;
    DistinctCard(order);
  }

  /** A sequence without repeats has as many distinct elements as positions. */
  lemma {:induction false} DistinctCard<K>(s: seq<K>)
    requires forall i, j | 0 <= i < j < |s| :: s[i] != s[j]
    ensures |set i | 0 <= i < |s| :: s[i]| == |s|
    decreases |s|
  {
    if s != [] {
      var init := s[..|s| - 1];
      DistinctCard(init);
      var a := set i | 0 <= i < |init| :: init[i];
      var b := set i | 0 <= i < |s| :: s[i];
      assert b == a + {s[|s| - 1]};
      assert s[|s| - 1] !in a;
    }
  }

  /** Some element of a non-empty set. */
  ghost function Pick<K>(s: set<K>): (k: K)
    requires s != {}
    ensures k in s
  {
    var k :| k in s; k
  }

  /** The sum of the values of `m`, independent of any visiting order. */
  ghost function Total<K>(m: map<K, nat>): nat
    decreases |m|
  {
    if m == map[] then 0
    else
      var t := Pick(m.Keys);
      assert |m - {t}| < |m| by { assert (m - {t}).Keys < m.Keys; }
      m[t] + Total(m - {t})
  }

  /** Any key can be taken out of the total first. */
  lemma {:induction false} TotalRemove<K>(m: map<K, nat>, t: K)
    requires t in m
    ensures Total(m) == m[t] + Total(m - {t})
    decreases |m|
  {
    var u := Pick(m.Keys);
    if u != t {
      var mu, mt := m - {u}, m - {t};
      assert mu.Keys < m.Keys && mt.Keys < m.Keys;
      TotalRemove(mu, t);
      TotalRemove(mt, u);
      assert mu - {t} == mt - {u};
    }
  }

  /** The values of the keys `order` visits, summed in visiting order (absent keys add 0). */
  function SumOver<K>(m: map<K, nat>, order: seq<K>): nat
    decreases |order|
  {
    if order == [] then 0
    else
      var t := order[|order| - 1];
      SumOver(m, order[..|order| - 1]) + (if t in m then m[t] else 0)
  }

  /** Keys an order never visits do not affect its sum. */
  lemma {:induction false} SumOverIgnores<K>(m: map<K, nat>, order: seq<K>, t: K)
    requires t !in order
    ensures SumOver(m, order) == SumOver(m - {t}, order)
    decreases |order|
  {
    if order != [] {
      SumOverIgnores(m, order[..|order| - 1], t);
    }
  }

  /** Summing along any enumeration of the keys gives the total. */
  lemma {:induction false} SumOverEnumeration<K>(m: map<K, nat>, order: seq<K>)
    requires Enumerates(order, m)
    ensures SumOver(m, order) == Total(m)
    decreases |order|
  {
    if order == [] {
      assert m == map[];
    } else {
      var t := order[|order| - 1];
      var init := order[..|order| - 1];
      var m' := m - {t};
      assert t !in init;
      assert Enumerates(init, m') by {
        forall k | k in m'
          ensures k in init
        {
          var i :| 0 <= i < |order| && order[i] == k;
          assert i < |init|;
          assert init[i] == k;
        }
      }
      SumOverEnumeration(m', init);
      SumOverIgnores(m, init, t);
      TotalRemove(m, t);
    }
  }

  /** Two maps with the same keys and the same value at every key are equal. */
  lemma MapsEqual<K, V>(a: map<K, V>, b: map<K, V>)
    requires a.Keys == b.Keys
    requires forall k | k in a :: a[k] == b[k]
    ensures a == b
  {
  }
}
