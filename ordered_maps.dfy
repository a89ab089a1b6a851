/**
 * The few ordered-map operations of Rust's `BTreeMap<usize, _>` that the disk
 * compactor relies on, over Dafny's `map<nat, V>`: the largest key, the
 * greatest key strictly below a bound (`range(..pos).rev().next()`), and the
 * sum of a weight over every entry (an iterator fold followed by `sum`).
 */
module OrderedMaps {
  import opened Wrappers

  /** `m` is the largest element of `s`. */
  predicate IsMax(s: set<nat>, m: nat)
  {
    m in s && forall k :: k in s ==> k <= m
  }

  lemma {:induction false} MaxExists(s: set<nat>)
    requires s != {}
    ensures exists m :: IsMax(s, m)
    decreases s
  {
    var x :| x in s;
    var rest := s - {x};
    if rest == {} {
      forall k | k in s ensures k <= x {
        assert k !in rest;
      }
      assert IsMax(s, x);
    } else {
      MaxExists(rest);
      var m :| IsMax(rest, m);
      var top := if x <= m then m else x;
      forall k | k in s ensures k <= top {
        if k != x {
          assert k in rest;
        }
      }
      assert IsMax(s, top);
    }
  }

  /** The largest element of a non-empty set of naturals (the last key of a `BTreeMap`). */
  function MaxOf(s: set<nat>): (m: nat)
    requires s != {}
    ensures m in s
    ensures forall k :: k in s ==> k <= m
  {
    MaxExists(s);
    var m :| IsMax(s, m);
    m
  }

  /** The greatest key strictly below `pos`: `range(..pos).rev().next()`. */
  function KeyBefore<V>(m: map<nat, V>, pos: nat): (r: Option<nat>)
    ensures r.Some? ==> r.value < pos && r.value in m
    ensures r.Some? ==> forall k :: r.value < k < pos ==> k !in m
    ensures r.None? ==> forall k :: k < pos ==> k !in m
    decreases pos
  {
    if pos == 0 then None
    else if pos - 1 in m then Some(pos - 1)
    else KeyBefore(m, pos - 1)
  }

  /** The sum of `w(k, m[k])` over every entry of `m`, taking keys from the largest down. */
  function Sum<V>(m: map<nat, V>, w: (nat, V) -> nat): nat
    decreases |m.Keys|
  {
    if m.Keys == {} then 0
    else
      var k := MaxOf(m.Keys);
      assert m.Keys - {k} < m.Keys;
      w(k, m[k]) + Sum(m - {k}, w)
  }

  /** Any single entry can be split off the sum, whichever order the fold takes. */
  lemma {:induction false} SumRemove<V>(m: map<nat, V>, w: (nat, V) -> nat, k: nat)
    requires k in m
    ensures Sum(m, w) == w(k, m[k]) + Sum(m - {k}, w)
    decreases |m.Keys|
  {
    var top := MaxOf(m.Keys);
    if top != k {
      assert m.Keys - {top} < m.Keys;
      SumRemove(m - {top}, w, k);
      assert (m - {top}) - {k} == (m - {k}) - {top};
      assert (m - {k}).Keys != {};
      assert MaxOf((m - {k}).Keys) == top;
    }
  }

  /** Inserting a fresh key adds exactly its weight. */
  lemma SumInsert<V>(m: map<nat, V>, w: (nat, V) -> nat, k: nat, v: V)
    requires k !in m
    ensures Sum(m[k := v], w) == Sum(m, w) + w(k, v)
  {
    SumRemove(m[k := v], w, k);
    assert m[k := v] - {k} == m;
  }

  /** Replacing the value under an existing key changes the sum by the difference of weights. */
  lemma SumUpdate<V>(m: map<nat, V>, w: (nat, V) -> nat, k: nat, v: V)
    requires k in m
    ensures Sum(m[k := v], w) + w(k, m[k]) == Sum(m, w) + w(k, v)
  {
    SumRemove(m[k := v], w, k);
    SumRemove(m, w, k);
    assert m[k := v] - {k} == m - {k};
  }
}
