/**
 * Facts about ordered collections of integers used by the extractor:
 * the first element of a `std::set<int>` (its minimum), the ascending
 * iteration order of a `std::map<int, _>`, and the sum of a map's values.
 */
module IntSets {

  /** `m` is an element of `s` not above any other. */
  predicate IsMin(s: set<int>, m: int)
  {
    m in s && forall y :: y in s ==> m <= y
  }

  /** A nonempty set has an element to pick. */
  lemma Inhabited(s: set<int>)
    requires s != {}
    ensures exists y :: y in s
  {
    if forall y :: y !in s {
      assert false;
    }
  }

  /** Every finite nonempty set of integers has a least element. */
  lemma {:induction false} MinExists(s: set<int>)
    requires s != {}
    ensures exists m :: IsMin(s, m)
    decreases |s|
  {
    Inhabited(s);
    var x :| x in s;
    var rest := s - {x};
    if rest == {} {
      forall y | y in s ensures x <= y {
        assert y !in rest;
      }
      assert IsMin(s, x);
    } else {
      MinExists(rest);
      var m :| IsMin(rest, m);
      var least := if x < m then x else m;
      forall y | y in s ensures least <= y {
        if y != x {
          assert y in rest;
        }
      }
      assert IsMin(s, least);
    }
  }

  /** The element `s.begin()` points to: the minimum of the set. */
  function SetMin(s: set<int>): (m: int)
    requires s != {}
    ensures m in s
    ensures forall y :: y in s ==> m <= y
  {
    MinExists(s);
    var m :| IsMin(s, m);
    m
  }

  /** `m` is an element of `s` not below any other. */
  predicate IsMax(s: set<int>, m: int)
  {
    m in s && forall y :: y in s ==> y <= m
  }

  /** Every finite nonempty set of integers has a greatest element. */
  lemma {:induction false} MaxExists(s: set<int>)
    requires s != {}
    ensures exists m :: IsMax(s, m)
    decreases |s|
  {
    Inhabited(s);
    var x :| x in s;
    var rest := s - {x};
    if rest == {} {
      forall y | y in s ensures y <= x {
        assert y !in rest;
      }
      assert IsMax(s, x);
    } else {
      MaxExists(rest);
      var m :| IsMax(rest, m);
      var greatest := if x > m then x else m;
      forall y | y in s ensures y <= greatest {
        if y != x {
          assert y in rest;
        }
      }
      assert IsMax(s, greatest);
    }
  }

  /** The greatest element of a nonempty set. */
  function SetMax(s: set<int>): (m: int)
    requires s != {}
    ensures m in s
    ensures forall y :: y in s ==> y <= m
  {
    MaxExists(s);
    var m :| IsMax(s, m);
    m
  }

  /** Each element of `r` is strictly below the next ones. */
  predicate Increasing(r: seq<int>)
  {
    forall i, j :: 0 <= i < j < |r| ==> r[i] < r[j]
  }

  /** The elements of `s` in ascending order: the order a `std::set` or the keys of a `std::map` are visited. */
  function Ascending(s: set<int>): (r: seq<int>)
    ensures |r| == |s|
    decreases |s|
  {
    if s == {} then []
    else
      var m := SetMin(s);
      [m] + Ascending(s - {m})
  }

  /** `Ascending(s)` lists exactly the elements of `s`, each once, smallest first. */
  lemma {:induction false} AscendingEnumerates(s: set<int>)
    ensures forall x :: x in Ascending(s) <==> x in s
    ensures Increasing(Ascending(s))
    decreases |s|
  {
    if s != {} {
      var m := SetMin(s);
      var rest := Ascending(s - {m});
      AscendingEnumerates(s - {m});
      var r := [m] + rest;
      assert r == Ascending(s);
      forall i, j | 0 <= i < j < |r| ensures r[i] < r[j] {
        assert r[j] == rest[j - 1] && rest[j - 1] in rest;
        if i > 0 {
          assert r[i] == rest[i - 1];
        }
      }
    }
  }

  /** Value of key `k` in `m`, or 0 when absent (`std::map::operator[]` on an int map). */
  function Lookup(m: map<int, int>, k: int): int
  {
    if k in m then m[k] else 0
  }

  /** The sum of the values of `m`. */
  ghost function Sum(m: map<int, int>): int
    decreases |m|
  {
    if m == map[] then 0
    else
      var k := SetMin(m.Keys);
      assert |m - {k}| < |m| by { assert (m - {k}).Keys == m.Keys - {k}; }
      m[k] + Sum(m - {k})
  }

  /** Any key may be taken out first when summing. */
  lemma {:induction false} SumRemove(m: map<int, int>, k: int)
    requires k in m
    ensures Sum(m) == m[k] + Sum(m - {k})
    decreases |m|
  {
    var j := SetMin(m.Keys);
    if j != k {
      assert (m - {j}).Keys == m.Keys - {j};
      assert (m - {k}).Keys == m.Keys - {k};
      SumRemove(m - {j}, k);
      SumRemove(m - {k}, j);
      assert (m - {j}) - {k} == (m - {k}) - {j};
    }
  }

  /** Overwriting one entry changes the sum by the difference. */
  lemma SumUpdate(m: map<int, int>, k: int, v: int)
    ensures Sum(m[k := v]) == Sum(m) - Lookup(m, k) + v
  {
    SumRemove(m[k := v], k);
    if k in m {
      SumRemove(m, k);
      assert m[k := v] - {k} == m - {k};
    } else {
      assert m[k := v] - {k} == m;
    }
  }

  /** The keys of `m` whose value reaches `t`. */
  ghost function KeysAtLeast(m: map<int, int>, t: int): set<int>
  {
    set k | k in m && m[k] >= t
  }

  /** Taking key `j` out of `m` takes it out of the keys reaching `t`, and nothing else. */
  lemma KeysAtLeastRemove(m: map<int, int>, j: int, t: int)
    requires j in m
    ensures KeysAtLeast(m, t) == KeysAtLeast(m - {j}, t) + (if m[j] >= t then {j} else {})
    ensures j !in KeysAtLeast(m - {j}, t)
  {
  }

  /** With nonnegative values, `t` times the number of keys whose value reaches `t` is at most the sum. */
  lemma {:induction false} SumBoundsKeysAtLeast(m: map<int, int>, t: nat)
    requires forall k :: k in m ==> m[k] >= 0
    ensures t * |KeysAtLeast(m, t)| <= Sum(m)
    decreases |m|
  {
    if m == map[] {
      assert KeysAtLeast(m, t) == {};
    } else {
      var j := SetMin(m.Keys);
      assert (m - {j}).Keys == m.Keys - {j};
      SumBoundsKeysAtLeast(m - {j}, t);
      SumRemove(m, j);
      KeysAtLeastRemove(m, j, t);
      var n := |KeysAtLeast(m - {j}, t)|;
      if m[j] >= t {
        assert |KeysAtLeast(m, t)| == n + 1;
        ScaledStep(t, n, Sum(m - {j}), m[j]);
      } else {
        assert |KeysAtLeast(m, t)| == n;
      }
    }
  }

  /** One more key reaching `t` adds at least `t` to the sum. */
  lemma ScaledStep(t: nat, n: nat, total: int, v: int)
    requires t * n <= total && t <= v
    ensures t * (n + 1) <= total + v
  {
  }
}
