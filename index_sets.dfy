/** Facts about sequences of card positions: no repeats, all below a bound,
    and the pigeonhole principle that relates their length to the bound. */
module IndexSets {

  predicate Distinct(xs: seq<nat>)
  {
    forall i, j :: 0 <= i < j < |xs| ==> xs[i] != xs[j]
  }

  predicate Below(xs: seq<nat>, n: nat)
  {
    forall i :: 0 <= i < |xs| ==> xs[i] < n
  }

  function Elements(xs: seq<nat>): set<nat>
  {
    set x | x in xs
  }

  /** The positions below `n`. */
  function Range(n: nat): (r: set<nat>)
    ensures forall k: nat :: k in r <==> k < n
    ensures |r| == n
  {
    if n == 0 then {} else Range(n - 1) + {n - 1}
  }

  lemma {:induction false} ElementsSize(xs: seq<nat>)
    requires Distinct(xs)
    ensures |Elements(xs)| == |xs|
  {
    if xs != [] {
      var p := xs[..|xs| - 1];
      var last := xs[|xs| - 1];
      assert xs == p + [last];
      assert Elements(xs) == Elements(p) + {last};
      assert last !in Elements(p);
      ElementsSize(p);
    }
  }

  /** Distinct positions below `n` number at most `n`, and exactly `n` of
      them cover every position below `n` (and conversely). */
  lemma Pigeonhole(xs: seq<nat>, n: nat)
    requires Distinct(xs) && Below(xs, n)
    ensures |xs| <= n
    ensures |xs| == n <==> forall k: nat :: k < n ==> k in xs
  {
    var e, r := Elements(xs), Range(n);
    ElementsSize(xs);
    assert e <= r;
    assert r == e + (r - e) && e * (r - e) == {};
    if |xs| == n {
      assert |r - e| == 0;
      forall k: nat | k < n ensures k in xs {
        assert k in r;
      }
    }
    if forall k: nat :: k < n ==> k in xs {
      assert r <= e;
    }
  }

  /** Appending two new, different positions keeps a sequence free of repeats. */
  lemma DistinctAppendPair(xs: seq<nat>, a: nat, b: nat)
    requires Distinct(xs) && a !in xs && b !in xs && a != b
    ensures Distinct(xs + [a, b])
  {
    var ys := xs + [a, b];
    forall i, j | 0 <= i < j < |ys| ensures ys[i] != ys[j] {
      if j == |xs| + 1 && i < |xs| {
        assert ys[i] in xs;
      } else if j == |xs| {
        assert ys[i] in xs;
      }
    }
  }
}
