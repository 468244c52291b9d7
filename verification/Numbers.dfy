/** Picking a number that is not in use, for the answers of the C heap and of the kernel, sums of
    lists, and division. */
module Numbers {

  method Unused(used: set<nat>) returns (n: nat)
    ensures n !in used
  {
    var rest := used;
    n := 0;
    while rest != {}
      invariant rest <= used && forall q :: q in used && q !in rest ==> q < n
      decreases |rest|
    {
      var q :| q in rest;
      if q >= n {
        n := q + 1;
      }
      rest := rest - {q};
    }
  }

  function Sum(s: seq<nat>): nat {
    if s == [] then 0 else Sum(s[..|s| - 1]) + s[|s| - 1]
  }

  lemma {:induction false} SumUpdate(s: seq<nat>, i: nat, x: nat)
    requires i < |s|
    ensures Sum(s[i := x]) - x == Sum(s) - s[i]
  {
    var n := |s| - 1;
    if i == n {
      assert s[i := x][..n] == s[..n];
    } else {
      assert s[i := x][..n] == s[..n][i := x];
      SumUpdate(s[..n], i, x);
    }
  }

  lemma SumAppend(s: seq<nat>, x: nat)
    ensures Sum(s + [x]) == Sum(s) + x
  {
    assert (s + [x])[..|s|] == s;
  }

  lemma ProductLess(a: nat, b: nat, x: nat, y: nat)
    requires a <= b && x <= y
    ensures a * x <= b * y
  {
    calc <= {
      a * x;
      b * x;
      b * y;
    }
  }

  lemma ProductStep(a: nat, b: nat, s: nat)
    ensures a < b ==> a * s + s <= b * s
  {
    if a < b {
      ProductLess(a + 1, b, s, s);
      assert (a + 1) * s == a * s + s;
    }
  }

  lemma QuotientIs(x: nat, s: nat, q: nat)
    requires s > 0 && q * s <= x < q * s + s
    ensures x / s == q
  {
    var p := x / s;
    assert p * s <= x < p * s + s;
    ProductStep(p, q, s);
    ProductStep(q, p, s);
  }

  lemma QuotientSteps(x: nat, s: nat)
    requires s > 0
    ensures x < s ==> x / s == 0
    ensures s <= x ==> (x - s) / s == x / s - 1
  {
    var q := x / s;
    assert q * s <= x < q * s + s;
    if x < s {
      QuotientIs(x, s, 0);
    } else if q > 0 {
      assert (q - 1) * s == q * s - s;
      QuotientIs(x - s, s, q - 1);
    }
  }
}
