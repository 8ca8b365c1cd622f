/**
 Powers of two, and the products, quotients and counts the solver is not left to find by itself.
 */
module Arithmetic {

  function Pow2(n: nat): (p: nat)
    ensures p > 0
  {
    if n == 0 then 1 else 2 * Pow2(n - 1)
  }

  lemma {:induction false} Pow2Monotone(m: nat, n: nat)
    requires m <= n
    ensures Pow2(m) <= Pow2(n)
    decreases n
  {
    if m < n {
      Pow2Monotone(m, n - 1);
    }
  }

  lemma EightTimes(n: nat)
    ensures Pow2(n + 3) == 8 * Pow2(n)
  {
    assert Pow2(n + 3) == 2 * Pow2(n + 2) && Pow2(n + 2) == 2 * Pow2(n + 1);
  }

  lemma Pow2Values()
    ensures Pow2(60) == 0x1000_0000_0000_0000 && Pow2(64) == 0x1_0000_0000_0000_0000
  {
    Pow2Of10();
    hide Pow2;
    Pow2Sum(10, 10);
    Pow2Sum(20, 20);
    Pow2Sum(40, 20);
    Pow2Sum(60, 4);
  }

  lemma Pow2Of10()
    ensures Pow2(4) == 16 && Pow2(10) == 1024
  {
    assert Pow2(2) == 4;
    assert Pow2(4) == 16;
    assert Pow2(6) == 64;
    assert Pow2(8) == 256;
  }

  lemma {:induction false} Pow2Sum(m: nat, n: nat)
    ensures Pow2(m + n) == Pow2(m) * Pow2(n)
    decreases n
  {
    if n > 0 {
      Pow2Sum(m, n - 1);
      assert Pow2(m + n) == 2 * (Pow2(m) * Pow2(n - 1)) == Pow2(m) * (2 * Pow2(n - 1));
    }
  }

  lemma Quotient(v: nat, k: nat, w: nat)
    requires w > 0
    ensures v / w == k <==> k * w <= v < k * w + w
  {
    var q, r := v / w, v % w;
    assert v == q * w + r;
    if k < q {
      assert (q - k) * w >= w by { Scale(1, q - k, w); }
    } else if q < k {
      assert (k - q) * w >= w by { Scale(1, k - q, w); }
    }
  }

  lemma Scale(a: nat, b: nat, w: nat)
    requires a <= b
    ensures a * w <= b * w
  {
    assert b * w == a * w + (b - a) * w;
  }

  lemma Product(a: nat, b: nat, c: nat)
    ensures b <= a ==> b * c <= a * c
    ensures b < a && c > 0 ==> b * c < a * c
  {
    if b < a {
      assert a * c == b * c + (a - b) * c;
      assert (a - b) * c == (a - b - 1) * c + c;
    }
  }

  lemma Compare(a: nat, b: nat, c: nat)
    requires c > 0 && a * c <= b * c
    ensures a <= b
  {
    Product(a, b, c);
  }

  lemma Below(a: nat, b: nat, c: nat)
    requires a * c < b * c
    ensures a < b
  {
    Product(a, b, c);
  }

  lemma {:induction false} SubsetCount<T>(a: set<T>, b: set<T>)
    requires a <= b
    ensures |a| <= |b|
  {
    if a != {} {
      var x :| x in a;
      SubsetCount(a - {x}, b - {x});
    }
  }
}
