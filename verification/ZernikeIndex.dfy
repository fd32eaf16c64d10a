/**
  The single index of the Zernike polynomials: `convert_Zidx` and the index step of
  `convGradIdxs` in `Zernike/zernike.c`, `p_from_nm` in `Zernike/zernike_annular.c`.
*/
module ZernikeIndex {
  import opened ZernikeRadial

  /** The integer part of the square root. */
  function SquareRoot(x: nat): (r: nat)
    ensures r * r <= x < (r + 1) * (r + 1)
  {
    if x == 0 then 0
    else
      var r := SquareRoot(x - 1);
      if (r + 1) * (r + 1) <= x then r + 1 else r
  }

  /** The exact value of the floor of (-1 + sqrt(1 + 8p)) / 2. */
  function OrderOf(p: nat): nat { (SquareRoot(1 + 8 * p) - 1) / 2 }

  /** The orders (n, m) of the p-th polynomial. */
  function ConvertIndex(p: nat): (int, int) {
    var n := OrderOf(p);
    (n, 2 * p - n * (n + 1) - n)
  }

  function IndexOf(n: int, m: int): int { (n * n + 2 * n + m) / 2 }

  /** The index that the gradient conversion pairs with that of (n, m). */
  function GradientPartner(n: int, m: int): int { ((n + 2) * (n + 4) + m) / 2 }

  lemma OrderBounds(p: nat)
    ensures var n := OrderOf(p); n * (n + 1) <= 2 * p < (n + 1) * (n + 2)
  {
    var r, n := SquareRoot(1 + 8 * p), OrderOf(p);
    RootPositive(1 + 8 * p);
    SquareMonotone(2 * n + 1, r);
    SquareMonotone(r + 1, 2 * n + 3);
    OddSquares(n);
  }

  lemma RootPositive(x: nat)
    requires x > 0
    ensures SquareRoot(x) > 0
  {
  }

  lemma SquareMonotone(a: nat, b: nat)
    requires a <= b
    ensures a * a <= b * b
  {
    assert a * a <= a * b <= b * b;
  }

  lemma OddSquares(n: nat)
    ensures (2 * n + 1) * (2 * n + 1) == 4 * (n * (n + 1)) + 1
    ensures (2 * n + 3) * (2 * n + 3) == 4 * ((n + 1) * (n + 2)) + 1
  {
  }

  lemma BandMonotone(a: nat, b: nat)
    requires a <= b
    ensures a * (a + 1) <= b * (b + 1)
  {
    SquareMonotone(a, b);
  }

  /** Only one order has p in its band. */
  lemma OrderUnique(p: nat, n: nat, k: nat)
    requires n * (n + 1) <= 2 * p < (n + 1) * (n + 2)
    requires k * (k + 1) <= 2 * p < (k + 1) * (k + 2)
    ensures n == k
  {
    if n < k { BandMonotone(n + 1, k); }
    if k < n { BandMonotone(k + 1, n); }
  }

  lemma {:induction false} EvenProduct(n: nat)
    ensures (n * (n + 1)) % 2 == 0
  {
    if n > 0 {
      EvenProduct(n - 1);
      assert n * (n + 1) == (n - 1) * n + 2 * n;
    }
  }

  lemma FromBand(p: nat, n: nat, s: nat, q: nat, m: int)
    requires s == n * (n + 1) && q == n * n && s % 2 == 0 && m == 2 * p - s - n
    requires s <= 2 * p < (n + 1) * (n + 2)
    ensures Legal(n, m) && (q + 2 * n + m) / 2 == p
  {
    BandEnds(n);
    FromBounds(p, n, s, q, m);
  }

  lemma BandEnds(n: nat)
    ensures (n + 1) * (n + 2) == n * (n + 1) + 2 * n + 2 && n * (n + 1) == n * n + n
  {
  }

  lemma FromBounds(p: nat, n: nat, s: nat, q: nat, m: int)
    requires s == q + n && s % 2 == 0 && m == 2 * p - s - n && s <= 2 * p < s + 2 * n + 2
    ensures Legal(n, m) && (q + 2 * n + m) / 2 == p
  {
  }

  /** Every index stands for a legal pair of orders, and converting back finds it again. */
  lemma IndexToOrders(p: nat)
    ensures var (n, m) := ConvertIndex(p); Legal(n, m) && IndexOf(n, m) == p
  {
    var n := OrderOf(p);
    var m := 2 * p - n * (n + 1) - n;
    OrderBounds(p);
    EvenProduct(n);
    FromBand(p, n, n * (n + 1), n * n, m);
  }

  /** Every legal pair of orders has an index, and converting it gives the pair again. */
  lemma OrdersToIndex(n: nat, m: int)
    requires Legal(n, m)
    ensures IndexOf(n, m) >= 0 && ConvertIndex(IndexOf(n, m)) == (n, m)
  {
    EvenProduct(n);
    var s := n * (n + 1);
    assert n * n + 2 * n + m == s + (n + m);
    assert (n + m) % 2 == 0;
    var p := IndexOf(n, m);
    assert 2 * p == s + (n + m);
    assert (n + 1) * (n + 2) == s + 2 * n + 2;
    OrderBounds(p);
    OrderUnique(p, n, OrderOf(p));
  }

  /** The indexes run through the orders n, and for each n through m = -n, -n + 2, ..., n. */
  lemma IndexSuccessor(p: nat)
    ensures ConvertIndex(0) == (0, 0)
    ensures var (n, m) := ConvertIndex(p);
            ConvertIndex(p + 1) == if m < n then (n, m + 2) else (n + 1, -(n + 1))
  {
    hide ConvertIndex;
    OrdersToIndex(0, 0);
    assert IndexOf(0, 0) == 0;
    var n, m := ConvertIndex(p).0, ConvertIndex(p).1;
    IndexToOrders(p);
    if m < n {
      OrdersToIndex(n, m + 2);
    } else {
      LastOfOrder(n);
      OrdersToIndex(n + 1, -(n + 1));
    }
  }

  lemma LastOfOrder(n: nat)
    ensures IndexOf(n + 1, -(n + 1)) == IndexOf(n, n) + 1 && Legal(n + 1, -(n + 1))
  {
    assert (n + 1) * (n + 1) == n * n + 2 * n + 1;
  }

  /** Two indices never share their orders. */
  lemma IndexInjective(p: nat, q: nat)
    requires ConvertIndex(p) == ConvertIndex(q)
    ensures p == q
  {
    IndexToOrders(p);
    IndexToOrders(q);
  }

  /** The gradient conversion reads the coefficient of the polynomial two orders up. */
  lemma GradientPartnerIs(p: nat)
    ensures var (n, m) := ConvertIndex(p);
            && GradientPartner(n, m) == IndexOf(n + 2, m) > p
            && ConvertIndex(GradientPartner(n, m)) == (n + 2, m)
  {
    hide ConvertIndex, IndexOf, GradientPartner;
    var n, m := ConvertIndex(p).0, ConvertIndex(p).1;
    IndexToOrders(p);
    TwoOrdersUp(n, m);
    OrdersToIndex(n + 2, m);
  }

  lemma TwoOrdersUp(n: int, m: int)
    requires Legal(n, m)
    ensures Legal(n + 2, m) && GradientPartner(n, m) == IndexOf(n + 2, m) == IndexOf(n, m) + 2 * n + 4
  {
    var q := n * n;
    assert (n + 2) * (n + 4) == q + 6 * n + 8;
    assert (n + 2) * (n + 2) == q + 4 * n + 4;
  }
}
