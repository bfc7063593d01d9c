/** The abelian group G1 and its scalar field, as far as the protocols use them.

    A group is a record of operations.  Its laws are kept behind one predicate each
    (`AssocAt`, `CommAt`, ...), so that a proof names the instance it needs and the solver
    never rewrites sums on its own. */
module PrimeGroup {

  datatype Group<!P> = Group(order: nat, zero: P, add: (P, P) -> P, neg: P -> P)

  ghost predicate AssocAt<P>(g: Group<P>, a: P, b: P, c: P) {
    g.add(g.add(a, b), c) == g.add(a, g.add(b, c))
  }

  ghost predicate CommAt<P>(g: Group<P>, a: P, b: P) { g.add(a, b) == g.add(b, a) }

  ghost predicate UnitAt<P>(g: Group<P>, a: P) { g.add(g.zero, a) == a }

  ghost predicate InverseAt<P>(g: Group<P>, a: P) { g.add(a, g.neg(a)) == g.zero }

  ghost predicate TorsionAt<P>(g: Group<P>, a: P) { Mul(g, g.order, a) == g.zero }

  predicate Divides(d: int, n: int) requires d != 0 { n % d == 0 }

  ghost predicate Prime(n: nat) { n > 1 && forall d :: 1 < d < n ==> !Divides(d, n) }

  /** An abelian group in which the prime `order` annihilates every element. */
  ghost predicate IsGroup<P(!new)>(g: Group<P>) {
    && Prime(g.order)
    && (forall a, b, c :: AssocAt(g, a, b, c))
    && (forall a, b :: CommAt(g, a, b))
    && (forall a :: UnitAt(g, a))
    && (forall a :: InverseAt(g, a))
    && (forall a :: TorsionAt(g, a))
  }

  function Sub<P>(g: Group<P>, a: P, b: P): P { g.add(a, g.neg(b)) }

  /** `n` copies of `p` added up: multiplication by a plain big integer. */
  function Mul<P>(g: Group<P>, n: nat, p: P): P {
    if n == 0 then g.zero else g.add(p, Mul(g, n - 1, p))
  }

  /** Multiplication by a field element, through its representative below the order. */
  function Times<P>(g: Group<P>, k: int, p: P): P
    requires g.order > 0
  {
    Mul(g, k % g.order, p)
  }

  /** Multi-scalar multiplication; surplus bases or scalars are ignored. */
  function Msm<P>(g: Group<P>, bases: seq<P>, scalars: seq<int>): P
    requires g.order > 0
  {
    if bases == [] || scalars == [] then g.zero
    else g.add(Times(g, scalars[0], bases[0]), Msm(g, bases[1..], scalars[1..]))
  }

  // ---------------------------------------------------------------- additive laws

  lemma Swap<P(!new)>(g: Group<P>, a: P, b: P, c: P, d: P)
    requires IsGroup(g)
    ensures g.add(g.add(a, b), g.add(c, d)) == g.add(g.add(a, c), g.add(b, d))
  {
    assert AssocAt(g, a, b, g.add(c, d));
    assert AssocAt(g, b, c, d) && CommAt(g, b, c) && AssocAt(g, c, b, d);
    assert AssocAt(g, a, c, g.add(b, d));
  }

  lemma Units<P(!new)>(g: Group<P>, a: P)
    requires IsGroup(g)
    ensures g.add(g.zero, a) == a && g.add(a, g.zero) == a
    ensures g.add(a, g.neg(a)) == g.zero && g.add(g.neg(a), a) == g.zero
  {
    assert UnitAt(g, a) && CommAt(g, a, g.zero) && InverseAt(g, a) && CommAt(g, a, g.neg(a));
  }

  lemma Cancel<P(!new)>(g: Group<P>, a: P, b: P, c: P)
    requires IsGroup(g)
    ensures g.add(a, b) == g.add(a, c) <==> b == c
  {
    if g.add(a, b) == g.add(a, c) {
      assert AssocAt(g, g.neg(a), a, b) && AssocAt(g, g.neg(a), a, c);
      Units(g, a);
      Units(g, b);
      Units(g, c);
    }
  }

  /** Moving a term across an equation. */
  lemma Transpose<P(!new)>(g: Group<P>, a: P, b: P, c: P)
    requires IsGroup(g)
    ensures Sub(g, a, b) == c <==> a == g.add(b, c)
  {
    assert AssocAt(g, a, g.neg(b), b) && AssocAt(g, g.add(b, c), g.neg(b), b);
    assert CommAt(g, b, c) && AssocAt(g, c, b, g.neg(b));
    Units(g, a);
    Units(g, b);
    Units(g, c);
    if Sub(g, a, b) == c {
      assert g.add(c, b) == a;
    }
  }

  lemma NegUnique<P(!new)>(g: Group<P>, a: P, b: P)
    requires IsGroup(g) && g.add(a, b) == g.zero
    ensures b == g.neg(a)
  {
    Units(g, a);
    Cancel(g, a, b, g.neg(a));
  }

  lemma NegAdd<P(!new)>(g: Group<P>, a: P, b: P)
    requires IsGroup(g)
    ensures g.neg(g.add(a, b)) == g.add(g.neg(a), g.neg(b))
  {
    Swap(g, a, b, g.neg(a), g.neg(b));
    Units(g, a);
    Units(g, b);
    Units(g, g.zero);
    NegUnique(g, g.add(a, b), g.add(g.neg(a), g.neg(b)));
  }

  // ---------------------------------------------------------------- integer multiples

  lemma {:induction false} MulAdd<P(!new)>(g: Group<P>, m: nat, n: nat, p: P)
    requires IsGroup(g)
    ensures Mul(g, m + n, p) == g.add(Mul(g, m, p), Mul(g, n, p))
  {
    if m == 0 {
      Units(g, Mul(g, n, p));
    } else {
      MulAdd(g, m - 1, n, p);
      assert AssocAt(g, p, Mul(g, m - 1, p), Mul(g, n, p));
    }
  }

  lemma {:induction false} MulZero<P(!new)>(g: Group<P>, n: nat)
    requires IsGroup(g)
    ensures Mul(g, n, g.zero) == g.zero
  {
    Units(g, g.zero);
    if n > 0 {
      MulZero(g, n - 1);
    }
  }

  lemma {:induction false} MulMul<P(!new)>(g: Group<P>, m: nat, n: nat, p: P)
    requires IsGroup(g)
    ensures Mul(g, m * n, p) == Mul(g, m, Mul(g, n, p))
  {
    if m > 0 {
      MulMul(g, m - 1, n, p);
      assert m * n == n + (m - 1) * n;
      MulAdd(g, n, (m - 1) * n, p);
    }
  }

  lemma {:induction false} MulOverAdd<P(!new)>(g: Group<P>, n: nat, p: P, q: P)
    requires IsGroup(g)
    ensures Mul(g, n, g.add(p, q)) == g.add(Mul(g, n, p), Mul(g, n, q))
  {
    if n == 0 {
      Units(g, g.zero);
    } else {
      MulOverAdd(g, n - 1, p, q);
      Swap(g, p, q, Mul(g, n - 1, p), Mul(g, n - 1, q));
    }
  }

  lemma MulDropsOrder<P(!new)>(g: Group<P>, n: nat, q: nat, k: nat, p: P)
    requires IsGroup(g) && n == q * g.order + k
    ensures Mul(g, n, p) == Mul(g, k, p)
  {
    MulAdd(g, q * g.order, k, p);
    MulMul(g, q, g.order, p);
    assert TorsionAt(g, p);
    MulZero(g, q);
    Units(g, Mul(g, k, p));
  }

  lemma DivMod(n: int, r: nat)
    requires r > 0
    ensures n == n / r * r + n % r
  {
  }

  lemma MulReduces<P(!new)>(g: Group<P>, n: nat, p: P)
    requires IsGroup(g)
    ensures Mul(g, n, p) == Times(g, n, p)
  {
    DivMod(n, g.order);
    MulDropsOrder(g, n, n / g.order, n % g.order, p);
  }

  // ---------------------------------------------------------------- field multiples

  lemma SameResidue(a: int, b: int, k: int, r: nat)
    requires r > 0 && a == b + k * r
    ensures a % r == b % r
  {
    var q := b / r;
    assert b == q * r + b % r;
    assert a == (q + k) * r + b % r by {
      assert (q + k) * r == q * r + k * r;
    }
    UniqueResidue(a, q + k, b % r, r);
  }

  lemma AtLeastOnce(q: int, r: nat)
    requires q >= 1
    ensures q * r >= r
  {
  }

  lemma UniqueResidue(a: int, q: int, k: int, r: nat)
    requires r > 0 && a == q * r + k && 0 <= k < r
    ensures a % r == k
  {
    var q' := a / r;
    DivMod(a, r);
    assert (q - q') * r == a % r - k && (q' - q) * r == k - a % r;
    if q > q' {
      AtLeastOnce(q - q', r);
    } else if q < q' {
      AtLeastOnce(q' - q, r);
    }
  }

  lemma ResidueOfSum(j: int, k: int, r: nat)
    requires r > 0
    ensures (j + k) % r == (j % r + k % r) % r
  {
    DivMod(j, r);
    DivMod(k, r);
    assert (j / r + k / r) * r == j / r * r + k / r * r;
    SameResidue(j + k, j % r + k % r, j / r + k / r, r);
  }

  lemma TimesAdd<P(!new)>(g: Group<P>, j: int, k: int, p: P)
    requires IsGroup(g)
    ensures Times(g, j + k, p) == g.add(Times(g, j, p), Times(g, k, p))
  {
    var a: nat, b: nat := j % g.order, k % g.order;
    MulAdd(g, a, b, p);
    MulReduces(g, a + b, p);
    ResidueOfSum(j, k, g.order);
  }

  lemma ResidueOfProduct(j: int, k: int, r: nat)
    requires r > 0
    ensures (j * k) % r == (j % r * (k % r)) % r
  {
    var a, b := j % r, k % r;
    var x, y := j / r, k / r;
    assert j == x * r + a && k == y * r + b;
    calc {
      j * k;
      (x * r + a) * k;
      x * r * k + a * (y * r + b);
      x * r * k + a * (y * r) + a * b;
      { assert x * r * k == x * k * r && a * (y * r) == a * y * r; }
      (x * k + a * y) * r + a * b;
    }
    SameResidue(j * k, a * b, x * k + a * y, r);
  }

  lemma TimesTimes<P(!new)>(g: Group<P>, j: int, k: int, p: P)
    requires IsGroup(g)
    ensures Times(g, j * k, p) == Times(g, j, Times(g, k, p))
  {
    var a: nat, b: nat := j % g.order, k % g.order;
    MulMul(g, a, b, p);
    MulReduces(g, a * b, p);
    ResidueOfProduct(j, k, g.order);
  }

  lemma TimesOverAdd<P(!new)>(g: Group<P>, k: int, p: P, q: P)
    requires IsGroup(g)
    ensures Times(g, k, g.add(p, q)) == g.add(Times(g, k, p), Times(g, k, q))
  {
    MulOverAdd(g, k % g.order, p, q);
  }

  lemma TimesSmall<P(!new)>(g: Group<P>, p: P)
    requires IsGroup(g)
    ensures Times(g, 0, p) == g.zero
    ensures Times(g, 1, p) == p
    ensures Times(g, -1, p) == g.neg(p)
  {
    assert 1 % g.order == 1;
    assert Mul(g, 1, p) == g.add(p, Mul(g, 0, p));
    Units(g, p);
    TimesAdd(g, 1, -1, p);
    NegUnique(g, p, Times(g, -1, p));
  }

  lemma TimesNeg<P(!new)>(g: Group<P>, k: int, p: P)
    requires IsGroup(g)
    ensures Times(g, -k, p) == g.neg(Times(g, k, p)) == Times(g, k, g.neg(p))
  {
    TimesTimes(g, -1, k, p);
    TimesTimes(g, k, -1, p);
    TimesSmall(g, Times(g, k, p));
    TimesSmall(g, p);
    assert -1 * k == -k && k * -1 == -k;
  }

  lemma TimesZeroPoint<P(!new)>(g: Group<P>, k: int)
    requires IsGroup(g)
    ensures Times(g, k, g.zero) == g.zero
  {
    MulZero(g, k % g.order);
  }

  /** A scalar times a difference. */
  lemma TimesSub<P(!new)>(g: Group<P>, j: int, k: int, p: P)
    requires IsGroup(g)
    ensures Times(g, j - k, p) == Sub(g, Times(g, j, p), Times(g, k, p))
  {
    TimesAdd(g, j, -k, p);
    TimesNeg(g, k, p);
  }

  // ---------------------------------------------------------------- inverses in the field

  /** Extended Euclid: the greatest common divisor with its two cofactors. */
  function Bezout(a: nat, b: nat): (res: (nat, int, int))
    requires a > 0
    ensures res.0 > 0 && Divides(res.0, a) && Divides(res.0, b)
    ensures a * res.1 + b * res.2 == res.0
    decreases b
  {
    if b == 0 then (a, 1, 0)
    else
      var (d, x, y) := Bezout(b, a % b);
      BezoutStep(a, b, d, x, y);
      (d, y, x - a / b * y)
  }

  lemma BezoutStep(a: nat, b: nat, d: nat, x: int, y: int)
    requires b > 0 && d > 0 && Divides(d, b) && Divides(d, a % b) && b * x + a % b * y == d
    ensures Divides(d, a) && a * y + b * (x - a / b * y) == d
  {
    var q, k := a / b, a % b;
    DivMod(a, b);
    calc {
      a * y + b * (x - q * y);
      { assert b * (x - q * y) == b * x - q * b * y; }
      a * y + b * x - q * b * y;
      { assert a * y - q * b * y == (a - q * b) * y; }
      b * x + k * y;
    }
    DividesCombination(d, b, k, q);
  }

  lemma DividesCombination(d: nat, b: int, k: int, q: int)
    requires d > 0 && Divides(d, b) && Divides(d, k)
    ensures Divides(d, q * b + k)
  {
    var u, v := b / d, k / d;
    assert b == u * d && k == v * d;
    assert q * b + k == 0 + (q * u + v) * d by {
      assert q * (u * d) == q * u * d;
      assert (q * u + v) * d == q * u * d + v * d;
    }
    SameResidue(q * b + k, 0, q * u + v, d);
  }

  lemma SmallResidue(k: nat, r: nat)
    requires k < r
    ensures k % r == k
  {
  }

  lemma InverseFromBezout(a: int, u: nat, x: int, k: nat, r: nat)
    requires 1 < r && u == a % r && k == x % r && (u * x) % r == 1
    ensures k > 0 && (a * k) % r == 1
  {
    SmallResidue(u, r);
    SmallResidue(k, r);
    ResidueOfProduct(u, x, r);
    ResidueOfProduct(a, k, r);
    assert (a * k) % r == 1;
    assert k != 0;
  }

  lemma CoprimeToPrime(u: nat, r: nat)
    requires Prime(r) && 0 < u < r
    ensures Bezout(u, r).0 == 1
  {
    var d := Bezout(u, r).0;
    DivisorBound(d, u);
    assert Divides(d, r);
  }

  lemma DivisorBound(d: nat, u: nat)
    requires d > 0 && u > 0 && Divides(d, u)
    ensures d <= u
  {
  }

  lemma BezoutResidue(u: int, x: int, y: int, r: nat)
    requires r > 1 && u * x + r * y == 1
    ensures (u * x) % r == 1
  {
    assert (-y) * r == -(r * y);
    SameResidue(u * x, 1, -y, r);
    SmallResidue(1, r);
  }

  lemma InverseWorks(a: int, u: nat, r: nat)
    requires Prime(r) && u == a % r && u != 0
    ensures 0 < Bezout(u, r).1 % r < r && (a * (Bezout(u, r).1 % r)) % r == 1
  {
    CoprimeToPrime(u, r);
    var (d, x, y) := Bezout(u, r);
    BezoutResidue(u, x, y, r);
    InverseFromBezout(a, u, x, x % r, r);
  }

  /** The inverse of a field element: every element that is not a multiple of the prime order has one. */
  function Inverse(a: int, r: nat): (k: nat)
    requires Prime(r) && a % r != 0
    ensures 0 < k < r && (a * k) % r == 1
  {
    InverseWorks(a, a % r, r);
    Bezout(a % r, r).1 % r
  }

  lemma TimesResidueOne<P(!new)>(g: Group<P>, m: int, p: P)
    requires IsGroup(g) && m % g.order == 1
    ensures Times(g, m, p) == p
  {
    assert Mul(g, 1, p) == g.add(p, Mul(g, 0, p));
    Units(g, p);
  }

  lemma UndoTimes<P(!new)>(g: Group<P>, a: int, k: int, p: P)
    requires IsGroup(g) && (a * k) % g.order == 1
    ensures Times(g, k, Times(g, a, p)) == p
  {
    TimesTimes(g, k, a, p);
    assert k * a == a * k;
    TimesResidueOne(g, a * k, p);
  }

  /** In a group of prime order only multiples of the order annihilate a non-identity point. */
  lemma OnlyOrderAnnihilates<P(!new)>(g: Group<P>, k: int, p: P)
    requires IsGroup(g) && p != g.zero
    ensures Times(g, k, p) == g.zero <==> k % g.order == 0
  {
    if k % g.order != 0 && Times(g, k, p) == g.zero {
      var i := Inverse(k, g.order);
      UndoTimes(g, k, i, p);
      TimesZeroPoint(g, i);
    }
  }

  /** Scalar multiplication of a non-identity point is injective on field elements. */
  lemma TimesInjective<P(!new)>(g: Group<P>, j: int, k: int, p: P)
    requires IsGroup(g) && p != g.zero
    ensures Times(g, j, p) == Times(g, k, p) <==> j % g.order == k % g.order
  {
    if Times(g, j, p) == Times(g, k, p) {
      TimesSub(g, j, k, p);
      Units(g, Times(g, k, p));
      OnlyOrderAnnihilates(g, j - k, p);
      var r := g.order;
      assert j - k == (j - k) / r * r;
      SameResidue(j, k, (j - k) / r, r);
    }
  }
}
