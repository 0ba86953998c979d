/** The multiples of a point of known order: which are infinity, which are equal and which share an x-coordinate. */
module Orders {
  import opened Arith
  import opened Modular
  import opened Field
  import opened Curves
  import opened Scalar
  import opened LadderSteps

  /** Multiples depend on the factor modulo the order only. */
  lemma {:induction false} Periodic(i: nat, q: nat, n: nat, P: Point, c: Curve)
    requires GroupLaw(c) && OnCurve(P, c) && c.p > 0 && OrderIs(n, P, c)
    ensures Times(i + q * n, P, c) == Times(i, P, c)
  {
    hide Plus, GroupLaw, Times, OnCurve, OrderIs;
    if q > 0 {
      Periodic(i, q - 1, n, P, c);
      MorePeriods(i, q, n);
      TimesAdd(i + (q - 1) * n, n, P, c);
      AddInfinity(Times(i, P, c), c);
      OrderMeans(n, P, c);
    }
  }

  lemma MorePeriods(i: nat, q: nat, n: nat)
    requires q > 0
    ensures (q - 1) * n >= 0 && i + (q - 1) * n + n == i + q * n
  {
    Distribute(q - 1, 1, n);
  }

  lemma OrderMeans(n: nat, P: Point, c: Curve)
    requires c.p > 0 && OrderIs(n, P, c)
    ensures n > 0 && Times(n, P, c) == Infinity
  {}

  lemma NotInfinity(k: nat, n: nat, P: Point, c: Curve)
    requires c.p > 0 && OrderIs(n, P, c) && 0 < k < n
    ensures Times(k, P, c) != Infinity
  {
    hide Times;
  }

  lemma CongruentMultiples(i: nat, j: nat, n: nat, P: Point, c: Curve)
    requires GroupLaw(c) && OnCurve(P, c) && c.p > 0 && OrderIs(n, P, c) && n > 0 && Cong(i, j, n)
    ensures Times(i, P, c) == Times(j, P, c)
  {
    hide Plus, GroupLaw, Times, OnCurve, OrderIs, Cong;
    var k := CongWitness(i, j, n);
    if k >= 0 {
      Periodic(j, k, n, P, c);
    } else {
      assert j == i + -k * n;
      Periodic(i, -k, n, P, c);
    }
  }

  /** The order divides exactly the factors whose multiples are infinity. */
  lemma InfinityIff(j: nat, n: nat, P: Point, c: Curve)
    requires GroupLaw(c) && OnCurve(P, c) && c.p > 0 && OrderIs(n, P, c)
    ensures n > 0 && (Times(j, P, c) == Infinity <==> Divides(n, j))
  {
    hide Plus, GroupLaw, Times, OnCurve, OrderIs, Cong;
    OrderMeans(n, P, c);
    CongMod(j, n);
    CongruentMultiples(j, j % n, n, P, c);
    if j % n == 0 {
      TimesStep(0, P, c);
    } else {
      NotInfinity(j % n, n, P, c);
    }
  }

  lemma Multiples(i: nat, j: nat, P: Point, c: Curve)
    requires GroupLaw(c) && OnCurve(P, c)
    ensures c.p > 3 && ValidCurve(c) && OnCurve(Times(i, P, c), c) && OnCurve(Times(j, P, c), c)
    ensures Plus(Times(i, P, c), Times(j, P, c), c) == Times(i + j, P, c)
  {
    hide Plus, GroupLaw, Times, OnCurve;
    GroupIsValid(c);
    TimesOnCurve(i, P, c);
    TimesOnCurve(j, P, c);
    TimesAdd(i, j, P, c);
  }

  /** Equal multiples have factors that differ by a multiple of the order. */
  lemma EqualMultiples(i: nat, j: nat, n: nat, P: Point, c: Curve)
    requires GroupLaw(c) && OnCurve(P, c) && c.p > 0 && OrderIs(n, P, c) && i <= j && Times(i, P, c) == Times(j, P, c)
    ensures n > 0 && Divides(n, j - i)
  {
    hide Plus, GroupLaw, Times, OnCurve, OrderIs, Neg;
    Difference(i, j - i, P, c);
    Multiples(i, j, P, c);
    AddNeg(Times(i, P, c), c);
    InfinityIff(j - i, n, P, c);
  }

  lemma DividesNegated(d: int, a: int)
    requires d > 0 && Divides(d, a)
    ensures Divides(d, -a)
  {
    var k := DivisionOf(a, d);
    assert -a == -k * d;
    DividesMultiple(-k, d);
  }

  /** Two multiples share an x-coordinate exactly if the factors are equal or opposite modulo the order. */
  lemma SameXIff(i: nat, j: nat, n: nat, P: Point, c: Curve)
    requires GroupLaw(c) && OnCurve(P, c) && c.p > 0 && OrderIs(n, P, c)
    requires Times(i, P, c).Affine? && Times(j, P, c).Affine?
    ensures n > 0 && (Times(i, P, c).x == Times(j, P, c).x <==> Divides(n, i - j) || Divides(n, i + j))
  {
    hide Plus, GroupLaw, Times, OnCurve, OrderIs, Divides, FAdd;
    Multiples(i, j, P, c);
    InfinityIff(i + j, n, P, c);
    if Times(i, P, c).x == Times(j, P, c).x {
      SharedX(i, j, n, P, c);
    }
    if Divides(n, i - j) {
      CongIs(i, j, n);
      CongruentMultiples(i, j, n, P, c);
    }
    if Divides(n, i + j) {
      OppositeX(Times(i, P, c), Times(j, P, c), c);
    }
  }

  lemma OppositeX(S: Point, T: Point, c: Curve)
    requires GroupLaw(c) && OnCurve(S, c) && OnCurve(T, c) && c.p > 0 && Plus(S, T, c) == Infinity && S.Affine? && T.Affine?
    ensures S.x == T.x
  {
    hide Plus, GroupLaw, OnCurve;
    OppositeIs(S, T, c);
  }

  lemma SharedX(i: nat, j: nat, n: nat, P: Point, c: Curve)
    requires GroupLaw(c) && OnCurve(P, c) && c.p > 0 && OrderIs(n, P, c)
    requires Times(i, P, c).Affine? && Times(j, P, c).Affine? && Times(i, P, c).x == Times(j, P, c).x
    ensures n > 0 && (Divides(n, i - j) || Divides(n, i + j))
  {
    hide Plus, GroupLaw, Times, OnCurve, OrderIs, Divides, FAdd;
    Multiples(i, j, P, c);
    InfinityIff(i + j, n, P, c);
    var S, T := Times(i, P, c), Times(j, P, c);
    SameX(S.x, S.y, T.y, c);
    OppositeSum(S, T, c);
    if S.y == T.y {
      if i <= j {
        EqualMultiples(i, j, n, P, c);
        DividesNegated(n, j - i);
      } else {
        EqualMultiples(j, i, n, P, c);
      }
    }
  }

  /** Doubling t P and adding s P meets no exceptional point. */
  ghost predicate AdditionClear(T: Point, S: Point, c: Curve)
    requires c.p > 0
  {
    && T.Affine? && T.y != 0
    && (S != Infinity ==> var D := Plus(T, T, c); S.Affine? && D.Affine? && D.x != S.x)
  }

  /** The same condition on the factors. */
  predicate FactorsClear(t: nat, s: nat, n: nat)
    requires n > 0
  {
    !Divides(n, t) && (Divides(n, s) || (!Divides(n, 2 * t - s) && !Divides(n, 2 * t + s)))
  }

  lemma DoubleOrder(t: nat, n: nat, P: Point, c: Curve)
    requires GroupLaw(c) && OnCurve(P, c) && c.p > 0 && OrderIs(n, P, c) && n % 2 == 1
    ensures n > 0 && (Divides(n, 2 * t) <==> Divides(n, t))
  {
    OrderMeans(n, P, c);
    if Divides(n, 2 * t) {
      CancelTwo(t, n);
    }
    if Divides(n, t) {
      DividesProduct(n, t, 2);
      assert t * 2 == 2 * t;
    }
  }

  lemma FlatDouble(T: Point, c: Curve)
    requires c.p > 0 && T.Affine? && T.y == 0
    ensures Plus(T, T, c) == Infinity
  {
    QuotientIs(0, c.p, 0, 0);
  }

  /** The round of a double-and-add is clear exactly if its factors are. */
  lemma AdditionClearIff(t: nat, s: nat, n: nat, P: Point, c: Curve)
    requires GroupLaw(c) && OnCurve(P, c) && c.p > 0 && OrderIs(n, P, c) && n % 2 == 1
    ensures n > 0 && (AdditionClear(Times(t, P, c), Times(s, P, c), c) <==> FactorsClear(t, s, n))
  {
    hide Plus, GroupLaw, Times, OnCurve, OrderIs, Divides;
    var T := Times(t, P, c);
    InfinityIff(t, n, P, c);
    InfinityIff(s, n, P, c);
    InfinityIff(2 * t, n, P, c);
    DoubleOrder(t, n, P, c);
    Multiples(t, t, P, c);
    assert t + t == 2 * t;
    if T.Affine? {
      if T.y == 0 {
        FlatDouble(T, c);
      }
      if Times(s, P, c).Affine? {
        SameXIff(2 * t, s, n, P, c);
      }
    }
  }
}
