/** The order of a nonzero element divides P - 1, and its power P - 1 is 1: the powers of
    the element cut the nonzero residues into classes of that size. */
module Fermat {

  import opened M31
  import opened Primality

  lemma PowAdd(a: Fp, m: nat, n: nat)
    ensures Pow(a, m + n) == Mul(Pow(a, m), Pow(a, n))
  {
    hide Mul;
    if m == 0 {
      MulOne(Pow(a, n));
    } else {
      PowAdd(a, m - 1, n);
      MulAssoc(a, Pow(a, m - 1), Pow(a, n));
    }
  }

  lemma PowNonzero(a: Fp, n: nat)
    requires a != 0
    ensures Pow(a, n) != 0
  {
    hide Mul;
    if n > 0 {
      PowNonzero(a, n - 1);
      ZeroProduct(a, Pow(a, n - 1));
    }
  }

  lemma Cancel(a: Fp, b: Fp, c: Fp)
    requires a != 0 && Mul(a, b) == Mul(a, c)
    ensures b == c
  {
    hide Mul, Sub;
    MulSub(a, b, c);
    SubZero(Mul(a, b), Mul(a, c));
    SubZero(b, c);
    NoZeroDivisors(a, Sub(b, c));
  }

  /** d is the order of a. */
  ghost predicate IsOrder(a: Fp, d: nat) {
    d > 0 && Pow(a, d) == 1 && forall i: nat :: 0 < i < d ==> Pow(a, i) != 1
  }

  lemma OrderExists(a: Fp) returns (d: nat)
    requires a != 0
    ensures IsOrder(a, d)
  {
    hide Mul;
    Pigeonhole((k: nat) => Pow(a, k), P + 1, P);
    var f: nat -> nat := (k: nat) => Pow(a, k);
    var i: nat, j: nat :| i < j < P + 1 && f(i) == f(j);
    PowAdd(a, i, j - i);
    PowNonzero(a, i);
    MulOne(Pow(a, i));
    Cancel(Pow(a, i), 1, Pow(a, j - i));
    d := LeastOrder(a, 1, j - i);
  }

  lemma LeastOrder(a: Fp, from: nat, n: nat) returns (d: nat)
    requires 0 < from <= n && Pow(a, n) == 1
    requires forall i: nat :: 0 < i < from ==> Pow(a, i) != 1
    ensures IsOrder(a, d)
    decreases n - from
  {
    hide Mul;
    if Pow(a, from) == 1 {
      d := from;
    } else {
      d := LeastOrder(a, from + 1, n);
    }
  }

  // ---- Classes ----

  /** x times the first n powers of a. */
  ghost function Class(a: Fp, x: Fp, n: nat): set<Fp> {
    set i: nat | i < n :: Mul(x, Pow(a, i))
  }

  ghost predicate Closed(a: Fp, s: set<Fp>) {
    && 0 !in s
    && forall x, i: nat :: x in s ==> Mul(x, Pow(a, i)) in s
  }

  lemma {:induction false} ClassSize(a: Fp, x: Fp, d: nat, n: nat)
    requires a != 0 && x != 0 && IsOrder(a, d) && n <= d
    ensures |Class(a, x, n)| == n
  {
    hide Mul, Pow, IsOrder;
    if n > 0 {
      ClassSize(a, x, d, n - 1);
      var last := Mul(x, Pow(a, n - 1));
      assert Class(a, x, n) == Class(a, x, n - 1) + {last};
      forall i: nat | i < n - 1
        ensures Mul(x, Pow(a, i)) != last
      {
        if Mul(x, Pow(a, i)) == last {
          Cancel(x, Pow(a, i), Pow(a, n - 1));
          PowersDiffer(a, d, i, n - 1);
        }
      }
    }
  }

  lemma PowersDiffer(a: Fp, d: nat, i: nat, j: nat)
    requires a != 0 && IsOrder(a, d) && i < j < d
    ensures Pow(a, i) != Pow(a, j)
  {
    hide Mul;
    if Pow(a, i) == Pow(a, j) {
      PowAdd(a, i, j - i);
      PowNonzero(a, i);
      MulOne(Pow(a, i));
      Cancel(Pow(a, i), 1, Pow(a, j - i));
    }
  }

  /** Removing the class of an element leaves a closed set. */
  lemma ClassRemoved(a: Fp, d: nat, s: set<Fp>, x: Fp)
    requires a != 0 && IsOrder(a, d) && Closed(a, s) && x in s
    ensures Class(a, x, d) <= s && Closed(a, s - Class(a, x, d))
  {
    hide Mul, Pow, IsOrder;
    var c := Class(a, x, d);
    forall y, i: nat | y in s - c
      ensures Mul(y, Pow(a, i)) in s - c
    {
      if Mul(y, Pow(a, i)) in c {
        var j: nat :| j < d && Mul(y, Pow(a, i)) == Mul(x, Pow(a, j));
        ClassContains(a, d, x, y, i, j);
        assert false;
      }
    }
  }

  /** y a^i == x a^j puts y in the class of x: y is x a^(j + e) with i + e a multiple of
      the order. */
  lemma ClassContains(a: Fp, d: nat, x: Fp, y: Fp, i: nat, j: nat)
    requires a != 0 && IsOrder(a, d) && Mul(y, Pow(a, i)) == Mul(x, Pow(a, j))
    ensures y in Class(a, x, d)
  {
    hide Mul, Class, Pow;
    var e := i * (d - 1);
    MultipleBelow(i, d);
    PowOfOrder(a, d, i);
    PowAdd(a, i, e);
    MulAssoc(y, Pow(a, i), Pow(a, e));
    MulOne(y);
    MulAssoc(x, Pow(a, j), Pow(a, e));
    PowAdd(a, j, e);
    PowModulo(a, d, j + e);
    InClass(a, x, d, (j + e) % d);
  }

  lemma MultipleBelow(i: nat, d: nat)
    requires d > 0
    ensures i * (d - 1) >= 0 && i + i * (d - 1) == i * d
  {
  }

  lemma InClass(a: Fp, x: Fp, n: nat, i: nat)
    requires i < n
    ensures Mul(x, Pow(a, i)) in Class(a, x, n)
  {
    hide Mul, Pow;
  }

  lemma {:induction false} PowOfOrder(a: Fp, d: nat, k: nat)
    requires Pow(a, d) == 1
    ensures Pow(a, k * d) == 1
  {
    hide Mul;
    if k > 0 {
      PowOfOrder(a, d, k - 1);
      assert k * d == (k - 1) * d + d;
      PowAdd(a, (k - 1) * d, d);
      MulOne(1);
    } else {
      assert k * d == 0;
    }
  }

  lemma PowModulo(a: Fp, d: nat, n: nat)
    requires d > 0 && Pow(a, d) == 1
    ensures Pow(a, n) == Pow(a, n % d)
  {
    hide Mul, Pow;
    var k := n / d;
    PowOfOrder(a, d, k);
    assert n == k * d + n % d && k * d >= 0;
    PowAdd(a, k * d, n % d);
    MulOne(Pow(a, n % d));
  }

  lemma {:induction false} ClosedDivides(a: Fp, d: nat, s: set<Fp>)
    requires a != 0 && IsOrder(a, d) && Closed(a, s)
    ensures |s| % d == 0
    decreases |s|
  {
    hide IsOrder, Closed, Class;
    if s != {} {
      var x :| x in s;
      ClassRemoved(a, d, s, x);
      assert x != 0 && d > 0 by { OrderPositive(a, d, s); }
      ClassSize(a, x, d, d);
      var rest := s - Class(a, x, d);
      assert |rest| == |s| - d;
      ClosedDivides(a, d, rest);
      OneMore(|rest|, d);
    } else {
      OrderPositive(a, d, s);
    }
  }

  lemma OrderPositive(a: Fp, d: nat, s: set<Fp>)
    requires IsOrder(a, d) && Closed(a, s)
    ensures d > 0 && 0 !in s
  {
  }

  lemma OneMore(n: nat, d: nat)
    requires d > 0 && n % d == 0
    ensures (n + d) % d == 0
  {
    var k := n / d;
    assert n + d == (k + 1) * d + 0;
    ModOfMultiple(k + 1, d);
  }

  predicate NonzeroUpTo(x: Fp, n: nat) { 0 < x <= n }

  ghost function UpTo(n: nat): set<Fp> { set x: Fp | 0 <= x < P && NonzeroUpTo(x, n) }

  lemma {:induction false} UpToSize(n: nat)
    requires n < P
    ensures |UpTo(n)| == n
  {
    if n == 0 {
      assert UpTo(0) == {};
    } else {
      UpToSize(n - 1);
      assert UpTo(n) == UpTo(n - 1) + {n};
    }
  }

  lemma OrderDivides(a: Fp, d: nat)
    requires a != 0 && IsOrder(a, d)
    ensures (P - 1) % d == 0
  {
    hide IsOrder;
    var all := UpTo(P - 1);
    assert Closed(a, all) by {
      hide Mul, Pow;
      forall x, i: nat | x in all
        ensures Mul(x, Pow(a, i)) in all
      {
        PowNonzero(a, i);
        ZeroProduct(x, Pow(a, i));
      }
    }
    UpToSize(P - 1);
    ClosedDivides(a, d, all);
  }

  lemma LittleTheorem(a: Fp)
    requires a != 0
    ensures Pow(a, P - 1) == 1
  {
    hide Mul, Pow;
    var d := OrderExists(a);
    OrderDivides(a, d);
    PowModulo(a, d, P - 1);
    PowNothing(a);
  }

  lemma PowNothing(a: Fp)
    ensures Pow(a, 0) == 1
  {
  }

  lemma {:induction false} PowPow(a: Fp, m: nat, n: nat)
    ensures Pow(Pow(a, m), n) == Pow(a, m * n)
  {
    hide Mul;
    if n == 0 {
      assert m * n == 0;
    } else {
      PowPow(a, m, n - 1);
      assert m * n == m + m * (n - 1);
      PowAdd(a, m, m * (n - 1));
    }
  }

  // ---- Non-residues ----

  /** -1 is no square: P is 3 modulo 4. */
  lemma MinusOneNotSquare(t: Fp)
    ensures Mul(t, t) != P - 1
  {
    hide Mul;
    if Mul(t, t) == P - 1 {
      MulZero(t);
      assert t != 0;
      SquareIsPow(t);
      assert (P - 1) / 2 == 2 * ((P - 1) / 4) + 1;
      PowPow(t, 2, (P - 1) / 2);
      OddPower((P - 1) / 4);
      LittleTheorem(t);
    }
  }

  lemma SquareIsPow(t: Fp)
    ensures Mul(t, t) == Pow(t, 2)
  {
    hide Mul;
    assert Pow(t, 2) == Mul(t, Mul(t, Pow(t, 0)));
    MulOne(t);
  }

  lemma {:induction false} OddPower(k: nat)
    ensures Pow(P - 1, 2 * k + 1) == P - 1
  {
    hide Mul;
    assert Mul(P - 1, P - 1) == 1 by { NegOneSquared(); }
    if k == 0 {
      assert Pow(P - 1, 1) == Mul(P - 1, Pow(P - 1, 0));
      MulOne(P - 1);
    } else {
      OddPower(k - 1);
      assert Pow(P - 1, 2 * k + 1) == Mul(P - 1, Mul(P - 1, Pow(P - 1, 2 * k - 1)));
      MulOne(P - 1);
    }
  }

  lemma NegOneSquared()
    ensures Mul(P - 1, P - 1) == 1
  {
  }

  /** 5 is no cube: its power (P - 1) / 3 is not 1. */
  lemma FiveNotCube(r: Fp)
    ensures Mul(r, Mul(r, r)) != 5
  {
    hide Mul, Pow;
    if Mul(r, Mul(r, r)) == 5 {
      MulZero(Mul(r, r));
      assert r != 0;
      CubeIsPow(r);
      assert 3 * ((P - 1) / 3) == P - 1;
      PowPow(r, 3, (P - 1) / 3);
      FivePower();
      LittleTheorem(r);
    }
  }

  lemma CubeIsPow(t: Fp)
    ensures Mul(t, Mul(t, t)) == Pow(t, 3)
  {
    hide Mul;
    assert Pow(t, 1) == Mul(t, Pow(t, 0));
    assert Pow(t, 2) == Mul(t, Pow(t, 1));
    MulOne(t);
  }

  /** From exponent e to 4 e + 2, given the integer arithmetic. */
  lemma FiveStep(e: nat, v: Fp, v2: Fp, v4: Fp, w: Fp)
    requires Pow(5, e) == v && (v * v) % P == v2 && (v2 * v2) % P == v4 && (v4 * 25) % P == w
    ensures Pow(5, 4 * e + 2) == w
  {
    hide Pow;
    PowAdd(5, e, e);
    PowAdd(5, 2 * e, 2 * e);
    PowAdd(5, 4 * e, 2);
    TwentyFive();
    assert e + e == 2 * e && 2 * e + 2 * e == 4 * e;
  }

  lemma TwentyFive()
    ensures Pow(5, 2) == 25
  {
    SquareIsPow(5);
  }

  lemma FivePower()
    ensures Pow(5, (P - 1) / 3) == 1513477735
  {
    hide Pow, Mul;
    TwentyFive();
    FiveStep(2, 25, 625, 390625, 9765625);
    FiveStep(10, 9765625, 1977844649, 671082152, 1744668271);
    FiveStep(42, 1744668271, 611999394, 1875421371, 1788377688);
    FiveStep(170, 1788377688, 1002258053, 1233665670, 776870692);
    FiveStep(682, 776870692, 227602491, 591315587, 1897987793);
    FiveStep(2730, 1897987793, 400535820, 432898844, 85052865);
    FiveStep(10922, 85052865, 53744142, 722108107, 872833499);
    FiveStep(43690, 872833499, 1221648684, 385528255, 1048271787);
    FiveStep(174762, 1048271787, 698678249, 1777811481, 1495614085);
    FiveStep(699050, 1495614085, 64009331, 1815021673, 278385238);
    FiveStep(2796202, 278385238, 275504525, 364253682, 516407462);
    FiveStep(11184810, 516407462, 41174444, 1726101339, 202860535);
    FiveStep(44739242, 202860535, 29300759, 580676539, 1632011593);
    FiveStep(178956970, 1632011593, 1161689006, 1778526027, 1513477735);
  }
}
