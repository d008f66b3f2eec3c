/** Complex numbers over the reals, and finite sums of them. */
module Complex {

  datatype C = C(re: real, im: real)

  const C0 := C(0.0, 0.0)
  const C1 := C(1.0, 0.0)

  function CMul(a: C, b: C): C { C(a.re * b.re - a.im * b.im, a.re * b.im + a.im * b.re) }

  function CAdd(a: C, b: C): C { C(a.re + b.re, a.im + b.im) }

  function CConj(a: C): C { C(a.re, -a.im) }

  lemma CMulAssoc(a: C, b: C, c: C)
    ensures CMul(CMul(a, b), c) == CMul(a, CMul(b, c))
  {
  }

  lemma CMulComm(a: C, b: C)
    ensures CMul(a, b) == CMul(b, a)
  {
  }

  lemma CMulAdd(a: C, b: C, c: C)
    ensures CMul(a, CAdd(b, c)) == CAdd(CMul(a, b), CMul(a, c))
    ensures CMul(CAdd(b, c), a) == CAdd(CMul(b, a), CMul(c, a))
  {
  }

  lemma CMulZero(a: C)
    ensures CMul(a, C0) == C0 == CMul(C0, a)
  {
  }

  lemma CMulOne(a: C)
    ensures CMul(a, C1) == a == CMul(C1, a)
  {
  }

  lemma CConjMul(a: C, b: C)
    ensures CConj(CMul(a, b)) == CMul(CConj(a), CConj(b))
  {
  }

  lemma CConjAdd(a: C, b: C)
    ensures CConj(CAdd(a, b)) == CAdd(CConj(a), CConj(b))
  {
  }

  lemma CAddAssoc(a: C, b: C, c: C)
    ensures CAdd(CAdd(a, b), c) == CAdd(a, CAdd(b, c))
  {
  }

  lemma CAddSwap(a: C, b: C, c: C, d: C)
    ensures CAdd(CAdd(a, b), CAdd(c, d)) == CAdd(CAdd(a, c), CAdd(b, d))
  {
  }

  lemma CAddZero(a: C)
    ensures CAdd(a, C0) == a == CAdd(C0, a)
  {
  }

  /** The sum of f(k) over k < n. */
  function Sum(n: nat, f: nat -> C): C {
    if n == 0 then C0 else CAdd(Sum(n - 1, f), f(n - 1))
  }

  lemma {:induction false} SumCong(n: nat, f: nat -> C, g: nat -> C)
    requires forall k: nat :: k < n ==> f(k) == g(k)
    ensures Sum(n, f) == Sum(n, g)
  {
    if n > 0 {
      SumCong(n - 1, f, g);
    }
  }

  lemma {:induction false} SumZero(n: nat, f: nat -> C)
    requires forall k: nat :: k < n ==> f(k) == C0
    ensures Sum(n, f) == C0
  {
    if n > 0 {
      SumZero(n - 1, f);
    }
  }

  lemma {:induction false} SumPlus(n: nat, f: nat -> C, g: nat -> C, h: nat -> C)
    requires forall k: nat :: k < n ==> h(k) == CAdd(f(k), g(k))
    ensures Sum(n, h) == CAdd(Sum(n, f), Sum(n, g))
  {
    hide CAdd;
    if n == 0 {
      CAddZero(C0);
    } else {
      SumPlus(n - 1, f, g, h);
      CAddSwap(Sum(n - 1, f), Sum(n - 1, g), f(n - 1), g(n - 1));
    }
  }

  lemma {:induction false} SumScale(n: nat, f: nat -> C, h: nat -> C, c: C)
    requires forall k: nat :: k < n ==> h(k) == CMul(f(k), c)
    ensures Sum(n, h) == CMul(Sum(n, f), c)
  {
    hide CAdd, CMul;
    if n == 0 {
      CMulZero(c);
    } else {
      SumScale(n - 1, f, h, c);
      CMulAdd(c, Sum(n - 1, f), f(n - 1));
    }
  }

  lemma {:induction false} SumConj(n: nat, f: nat -> C, h: nat -> C)
    requires forall k: nat :: k < n ==> h(k) == CConj(f(k))
    ensures Sum(n, h) == CConj(Sum(n, f))
  {
    hide CAdd;
    if n > 0 {
      SumConj(n - 1, f, h);
      CConjAdd(Sum(n - 1, f), f(n - 1));
    }
  }

  /** Exchange of two sums; rows and cols are the inner sums of f. */
  lemma {:induction false} SumSwap(n: nat, m: nat, f: (nat, nat) -> C, rows: nat -> C, cols: nat -> C)
    requires forall i: nat :: i < n ==> rows(i) == Sum(m, (j: nat) => f(i, j))
    requires forall j: nat :: j < m ==> cols(j) == Sum(n, (i: nat) => f(i, j))
    ensures Sum(n, rows) == Sum(m, cols)
  {
    hide CAdd;
    if n == 0 {
      SumZero(m, cols);
    } else {
      var before: nat -> C := (j: nat) => Sum(n - 1, (i: nat) => f(i, j));
      SumSwap(n - 1, m, f, rows, before);
      forall j: nat | j < m
        ensures cols(j) == CAdd(before(j), f(n - 1, j))
      {
        SumCong(n - 1, (i: nat) => f(i, j), (i: nat) => f(i, j));
      }
      SumPlus(m, before, (j: nat) => f(n - 1, j), cols);
    }
  }

  /** Even and odd indices apart. */
  lemma {:induction false} SumByParity(n: nat, f: nat -> C)
    ensures Sum(2 * n, f) == CAdd(Sum(n, (j: nat) => f(2 * j)), Sum(n, (j: nat) => f(2 * j + 1)))
  {
    hide CAdd;
    var even: nat -> C, odd: nat -> C := (j: nat) => f(2 * j), (j: nat) => f(2 * j + 1);
    if n == 0 {
      CAddZero(C0);
    } else {
      SumByParity(n - 1, f);
      SumCong(n - 1, even, (j: nat) => f(2 * j));
      SumCong(n - 1, odd, (j: nat) => f(2 * j + 1));
      CAddAssoc(Sum(2 * (n - 1), f), f(2 * (n - 1)), f(2 * (n - 1) + 1));
      CAddSwap(Sum(n - 1, even), Sum(n - 1, odd), even(n - 1), odd(n - 1));
      SumCong(n, even, (j: nat) => f(2 * j));
      SumCong(n, odd, (j: nat) => f(2 * j + 1));
    }
  }
}
