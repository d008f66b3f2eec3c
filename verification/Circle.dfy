/** The circle x^2 + y^2 = 1 over M31 and its group law. */
module Circle {

  import opened M31
  import opened PowersOfTwo

  datatype Point = Point(x: Fp, y: Fp)

  const IDENTITY := Point(1, 0)

  /** The point of order two. */
  const HALF_TURN := Point(P - 1, 0)

  function PAdd(p: Point, q: Point): Point {
    Point(Sub(Mul(p.x, q.x), Mul(p.y, q.y)), Add(Mul(p.x, q.y), Mul(p.y, q.x)))
  }

  function Conj(p: Point): Point { Point(p.x, Neg(p.y)) }

  predicate OnCircle(p: Point) {
    Add(Square(p.x), Square(p.y)) == 1
  }

  /** x-coordinate of 2p, for p on the circle: 2 x^2 - 1. */
  function DoubleX(x: Fp): Fp { Sub(Double(Square(x)), 1) }

  /** p added to itself n times. */
  function Times(p: Point, n: nat): Point {
    if n == 0 then IDENTITY else PAdd(p, Times(p, n - 1))
  }

  // ---- Group laws ----

  datatype ZPoint = ZPoint(x: int, y: int)

  function ZPAdd(p: ZPoint, q: ZPoint): ZPoint {
    ZPoint(M(p.x, q.x) - M(p.y, q.y), M(p.x, q.y) + M(p.y, q.x))
  }

  function PRed(p: ZPoint): Point { Point(Red(p.x), Red(p.y)) }

  function PLift(p: Point): ZPoint { ZPoint(p.x, p.y) }

  lemma PRedLift(p: Point)
    ensures PRed(PLift(p)) == p
  {
  }

  lemma PRedAdd(p: ZPoint, q: ZPoint)
    ensures PAdd(PRed(p), PRed(q)) == PRed(ZPAdd(p, q))
  {
    hide Red, Add, Sub, Mul, M;
    RedM(p.x, q.x); RedM(p.y, q.y); RedSub(M(p.x, q.x), M(p.y, q.y));
    RedM(p.x, q.y); RedM(p.y, q.x); RedAdd(M(p.x, q.y), M(p.y, q.x));
  }

  lemma DistributeOver(a: int, b: int, c: int, d: int, s: int, z: int)
    requires s == 1 || s == -1
    ensures M(M(a, b) + s * M(c, d), z) == M(a, M(b, z)) + s * M(c, M(d, z))
  {
    var p, q := a * b, c * d;
    assert (p + s * q) * z == p * z + s * (q * z);
    assert (a * b) * z == a * (b * z) && (c * d) * z == c * (d * z);
  }

  lemma ZPAddAssoc(p: ZPoint, q: ZPoint, r: ZPoint)
    ensures ZPAdd(ZPAdd(p, q), r) == ZPAdd(p, ZPAdd(q, r))
  {
    hide M;
    DistributeOver(p.x, q.x, p.y, q.y, -1, r.x); DistributeOver(p.x, q.y, p.y, q.x, 1, r.y);
    DistributeOver(p.x, q.x, p.y, q.y, -1, r.y); DistributeOver(p.x, q.y, p.y, q.x, 1, r.x);
    MDistr(p.x, M(q.x, r.x), M(q.y, r.y)); MDistr(p.y, M(q.x, r.y), M(q.y, r.x));
    MDistr(p.x, M(q.x, r.y), M(q.y, r.x)); MDistr(p.y, M(q.x, r.x), M(q.y, r.y));
  }

  lemma PAddAssoc(p: Point, q: Point, r: Point)
    ensures PAdd(PAdd(p, q), r) == PAdd(p, PAdd(q, r))
  {
    hide PAdd, PRed, ZPAdd;
    var a, b, c := PLift(p), PLift(q), PLift(r);
    PRedLift(p); PRedLift(q); PRedLift(r);
    PRedAdd(a, b); PRedAdd(ZPAdd(a, b), c);
    PRedAdd(b, c); PRedAdd(a, ZPAdd(b, c));
    ZPAddAssoc(a, b, c);
  }

  lemma PAddComm(p: Point, q: Point)
    ensures PAdd(p, q) == PAdd(q, p)
  {
    hide Mul, Add, Sub;
    MulComm(p.x, q.x); MulComm(p.y, q.y); MulComm(p.x, q.y); MulComm(p.y, q.x);
    AddComm(Mul(p.x, q.y), Mul(p.y, q.x));
  }

  lemma PAddIdentity(p: Point)
    ensures PAdd(IDENTITY, p) == p == PAdd(p, IDENTITY)
  {
  }

  /** (p + q) + (r + s) == (p + r) + (q + s). */
  lemma PAddSwap(p: Point, q: Point, r: Point, s: Point)
    ensures PAdd(PAdd(p, q), PAdd(r, s)) == PAdd(PAdd(p, r), PAdd(q, s))
  {
    hide PAdd;
    PAddAssoc(p, q, PAdd(r, s)); PAddAssoc(q, r, s); PAddComm(q, r);
    PAddAssoc(r, q, s); PAddAssoc(p, r, PAdd(q, s));
  }

  /** Adding the half turn negates both coordinates. */
  lemma AddHalfTurn(p: Point)
    ensures PAdd(p, HALF_TURN) == Point(Neg(p.x), Neg(p.y))
  {
    hide Mul, Neg;
    MulNegOne(p.x); MulNegOne(p.y);
    MulZero(p.x); MulZero(p.y);
  }

  lemma MulNegOne(a: Fp)
    ensures Mul(a, P - 1) == Neg(a) && Mul(P - 1, a) == Neg(a)
  {
    assert P - 1 == Neg(1);
    MulNeg(a, 1);
    MulComm(a, P - 1);
  }

  lemma NegMul(a: Fp, b: Fp)
    ensures Mul(Neg(a), b) == Neg(Mul(a, b))
  {
    MulComm(Neg(a), b); MulComm(a, b);
    MulNeg(b, a);
  }

  lemma NegNeg(a: Fp)
    ensures Neg(Neg(a)) == a
  {
  }

  lemma NegAdd(a: Fp, b: Fp)
    ensures Neg(Add(a, b)) == Add(Neg(a), Neg(b))
  {
    hide Add, Sub, Red;
    RedCanonical(0);
    RedCanonical(a); RedCanonical(b);
    RedAdd(a, b); RedSub(0, a + b);
    RedSub(0, a); RedSub(0, b); RedAdd(0 - a, 0 - b);
    assert 0 - a + (0 - b) == 0 - (a + b);
  }

  lemma SubNeg(a: Fp, b: Fp)
    ensures Sub(a, Neg(b)) == Add(a, b)
  {
  }

  lemma AddNeg(a: Fp)
    ensures Add(Neg(a), a) == 0 == Add(a, Neg(a))
  {
  }

  lemma ConjAdd(p: Point, q: Point)
    ensures Conj(PAdd(p, q)) == PAdd(Conj(p), Conj(q))
  {
    hide Mul, Neg, Add, Sub;
    MulNeg(p.x, q.y); NegMul(p.y, q.x); NegMul(p.y, Neg(q.y)); MulNeg(p.y, q.y);
    NegNeg(Mul(p.y, q.y));
    NegAdd(Mul(p.x, q.y), Mul(p.y, q.x));
  }

  // ---- Membership in the circle ----

  /** p is on the circle exactly when p + conj(p) is the identity. */
  lemma CircleIffInverse(p: Point)
    ensures OnCircle(p) <==> PAdd(p, Conj(p)) == IDENTITY
  {
    hide Mul, Neg, Add, Sub;
    MulNeg(p.y, p.y); MulNeg(p.x, p.y); MulComm(p.x, p.y);
    SubNeg(Mul(p.x, p.x), Mul(p.y, p.y));
    AddNeg(Mul(p.x, p.y));
  }

  lemma OnCircleAdd(p: Point, q: Point)
    requires OnCircle(p) && OnCircle(q)
    ensures OnCircle(PAdd(p, q))
  {
    hide PAdd, OnCircle, Conj;
    CircleIffInverse(p); CircleIffInverse(q);
    ConjAdd(p, q);
    PAddSwap(p, q, Conj(p), Conj(q));
    PAddIdentity(IDENTITY);
    CircleIffInverse(PAdd(p, q));
  }

  lemma OnCircleConj(p: Point)
    requires OnCircle(p)
    ensures OnCircle(Conj(p))
  {
    hide Mul, Neg, Add;
    NegMul(p.y, Neg(p.y)); MulNeg(p.y, p.y); NegNeg(Mul(p.y, p.y));
  }

  lemma DoubleIsDoubleX(p: Point)
    requires OnCircle(p)
    ensures PAdd(p, p).x == DoubleX(p.x)
  {
    hide Mul;
    assert Add(Mul(p.x, p.x), Mul(p.y, p.y)) == 1;
  }

  lemma OnCircleTimes(p: Point, n: nat)
    requires OnCircle(p)
    ensures OnCircle(Times(p, n))
  {
    hide PAdd, OnCircle;
    if n > 0 {
      OnCircleTimes(p, n - 1);
      OnCircleAdd(p, Times(p, n - 1));
    } else {
      assert OnCircle(IDENTITY) by { CircleIffInverse(IDENTITY); PAddIdentity(IDENTITY); IdentityConj(); }
    }
  }

  lemma IdentityConj()
    ensures Conj(IDENTITY) == IDENTITY
  {
  }

  // ---- Multiples ----

  lemma TimesAdd(p: Point, m: nat, n: nat)
    ensures Times(p, m + n) == PAdd(Times(p, m), Times(p, n))
  {
    hide PAdd;
    if m == 0 {
      PAddIdentity(Times(p, n));
    } else {
      TimesAdd(p, m - 1, n);
      PAddAssoc(p, Times(p, m - 1), Times(p, n));
    }
  }

  lemma TimesOne(p: Point)
    ensures Times(p, 1) == p
  {
    hide PAdd;
    assert Times(p, 1) == PAdd(p, Times(p, 0));
    PAddIdentity(p);
  }

  /** n (p + q) == n p + n q. */
  lemma TimesOfSum(p: Point, q: Point, n: nat)
    ensures Times(PAdd(p, q), n) == PAdd(Times(p, n), Times(q, n))
  {
    hide PAdd;
    if n == 0 {
      PAddIdentity(IDENTITY);
    } else {
      TimesOfSum(p, q, n - 1);
      PAddSwap(p, q, Times(p, n - 1), Times(q, n - 1));
    }
  }

  lemma TimesDouble(p: Point, n: nat)
    ensures Times(PAdd(p, p), n) == Times(p, 2 * n)
  {
    hide PAdd;
    TimesOfSum(p, p, n);
    TimesAdd(p, n, n);
  }

  lemma {:induction false} TimesTimes(p: Point, m: nat, n: nat)
    ensures Times(Times(p, m), n) == Times(p, m * n)
  {
    hide PAdd;
    if n > 0 {
      TimesTimes(p, m, n - 1);
      assert m * n == m + m * (n - 1);
      TimesAdd(p, m, m * (n - 1));
    } else {
      assert m * n == 0;
    }
  }

  lemma ConjTimes(p: Point, n: nat)
    ensures Conj(Times(p, n)) == Times(Conj(p), n)
  {
    hide PAdd, Conj;
    if n == 0 {
      IdentityConj();
    } else {
      ConjTimes(p, n - 1);
      ConjAdd(p, Times(p, n - 1));
    }
  }

  /** Double-and-add. */
  method MulUsize(p: Point, n0: nat) returns (result: Point)
    ensures result == Times(p, n0)
  {
    hide PAdd;
    var n := n0;
    result := IDENTITY;
    var base := p;
    PAddIdentity(Times(p, n0));
    while n > 0
      invariant PAdd(result, Times(base, n)) == Times(p, n0)
    {
      ghost var result0, base0 := result, base;
      TimesDouble(base, n / 2);
      if n % 2 == 1 {
        result := PAdd(result, base);
        assert Times(base0, n) == PAdd(base0, Times(base0, 2 * (n / 2)));
        PAddAssoc(result0, base0, Times(base0, 2 * (n / 2)));
      }
      base := PAdd(base, base);
      n := n / 2;
    }
    PAddIdentity(result);
  }

  // ---- The tower of two-adic generators ----

  /** pts[k] stands for the generator of the subgroup of order 2^k. */
  datatype Tower = Tower(pts: seq<Point>) {
    ghost predicate Valid() {
      && |pts| >= 2
      && pts[0] == IDENTITY
      && pts[1] == HALF_TURN
      && (forall k :: 0 <= k < |pts| ==> OnCircle(pts[k]))
      && (forall k :: 0 < k < |pts| ==> PAdd(pts[k], pts[k]) == pts[k - 1])
    }

    function Generator(k: nat): Point
      requires k < |pts|
    {
      pts[k]
    }
  }

  lemma TowerDescends(g: Tower, k: nat, j: nat)
    requires g.Valid() && j <= k < |g.pts|
    ensures Times(g.Generator(k), Pow2(j)) == g.Generator(k - j)
    decreases j
  {
    hide PAdd, OnCircle;
    if j == 0 {
      TimesOne(g.pts[k]);
    } else {
      TowerDescends(g, k - 1, j - 1);
      TimesDouble(g.pts[k], Pow2(j - 1));
    }
  }

  lemma GeneratorOrder(g: Tower, k: nat)
    requires g.Valid() && k < |g.pts|
    ensures Times(g.Generator(k), Pow2(k)) == IDENTITY
    ensures k >= 1 ==> Times(g.Generator(k), Pow2(k - 1)) == HALF_TURN
  {
    hide PAdd, OnCircle, Times;
    TowerDescends(g, k, k);
    if k >= 1 {
      TowerDescends(g, k, k - 1);
    }
  }

  /** Generator of the subgroup of order 2^31, and the tower it spans. */
  const STANDARD_BASE := Point(311_014_874, 1_584_694_829)

  function DoubledBase(j: nat): Point {
    if j == 0 then STANDARD_BASE else PAdd(DoubledBase(j - 1), DoubledBase(j - 1))
  }

  function StandardTower(): Tower {
    Tower(seq(32, k requires 0 <= k < 32 => DoubledBase(31 - k)))
  }

  lemma StandardBaseOnCircle()
    ensures OnCircle(STANDARD_BASE)
  {
    hide Square;
    SquareOf(311014874, 45043533, 1328631025);
    SquareOf(1584694829, 1169395494, 818852623);
  }

  lemma SquareOf(a: Fp, q: nat, r: nat)
    requires r < P && a * a == q * P + r
    ensures Square(a) == r
  {
    DivModUnique(a * a, q, r);
  }

  lemma DoubledBaseOnCircle(j: nat)
    ensures OnCircle(DoubledBase(j))
  {
    hide OnCircle, PAdd;
    StandardBaseOnCircle();
    if j > 0 {
      DoubledBaseOnCircle(j - 1);
      OnCircleAdd(DoubledBase(j - 1), DoubledBase(j - 1));
    }
  }

  lemma DoubledBaseZero()
    ensures DoubledBase(0) == Point(311_014_874, 1_584_694_829)
  {
  }

  lemma AsResidues(x: int, y: int)
    ensures Red(x * x - y * y) == (x * x - y * y) % P
    ensures Red(x * y + y * x) == (2 * x * y) % P
  {
    assert 2 * x * y == x * y + y * x;
  }

  /** One doubling, given the integer arithmetic. */
  lemma DoubledBaseStep(j: nat, x: Fp, y: Fp, x': Fp, y': Fp)
    requires DoubledBase(j) == Point(x, y)
    requires (x * x - y * y) % P == x' && (2 * x * y) % P == y'
    ensures DoubledBase(j + 1) == Point(x', y')
  {
    AsResidues(x, y);
    hide Red, Mul, Add, Sub;
    RedCanonical(x); RedCanonical(y);
    RedMul(x, x); RedMul(y, y); RedMul(x, y); RedMul(y, x);
    RedSub(x * x, y * y);
    RedAdd(x * y, y * x);
  }

  lemma DoubledBaseHalfway()
    ensures DoubledBase(16) == Point(541476169, 2101081972)
  {
    hide DoubledBase, PAdd;
    DoubledBaseZero();
    DoubledBaseStep(0, 311014874, 1584694829, 509778402, 800467507);
    DoubledBaseStep(1, 509778402, 800467507, 1501355827, 1439063420);
    DoubledBaseStep(2, 1501355827, 1439063420, 1629751483, 66485474);
    DoubledBaseStep(3, 1629751483, 66485474, 1765392370, 461136547);
    DoubledBaseStep(4, 1765392370, 461136547, 1214231414, 1646302518);
    DoubledBaseStep(5, 1214231414, 1646302518, 1889294251, 331248939);
    DoubledBaseStep(6, 1889294251, 331248939, 1929382196, 1664698822);
    DoubledBaseStep(7, 1929382196, 1664698822, 1062045235, 1824580421);
    DoubledBaseStep(8, 1062045235, 1824580421, 1957419629, 1541039442);
    DoubledBaseStep(9, 1957419629, 1541039442, 1957194259, 2139647100);
    DoubledBaseStep(10, 1957194259, 2139647100, 241940101, 323856519);
    DoubledBaseStep(11, 241940101, 323856519, 1172215635, 595888646);
    DoubledBaseStep(12, 1172215635, 595888646, 1662322247, 670236780);
    DoubledBaseStep(13, 1662322247, 670236780, 2097144245, 1684033590);
    DoubledBaseStep(14, 2097144245, 1684033590, 2135874973, 483411332);
    DoubledBaseStep(15, 2135874973, 483411332, 541476169, 2101081972);
  }

  lemma DoubledBaseEnds()
    ensures DoubledBase(30) == HALF_TURN && DoubledBase(31) == IDENTITY
  {
    hide DoubledBase, PAdd;
    DoubledBaseHalfway();
    DoubledBaseStep(16, 541476169, 2101081972, 2107600913, 1378821388);
    DoubledBaseStep(17, 2107600913, 1378821388, 1995316534, 149306621);
    DoubledBaseStep(18, 1995316534, 149306621, 343674985, 501786993);
    DoubledBaseStep(19, 343674985, 501786993, 605622498, 1964232216);
    DoubledBaseStep(20, 605622498, 1964232216, 1323191254, 1936974060);
    DoubledBaseStep(21, 1323191254, 1936974060, 1819216575, 1662816114);
    DoubledBaseStep(22, 1819216575, 1662816114, 736262640, 1553669210);
    DoubledBaseStep(23, 736262640, 1553669210, 1774253895, 1309288441);
    DoubledBaseStep(24, 1774253895, 1309288441, 1567857810, 456695729);
    DoubledBaseStep(25, 1567857810, 456695729, 1179735656, 1241207368);
    DoubledBaseStep(26, 1179735656, 1241207368, 590768354, 978592373);
    DoubledBaseStep(27, 590768354, 978592373, 32768, 2147450879);
    DoubledBaseStep(28, 32768, 2147450879, 0, 2147483646);
    DoubledBaseStep(29, 0, 2147483646, 2147483646, 0);
    DoubledBaseStep(30, 2147483646, 0, 1, 0);
  }

  lemma StandardTowerValid()
    ensures StandardTower().Valid() && |StandardTower().pts| == 32
  {
    hide PAdd, OnCircle;
    var t := StandardTower();
    DoubledBaseEnds();
    forall k | 0 <= k < |t.pts|
      ensures OnCircle(t.pts[k])
    {
      DoubledBaseOnCircle(31 - k);
    }
  }
}
