/** The logarithmic estimates that the planner keeps of row counts: ten times the logarithm to the
    base two, rounded through a table of eight steps. */
module LogEstimate {
  import opened Arith
  import opened PageGeometry

  const STEPS: seq<nat> := [0, 2, 3, 5, 6, 7, 8, 9]

  /** The simple form: look the leading four bits up, and count ten for each halving. */
  function LogEst(x: nat): nat {
    if x < 2 then 0
    else if x < 4 then STEPS[4 * x - 8] + 10
    else if x < 8 then STEPS[2 * x - 8] + 20
    else if x < 16 then STEPS[x - 8] + 30
    else LogEst(x / 2) + 10
  }

  /** Doubling the count adds ten. */
  lemma {:induction false} LogEstDoubles(x: nat)
    requires x > 0
    ensures LogEst(2 * x) == LogEst(x) + 10
  {
    if x >= 8 {
      assert 2 * x / 2 == x;
    }
  }

  /** The estimate never decreases with the count. */
  lemma {:induction false} LogEstMonotone(x: nat, y: nat)
    requires x <= y
    ensures LogEst(x) <= LogEst(y)
    decreases y
  {
    if x >= 16 {
      LogEstMonotone(x / 2, y / 2);
    } else if y >= 16 {
      LogEstMonotone(8, y / 2);
    }
  }

  /** The estimate is less than ten away from ten times the logarithm. */
  lemma {:induction false} LogEstNearLog(x: nat, e: nat)
    requires Pow2(e) <= x < Pow2(e + 1)
    ensures 10 * e <= LogEst(x) < 10 * e + 10
  {
    if e >= 4 {
      assert Pow2(e) == 2 * Pow2(e - 1) && Pow2(e + 1) == 2 * Pow2(e);
      assert Pow2(4) == 16;
      if e > 4 { Pow2Monotone(4, e); }
      LogEstNearLog(x / 2, e - 1);
    } else {
      assert Pow2(0) == 1 && Pow2(1) == 2 && Pow2(2) == 4 && Pow2(3) == 8 && Pow2(4) == 16;
    }
  }

  // ---- how far the estimate is off ----

  function Square(x: nat): nat {
    x * x
  }

  function Twentieth(x: nat): nat {
    Square(Square(Square(Square(x)) * x))
  }

  /** The twentieth powers of the numbers that the table is about. */
  const POWERS: seq<nat> := [
    0, 1, 1048576, 3486784401, 1099511627776, 95367431640625,
    3656158440062976, 79792266297612001, 1152921504606846976,
    12157665459056928801, 100000000000000000000, 672749994932560009201,
    3833759992447475122176, 19004963774880799438801, 83668255425284801560576,
    332525673007965087890625, 1208925819614629174706176]

  lemma PowersUpTo4()
    ensures forall x | 0 <= x <= 4 :: Twentieth(x) == POWERS[x]
  {
    assert Twentieth(0) == POWERS[0];
    assert Twentieth(1) == POWERS[1];
    assert Twentieth(2) == POWERS[2];
    assert Twentieth(3) == POWERS[3];
    assert Twentieth(4) == POWERS[4];
  }

  lemma PowersUpTo8()
    ensures forall x | 5 <= x <= 8 :: Twentieth(x) == POWERS[x]
  {
    assert Twentieth(5) == POWERS[5];
    assert Twentieth(6) == POWERS[6];
    assert Twentieth(7) == POWERS[7];
    assert Twentieth(8) == POWERS[8];
  }

  lemma PowersUpTo16()
    ensures forall x | 9 <= x <= 16 :: Twentieth(x) == POWERS[x]
  {
    assert Twentieth(9) == POWERS[9];
    assert Twentieth(10) == POWERS[10];
    assert Twentieth(11) == POWERS[11];
    assert Twentieth(12) == POWERS[12];
    assert Twentieth(13) == POWERS[13];
    assert Twentieth(14) == POWERS[14];
    assert Twentieth(15) == POWERS[15];
    assert Twentieth(16) == POWERS[16];
  }

  /** The estimates of the numbers below 16, and two to the power of twice as much. */
  const TENTHS: seq<nat> := [0, 0, 10, 16, 20, 23, 26, 28, 30, 32, 33, 35, 36, 37, 38, 39]

  const TWO_TO: seq<nat> := [
    0x1, 0x1, 0x100000, 0x100000000, 0x10000000000, 0x400000000000,
    0x10000000000000, 0x100000000000000, 0x1000000000000000,
    0x10000000000000000, 0x40000000000000000, 0x400000000000000000,
    0x1000000000000000000, 0x4000000000000000000,
    0x10000000000000000000, 0x40000000000000000000]

  lemma EstimateInTable(x: nat)
    requires 1 <= x < 16
    ensures LogEst(x) == TENTHS[x]
  {
  }

  lemma {:induction false} TwoToInTable(x: nat)
    requires 1 <= x < 16
    ensures Pow2(2 * TENTHS[x]) == TWO_TO[x]
  {
    if x == 1 {
      assert Pow2(0) == 1;
    } else {
      TwoToInTable(x - 1);
      var d := 2 * (TENTHS[x] - TENTHS[x - 1]);
      Pow2Sum(d, 2 * TENTHS[x - 1]);
      Steps(x);
    }
  }

  lemma Steps(x: nat)
    requires 2 <= x < 16
    ensures Pow2(2 * (TENTHS[x] - TENTHS[x - 1])) * TWO_TO[x - 1] == TWO_TO[x]
  {
    assert Pow2(2) == 4 && Pow2(4) == 16 && Pow2(6) == 64 && Pow2(8) == 256;
    assert Pow2(12) == 0x1000 && Pow2(20) == 0x10_0000;
  }

  lemma ComparedInTable(x: nat)
    requires 1 <= x < 16
    ensures TWO_TO[x] <= 2 * POWERS[x] && POWERS[x] <= 2 * TWO_TO[x]
    ensures x >= 8 ==> POWERS[x + 1] <= 16 * TWO_TO[x]
  {
  }

  /** Counts below 16 are rounded to the nearest integer: the estimate is at most one half away
      from ten times the logarithm, which is said of the twentieth powers.  For a count that is
      less than one larger, it is at most two too low. */
  lemma SmallIsNearest(x: nat)
    requires 1 <= x < 16
    ensures Pow2(2 * LogEst(x)) <= 2 * Twentieth(x)
    ensures Twentieth(x) <= 2 * Pow2(2 * LogEst(x))
    ensures x >= 8 ==> Twentieth(x + 1) <= 16 * Pow2(2 * LogEst(x))
  {
    EstimateInTable(x);
    TwoToInTable(x);
    PowerInTable(x);
    PowerInTable(x + 1);
    ComparedInTable(x);
  }

  lemma PowerInTable(x: nat)
    requires x <= 16
    ensures Twentieth(x) == POWERS[x]
  {
    if x <= 4 { PowersUpTo4(); } else if x <= 8 { PowersUpTo8(); } else { PowersUpTo16(); }
  }

  lemma SquareMonotone(a: nat, b: nat)
    requires a <= b
    ensures Square(a) <= Square(b)
  {
    MulMonotone(a, a, b);
    MulMonotone(b, a, b);
    assert a * b == b * a;
  }

  lemma TwentiethMonotone(a: nat, b: nat)
    requires a <= b
    ensures Twentieth(a) <= Twentieth(b)
  {
    SquareMonotone(a, b);
    SquareMonotone(Square(a), Square(b));
    var c, d := Square(Square(a)), Square(Square(b));
    MulMonotone(c, a, b);
    MulMonotone(b, c, d);
    assert c * b == b * c && d * b == b * d;
    SquareMonotone(c * a, d * b);
    SquareMonotone(Square(c * a), Square(d * b));
  }

  lemma SquareProduct(a: nat, b: nat)
    ensures Square(a * b) == Square(a) * Square(b)
  {
    Regroup(a, b, a, b);
  }

  lemma Regroup(a: nat, b: nat, c: nat, d: nat)
    ensures (a * b) * (c * d) == (a * c) * (b * d)
  {
    assert (a * b) * (c * d) == a * (b * (c * d));
    assert b * (c * d) == c * (b * d);
    assert a * (c * (b * d)) == (a * c) * (b * d);
  }

  lemma TwentiethProduct(a: nat, b: nat)
    ensures Twentieth(a * b) == Twentieth(a) * Twentieth(b)
  {
    SquareProduct(a, b);
    SquareProduct(Square(a), Square(b));
    var c, d := Square(Square(a)), Square(Square(b));
    Regroup(c, d, a, b);
    SquareProduct(c * a, d * b);
    SquareProduct(Square(c * a), Square(d * b));
  }

  lemma {:induction false} Pow2Sum(a: nat, b: nat)
    ensures Pow2(a + b) == Pow2(a) * Pow2(b)
  {
    if a > 0 {
      Pow2Sum(a - 1, b);
      Associates(2, Pow2(a - 1), Pow2(b));
    }
  }

  lemma Associates(a: nat, b: nat, c: nat)
    ensures a * (b * c) == (a * b) * c
  {
  }

  lemma TwentiethOfPow2(k: nat)
    ensures Twentieth(Pow2(k)) == Pow2(20 * k)
  {
    Pow2Sum(k, k);
    Pow2Sum(2 * k, 2 * k);
    Pow2Sum(4 * k, k);
    Pow2Sum(5 * k, 5 * k);
    Pow2Sum(10 * k, 10 * k);
  }

  /** The leading four bits of a count, and how many follow. */
  ghost predicate Leads(x: nat, m: nat, k: nat) {
    m * Pow2(k) <= x < (m + 1) * Pow2(k)
  }

  lemma LeadsOfDouble(x: nat, m: nat, k: nat)
    requires Leads(x / 2, m, k)
    ensures Leads(x, m, k + 1)
  {
    var p := Pow2(k);
    Associates(2, m, p);
    Associates(2, m + 1, p);
    assert m * (2 * p) == 2 * (m * p) && (m + 1) * (2 * p) == 2 * ((m + 1) * p);
  }

  lemma {:induction false} LeadingBits(x: nat) returns (m: nat, k: nat)
    requires x >= 8
    ensures 8 <= m < 16 && Leads(x, m, k) && LogEst(x) == LogEst(m) + 10 * k
  {
    if x < 16 {
      m, k := x, 0;
    } else {
      m, k := LeadingBits(x / 2);
      LeadsOfDouble(x, m, k);
      k := k + 1;
    }
  }

  /** For every count the estimate is at most one half too high and at most two too low. */
  lemma EstimateIsClose(x: nat)
    requires x >= 1
    ensures Pow2(2 * LogEst(x)) <= 2 * Twentieth(x)
    ensures Twentieth(x) <= 16 * Pow2(2 * LogEst(x))
  {
    if x < 16 {
      SmallIsNearest(x);
    } else {
      var m, k := LeadingBits(x);
      SmallIsNearest(m);
      BetweenPowers(x, m, k);
      Pow2Sum(2 * LogEst(m), 20 * k);
      assert 2 * LogEst(x) == 2 * LogEst(m) + 20 * k;
      Scaled(Pow2(2 * LogEst(m)), Twentieth(m), Twentieth(m + 1), Pow2(20 * k));
    }
  }

  lemma BetweenPowers(x: nat, m: nat, k: nat)
    requires Leads(x, m, k)
    ensures Twentieth(m) * Pow2(20 * k) <= Twentieth(x) <= Twentieth(m + 1) * Pow2(20 * k)
  {
    TwentiethOfPow2(k);
    TwentiethProduct(m, Pow2(k));
    TwentiethProduct(m + 1, Pow2(k));
    TwentiethMonotone(m * Pow2(k), x);
    TwentiethMonotone(x, (m + 1) * Pow2(k));
  }

  lemma Scaled(l: nat, a: nat, b: nat, p: nat)
    requires l <= 2 * a && b <= 16 * l
    ensures l * p <= 2 * (a * p) && b * p <= 16 * (l * p)
  {
    MulMonotone(p, l, 2 * a);
    MulMonotone(p, b, 16 * l);
    assert p * (2 * a) == 2 * (a * p) && p * (16 * l) == 16 * (l * p) && p * l == l * p && p * b == b * p;
  }

  lemma SixteenthAddsForty(x: nat)
    requires x >= 128
    ensures LogEst(x) == LogEst(x / 16) + 40
  {
    assert LogEst(x) == LogEst(x / 2) + 10 && LogEst(x / 2) == LogEst(x / 2 / 2) + 10;
    assert x / 2 / 2 == x / 4 && x / 4 / 2 == x / 8 && x / 8 / 2 == x / 16;
    assert LogEst(x / 4) == LogEst(x / 8) + 10 && LogEst(x / 8) == LogEst(x / 16) + 10;
  }

  /** Scale a count down to the range of the table. */
  method ScaleDown(x0: nat) returns (x: nat, y: nat)
    requires x0 >= 8
    ensures 8 <= x < 16 && y >= 40 && LogEst(x) + y == LogEst(x0) + 40
  {
    x, y := x0, 40;
    while x > 255
      invariant x >= 8 && y >= 40 && LogEst(x) + y == LogEst(x0) + 40
    {
      SixteenthAddsForty(x);
      y, x := y + 40, x / 16;
    }
    while x > 15
      invariant x >= 8 && y >= 40 && LogEst(x) + y == LogEst(x0) + 40
    {
      y, x := y + 10, x / 2;
    }
  }

  /** Scale a small count up. */
  method ScaleUp(x0: nat) returns (x: nat, y: nat)
    requires 2 <= x0 < 8
    ensures 8 <= x < 16 && 20 <= y < 40 && LogEst(x) + y == LogEst(x0) + 40
  {
    x, y := x0, 40;
    while x < 8
      invariant 2 <= x < 16 && (x < 4 ==> y == 40) && (x < 8 ==> y >= 30) && 20 <= y <= 40
      invariant x >= 8 ==> y < 40
      invariant LogEst(x) + y == LogEst(x0) + 40
      decreases 8 - x
    {
      LogEstDoubles(x);
      y, x := y - 10, 2 * x;
    }
  }

  /** The fast form, which divides by sixteen as long as it can. */
  method ComputeLogEst(x0: nat) returns (r: nat)
    ensures r == LogEst(x0)
  {
    if x0 < 2 { return 0; }
    var x, y;
    if x0 < 8 {
      x, y := ScaleUp(x0);
    } else {
      x, y := ScaleDown(x0);
    }
    assert x % 8 == x - 8;
    r := STEPS[x % 8] + y - 10;
  }
}
