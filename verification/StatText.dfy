/** The integer lists of the sqlite_stat tables: how they are printed and read back. */
module StatText {
  import opened LogEstimate

  predicate IsDigit(c: char) { '0' <= c <= '9' }

  function DigitValue(c: char): (v: nat)
    requires IsDigit(c)
    ensures v < 10
  {
    c as int - '0' as int
  }

  function DigitChar(d: nat): (c: char)
    requires d < 10
    ensures IsDigit(c) && DigitValue(c) == d
  {
    ('0' as int + d) as char
  }

  /** "%llu" */
  function Decimal(n: nat): (z: string)
    ensures |z| > 0 && forall i | 0 <= i < |z| :: IsDigit(z[i])
  {
    if n < 10 then [DigitChar(n)]
    else Decimal(n / 10) + [DigitChar(n % 10)]
  }

  /** The integers separated by single spaces. */
  function Printed(xs: seq<nat>): string {
    if |xs| == 0 then ""
    else if |xs| == 1 then Decimal(xs[0])
    else Decimal(xs[0]) + " " + Printed(xs[1..])
  }

  /** What a run of digits adds to the value v read so far, in arithmetic modulo w. */
  function ReadDigits(z: string, v: nat, w: nat): (nat, string)
    requires w > 0
    decreases |z|
  {
    if |z| > 0 && IsDigit(z[0]) then ReadDigits(z[1..], (v * 10 + DigitValue(z[0])) % w, w)
    else (v, z)
  }

  function SkipSpace(z: string): string {
    if |z| > 0 && z[0] == ' ' then z[1..] else z
  }

  /** The first nOut integers of a list, as the statistics loader reads them. */
  function Decoded(z: string, nOut: nat, w: nat): (xs: seq<nat>)
    requires w > 0
    decreases nOut
  {
    if |z| == 0 || nOut == 0 then []
    else
      var (v, rest) := ReadDigits(z, 0, w);
      [v] + Decoded(SkipSpace(rest), nOut - 1, w)
  }

  /** Read the first nOut integers, as they are and as logarithmic estimates. */
  method DecodeIntArray(zIntArray: string, nOut: nat, w: nat) returns (aOut: seq<nat>, aLog: seq<nat>)
    requires w > 0
    ensures aOut == Decoded(zIntArray, nOut, w)
    ensures |aLog| == |aOut| && forall i | 0 <= i < |aOut| :: aLog[i] == LogEst(aOut[i])
  {
    aOut, aLog := [], [];
    var z := zIntArray;
    var i := 0;
    while |z| > 0 && i < nOut
      invariant 0 <= i <= nOut
      invariant aOut + Decoded(z, nOut - i, w) == Decoded(zIntArray, nOut, w)
      invariant |aLog| == |aOut| && forall j | 0 <= j < |aOut| :: aLog[j] == LogEst(aOut[j])
      decreases nOut - i
    {
      var v: nat := 0;
      ghost var z0 := z;
      while |z| > 0 && IsDigit(z[0])
        invariant ReadDigits(z, v, w) == ReadDigits(z0, 0, w)
        decreases |z|
      {
        v := (v * 10 + DigitValue(z[0])) % w;
        z := z[1..];
      }
      assert ReadDigits(z0, 0, w) == (v, z);
      ghost var tail := Decoded(SkipSpace(z), nOut - i - 1, w);
      assert Decoded(z0, nOut - i, w) == [v] + tail;
      assert aOut + ([v] + tail) == aOut + [v] + tail;
      var log := ComputeLogEst(v);
      aOut, aLog := aOut + [v], aLog + [log];
      if |z| > 0 && z[0] == ' ' { z := z[1..]; }
      i := i + 1;
    }
    assert aOut + [] == aOut;
  }

  predicate StopsDigits(z: string) {
    |z| == 0 || !IsDigit(z[0])
  }

  /** A run of digits is read before what follows it. */
  lemma {:induction false} ReadThrough(z: string, y: string, v: nat, w: nat)
    requires w > 0 && forall i | 0 <= i < |z| :: IsDigit(z[i])
    ensures ReadDigits(z + y, v, w) == ReadDigits(y, ReadDigits(z, v, w).0, w)
    decreases |z|
  {
    if z == "" {
      assert z + y == y;
    } else {
      assert (z + y)[1..] == z[1..] + y;
      ReadThrough(z[1..], y, (v * 10 + DigitValue(z[0])) % w, w);
    }
  }

  lemma {:induction false} ReadLastDigit(d: char, rest: string, v: nat, w: nat)
    requires w > 0 && IsDigit(d) && StopsDigits(rest)
    ensures ReadDigits([d] + rest, v, w) == ((v * 10 + DigitValue(d)) % w, rest)
  {
  }

  lemma SmallMod(n: nat, w: nat)
    requires n < w
    ensures n % w == n && n / 10 < w && (n / 10 * 10 + n % 10) % w == n
  {
  }

  /** A printed number followed by anything but a digit is read back whole. */
  lemma {:induction false} ReadsNumberBefore(n: nat, rest: string, w: nat)
    requires n < w && StopsDigits(rest)
    ensures ReadDigits(Decimal(n) + rest, 0, w) == (n, rest)
    decreases n
  {
    SmallMod(n, w);
    if n < 10 {
      ReadLastDigit(DigitChar(n), rest, 0, w);
    } else {
      var y := [DigitChar(n % 10)] + rest;
      ReadsNumberBefore(n / 10, "", w);
      assert Decimal(n / 10) + "" == Decimal(n / 10);
      ReadThrough(Decimal(n / 10), y, 0, w);
      ReadLastDigit(DigitChar(n % 10), rest, n / 10, w);
      assert Decimal(n) + rest == Decimal(n / 10) + y;
    }
  }

  /** Reading a printed list returns its first nOut integers, if they fit the row-count type. */
  lemma {:induction false} PrintedDecodes(xs: seq<nat>, nOut: nat, w: nat)
    requires w > 0 && forall i | 0 <= i < |xs| :: xs[i] < w
    ensures Decoded(Printed(xs), nOut, w) == xs[..if nOut < |xs| then nOut else |xs|]
  {
    if |xs| == 0 || nOut == 0 {
    } else if |xs| == 1 {
      assert Decimal(xs[0]) + "" == Decimal(xs[0]);
      ReadsNumberBefore(xs[0], "", w);
      assert Decoded("", nOut - 1, w) == [];
    } else {
      var rest := " " + Printed(xs[1..]);
      assert Printed(xs) == Decimal(xs[0]) + rest;
      ReadsNumberBefore(xs[0], rest, w);
      assert SkipSpace(rest) == Printed(xs[1..]);
      PrintedDecodes(xs[1..], nOut - 1, w);
    }
  }

  lemma {:induction false} PrintedAppend(xs: seq<nat>, x: nat)
    requires |xs| > 0
    ensures Printed(xs + [x]) == Printed(xs) + " " + Decimal(x)
  {
    var ys := xs + [x];
    if |xs| == 1 {
      assert ys[1..] == [x];
    } else {
      assert ys[1..] == xs[1..] + [x];
      PrintedAppend(xs[1..], x);
      assert Printed(ys) == Decimal(xs[0]) + " " + (Printed(xs[1..]) + " " + Decimal(x));
    }
  }

  /** Print each count followed by a space, then cut the last space off. */
  method PrintCounts(aCnt: seq<nat>) returns (zRet: string)
    requires |aCnt| > 0
    ensures zRet == Printed(aCnt)
  {
    zRet := "";
    var i := 0;
    while i < |aCnt|
      invariant 0 <= i <= |aCnt|
      invariant zRet == if i == 0 then "" else Printed(aCnt[..i]) + " "
    {
      if i > 0 { PrintedAppend(aCnt[..i], aCnt[i]); }
      assert aCnt[..i + 1] == aCnt[..i] + [aCnt[i]];
      zRet := zRet + Decimal(aCnt[i]) + " ";
      i := i + 1;
    }
    assert aCnt[..i] == aCnt;
    zRet := zRet[..|zRet| - 1];
  }
}
