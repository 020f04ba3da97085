/** A table of non-zero numbers with linear probing; zero marks an empty slot. */
module LinearProbe {

  function Home(n: nat, v: nat): (h: nat)
    requires n > 0 && v > 0
    ensures h < n
  {
    (v - 1) % n
  }

  function Next(n: nat, h: nat): (k: nat)
    requires h < n
    ensures k < n
  {
    if h + 1 >= n then 0 else h + 1
  }

  /** Slot x is met before slot k when walking from slot h around the table. */
  predicate Between(h: nat, x: nat, k: nat) {
    if h <= k then h <= x < k else x >= h || x < k
  }

  /** Every slot from h up to k, not counting k, is taken. */
  ghost predicate TakenUpTo(t: seq<nat>, h: nat, k: nat)
    requires h < |t| && k < |t|
  {
    forall x | 0 <= x < |t| && Between(h, x, k) :: t[x] != 0
  }

  /** No empty slot lies between a value's home and the slot it is in, and no value occurs twice. */
  ghost predicate WellPlaced(t: seq<nat>) {
    && (forall k | 0 <= k < |t| && t[k] != 0 :: TakenUpTo(t, Home(|t|, t[k]), k))
    && (forall k, l | 0 <= k < |t| && 0 <= l < |t| && t[k] != 0 && t[k] == t[l] :: k == l)
  }

  ghost function Values(t: seq<nat>): set<nat> {
    set v | v in t && v != 0
  }

  function Count(t: seq<nat>): (n: nat)
    ensures n <= |t|
  {
    if t == [] then 0 else Count(t[..|t| - 1]) + if t[|t| - 1] != 0 then 1 else 0
  }

  function Empty(n: nat): (t: seq<nat>)
    ensures |t| == n && forall k | 0 <= k < n :: t[k] == 0
  {
    seq(n, _ => 0)
  }

  lemma {:induction false} CountEmpty(t: seq<nat>)
    requires forall k | 0 <= k < |t| :: t[k] == 0
    ensures Count(t) == 0
  {
    if t != [] {
      CountEmpty(t[..|t| - 1]);
    }
  }

  lemma {:induction false} CountFill(t: seq<nat>, h: nat, v: nat)
    requires h < |t| && t[h] == 0 && v != 0
    ensures Count(t[h := v]) == Count(t) + 1
  {
    var n := |t| - 1;
    if h < n {
      assert t[h := v][..n] == t[..n][h := v];
      CountFill(t[..n], h, v);
    } else {
      assert t[h := v][..n] == t[..n];
    }
  }

  /** A table that is not full has an empty slot. */
  lemma {:induction false} EmptySlot(t: seq<nat>) returns (e: nat)
    requires Count(t) < |t|
    ensures e < |t| && t[e] == 0
  {
    if t[|t| - 1] == 0 {
      e := |t| - 1;
    } else {
      e := EmptySlot(t[..|t| - 1]);
    }
  }

  /** Walking from a value's home to an empty slot without meeting it shows it is absent. */
  lemma AbsentIfNotMet(t: seq<nat>, v: nat, h: nat)
    requires v > 0 && h < |t| && t[h] == 0 && WellPlaced(t)
    requires forall x | 0 <= x < |t| && Between(Home(|t|, v), x, h) :: t[x] != v
    ensures v !in t
  {
  }

  /** Putting an absent value into the first empty slot on its way. */
  lemma PlaceKeeps(t: seq<nat>, v: nat, h: nat)
    requires v > 0 && h < |t| && t[h] == 0 && WellPlaced(t) && v !in t
    requires TakenUpTo(t, Home(|t|, v), h)
    ensures WellPlaced(t[h := v])
    ensures Values(t[h := v]) == Values(t) + {v}
    ensures Count(t[h := v]) == Count(t) + 1
  {
    var u := t[h := v];
    forall k | 0 <= k < |u| && u[k] != 0
      ensures TakenUpTo(u, Home(|u|, u[k]), k)
    {
      if k != h {
        assert TakenUpTo(t, Home(|t|, t[k]), k);
      }
    }
    CountFill(t, h, v);
    PlaceValues(t, v, h);
  }

  lemma PlaceValues(t: seq<nat>, v: nat, h: nat)
    requires v > 0 && h < |t| && t[h] == 0
    ensures Values(t[h := v]) == Values(t) + {v}
  {
    var u := t[h := v];
    forall x | x in Values(t)
      ensures x in Values(u)
    {
      var k :| 0 <= k < |t| && t[k] == x;
      assert u[k] == x;
    }
    assert u[h] == v;
  }

  /** How far slot e is when walking from slot h. */
  function Distance(n: nat, h: nat, e: nat): nat
    requires h < n && e < n
  {
    if h <= e then e - h else e + n - h
  }

  /** Walk from h to the first empty slot, or to v itself. */
  method Probe(t: seq<nat>, v: nat) returns (h: nat, found: bool)
    requires v > 0 && WellPlaced(t) && Count(t) < |t|
    ensures h < |t|
    ensures found <==> v in t
    ensures found ==> t[h] == v
    ensures !found ==> t[h] == 0 && TakenUpTo(t, Home(|t|, v), h)
  {
    ghost var e := EmptySlot(t);
    h, found := Home(|t|, v), false;
    while t[h] != 0
      invariant h < |t|
      invariant forall x | 0 <= x < |t| && Between(Home(|t|, v), x, h) :: t[x] != 0 && t[x] != v
      decreases Distance(|t|, h, e)
    {
      if t[h] == v { return h, true; }
      ghost var h0, hm := h, Home(|t|, v);
      h := Next(|t|, h);
      assert forall x | 0 <= x < |t| && Between(hm, x, h) :: Between(hm, x, h0) || x == h0;
    }
    AbsentIfNotMet(t, v, h);
  }

  /** Walk from v's home to the first empty slot. */
  method FindFree(t: seq<nat>, v: nat) returns (h: nat)
    requires v > 0 && Count(t) < |t|
    ensures h < |t| && t[h] == 0 && TakenUpTo(t, Home(|t|, v), h)
  {
    ghost var e := EmptySlot(t);
    h := Home(|t|, v);
    while t[h] != 0
      invariant h < |t| && TakenUpTo(t, Home(|t|, v), h)
      decreases Distance(|t|, h, e)
    {
      ghost var h0, hm := h, Home(|t|, v);
      h := Next(|t|, h);
      assert forall x | 0 <= x < |t| && Between(hm, x, h) :: Between(hm, x, h0) || x == h0;
    }
  }

  lemma {:induction false} CountPrefix(t: seq<nat>, j: nat)
    requires j <= |t|
    ensures Count(t[..j]) <= Count(t)
  {
    if j < |t| {
      assert t[..|t| - 1][..j] == t[..j];
      CountPrefix(t[..|t| - 1], j);
    } else {
      assert t[..j] == t;
    }
  }

  /** One more slot adds its value. */
  lemma ValuesNext(t: seq<nat>, j: nat)
    requires j < |t|
    ensures Values(t[..j + 1]) == Values(t[..j]) + if t[j] != 0 then {t[j]} else {}
  {
    assert t[..j + 1] == t[..j] + [t[j]];
  }

  lemma ValuesStep(t: seq<nat>, j: nat)
    requires j < |t| && WellPlaced(t)
    ensures Values(t[..j + 1]) == Values(t[..j]) + if t[j] != 0 then {t[j]} else {}
    ensures Count(t[..j + 1]) == Count(t[..j]) + if t[j] != 0 then 1 else 0
    ensures t[j] !in Values(t[..j])
  {
    assert t[..j + 1] == t[..j] + [t[j]];
    assert t[..j + 1][..j] == t[..j];
  }

  lemma AbsentValue(t: seq<nat>, v: nat)
    requires v != 0 && v !in Values(t)
    ensures v !in t
  {
  }

  /** Build the table again without value v, in slot order. */
  method Rebuild(aiValues: seq<nat>, v: nat) returns (t: seq<nat>, nSet: nat)
    requires WellPlaced(aiValues) && Count(aiValues) < |aiValues|
    ensures |t| == |aiValues| && WellPlaced(t)
    ensures nSet == Count(t) <= Count(aiValues)
    ensures Values(t) == Values(aiValues) - {v}
  {
    t, nSet := Empty(|aiValues|), 0;
    CountEmpty(t);
    var j := 0;
    while j < |aiValues|
      invariant 0 <= j <= |aiValues| == |t|
      invariant WellPlaced(t) && nSet == Count(t) <= Count(aiValues[..j])
      invariant Values(t) == Values(aiValues[..j]) - {v}
    {
      ValuesStep(aiValues, j);
      CountPrefix(aiValues, j);
      if aiValues[j] != 0 && aiValues[j] != v {
        var h := FindFree(t, aiValues[j]);
        AbsentValue(t, aiValues[j]);
        PlaceKeeps(t, aiValues[j], h);
        nSet := nSet + 1;
        t := t[h := aiValues[j]];
      }
      j := j + 1;
    }
    assert aiValues[..j] == aiValues;
  }
}
