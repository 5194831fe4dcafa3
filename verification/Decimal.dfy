/**
 Bringing two blocks of decimal numbers to a common exponent (`calibrate_scale` in
 crates/esl-common/src/decimal.rs). A block holds 64-bit mantissas with one 16-bit exponent;
 three mantissas are reserved for the infinities and the staleness mark.

 Overflow of 16-bit and 64-bit arithmetic wraps around, as it does in the release profile.
 */
module Decimal {

  import opened Integers

  const V_MAX: int := INT64_MAX - 2
  const V_MIN: int := INT64_MIN + 1

  predicate Special(v: int) {
    v < V_MIN || v > V_MAX
  }

  function Pow10(k: nat): (p: nat)
    ensures p > 0
  {
    if k == 0 then 1 else 10 * Pow10(k - 1)
  }

  const MULTIPLIERS: seq<int> := [
    1, 10, 100, 1_000, 10_000, 100_000, 1_000_000, 10_000_000, 100_000_000, 1_000_000_000,
    10_000_000_000, 100_000_000_000, 1_000_000_000_000, 10_000_000_000_000, 100_000_000_000_000,
    1_000_000_000_000_000, 10_000_000_000_000_000, 100_000_000_000_000_000, 1_000_000_000_000_000_000]

  function Multiplier(exp: nat): int {
    if exp >= |MULTIPLIERS| then 1 else MULTIPLIERS[exp]
  }

  lemma {:induction false} MultiplierIsPower(k: nat)
    requires k <= 18
    ensures Multiplier(k) == Pow10(k)
  {
    if k > 0 {
      MultiplierIsPower(k - 1);
      assert MULTIPLIERS[k] == 10 * MULTIPLIERS[k - 1];
    }
  }

  function Abs(v: int): nat {
    if v < 0 then -v else v
  }

  /** The greatest exponent, of those up to `k`, by which `v` can go up. */
  function MaxUpFrom(v: nat, k: nat): (m: nat)
    requires k <= 18
    ensures m <= k
  {
    if k == 0 then 0 else if v <= INT64_MAX / MULTIPLIERS[k] then k else MaxUpFrom(v, k - 1)
  }

  /** Zeros and special values go up by any exponent. */
  function MaxUpExponent(v: int): (m: nat)
    ensures m <= 18 || (m == 1024 && (v == 0 || Special(v)))
  {
    if v == 0 || Special(v) then 1024 else MaxUpFrom(Abs(v), 18)
  }

  lemma QuotientMeans(v: nat, p: nat)
    requires p > 0
    ensures v <= INT64_MAX / p <==> v * p <= INT64_MAX
  {
    var q, r := INT64_MAX / p, INT64_MAX % p;
    assert INT64_MAX == q * p + r;
    if v <= q {
      assert v * p <= q * p;
    } else {
      assert v * p >= (q + 1) * p;
    }
  }

  lemma {:induction false} MaxUpFromMeans(v: nat, k: nat)
    requires k <= 18 && v <= INT64_MAX
    ensures var m := MaxUpFrom(v, k);
            v * Pow10(m) <= INT64_MAX && (m < k ==> v * Pow10(m + 1) > INT64_MAX)
  {
    if k > 0 {
      MultiplierIsPower(k);
      QuotientMeans(v, Pow10(k));
      if v > INT64_MAX / MULTIPLIERS[k] {
        MaxUpFromMeans(v, k - 1);
      }
    }
  }

  lemma {:induction false} Pow10Monotone(i: nat, j: nat)
    requires i <= j
    ensures Pow10(i) <= Pow10(j)
  {
    if i < j {
      Pow10Monotone(i, j - 1);
    }
  }

  lemma ProductMonotone(v: nat, p: nat, q: nat)
    requires p <= q
    ensures v * p <= v * q
  {
  }

  lemma FitsBelow(v: nat, k: nat, m: nat)
    requires k <= m && v * Pow10(m) <= INT64_MAX
    ensures v * Pow10(k) <= INT64_MAX
  {
    Pow10Monotone(k, m);
    ProductMonotone(v, Pow10(k), Pow10(m));
  }

  lemma OverflowsAbove(v: nat, k: nat, m: nat)
    requires m <= k && v * Pow10(m) > INT64_MAX
    ensures v * Pow10(k) > INT64_MAX
  {
    Pow10Monotone(m, k);
    ProductMonotone(v, Pow10(m), Pow10(k));
  }

  lemma OverflowsAt19(v: nat)
    requires v > 0
    ensures v * Pow10(19) > INT64_MAX
  {
    MultiplierIsPower(18);
    var p := Pow10(19);
    assert p == 10 * MULTIPLIERS[18];
    ProductMonotone(p, 1, v);
  }

  /** `v` goes up by `k` without overflow exactly if `k` is not beyond its greatest exponent. */
  lemma FitsExactly(v: int, k: nat)
    requires Int64(v) && v != 0 && !Special(v)
    ensures Abs(v) * Pow10(k) <= INT64_MAX <==> k <= MaxUpExponent(v)
  {
    var m, a := MaxUpExponent(v), Abs(v);
    MaxUpFromMeans(a, 18);
    if k <= m {
      FitsBelow(a, k, m);
    } else {
      if m == 18 {
        OverflowsAt19(a);
      }
      OverflowsAbove(a, k, m + 1);
    }
  }

  /** What becomes of a mantissa of the block with the higher exponent. */
  function ScaledUp(v: int, up: int): int {
    if up <= 0 || Special(v) then v else Wrap64(v * Multiplier(up))
  }

  /** What becomes of a mantissa of the other block. */
  function ScaledDown(v: int, down: nat): int {
    if down == 0 || Special(v) then v
    else if down > 18 then 0
    else (MultiplierIsPower(down); TruncDiv(v, Multiplier(down)))
  }

  // ----- how far to go down

  /** The source's maximum over the block with the higher exponent, wrap-around included. */
  function DownExp(hi: seq<int>, up: int): (d: nat)
    ensures d < 0x8000
  {
    if hi == [] then 0 else
    var m := |hi| - 1;
    var d, x := DownExp(hi[..m], up), Wrap16(up - MaxUpExponent(hi[m]));
    if x > d then x else d
  }

  /** The difference of the exponents is at most this much beyond 16 bits for `v`. */
  predicate Reachable(v: int, diff: int) {
    MaxUpExponent(v) > diff - 0x8000
  }

  /** Every ordinary non-zero mantissa survives the wrap-around; all do if the difference fits 16 bits. */
  predicate AllReachable(hi: seq<int>, diff: int) {
    forall i :: 0 <= i < |hi| && hi[i] != 0 && !Special(hi[i]) ==> Reachable(hi[i], diff)
  }

  lemma WrappedDifference(v: int, diff: int)
    requires 0 < diff <= 0xffff
    ensures var x := Wrap16(Wrap16(diff) - MaxUpExponent(v));
            if Reachable(v, diff) then x == diff - MaxUpExponent(v) else x < 0
  {
    assert Wrap16(diff) == if diff < 0x8000 then diff else diff - 0x1_0000;
  }

  lemma {:induction false} DownExpMeans(hi: seq<int>, diff: int)
    requires 0 < diff <= 0xffff
    ensures var d := DownExp(hi, Wrap16(diff));
            && (forall i :: 0 <= i < |hi| && Reachable(hi[i], diff) ==> diff - MaxUpExponent(hi[i]) <= d)
            && (d == 0 || exists i :: 0 <= i < |hi| && Reachable(hi[i], diff) && d == diff - MaxUpExponent(hi[i]))
  {
    if hi != [] {
      var m := |hi| - 1;
      DownExpMeans(hi[..m], diff);
      WrappedDifference(hi[m], diff);
      var d := DownExp(hi[..m], Wrap16(diff));
      if d > 0 {
        var i :| 0 <= i < |hi[..m]| && Reachable(hi[..m][i], diff) && d == diff - MaxUpExponent(hi[..m][i]);
        assert hi[i] == hi[..m][i];
      }
      forall i | 0 <= i < |hi| && Reachable(hi[i], diff)
        ensures diff - MaxUpExponent(hi[i]) <= DownExp(hi, Wrap16(diff))
      {
        if i < m {
          assert hi[..m][i] == hi[i];
        }
      }
    }
  }

  /** How far the block with the higher exponent goes up. */
  function UpExp(hi: seq<int>, diff: int): int {
    Wrap16(Wrap16(diff) - DownExp(hi, Wrap16(diff)))
  }

  /** Going up by what is left of a wrapped difference. */
  lemma WrappedUp(diff: int, m: nat)
    requires 0 < diff <= 0xffff && m <= 1024 && diff - 0x8000 < m < diff
    ensures Wrap16(Wrap16(diff) - (diff - m)) == m
  {
    if diff >= 0x8000 {
      assert Wrap16(diff) == diff - 0x1_0000;
      assert Wrap16(m - 0x1_0000) == m;
    }
  }

  lemma UpExpMeans(hi: seq<int>, diff: int)
    requires 0 < diff <= 0xffff
    ensures var d := DownExp(hi, Wrap16(diff));
            && d <= diff
            && UpExp(hi, diff) == if d == 0 then Wrap16(diff) else diff - d
  {
    var m := LeftToGoUp(hi, diff);
    if DownExp(hi, Wrap16(diff)) > 0 {
      WrappedUp(diff, m);
    }
  }

  /** Where the block goes down, what is left to go up is some value's greatest exponent. */
  lemma LeftToGoUp(hi: seq<int>, diff: int) returns (m: nat)
    requires 0 < diff <= 0xffff
    ensures var d := DownExp(hi, Wrap16(diff));
            d > 0 ==> d == diff - m && (m <= 18 || m == 1024) && diff - 0x8000 < m
  {
    m := 0;
    DownExpMeans(hi, diff);
    if DownExp(hi, Wrap16(diff)) > 0 {
      var i :| 0 <= i < |hi| && Reachable(hi[i], diff) && DownExp(hi, Wrap16(diff)) == diff - MaxUpExponent(hi[i]);
      m := MaxUpExponent(hi[i]);
    }
  }

  // ----- when the values are kept

  /** The mantissa stands for the same number at the exponent lower by `k`. */
  predicate SameNumber(v: int, scaled: int, k: nat) {
    scaled == v * Pow10(k)
  }

  lemma TenTimes(x: int)
    ensures (10 * x) % 10 == 0
  {
  }

  lemma TimesTen(v: int, p: int)
    ensures v * (10 * p) == 10 * (v * p)
  {
  }

  lemma TenDivides(v: int, k: nat)
    requires k > 0
    ensures (v * Pow10(k)) % 10 == 0
  {
    var p := Pow10(k - 1);
    TimesTen(v, p);
    TenTimes(v * p);
  }

  lemma AbsProduct(v: int, p: nat)
    ensures Abs(v * p) == Abs(v) * p
  {
  }

  /** Going up within bounds keeps the number and never makes it special. */
  lemma UpWithinBounds(v: int, k: nat)
    requires Int64(v) && v != 0 && !Special(v) && k <= MaxUpExponent(v)
    ensures SameNumber(v, ScaledUp(v, k), k) && !Special(ScaledUp(v, k))
  {
    FitsExactly(v, k);
    AbsProduct(v, Pow10(k));
    if k > 0 {
      MultiplierIsPower(k);
      TenDivides(v, k);
    }
  }

  /** Going up beyond bounds does not keep the number. */
  lemma UpBeyondBounds(v: int, k: nat)
    requires Int64(v) && v != 0 && !Special(v) && MaxUpExponent(v) < k <= 18
    ensures !SameNumber(v, ScaledUp(v, k), k)
  {
    FitsExactly(v, k);
    AbsProduct(v, Pow10(k));
    TenDivides(v, k);
    assert INT64_MIN % 10 != 0;
  }

  lemma NotScaled(v: int, k: nat)
    requires v != 0 && k > 0
    ensures !SameNumber(v, v, k)
  {
    Pow10Monotone(1, k);
    assert Pow10(1) == 10;
    AbsProduct(v, Pow10(k));
    ProductMonotone(Abs(v), 10, Pow10(k));
  }

  lemma UpKeeps(hi: seq<int>, diff: int, i: nat)
    requires 0 < diff <= 0xffff && i < |hi| && Int64(hi[i]) && !Special(hi[i])
    requires hi[i] != 0 ==> Reachable(hi[i], diff)
    ensures var d := DownExp(hi, Wrap16(diff));
            && d <= diff && SameNumber(hi[i], ScaledUp(hi[i], UpExp(hi, diff)), diff - d)
            && !Special(ScaledUp(hi[i], UpExp(hi, diff)))
  {
    var v, d, up := hi[i], DownExp(hi, Wrap16(diff)), UpExp(hi, diff);
    UpExpMeans(hi, diff);
    if v == 0 {
      assert v * Pow10(diff - d) == 0;
      assert up > 0 ==> v * Multiplier(up) == 0;
    } else {
      DownExpMeans(hi, diff);
      assert diff - MaxUpExponent(v) <= d;
      UpWithinBounds(v, diff - d);
    }
  }

  /** Scaling by a power that is not this number's loses it. */
  lemma WrongPower(v: int, up: nat)
    requires Int64(v) && !Special(v) && v != 0 && MaxUpExponent(v) < up && (up <= 18 || up == 1024)
    ensures !SameNumber(v, ScaledUp(v, up), up)
  {
    if up <= 18 {
      UpBeyondBounds(v, up);
    } else {
      assert Multiplier(up) == 1;
      NotScaled(v, up);
    }
  }

  lemma UpLoses(hi: seq<int>, diff: int, i: nat)
    requires 0 < diff <= 0xffff && i < |hi| && Int64(hi[i]) && !Special(hi[i]) && hi[i] != 0
    requires !Reachable(hi[i], diff)
    ensures var d := DownExp(hi, Wrap16(diff));
            d <= diff && !SameNumber(hi[i], ScaledUp(hi[i], UpExp(hi, diff)), diff - d)
  {
    var v, d, up := hi[i], DownExp(hi, Wrap16(diff)), UpExp(hi, diff);
    UpExpMeans(hi, diff);
    if d == 0 {
      NotScaled(v, diff);
    } else {
      var m := LeftToGoUp(hi, diff);
      WrongPower(v, m);
    }
  }

  lemma SmallQuotient(v: int, p: nat)
    requires Abs(v) < p
    ensures TruncDiv(v, p) == 0
  {
    QuotientOfLess(Abs(v), p);
  }

  lemma QuotientOfLess(x: nat, p: nat)
    requires x < p
    ensures x / p == 0
  {
    var q := x / p;
    assert x == q * p + x % p;
    assert q >= 1 ==> q * p >= p;
    assert q <= -1 ==> q * p + p <= 0;
  }

  lemma QuotientSize(v: int, p: nat)
    requires p > 0
    ensures Abs(TruncDiv(v, p)) == Abs(v) / p
  {
    var q := Abs(v) / p;
    assert q >= 0;
  }

  /** Going down truncates toward zero at the new exponent. */
  lemma DownMeans(v: int, d: nat)
    requires Int64(v) && !Special(v)
    ensures ScaledDown(v, d) == TruncDiv(v, Pow10(d))
  {
    if d > 18 {
      MultiplierIsPower(18);
      var p := Pow10(19);
      assert p == 10 * MULTIPLIERS[18];
      Pow10Monotone(19, d);
      SmallQuotient(v, Pow10(d));
    } else if d > 0 {
      MultiplierIsPower(d);
    }
  }

  lemma DownIsOrdinary(v: int, d: nat)
    requires Int64(v) && !Special(v)
    ensures !Special(ScaledDown(v, d))
  {
    if 0 < d <= 18 {
      MultiplierIsPower(d);
      var p := Multiplier(d);
      Pow10Monotone(1, d);
      QuotientSize(v, p);
      QuotientBelowTenth(Abs(v), p);
    }
  }

  lemma QuotientBelowTenth(v: nat, p: nat)
    requires p >= 10
    ensures v / p <= v / 10
  {
    var q := v / p;
    assert v == q * p + v % p;
    ProductMonotone(q, 10, p);
  }

  // ----- the whole operation

  ghost predicate AllInt64(s: seq<int>) {
    forall i :: 0 <= i < |s| ==> Int64(s[i])
  }

  /** The blocks with the higher and the lower exponent before and after, and the shared exponent. */
  ghost predicate Rescaled(hi: seq<int>, he: int, lo: seq<int>, le: int, hi': seq<int>, lo': seq<int>, e: int) {
    var diff := he - le;
    var d := DownExp(hi, Wrap16(diff));
    && e == le + d && |hi'| == |hi| && |lo'| == |lo|
    && (forall i :: 0 <= i < |hi| ==> hi'[i] == ScaledUp(hi[i], UpExp(hi, diff)))
    && (forall i :: 0 <= i < |lo| ==> lo'[i] == ScaledDown(lo[i], d))
  }

  /** Special values stay and ordinary ones are truncated toward zero at the shared exponent. */
  lemma LowerBlock(hi: seq<int>, he: int, lo: seq<int>, le: int, hi': seq<int>, lo': seq<int>, e: int)
    requires Int16(he) && Int16(le) && le < he && AllInt64(lo) && Rescaled(hi, he, lo, le, hi', lo', e)
    ensures le <= e <= he
    ensures forall i :: 0 <= i < |lo| && Special(lo[i]) ==> lo'[i] == lo[i]
    ensures forall i :: 0 <= i < |lo| && !Special(lo[i]) ==>
              lo'[i] == TruncDiv(lo[i], Pow10(e - le)) && !Special(lo'[i])
  {
    UpExpMeans(hi, he - le);
    forall i | 0 <= i < |lo| && !Special(lo[i])
      ensures lo'[i] == TruncDiv(lo[i], Pow10(e - le)) && !Special(lo'[i])
    {
      DownMeans(lo[i], e - le);
      DownIsOrdinary(lo[i], e - le);
    }
  }

  ghost predicate ValuesKept(hi: seq<int>, hi': seq<int>, k: nat)
    requires |hi'| == |hi|
  {
    forall i :: 0 <= i < |hi| && !Special(hi[i]) ==> SameNumber(hi[i], hi'[i], k)
  }

  /**
   The numbers of the higher block are kept exactly if each of them is reachable, which they
   all are if the difference of the exponents fits 16 bits. None then becomes special.
   */
  lemma HigherBlock(hi: seq<int>, he: int, lo: seq<int>, le: int, hi': seq<int>, lo': seq<int>, e: int)
    requires Int16(he) && Int16(le) && le < he && AllInt64(hi) && Rescaled(hi, he, lo, le, hi', lo', e)
    ensures le <= e <= he
    ensures forall i :: 0 <= i < |hi| && Special(hi[i]) ==> hi'[i] == hi[i]
    ensures ValuesKept(hi, hi', he - e) <==> AllReachable(hi, he - le)
    ensures he - le < 0x8000 ==> AllReachable(hi, he - le)
    ensures AllReachable(hi, he - le) ==> forall i :: 0 <= i < |hi| && !Special(hi[i]) ==> !Special(hi'[i])
  {
    var diff := he - le;
    UpExpMeans(hi, diff);
    forall i | 0 <= i < |hi| && !Special(hi[i])
      ensures SameNumber(hi[i], hi'[i], he - e) <==> hi[i] == 0 || Reachable(hi[i], diff)
      ensures hi[i] == 0 || Reachable(hi[i], diff) ==> !Special(hi'[i])
    {
      if hi[i] == 0 || Reachable(hi[i], diff) {
        UpKeeps(hi, diff, i);
      } else {
        UpLoses(hi, diff, i);
      }
    }
  }

  /** A lower shared exponent would overflow some number of the higher block. */
  lemma ExponentIsLeast(hi: seq<int>, he: int, lo: seq<int>, le: int, hi': seq<int>, lo': seq<int>, e: int)
    requires Int16(he) && Int16(le) && le < he && AllInt64(hi) && Rescaled(hi, he, lo, le, hi', lo', e)
    requires AllReachable(hi, he - le) && exists i :: 0 <= i < |hi| && hi[i] != 0 && !Special(hi[i])
    ensures e == le || exists i :: 0 <= i < |hi| && hi[i] != 0 && !Special(hi[i])
                                   && he >= e && Abs(hi[i]) * Pow10(he - e + 1) > INT64_MAX
  {
    var diff := he - le;
    DownExpMeans(hi, diff);
    UpExpMeans(hi, diff);
    if e != le {
      var j :| 0 <= j < |hi| && hi[j] != 0 && !Special(hi[j]);
      assert Reachable(hi[j], diff);
      var i :| 0 <= i < |hi| && Reachable(hi[i], diff) && e - le == diff - MaxUpExponent(hi[i]);
      assert MaxUpExponent(hi[i]) <= 18;
      FitsExactly(hi[i], he - e + 1);
    }
  }

  lemma OneGoesUpBy18()
    ensures MaxUpExponent(1) == 18
  {
  }

  lemma FarWrapped(diff: int)
    requires 0x8000 + 18 <= diff <= 0xffff
    ensures Wrap16(diff) < 0 && Wrap16(Wrap16(diff) - 18) < 0
  {
  }

  /** With the exponents this far apart the source returns the lower one and leaves 1 as it is. */
  lemma FarExponentsLoseValues(he: int, le: int)
    requires Int16(he) && Int16(le) && he - le >= 0x8000 + 18
    ensures Rescaled([1], he, [1], le, [1], [1], le) && !ValuesKept([1], [1], he - le)
  {
    var hi: seq<int> := [1];
    OneGoesUpBy18();
    FarWrapped(he - le);
    assert hi[..0] == [];
    assert DownExp(hi, Wrap16(he - le)) == 0;
    NotScaled(hi[0], he - le);
  }

  /** Blocks with equal exponents, or one of them empty, are left as they are. */
  ghost predicate Calibrated(a: seq<int>, ae: int, b: seq<int>, be: int, a': seq<int>, b': seq<int>, e: int) {
    if ae == be || a == [] || b == [] then
      a' == a && b' == b && e == (if ae == be then ae else if a == [] then be else ae)
    else if ae > be then Rescaled(a, ae, b, be, a', b', e)
    else Rescaled(b, be, a, ae, b', a', e)
  }

  method CalibrateScale(a: array<int>, ae: int, b: array<int>, be: int) returns (e: int)
    requires a != b && Int16(ae) && Int16(be)
    modifies a, b
    ensures Calibrated(old(a[..]), ae, old(b[..]), be, a[..], b[..], e)
  {
    if ae == be {
      return ae;
    }
    if a.Length == 0 {
      return be;
    }
    if b.Length == 0 {
      return ae;
    }
    if ae < be {
      e := Rescale(b, be, a, ae);
    } else {
      e := Rescale(a, ae, b, be);
    }
  }

  method Rescale(hi: array<int>, he: int, lo: array<int>, le: int) returns (e: int)
    requires hi != lo && Int16(he) && Int16(le) && le < he
    modifies hi, lo
    ensures Rescaled(old(hi[..]), he, old(lo[..]), le, hi[..], lo[..], e)
  {
    var up := Wrap16(he - le);
    var down := FindDownExp(hi, up);
    up := Wrap16(up - down);
    if up > 0 {
      MultiplyAll(hi, up);
    }
    if down > 0 {
      DivideAll(lo, down);
    }
    e := le + down;
  }

  /** The greatest amount by which a value falls short of going up by `up`. */
  method FindDownExp(hi: array<int>, up: int) returns (down: nat)
    ensures down == DownExp(hi[..], up)
  {
    down := 0;
    for i := 0 to hi.Length
      invariant down == DownExp(hi[..i], up)
    {
      assert hi[..i + 1][..i] == hi[..i];
      var x := Wrap16(up - MaxUpExponent(hi[i]));
      if x > down {
        down := x;
      }
    }
    assert hi[..hi.Length] == hi[..];
  }

  method MultiplyAll(hi: array<int>, up: nat)
    requires up > 0
    modifies hi
    ensures forall i :: 0 <= i < hi.Length ==> hi[i] == ScaledUp(old(hi[i]), up)
  {
    var m := Multiplier(up);
    for i := 0 to hi.Length
      invariant forall k :: 0 <= k < i ==> hi[k] == ScaledUp(old(hi[k]), up)
      invariant forall k :: i <= k < hi.Length ==> hi[k] == old(hi[k])
    {
      if !Special(hi[i]) {
        hi[i] := Wrap64(hi[i] * m);
      }
    }
  }

  method DivideAll(lo: array<int>, down: nat)
    requires down > 0
    modifies lo
    ensures forall i :: 0 <= i < lo.Length ==> lo[i] == ScaledDown(old(lo[i]), down)
  {
    if down > 18 {
      for i := 0 to lo.Length
        invariant forall k :: 0 <= k < i ==> lo[k] == ScaledDown(old(lo[k]), down)
        invariant forall k :: i <= k < lo.Length ==> lo[k] == old(lo[k])
      {
        if !Special(lo[i]) {
          lo[i] := 0;
        }
      }
    } else {
      MultiplierIsPower(down);
      var m := Multiplier(down);
      for i := 0 to lo.Length
        invariant forall k :: 0 <= k < i ==> lo[k] == ScaledDown(old(lo[k]), down)
        invariant forall k :: i <= k < lo.Length ==> lo[k] == old(lo[k])
      {
        if !Special(lo[i]) {
          lo[i] := TruncDiv(lo[i], m);
        }
      }
    }
  }

  /** Three mantissas are reserved: the two greatest and the least. */
  lemma SpecialExactly(v: int)
    requires Int64(v)
    ensures Special(v) <==> v in {0x7fff_ffff_ffff_ffff, 0x7fff_ffff_ffff_fffe, -0x8000_0000_0000_0000}
  {
  }

  lemma {:induction false} NothingToKeep(hi: seq<int>, up: int)
    requires hi != [] && forall i :: 0 <= i < |hi| ==> hi[i] == 0 || Special(hi[i])
    ensures DownExp(hi, up) == if Wrap16(up - 1024) > 0 then Wrap16(up - 1024) else 0
  {
    var m := |hi| - 1;
    if m == 0 {
      assert hi[..0] == [];
    } else {
      NothingToKeep(hi[..m], up);
    }
  }

  /**
   A block of zeros and special values goes to the lower exponent if that is up to 1024 away, and comes
   that far if not.
   */
  lemma ZerosGoDown(hi: seq<int>, he: int, lo: seq<int>, le: int, hi': seq<int>, lo': seq<int>, e: int)
    requires Int16(he) && Int16(le) && le < he && Rescaled(hi, he, lo, le, hi', lo', e)
    requires hi != [] && forall i :: 0 <= i < |hi| ==> hi[i] == 0 || Special(hi[i])
    ensures he - le <= 1024 ==> e == le
    ensures 1024 < he - le < 0x8000 + 1024 ==> e == he - 1024
  {
    NothingToKeep(hi, Wrap16(he - le));
    assert he - le >= 0x8000 ==> Wrap16(he - le) == he - le - 0x1_0000;
  }
}
