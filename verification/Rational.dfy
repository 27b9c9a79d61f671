/**
 The resampler's approximation of a scale factor by a fraction: the convergents of
 its continued fraction, until one is within a single-precision bit of it.
 */
module Rational {
  import opened Common

  const ONE: nat := 0x200_0000            // 1 << 25, the fixed-point unit
  const TOLERANCE: real := 1.0 / 16777216.0 // 1 / (1 << 24)
  const UINT32: nat := 0x1_0000_0000

  /** The loop's variables: what is left to expand and the last two convergents. */
  datatype State = State(top: nat, bot: nat, n: nat, n': nat, d: nat, d': nat)

  function Start(top0: nat): State {
    State(top0, ONE, 1, 0, 0, 1)
  }

  /** One step of the expansion. */
  function Next(s: State): State
    requires s.bot > 0
  {
    var est := s.top / s.bot;
    State(s.bot, s.top % s.bot, est * s.n + s.n', s.n, est * s.d + s.d', s.d)
  }

  /** The convergents reproduce the fraction being expanded, and neighbours have determinant one. */
  ghost predicate Convergent(s: State, top0: nat) {
    && top0 == s.n * s.top + s.n' * s.bot
    && ONE == s.d * s.top + s.d' * s.bot
    && (s.n * s.d' - s.n' * s.d == 1 || s.n * s.d' - s.n' * s.d == -1)
  }

  lemma StartConverges(top0: nat)
    ensures Convergent(Start(top0), top0)
  {
  }

  lemma SameSum(est: int, a: int, b: int, bot: int, rem: int, top: int)
    requires top == est * bot + rem
    ensures (est * a + b) * bot + a * rem == a * top + b * bot
  {
    assert (est * a + b) * bot == a * (est * bot) + b * bot;
    assert a * (est * bot) + a * rem == a * (est * bot + rem);
  }

  lemma Flips(est: int, n: int, n': int, d: int, d': int)
    ensures (est * n + n') * d - n * (est * d + d') == -(n * d' - n' * d)
  {
    assert (est * n + n') * d == est * n * d + n' * d;
    assert n * (est * d + d') == est * n * d + n * d';
  }

  /** Every step keeps the invariant and shrinks what is left. */
  lemma NextConverges(s: State, top0: nat)
    requires s.bot > 0 && Convergent(s, top0)
    ensures Convergent(Next(s), top0) && Next(s).bot < s.bot && Next(s).top > 0
  {
    var est, rem := s.top / s.bot, s.top % s.bot;
    assert s.top == est * s.bot + rem;
    SameSum(est, s.n, s.n', s.bot, rem, s.top);
    SameSum(est, s.d, s.d', s.bot, rem, s.top);
    Flips(est, s.n, s.n', s.d, s.d');
  }

  /** No common divisor but one. */
  ghost predicate LowestTerms(n: nat, d: nat) {
    forall k, p, q :: k > 0 && p * k == n && q * k == d ==> k == 1
  }

  lemma UnitDivides(k: int, x: int)
    requires k > 0 && (k * x == 1 || k * x == -1)
    ensures k == 1
  {
    assert x >= 1 ==> k * x >= k;
    assert x <= -1 ==> k * x <= -k;
  }

  /** A convergent is in lowest terms. */
  lemma ConvergentLowest(s: State, top0: nat)
    requires Convergent(s, top0)
    ensures LowestTerms(s.n, s.d)
  {
    forall k, p, q | k > 0 && p * k == s.n && q * k == s.d
      ensures k == 1
    {
      assert s.n * s.d' - s.n' * s.d == k * (p * s.d' - s.n' * q) by {
        assert (p * k) * s.d' == k * (p * s.d');
        assert s.n' * (q * k) == k * (s.n' * q);
      }
      UnitDivides(k, p * s.d' - s.n' * q);
    }
  }

  /** No estimate outgrows the numbers it started from, so 64-bit arithmetic does not wrap. */
  lemma ConvergentBounded(s: State, top0: nat)
    requires Convergent(s, top0) && s.top > 0
    ensures s.n <= top0 && s.d <= ONE
  {
    NoLess(s.n, s.top, s.n', s.bot);
    NoLess(s.d, s.top, s.d', s.bot);
  }

  lemma NoLess(n: nat, top: nat, n': nat, bot: nat)
    requires top > 0
    ensures n * top + n' * bot >= n
  {
    assert n * top >= n;
    assert n' * bot >= 0;
  }

  function Error(n: nat, d: nat, f: real): real
    requires d > 0
  {
    var err := (n as real) / (d as real) - f;
    if err < 0.0 then -err else err
  }

  /** The fixed-point form of the factor. */
  function Fixed(f: real): nat
    requires f >= 0.0
  {
    (f * 33554432.0).Floor
  }

  /** The fraction over (or under) the limit itself, rounded to nearest. */
  function FullRange(f: real, limit: nat, limitDenom: bool): (nat, nat)
    requires f > 0.0
  {
    if limitDenom then ((f * limit as real + 0.5).Floor, limit)
    else (limit, Rounded(limit as real, f))
  }

  function Rounded(x: real, f: real): nat
    requires x >= 0.0 && f > 0.0
  {
    (x / f + 0.5).Floor
  }

  /** The factor is small enough, for the limit, that numerators fit 32 bits. */
  predicate Fits(f: real, limit: nat) {
    f * limit as real + 2.0 <= UINT32 as real
  }

  lemma CrossMultiplied(n: nat, d: nat, top: nat, top0: nat)
    requires n * top == top0 && d * top == ONE
    ensures d > 0 && (n as real) / (d as real) == (top0 as real) / 33554432.0
  {
    assert n * ONE == d * top0 by {
      assert n * (d * top) == d * (n * top);
    }
    assert (n as real) * 33554432.0 == (d as real) * (top0 as real) by {
      assert (n * ONE) as real == (n as real) * 33554432.0;
      assert (d * top0) as real == (d as real) * (top0 as real);
    }
    SameRatio(n as real, d as real, top0 as real, 33554432.0);
  }

  lemma SameRatio(a: real, b: real, c: real, e: real)
    requires b != 0.0 && e != 0.0 && a * e == b * c
    ensures a / b == c / e
  {
    assert (a / b) * (b * e) == ((a / b) * b) * e;
    assert (c / e) * (b * e) == ((c / e) * e) * b;
    Cancel(a / b, c / e, b * e);
  }

  lemma Cancel(x: real, y: real, z: real)
    requires z != 0.0 && x * z == y * z
    ensures x == y
  {
    assert (x - y) * z == 0.0;
  }

  /** When nothing is left to expand the convergent is the fixed-point value itself, well within the tolerance. */
  lemma FullyExpanded(s: State, f: real)
    requires f >= 0.0 && Convergent(s, Fixed(f)) && s.bot == 0
    ensures s.d > 0 && (s.n as real) / (s.d as real) == (Fixed(f) as real) / 33554432.0
    ensures Error(s.n, s.d, f) < TOLERANCE
  {
    var top0 := Fixed(f);
    CrossMultiplied(s.n, s.d, s.top, top0);
    assert top0 as real <= f * 33554432.0 < top0 as real + 1.0;
  }

  lemma TimesFacts(q: real, f: real, e: real, l: real)
    requires q < f + TOLERANCE && 0.0 < e <= 33554432.0 && e <= l && 0.0 < f
    ensures Times(q, e) < Times(f + TOLERANCE, e)
    ensures Times(f + TOLERANCE, e) == Times(f, e) + Times(TOLERANCE, e)
    ensures Times(TOLERANCE, e) <= 2.0
    ensures Times(f, e) <= Times(f, l)
  {
  }

  /** A numerator over a limited denominator is about `f` times as large. */
  lemma NumeratorFits(n: nat, d: nat, f: real, limit: nat)
    requires 0.0 < f && 0 < d <= ONE && Error(n, d, f) < TOLERANCE
    requires d < limit && Fits(f, limit)
    ensures n < UINT32
  {
    hide Times;
    var q, e, l := (n as real) / (d as real), d as real, limit as real;
    TimesFacts(q, f, e, l);
    Divided(n, d);
    FitsTimes(f, limit);
  }

  lemma Divided(n: nat, d: nat)
    requires d > 0
    ensures Times((n as real) / (d as real), d as real) == n as real
  {
  }

  lemma FitsTimes(f: real, limit: nat)
    requires Fits(f, limit)
    ensures Times(f, limit as real) + 2.0 <= UINT32 as real
  {
  }

  /** A numerator cut to 32 bits over a denominator of at most 25 is off by 128 or more. */
  lemma CutIsFar(n: nat, d: nat, f: real)
    requires 0 < d <= ONE && n >= UINT32 && Error(n, d, f) < TOLERANCE
    ensures Error(n % UINT32, d, f) >= TOLERANCE
  {
    var cut := n - n % UINT32;
    assert cut == n / UINT32 * UINT32 && cut >= UINT32;
    Parts(n % UINT32, cut, d);
    AtLeast(cut, d);
  }

  lemma Parts(a: nat, b: nat, d: nat)
    requires d > 0
    ensures ((a + b) as real) / (d as real) == (a as real) / (d as real) + (b as real) / (d as real)
  {
  }

  lemma AtLeast(n: nat, d: nat)
    requires 0 < d <= ONE && n >= UINT32
    ensures (n as real) / (d as real) >= 128.0
  {
    assert (n as real) >= 128.0 * (d as real);
  }

  /** One side of the full-range fraction is the limit, the other the nearest whole number to what it should be. */
  lemma FullRangeNearest(f: real, limit: nat, limitDenom: bool)
    requires f > 0.0
    ensures var (n, d) := FullRange(f, limit, limitDenom);
      if limitDenom then d == limit && -0.5 <= (n as real) - f * (limit as real) <= 0.5
      else n == limit && -0.5 <= (d as real) - (limit as real) / f <= 0.5
  {
  }

  /** A factor that is a whole number over the limit, or the limit over one, is the full-range fraction itself. */
  lemma FullRangeExact(f: real, limit: nat, limitDenom: bool, p: nat)
    requires f > 0.0 && limit > 0 && p > 0
    requires WholeSide(f, limit, limitDenom, p)
    ensures FullRange(f, limit, limitDenom) == if limitDenom then (p, limit) else (limit, p)
    ensures if limitDenom then Error(p, limit, f) == 0.0 else Error(limit, p, f) == 0.0
  {
    if !limitDenom {
      assert (limit as real) / f == p as real;
    }
    assert limitDenom ==> (p as real) / (limit as real) == f;
    assert !limitDenom ==> (limit as real) / (p as real) == f;
  }

  /** The factor times the limit, or the limit over the factor, is the whole number `p`. */
  predicate WholeSide(f: real, limit: nat, limitDenom: bool, p: nat) {
    if limitDenom then f * (limit as real) == p as real else f * (p as real) == limit as real
  }

  /** Close enough means less than 2^-24 away. */
  lemma CloseIs(s: State, f: real)
    ensures Close(s, f) <==> s.d > 0 && -1.0 < ((s.n as real) / (s.d as real) - f) * 16777216.0 < 1.0
  {
  }

  predicate AtLimit(s: State, limit: nat, limitDenom: bool) {
    (if limitDenom then s.d else s.n) >= limit
  }

  predicate Close(s: State, f: real) {
    s.d > 0 && Error(s.n, s.d, f) < TOLERANCE
  }

  /** The first state, from `s` on, at the limit or close enough, or with nothing left to expand. */
  function Settled(s: State, f: real, limit: nat, limitDenom: bool): State
    decreases s.bot
  {
    if AtLimit(s, limit, limitDenom) || Close(s, f) || s.bot == 0 then s else Settled(Next(s), f, limit, limitDenom)
  }

  lemma SettledStep(s: State, f: real, limit: nat, limitDenom: bool)
    ensures Settled(s, f, limit, limitDenom)
            == if AtLimit(s, limit, limitDenom) || Close(s, f) || s.bot == 0 then s
               else Settled(Next(s), f, limit, limitDenom)
  {
    hide AtLimit, Close, Next;
  }

  /** The state after `k` more steps, or where nothing is left before. */
  function After(s: State, k: nat): State
    decreases k
  {
    if k == 0 || s.bot == 0 then s else After(Next(s), k - 1)
  }

  /** It settles at the first state that is at the limit or close enough, or where nothing is left. */
  lemma {:induction false} SettledFirst(s: State, f: real, limit: nat, limitDenom: bool) returns (k: nat)
    ensures Settled(s, f, limit, limitDenom) == After(s, k)
    ensures var last := After(s, k);
      || last.bot == 0 || (if limitDenom then last.d else last.n) >= limit
      || (last.d > 0 && -1.0 < ((last.n as real) / (last.d as real) - f) * 16777216.0 < 1.0)
    ensures forall j :: 0 <= j < k ==> Passed(After(s, j), f, limit, limitDenom)
    decreases s.bot
  {
    hide Next;
    CloseIs(s, f);
    if AtLimit(s, limit, limitDenom) || Close(s, f) || s.bot == 0 {
      return 0;
    }
    NextShrinks(s);
    var k' := SettledFirst(Next(s), f, limit, limitDenom);
    k := k' + 1;
    forall j | 0 <= j < k
      ensures Passed(After(s, j), f, limit, limitDenom)
    {
      if j > 0 {
        assert After(s, j) == After(Next(s), j - 1);
      }
    }
  }

  lemma NextShrinks(s: State)
    requires s.bot > 0
    ensures Next(s).bot < s.bot
  {
  }

  /** A state below the limit that is still too far off. */
  predicate Passed(s: State, f: real, limit: nat, limitDenom: bool) {
    && (if limitDenom then s.d else s.n) < limit
    && (s.d > 0 ==> !(-1.0 < ((s.n as real) / (s.d as real) - f) * 16777216.0 < 1.0))
  }

  /** Wherever the expansion settles, it is a convergent, at the limit or close enough. */
  lemma {:induction false} SettledConverges(s: State, f: real, limit: nat, limitDenom: bool)
    requires f >= 0.0 && Convergent(s, Fixed(f))
    ensures var last := Settled(s, f, limit, limitDenom);
      Convergent(last, Fixed(f)) && (AtLimit(last, limit, limitDenom) || Close(last, f))
    decreases s.bot
  {
    hide Convergent, Fixed, AtLimit, Next, Error;
    if s.bot == 0 {
      FullyExpanded(s, f);
    } else if !AtLimit(s, limit, limitDenom) && !Close(s, f) {
      NextConverges(s, Fixed(f));
      SettledConverges(Next(s), f, limit, limitDenom);
    }
  }

  /**
   The approximation. If the first convergent close enough comes before the limit, it is
   returned with its numerator cut to 32 bits; otherwise a full-range fraction is, and truthfully
   reported. A fraction said to be close is so exactly when that cut loses nothing.
   */
  method DoubleToRational(f: real, limit: nat, limitDenom: bool) returns (found: bool, numer: nat, denom: nat)
    requires 0.0 < f && Fixed(f) < 0x1_0000_0000_0000_0000 && limit < UINT32
    ensures var last := Settled(Start(Fixed(f)), f, limit, limitDenom);
      if AtLimit(last, limit, limitDenom) then
        && numer == FullRange(f, limit, limitDenom).0 % UINT32 && denom == FullRange(f, limit, limitDenom).1 % UINT32
        && (found <==> denom > 0 && Error(numer, denom, f) < TOLERANCE)
      else
        && found && numer == last.n % UINT32 && denom == last.d > 0
        && Error(last.n, denom, f) < TOLERANCE && LowestTerms(last.n, denom)
    ensures var last := Settled(Start(Fixed(f)), f, limit, limitDenom);
      found ==>
        && denom > 0
        && (Error(numer, denom, f) < TOLERANCE <==> AtLimit(last, limit, limitDenom) || last.n < UINT32)
    ensures AtLimit(Settled(Start(Fixed(f)), f, limit, limitDenom), limit, limitDenom) && limit > 0 ==>
      WholeFound(f, limit, limitDenom, found, numer, denom)
    ensures found && (limitDenom ==> Fits(f, limit)) ==> denom > 0 && Error(numer, denom, f) < TOLERANCE
  {
    hide Convergent, LowestTerms, Next, Error, Fixed, FullRange, Fits, Settled, WholeFound;
    var s := Start(Fixed(f));
    StartConverges(Fixed(f));
    while true
      invariant Convergent(s, Fixed(f))
      invariant s.top > 0 || s.d == 0
      invariant Settled(s, f, limit, limitDenom) == Settled(Start(Fixed(f)), f, limit, limitDenom)
      decreases s.bot
    {
      SettledStep(s, f, limit, limitDenom);
      if (if limitDenom then s.d else s.n) >= limit {
        break;
      }
      if s.d > 0 && Error(s.n, s.d, f) < TOLERANCE {
        Found(s, f, limit, limitDenom);
        return true, s.n % UINT32, s.d % UINT32;
      }
      if s.bot == 0 {
        FullyExpanded(s, f);
        break;
      }
      NextConverges(s, Fixed(f));
      s := Next(s);
    }
    found, numer, denom := FullRangeAnswer(f, limit, limitDenom);
  }

  /** The answer past the loop: the full-range fraction, cut to 32 bits, and whether it is close enough. */
  method FullRangeAnswer(f: real, limit: nat, limitDenom: bool) returns (found: bool, numer: nat, denom: nat)
    requires 0.0 < f && limit < UINT32
    ensures numer == FullRange(f, limit, limitDenom).0 % UINT32 && denom == FullRange(f, limit, limitDenom).1 % UINT32
    ensures found <==> denom > 0 && Error(numer, denom, f) < TOLERANCE
    ensures limit > 0 ==> WholeFound(f, limit, limitDenom, found, numer, denom)
  {
    hide FullRange, Error, WholeSide;
    var (n, d) := FullRange(f, limit, limitDenom);
    numer, denom := n % UINT32, d % UINT32;
    found := d != 0 && denom != 0 && Error(numer, denom, f) < TOLERANCE;
    if limit > 0 {
      forall p: nat | WholeSide(f, limit, limitDenom, p) && 0 < p < UINT32
        ensures found && (if limitDenom then numer == p && denom == limit else numer == limit && denom == p)
      {
        FullRangeExact(f, limit, limitDenom, p);
        assert p % UINT32 == p && limit % UINT32 == limit;
      }
    }
  }

  /** A factor that is a whole number over the limit, or the limit over one, was found as just that. */
  ghost predicate WholeFound(f: real, limit: nat, limitDenom: bool, found: bool, numer: nat, denom: nat) {
    forall p: nat :: WholeSide(f, limit, limitDenom, p) && 0 < p < UINT32 ==>
      found && if limitDenom then numer == p && denom == limit else numer == limit && denom == p
  }

  /** A factor of 2^33 settles on the exact fraction, and cutting its numerator to 32 bits leaves zero. */
  lemma CutToZero()
    ensures var f := 8589934592.0;
      var last := Settled(Start(Fixed(f)), f, 2, true);
      && !AtLimit(last, 2, true) && last.n == 8589934592 && last.d == 1
      && last.n % UINT32 == 0 && Error(last.n % UINT32, last.d, f) == f
  {
    var f := 8589934592.0;
    var top0 := Fixed(f);
    assert top0 == 8589934592 * ONE;
    var s := Start(top0);
    var t := Next(s);
    assert t.n == 8589934592 && t.d == 1;
    assert Error(t.n, t.d, f) == 0.0;
    assert Settled(s, f, 2, true) == Settled(t, f, 2, true) == t;
  }

  lemma Found(s: State, f: real, limit: nat, limitDenom: bool)
    requires 0.0 < f && Convergent(s, Fixed(f)) && s.top > 0 && s.d > 0
    requires Error(s.n, s.d, f) < TOLERANCE
    requires (if limitDenom then s.d else s.n) < limit < UINT32
    ensures LowestTerms(s.n, s.d) && s.d % UINT32 == s.d
    ensures Error(s.n % UINT32, s.d, f) < TOLERANCE <==> s.n < UINT32
    ensures (limitDenom ==> Fits(f, limit)) ==> s.n < UINT32
  {
    hide Convergent, LowestTerms, Error, Fixed;
    ConvergentBounded(s, Fixed(f));
    ConvergentLowest(s, Fixed(f));
    if s.n >= UINT32 {
      CutIsFar(s.n, s.d, f);
    }
    if limitDenom && Fits(f, limit) {
      NumeratorFits(s.n, s.d, f, limit);
    }
  }
}
