/** Generic numeric helpers of the comfort tool (custom_components/comfort_tool/util.py):
    a bisection and a secant root finder over a function value, the ISO 7730:2005
    Annex A thermal-sensation classifier and the Celsius/Fahrenheit conversions.

    Python floats are modelled as exact reals; NaN and the -999 sentinel are
    explicit result variants. */
module Util {

  /** A Python float in the exact-real idealisation: a value, or NaN. */
  datatype Float = Num(value: real) | NaN

  datatype Option<T> = None | Some(value: T)

  function Abs(x: real): real { if x < 0.0 then -x else x }
  function Min(x: real, y: real): real { if x <= y then x else y }
  function Max(x: real, y: real): real { if x <= y then y else x }

  /** x lies in the closed interval spanned by a and b, taken in either order. */
  predicate Between(x: real, a: real, b: real) { Min(a, b) <= x <= Max(a, b) }

  // ---------------------------------------------------------------------------
  // bisect
  // ---------------------------------------------------------------------------

  /** What bisect produces: the last midpoint it computed; the value -999 when
      neither half of the bracket shows a sign change; or, when the loop never
      runs, the UnboundLocalError that `return midpoint` raises. */
  datatype BisectResult = Midpoint(x: real) | Sentinel | Unbound

  /** The number bisect returns for a failed bracketing. */
  const SENTINEL_VALUE: real := -999.0

  /** The source's sign test `x * y < 0`, written out by cases. */
  predicate NegativeProduct(x: real, y: real)
  {
    (x < 0.0 && y > 0.0) || (x > 0.0 && y < 0.0)
  }

  lemma NegativeProductIff(x: real, y: real)
    ensures NegativeProduct(x, y) <==> x * y < 0.0
  {
    if (x > 0.0 && y > 0.0) || (x < 0.0 && y < 0.0) {
      assert x * y > 0.0;
    }
  }

  /** fn - target changes sign between a and b. */
  predicate Straddles(fn: real -> real, a: real, b: real, target: real)
  {
    NegativeProduct(fn(a) - target, fn(b) - target)
  }

  /** A bound on the iterations still to come: halving the bracket lowers it. */
  function Budget(a: real, b: real, epsilon: real): int
    requires epsilon > 0.0
  {
    (Abs(b - a) / (2.0 * epsilon)).Floor
  }

  lemma HalvingShrinksBudget(a: real, b: real, a': real, b': real, epsilon: real)
    requires epsilon > 0.0 && Abs(b - a) > 2.0 * epsilon
    requires Abs(b' - a') == Abs(b - a) / 2.0
    ensures 0 <= Budget(a', b', epsilon) < Budget(a, b, epsilon)
  {
    var q := Abs(b - a) / (2.0 * epsilon);
    var q' := Abs(b' - a') / (2.0 * epsilon);
    assert q' == q / 2.0;
    assert q > 1.0;
    var n := q.Floor;
    assert n >= 1;
    assert q < n as real + 1.0;
    assert q' < (n as real + 1.0) / 2.0 <= n as real;
  }

  /** The loop of bisect from state (a, b, midpoint), where midpoint is None
      while Python's variable is still unbound. */
  function BisectFrom(a: real, b: real, midpoint: Option<real>, fn: real -> real,
                      epsilon: real, target: real): BisectResult
    requires epsilon > 0.0
    decreases Budget(a, b, epsilon)
  {
    if Abs(b - a) <= 2.0 * epsilon then
      if midpoint.Some? then Midpoint(midpoint.value) else Unbound
    else
      var m := (b + a) / 2.0;
      if NegativeProduct(fn(a) - target, fn(m) - target) then
        HalvingShrinksBudget(a, b, a, m, epsilon);
        BisectFrom(a, m, Some(m), fn, epsilon, target)
      else if NegativeProduct(fn(b) - target, fn(m) - target) then
        HalvingShrinksBudget(a, b, m, b, epsilon);
        BisectFrom(m, b, Some(m), fn, epsilon, target)
      else
        Sentinel
  }

  /** bisect(a, b, fn, epsilon, target) as a value. */
  function Bisection(a: real, b: real, fn: real -> real, epsilon: real, target: real): BisectResult
    requires epsilon > 0.0
  {
    BisectFrom(a, b, None, fn, epsilon, target)
  }

  /** How many times bisect's loop body runs from state (a, b, midpoint): the
      halvings, plus the failing iteration that returns the sentinel. It stays
      within the budget floor(|b - a| / (2 epsilon)). */
  function BisectFromSteps(a: real, b: real, midpoint: Option<real>, fn: real -> real,
                           epsilon: real, target: real): (n: nat)
    requires epsilon > 0.0
    ensures n <= Budget(a, b, epsilon)
    decreases Budget(a, b, epsilon)
  {
    if Abs(b - a) <= 2.0 * epsilon then 0
    else
      var m := (b + a) / 2.0;
      HalvingShrinksBudget(a, b, a, m, epsilon);
      HalvingShrinksBudget(a, b, m, b, epsilon);
      if NegativeProduct(fn(a) - target, fn(m) - target) then
        1 + BisectFromSteps(a, m, Some(m), fn, epsilon, target)
      else if NegativeProduct(fn(b) - target, fn(m) - target) then
        1 + BisectFromSteps(m, b, Some(m), fn, epsilon, target)
      else
        1
  }

  /** The number of iterations of bisect(a, b, fn, epsilon, target). */
  function BisectionSteps(a: real, b: real, fn: real -> real, epsilon: real, target: real): nat
    requires epsilon > 0.0
  {
    BisectFromSteps(a, b, None, fn, epsilon, target)
  }

  /** 2 to the power n, as a real. */
  function Pow2(n: nat): (p: real)
    ensures p >= 1.0
  {
    if n == 0 then 1.0 else 2.0 * Pow2(n - 1)
  }

  /** w is w0 halved k times. */
  ghost predicate Halved(w: real, w0: real, k: nat)
    decreases k
  {
    if k == 0 then w == w0 else Halved(2.0 * w, w0, k - 1)
  }

  lemma {:induction false} HalvedProduct(w: real, w0: real, k: nat)
    ensures Halved(w, w0, k) <==> w * Pow2(k) == w0
    decreases k
  {
    if k > 0 {
      HalvedProduct(2.0 * w, w0, k - 1);
      assert w * Pow2(k) == (2.0 * w) * Pow2(k - 1);
    }
  }

  /** One iteration of bisect on a bracket wider than 2 epsilon: either half is
      half as wide, wider than epsilon, and has a smaller budget. */
  lemma HalvingStep(a: real, b: real, m: real, w0: real, epsilon: real, k: nat)
    requires epsilon > 0.0 && Abs(b - a) > 2.0 * epsilon && m == (b + a) / 2.0
    requires Halved(Abs(b - a), w0, k)
    ensures Halved(Abs(m - a), w0, k + 1) && Halved(Abs(b - m), w0, k + 1)
    ensures epsilon < Abs(m - a) && epsilon < Abs(b - m)
    ensures 0 <= Budget(a, m, epsilon) < Budget(a, b, epsilon)
    ensures 0 <= Budget(m, b, epsilon) < Budget(a, b, epsilon)
  {
    assert 2.0 * Abs(m - a) == 2.0 * Abs(b - m) == Abs(b - a);
    HalvingShrinksBudget(a, b, a, m, epsilon);
    HalvingShrinksBudget(a, b, m, b, epsilon);
  }

  /** n halvings are the fewest that bring the width w0 down to 2 epsilon. */
  ghost predicate FirstHalvingBelow(w0: real, epsilon: real, n: nat)
  {
    n > 0 && w0 <= 2.0 * epsilon * Pow2(n) && 2.0 * epsilon * Pow2(n - 1) < w0
  }

  /** A width w reached after k halvings of w0, first at most 2 epsilon at step k. */
  lemma FinalWidth(w: real, w0: real, epsilon: real, k: nat)
    requires k > 0 && Halved(w, w0, k)
    requires epsilon < w <= 2.0 * epsilon
    ensures FirstHalvingBelow(w0, epsilon, k)
  {
    HalvedProduct(w, w0, k);
    assert Pow2(k) == 2.0 * Pow2(k - 1);
    assert w * Pow2(k) <= (2.0 * epsilon) * Pow2(k);
    assert epsilon * (2.0 * Pow2(k - 1)) < w * (2.0 * Pow2(k - 1));
  }

  /** The source's loop, step by step: it yields what the recursive definition
      does. Its ghost counter makes exactly the iterations BisectionSteps
      counts, at most the budget |b0 - a0| / (2 epsilon), which is how the
      loop terminates; a returned midpoint comes after the first halving that
      brings the width down to 2 epsilon. */
  method Bisect(a0: real, b0: real, fn: real -> real, epsilon: real, target: real)
    returns (r: BisectResult, ghost iterations: nat)
    requires epsilon > 0.0
    ensures r == Bisection(a0, b0, fn, epsilon, target)
    ensures iterations == BisectionSteps(a0, b0, fn, epsilon, target) <= Budget(a0, b0, epsilon)
    ensures r.Midpoint? ==> FirstHalvingBelow(Abs(b0 - a0), epsilon, iterations)
  {
    var a, b := a0, b0;
    var midpoint: Option<real> := None;
    iterations := 0;
    while Abs(b - a) > 2.0 * epsilon
      invariant BisectFrom(a, b, midpoint, fn, epsilon, target) == Bisection(a0, b0, fn, epsilon, target)
      invariant iterations + BisectFromSteps(a, b, midpoint, fn, epsilon, target)
                  == BisectionSteps(a0, b0, fn, epsilon, target)
      decreases Budget(a, b, epsilon)
    {
      var m := (b + a) / 2.0;
      var aT := fn(a);
      var bT := fn(b);
      var mT := fn(m);
      HalvingShrinksBudget(a, b, a, m, epsilon);
      HalvingShrinksBudget(a, b, m, b, epsilon);
      iterations := iterations + 1;
      if NegativeProduct(aT - target, mT - target) {
        b := m;
      } else if NegativeProduct(bT - target, mT - target) {
        a := m;
      } else {
        return Sentinel, iterations;
      }
      midpoint := Some(m);
    }
    if midpoint.Some? {
      r := Midpoint(midpoint.value);
      ghost var p, n := BisectionHalvings(a0, b0, fn, epsilon, target);
    } else {
      r := Unbound;
    }
  }

  /** From a bracket [a, b] of width w0 halved k times, inside [lo, hi], a
      returned midpoint x ends a final bracket [x, p] inside [lo, hi] across
      which fn - target changes sign, of width in (epsilon, 2 epsilon], which
      is w0 halved n times, n = k + the iterations still to come. */
  lemma {:induction false} BisectFromHalvings(a: real, b: real, midpoint: Option<real>, fn: real -> real,
                                             epsilon: real, target: real, w0: real, k: nat,
                                             lo: real, hi: real)
    returns (p: real)
    requires epsilon > 0.0
    requires BisectFrom(a, b, midpoint, fn, epsilon, target).Midpoint?
    requires lo <= a <= hi && lo <= b <= hi
    requires Halved(Abs(b - a), w0, k)
    requires k > 0 <==> midpoint.Some?
    requires k > 0 ==> epsilon < Abs(b - a) && (midpoint.value == a || midpoint.value == b)
                       && Straddles(fn, a, b, target)
    ensures var x := BisectFrom(a, b, midpoint, fn, epsilon, target).x;
            var n := k + BisectFromSteps(a, b, midpoint, fn, epsilon, target);
            && lo <= p <= hi && n > 0
            && Halved(Abs(x - p), w0, n)
            && epsilon < Abs(x - p) <= 2.0 * epsilon
            && Straddles(fn, x, p, target)
    decreases Budget(a, b, epsilon)
  {
    if Abs(b - a) <= 2.0 * epsilon {
      p := if midpoint.value == a then b else a;
      assert Abs(midpoint.value - p) == Abs(b - a);
    } else {
      var m := (b + a) / 2.0;
      assert lo <= m <= hi;
      HalvingStep(a, b, m, w0, epsilon, k);
      if NegativeProduct(fn(a) - target, fn(m) - target) {
        p := BisectFromHalvings(a, m, Some(m), fn, epsilon, target, w0, k + 1, lo, hi);
      } else {
        p := BisectFromHalvings(m, b, Some(m), fn, epsilon, target, w0, k + 1, lo, hi);
      }
    }
  }

  /** Every iteration that returns no sentinel halves the bracket: a returned
      midpoint x closes a final bracket [x, p] of the original bracket, across
      which fn - target changes sign, whose width is |b0 - a0| halved n times, n being the number of iterations, and
      n is the first count of halvings that brings the width down to 2 epsilon:
      bisect stops as soon as it may. */
  lemma BisectionHalvings(a0: real, b0: real, fn: real -> real, epsilon: real, target: real)
    returns (p: real, n: nat)
    requires epsilon > 0.0
    requires Bisection(a0, b0, fn, epsilon, target).Midpoint?
    ensures n == BisectionSteps(a0, b0, fn, epsilon, target)
    ensures Between(p, a0, b0)
    ensures Halved(Abs(Bisection(a0, b0, fn, epsilon, target).x - p), Abs(b0 - a0), n)
    ensures Straddles(fn, Bisection(a0, b0, fn, epsilon, target).x, p, target)
    ensures FirstHalvingBelow(Abs(b0 - a0), epsilon, n)
  {
    var w0 := Abs(b0 - a0);
    n := BisectionSteps(a0, b0, fn, epsilon, target);
    assert n == 0 + BisectFromSteps(a0, b0, None, fn, epsilon, target);
    p := BisectFromHalvings(a0, b0, None, fn, epsilon, target, w0, 0, Min(a0, b0), Max(a0, b0));
    FinalWidth(Abs(Bisection(a0, b0, fn, epsilon, target).x - p), w0, epsilon, n);
  }

  /** The final width of BisectionHalvings as a product: |x - p| * 2^n == |b0 - a0|. */
  lemma BisectionFinalWidth(a0: real, b0: real, fn: real -> real, epsilon: real, target: real)
    returns (p: real, n: nat)
    requires epsilon > 0.0
    requires Bisection(a0, b0, fn, epsilon, target).Midpoint?
    ensures n == BisectionSteps(a0, b0, fn, epsilon, target) && Between(p, a0, b0)
    ensures Abs(Bisection(a0, b0, fn, epsilon, target).x - p) * Pow2(n) == Abs(b0 - a0)
    ensures Straddles(fn, Bisection(a0, b0, fn, epsilon, target).x, p, target)
  {
    p, n := BisectionHalvings(a0, b0, fn, epsilon, target);
    HalvedWidth(Abs(Bisection(a0, b0, fn, epsilon, target).x - p), Abs(b0 - a0), n);
  }

  /** One direction of HalvedProduct, for callers with a large context. */
  lemma HalvedWidth(w: real, w0: real, n: nat)
    requires Halved(w, w0, n)
    ensures w * Pow2(n) == w0
  {
    HalvedProduct(w, w0, n);
  }

  lemma {:induction false} BisectFromBound(a: real, b: real, midpoint: Option<real>, fn: real -> real,
                                          epsilon: real, target: real)
    requires epsilon > 0.0
    requires midpoint.Some? || Abs(b - a) > 2.0 * epsilon
    ensures BisectFrom(a, b, midpoint, fn, epsilon, target) != Unbound
    decreases Budget(a, b, epsilon)
  {
    if Abs(b - a) > 2.0 * epsilon {
      var m := (b + a) / 2.0;
      if NegativeProduct(fn(a) - target, fn(m) - target) {
        HalvingShrinksBudget(a, b, a, m, epsilon);
        BisectFromBound(a, m, Some(m), fn, epsilon, target);
      } else if NegativeProduct(fn(b) - target, fn(m) - target) {
        HalvingShrinksBudget(a, b, m, b, epsilon);
        BisectFromBound(m, b, Some(m), fn, epsilon, target);
      }
    }
  }

  /** The UnboundLocalError happens exactly when the loop body never runs. */
  lemma BisectionUnboundIff(a: real, b: real, fn: real -> real, epsilon: real, target: real)
    requires epsilon > 0.0
    ensures Bisection(a, b, fn, epsilon, target) == Unbound <==> Abs(b - a) <= 2.0 * epsilon
  {
    if Abs(b - a) > 2.0 * epsilon {
      BisectFromBound(a, b, None, fn, epsilon, target);
    }
  }

  /** When the first midpoint shows no sign change against target on either
      side, bisect returns the sentinel at once. */
  lemma BisectionNoSignChange(a: real, b: real, fn: real -> real, epsilon: real, target: real)
    requires epsilon > 0.0 && Abs(b - a) > 2.0 * epsilon
    requires (fn(a) - target) * (fn((b + a) / 2.0) - target) >= 0.0
    requires (fn(b) - target) * (fn((b + a) / 2.0) - target) >= 0.0
    ensures Bisection(a, b, fn, epsilon, target) == Sentinel
  {
    var m := (b + a) / 2.0;
    NegativeProductIff(fn(a) - target, fn(m) - target);
    NegativeProductIff(fn(b) - target, fn(m) - target);
    assert !NegativeProduct(fn(a) - target, fn(m) - target);
    assert !NegativeProduct(fn(b) - target, fn(m) - target);
    assert BisectFrom(a, b, None, fn, epsilon, target) == Sentinel;
  }

  lemma {:induction false} BisectFromWithin(a: real, b: real, midpoint: Option<real>, fn: real -> real,
                                           epsilon: real, target: real, lo: real, hi: real)
    requires epsilon > 0.0
    requires lo <= a <= hi && lo <= b <= hi
    requires midpoint.Some? ==> lo <= midpoint.value <= hi
    ensures BisectFrom(a, b, midpoint, fn, epsilon, target).Midpoint? ==>
              lo <= BisectFrom(a, b, midpoint, fn, epsilon, target).x <= hi
    decreases Budget(a, b, epsilon)
  {
    if Abs(b - a) > 2.0 * epsilon {
      var m := (b + a) / 2.0;
      assert lo <= m <= hi;
      if NegativeProduct(fn(a) - target, fn(m) - target) {
        HalvingShrinksBudget(a, b, a, m, epsilon);
        BisectFromWithin(a, m, Some(m), fn, epsilon, target, lo, hi);
      } else if NegativeProduct(fn(b) - target, fn(m) - target) {
        HalvingShrinksBudget(a, b, m, b, epsilon);
        BisectFromWithin(m, b, Some(m), fn, epsilon, target, lo, hi);
      }
    }
  }

  /** A returned midpoint lies inside the original bracket. */
  lemma BisectionWithinBracket(a: real, b: real, fn: real -> real, epsilon: real, target: real)
    requires epsilon > 0.0
    ensures Bisection(a, b, fn, epsilon, target).Midpoint? ==>
              Between(Bisection(a, b, fn, epsilon, target).x, a, b)
  {
    BisectFromWithin(a, b, None, fn, epsilon, target, Min(a, b), Max(a, b));
  }

  lemma {:induction false} BisectFromBrackets(a: real, b: real, midpoint: Option<real>, fn: real -> real,
                                             epsilon: real, target: real, lo: real, hi: real)
    returns (p: real)
    requires epsilon > 0.0
    requires lo <= a <= hi && lo <= b <= hi
    requires midpoint.Some? ==> (midpoint.value == a || midpoint.value == b) && Straddles(fn, a, b, target)
    requires BisectFrom(a, b, midpoint, fn, epsilon, target).Midpoint?
    ensures var x := BisectFrom(a, b, midpoint, fn, epsilon, target).x;
            lo <= p <= hi && Abs(x - p) <= 2.0 * epsilon && Straddles(fn, x, p, target)
    decreases Budget(a, b, epsilon)
  {
    if Abs(b - a) <= 2.0 * epsilon {
      var x := midpoint.value;
      p := if x == a then b else a;
    } else {
      var m := (b + a) / 2.0;
      if NegativeProduct(fn(a) - target, fn(m) - target) {
        HalvingShrinksBudget(a, b, a, m, epsilon);
        p := BisectFromBrackets(a, m, Some(m), fn, epsilon, target, lo, hi);
      } else {
        HalvingShrinksBudget(a, b, m, b, epsilon);
        p := BisectFromBrackets(m, b, Some(m), fn, epsilon, target, lo, hi);
      }
    }
  }

  /** A returned midpoint is within 2 epsilon of a point of the original
      bracket at which fn - target has the opposite sign: for a continuous fn,
      within 2 epsilon of a solution of fn(x) == target. */
  lemma BisectionBracketsTarget(a: real, b: real, fn: real -> real, epsilon: real, target: real)
    returns (p: real)
    requires epsilon > 0.0
    requires Bisection(a, b, fn, epsilon, target).Midpoint?
    ensures var x := Bisection(a, b, fn, epsilon, target).x;
            Between(p, a, b) && Abs(x - p) <= 2.0 * epsilon && Straddles(fn, x, p, target)
  {
    p := BisectFromBrackets(a, b, None, fn, epsilon, target, Min(a, b), Max(a, b));
  }

  lemma {:induction false} BisectFromSentinel(a: real, b: real, midpoint: Option<real>, fn: real -> real,
                                             epsilon: real, target: real, lo: real, hi: real)
    returns (x: real)
    requires epsilon > 0.0
    requires lo <= a <= hi && lo <= b <= hi
    requires Straddles(fn, a, b, target)
    requires BisectFrom(a, b, midpoint, fn, epsilon, target) == Sentinel
    ensures lo <= x <= hi && fn(x) == target
    decreases Budget(a, b, epsilon)
  {
    var m := (b + a) / 2.0;
    if NegativeProduct(fn(a) - target, fn(m) - target) {
      HalvingShrinksBudget(a, b, a, m, epsilon);
      x := BisectFromSentinel(a, m, Some(m), fn, epsilon, target, lo, hi);
    } else if NegativeProduct(fn(b) - target, fn(m) - target) {
      HalvingShrinksBudget(a, b, m, b, epsilon);
      x := BisectFromSentinel(m, b, Some(m), fn, epsilon, target, lo, hi);
    } else {
      x := m;
    }
  }

  /** On a bracket that straddles the target, the sentinel means that a midpoint
      hit the target exactly: bisect reports an exact solution as a failure. */
  lemma BisectionSentinelHitsTarget(a: real, b: real, fn: real -> real, epsilon: real, target: real)
    returns (x: real)
    requires epsilon > 0.0
    requires Straddles(fn, a, b, target)
    requires Bisection(a, b, fn, epsilon, target) == Sentinel
    ensures Between(x, a, b) && fn(x) == target
  {
    x := BisectFromSentinel(a, b, None, fn, epsilon, target, Min(a, b), Max(a, b));
  }

  /** An instance of the above: the root 2 of x - 2 is the first midpoint of [0, 4]. */
  lemma BisectionExactRootGivesSentinel()
    ensures Bisection(0.0, 4.0, x => x - 2.0, 0.5, 0.0) == Sentinel
  {
    assert BisectFrom(0.0, 4.0, None, x => x - 2.0, 0.5, 0.0) == Sentinel;
  }

  lemma {:induction false} BisectFromLocal(a: real, b: real, midpoint: Option<real>, f: real -> real,
                                          g: real -> real, epsilon: real, target: real, lo: real, hi: real)
    requires epsilon > 0.0
    requires lo <= a <= hi && lo <= b <= hi
    requires forall x :: lo <= x <= hi ==> f(x) == g(x)
    ensures BisectFrom(a, b, midpoint, f, epsilon, target) == BisectFrom(a, b, midpoint, g, epsilon, target)
    decreases Budget(a, b, epsilon)
  {
    if Abs(b - a) > 2.0 * epsilon {
      var m := (b + a) / 2.0;
      assert lo <= m <= hi;
      assert f(a) == g(a) && f(b) == g(b) && f(m) == g(m);
      if NegativeProduct(f(a) - target, f(m) - target) {
        HalvingShrinksBudget(a, b, a, m, epsilon);
        BisectFromLocal(a, m, Some(m), f, g, epsilon, target, lo, hi);
      } else if NegativeProduct(f(b) - target, f(m) - target) {
        HalvingShrinksBudget(a, b, m, b, epsilon);
        BisectFromLocal(m, b, Some(m), f, g, epsilon, target, lo, hi);
      }
    }
  }

  /** bisect only ever evaluates fn inside the original bracket: two functions
      that agree there give the same result. */
  lemma BisectionLocal(a: real, b: real, f: real -> real, g: real -> real, epsilon: real, target: real)
    requires epsilon > 0.0
    requires forall x :: Between(x, a, b) ==> f(x) == g(x)
    ensures Bisection(a, b, f, epsilon, target) == Bisection(a, b, g, epsilon, target)
  {
    BisectFromLocal(a, b, None, f, g, epsilon, target, Min(a, b), Max(a, b));
  }

  // ---------------------------------------------------------------------------
  // secant
  // ---------------------------------------------------------------------------

  /** Iterations of the secant loop before it gives up. */
  const SECANT_ITERATIONS: nat := 100

  /** The slope through (a, f1) and (b, f2), taken as 0 when a == b. */
  function Slope(a: real, f1: real, b: real, f2: real): real
  {
    if b - a != 0.0 then (f2 - f1) / (b - a) else 0.0
  }

  /** `max(0, min(c, 100))`. */
  function Clamp(c: real): (r: real)
    ensures 0.0 <= r <= 100.0
    ensures 0.0 <= c <= 100.0 ==> r == c
    ensures c < 0.0 ==> r == 0.0
    ensures c > 100.0 ==> r == 100.0
  {
    Max(0.0, Min(c, 100.0))
  }

  /** The secant loop with n iterations left, from the last two estimates a, b. */
  function SecantLoop(a: real, b: real, fn: real -> real, epsilon: real, n: nat): Float
    decreases n
  {
    if n == 0 then NaN
    else
      var slope := Slope(a, fn(a), b, fn(b));
      if slope == 0.0 then NaN
      else
        var c := Clamp(b - fn(b) / slope);
        if Abs(fn(c)) < epsilon then Num(c) else SecantLoop(b, c, fn, epsilon, n - 1)
  }

  /** secant(a, b, fn, epsilon) as a value. */
  function SecantRoot(a: real, b: real, fn: real -> real, epsilon: real): Float
  {
    if Abs(fn(a)) <= epsilon then Num(a)
    else if Abs(fn(b)) <= epsilon then Num(b)
    else SecantLoop(a, b, fn, epsilon, SECANT_ITERATIONS)
  }

  /** The source's loop, caching fn(a) and fn(b) as f1 and f2. Besides the
      result it reports (as a ghost) how many times it evaluated fn. */
  method Secant(a0: real, b0: real, fn: real -> real, epsilon: real)
    returns (r: Float, ghost evaluations: nat)
    ensures r == SecantRoot(a0, b0, fn, epsilon)
    ensures evaluations <= SECANT_ITERATIONS + 2
  {
    var a, b := a0, b0;
    var f1 := fn(a);
    evaluations := 1;
    if Abs(f1) <= epsilon {
      return Num(a), evaluations;
    }
    var f2 := fn(b);
    evaluations := 2;
    if Abs(f2) <= epsilon {
      return Num(b), evaluations;
    }
    for i := 0 to SECANT_ITERATIONS
      invariant f1 == fn(a) && f2 == fn(b)
      invariant SecantLoop(a, b, fn, epsilon, SECANT_ITERATIONS - i) == SecantRoot(a0, b0, fn, epsilon)
      invariant evaluations == 2 + i
    {
      var slope := Slope(a, f1, b, f2);
      if slope == 0.0 {
        return NaN, evaluations;
      }
      var c := b - f2 / slope;
      c := Clamp(c);
      var f3 := fn(c);
      evaluations := evaluations + 1;
      if Abs(f3) < epsilon {
        return Num(c), evaluations;
      }
      a, f1 := b, f2;
      b, f2 := c, f3;
    }
    return NaN, evaluations;
  }

  lemma {:induction false} SecantLoopAccepts(a: real, b: real, fn: real -> real, epsilon: real, n: nat)
    ensures SecantLoop(a, b, fn, epsilon, n).Num? ==>
              var c := SecantLoop(a, b, fn, epsilon, n).value;
              0.0 <= c <= 100.0 && Abs(fn(c)) < epsilon
    decreases n
  {
    if n > 0 {
      var slope := Slope(a, fn(a), b, fn(b));
      if slope != 0.0 {
        var c := Clamp(b - fn(b) / slope);
        if Abs(fn(c)) >= epsilon {
          SecantLoopAccepts(b, c, fn, epsilon, n - 1);
        }
      }
    }
  }

  /** What a secant result means: a seed that was already within tolerance
      (a first, then b), or an estimate in [0, 100] whose residual is below
      epsilon; NaN only after both seeds were rejected. */
  lemma SecantRootSound(a: real, b: real, fn: real -> real, epsilon: real)
    ensures Abs(fn(a)) <= epsilon ==> SecantRoot(a, b, fn, epsilon) == Num(a)
    ensures Abs(fn(a)) > epsilon && Abs(fn(b)) <= epsilon ==> SecantRoot(a, b, fn, epsilon) == Num(b)
    ensures Abs(fn(a)) > epsilon && Abs(fn(b)) > epsilon && SecantRoot(a, b, fn, epsilon).Num? ==>
              var c := SecantRoot(a, b, fn, epsilon).value;
              0.0 <= c <= 100.0 && Abs(fn(c)) < epsilon
    ensures SecantRoot(a, b, fn, epsilon) == NaN ==> Abs(fn(a)) > epsilon && Abs(fn(b)) > epsilon
  {
    SecantLoopAccepts(a, b, fn, epsilon, SECANT_ITERATIONS);
  }

  /** A zero slope between the seeds (equal seeds, or equal values at them)
      makes secant return NaN. */
  lemma SecantZeroSlope(a: real, b: real, fn: real -> real, epsilon: real)
    requires Abs(fn(a)) > epsilon && Abs(fn(b)) > epsilon
    requires b == a || fn(b) == fn(a)
    ensures SecantRoot(a, b, fn, epsilon) == NaN
  {
    assert Slope(a, fn(a), b, fn(b)) == 0.0;
  }

  // ---------------------------------------------------------------------------
  // get_sensation_by_class
  // ---------------------------------------------------------------------------

  /** The seven ordered thermal sensations. */
  datatype Sensation = Cold | Cool | SlightlyCool | Neutral | SlightlyWarm | Warm | Hot
  {
    /** The label the source returns. */
    function Label(): string
    {
      match this
      case Cold => "Cold"
      case Cool => "Cool"
      case SlightlyCool => "Slightly Cool"
      case Neutral => "Neutral"
      case SlightlyWarm => "Slightly Warm"
      case Warm => "Warm"
      case Hot => "Hot"
    }

    /** Position in the order Cold < Cool < ... < Hot. */
    function Rank(): nat
    {
      match this
      case Cold => 0
      case Cool => 1
      case SlightlyCool => 2
      case Neutral => 3
      case SlightlyWarm => 4
      case Warm => 5
      case Hot => 6
    }
  }

  /** `str.upper()` on ASCII letters; other characters are left alone. */
  function UpperChar(ch: char): char
  {
    if 'a' <= ch <= 'z' then (ch as int - 32) as char else ch
  }

  /** `str.upper()`: UpperChar on every character. */
  function Upper(s: string): string
  {
    seq(|s|, i requires 0 <= i < |s| => UpperChar(s[i]))
  }

  /** The half-range of neutrality of a comfort class; unknown classes fall back to B. */
  function NeutralRange(comfortClass: string): real
  {
    var key := Upper(comfortClass);
    if key == "A" then 0.2
    else if key == "B" then 0.5
    else if key == "C" then 0.7
    else 0.5
  }

  /** The source's ordered threshold list for half-range r. */
  function Thresholds(r: real): seq<(real, Sensation)>
  {
    [(-3.0 * r, Cold), (-2.0 * r, Cool), (-1.0 * r, SlightlyCool),
     (r, Neutral), (2.0 * r, SlightlyWarm), (3.0 * r, Warm)]
  }

  /** Reference definition of the classification: the bands of Annex A of
      ISO 7730:2005 scaled by the half-range r. */
  function Classify(pmv: real, r: real): Sensation
  {
    if pmv < -3.0 * r then Cold
    else if pmv < -2.0 * r then Cool
    else if pmv < -r then SlightlyCool
    else if pmv < r then Neutral
    else if pmv < 2.0 * r then SlightlyWarm
    else if pmv < 3.0 * r then Warm
    else Hot
  }

  /** The source's scan: the label of the first threshold above pmv, else Hot. */
  method GetSensationByClass(pmv: real, comfortClass: string := "B") returns (s: Sensation)
    ensures s == Classify(pmv, NeutralRange(comfortClass))
  {
    var neutralRange := NeutralRange(comfortClass);
    var thresholds := Thresholds(neutralRange);
    var i := 0;
    while i < |thresholds|
      invariant 0 <= i <= |thresholds|
      invariant forall j :: 0 <= j < i ==> pmv >= thresholds[j].0
    {
      if pmv < thresholds[i].0 {
        ClassifyScan(pmv, neutralRange, i);
        return thresholds[i].1;
      }
      i := i + 1;
    }
    assert pmv >= thresholds[5].0 && pmv >= thresholds[3].0;
    return Hot;
  }

  /** The first threshold above pmv in the list carries Classify's answer. */
  lemma ClassifyScan(pmv: real, r: real, i: nat)
    requires i < |Thresholds(r)|
    requires forall j :: 0 <= j < i ==> pmv >= Thresholds(r)[j].0
    requires pmv < Thresholds(r)[i].0
    ensures Classify(pmv, r) == Thresholds(r)[i].1
  {
    var t := Thresholds(r);
    if i > 0 { assert pmv >= t[0].0; }
    if i > 1 { assert pmv >= t[1].0; }
    if i > 2 { assert pmv >= t[2].0; }
    if i > 3 { assert pmv >= t[3].0; }
    if i > 4 { assert pmv >= t[4].0; }
  }

  lemma UpperIsA(s: string)
    ensures Upper(s) == "A" <==> s == "A" || s == "a"
  {
    if Upper(s) == "A" {
      assert |Upper(s)| == |s| == 1;
      assert Upper(s)[0] == UpperChar(s[0]) == 'A';
      assert s == [s[0]];
    }
  }

  lemma UpperIsB(s: string)
    ensures Upper(s) == "B" <==> s == "B" || s == "b"
  {
    if Upper(s) == "B" {
      assert |Upper(s)| == |s| == 1;
      assert Upper(s)[0] == UpperChar(s[0]) == 'B';
      assert s == [s[0]];
    }
  }

  lemma UpperIsC(s: string)
    ensures Upper(s) == "C" <==> s == "C" || s == "c"
  {
    if Upper(s) == "C" {
      assert |Upper(s)| == |s| == 1;
      assert Upper(s)[0] == UpperChar(s[0]) == 'C';
      assert s == [s[0]];
    }
  }

  /** The class table: A and C in either case, every other name behaves as B. */
  lemma NeutralRangeByClass(comfortClass: string)
    ensures NeutralRange(comfortClass) == 0.2 <==> comfortClass == "A" || comfortClass == "a"
    ensures NeutralRange(comfortClass) == 0.7 <==> comfortClass == "C" || comfortClass == "c"
    ensures NeutralRange(comfortClass) == 0.5 <==>
              !(comfortClass == "A" || comfortClass == "a" || comfortClass == "C" || comfortClass == "c")
  {
    UpperIsA(comfortClass);
    UpperIsB(comfortClass);
    UpperIsC(comfortClass);
  }

  /** Class names are case-insensitive: upper-casing a name first changes nothing. */
  lemma NeutralRangeCaseInsensitive(comfortClass: string)
    ensures NeutralRange(Upper(comfortClass)) == NeutralRange(comfortClass)
  {
    UpperIdempotent(comfortClass);
  }

  /** Upper-casing twice is upper-casing once. */
  lemma UpperIdempotent(s: string)
    ensures Upper(Upper(s)) == Upper(s)
  {
    assert forall i :: 0 <= i < |s| ==> UpperChar(UpperChar(s[i])) == UpperChar(s[i]);
  }

  /** "Neutral" is returned exactly on [-r, r). */
  lemma ClassifyNeutralIff(pmv: real, r: real)
    requires r > 0.0
    ensures Classify(pmv, r) == Neutral <==> -r <= pmv < r
  {
  }

  /** The outer bands: Cold below -3r, Hot from 3r on. */
  lemma ClassifyExtremes(pmv: real, r: real)
    requires r > 0.0
    ensures Classify(pmv, r) == Cold <==> pmv < -3.0 * r
    ensures Classify(pmv, r) == Hot <==> pmv >= 3.0 * r
  {
  }

  /** A larger PMV never gives an earlier sensation. */
  lemma ClassifyMonotone(pmv1: real, pmv2: real, r: real)
    requires r >= 0.0 && pmv1 <= pmv2
    ensures Classify(pmv1, r).Rank() <= Classify(pmv2, r).Rank()
  {
  }

  /** The classifier is total and its seven labels are pairwise distinct. */
  lemma LabelsDistinct(s1: Sensation, s2: Sensation)
    ensures s1.Label() == s2.Label() <==> s1 == s2
  {
  }

  // ---------------------------------------------------------------------------
  // CtoF / FtoC
  // ---------------------------------------------------------------------------

  function CtoF(x: real): real { (x * 9.0) / 5.0 + 32.0 }

  function FtoC(x: real): real { (x - 32.0) * 5.0 / 9.0 }

  /** The two conversions are inverse to each other. */
  lemma TemperatureRoundTrip(x: real)
    ensures FtoC(CtoF(x)) == x
    ensures CtoF(FtoC(x)) == x
  {
  }

  /** Both conversions are strictly increasing. */
  lemma TemperatureMonotone(x: real, y: real)
    requires x < y
    ensures CtoF(x) < CtoF(y) && FtoC(x) < FtoC(y)
  {
  }
}
