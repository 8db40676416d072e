/**
  The fixed-step engine behind the "Método de Euler y RK4" panel: the step
  count and node grid, the forward-Euler and classical Runge-Kutta
  trajectories, and the error row built at each node.

  Numbers are exact reals standing for the program's floats. The field
  f(x, y) and the exact solution y_real(x) are evaluated from user text, which
  can raise: both are total functions returning `Raised` where evaluation
  raises, and every computation that meets one fails as a whole.
*/
module FixedStep {
  import opened Outcomes

  /** The outcome of evaluating a user formula: a number, or an exception. */
  datatype Eval = Raised | Value(v: real)

  /** The right-hand side f of y' = f(x, y). */
  type Field = (real, real) -> Eval

  /** The user's exact solution y_real(x). */
  type Exact = real -> Eval

  function Abs(r: real): (m: real)
    ensures m >= 0.0 && (m == r || m == -r)
  {
    if r < 0.0 then -r else r
  }

  // ---------------------------------------------------------------------------
  // Step count and grid

  /** `int(q)` on a float: truncation toward zero. */
  function Trunc(q: real): (n: int)
    ensures q >= 0.0 ==> 0 <= n && n as real <= q < n as real + 1.0
    ensures q < 0.0 ==> n <= 0 && n as real - 1.0 < q <= n as real
  {
    if q >= 0.0 then q.Floor else -((-q).Floor)
  }

  /** `n_pasos = int((b - a) / h)`; `None` when the division raises because `h` is zero. */
  function StepCount(a: real, b: real, h: real): (n: Option<int>)
    ensures n.None? <==> h == 0.0
    ensures n.Some? && (b - a) / h >= 0.0 ==> 0 <= n.value && n.value as real <= (b - a) / h < n.value as real + 1.0
  {
    if h == 0.0 then None else Some(Trunc((b - a) / h))
  }

  /** `x_vals = [a + i*h for i in range(n + 1)]`; empty when `n + 1` is not positive. */
  function Grid(a: real, h: real, n: int): (xs: seq<real>)
    ensures |xs| == if n >= 0 then n + 1 else 0
    ensures forall i :: 0 <= i < |xs| ==> xs[i] == a + i as real * h
  {
    seq(if n >= 0 then n + 1 else 0, i => a + i as real * h)
  }

  /** The number of passes of `for i in range(n)`. */
  function Passes(n: int): (k: nat)
    ensures k as int == n || (n < 0 && k == 0)
  {
    if n > 0 then n else 0
  }

  lemma ProductNonNegative(p: real, q: real)
    requires p >= 0.0 && q >= 0.0
    ensures p * q >= 0.0
  {}

  /** The quotient `(b - a)/h` is non-negative and multiplies back to `b - a`. */
  lemma QuotientFacts(a: real, b: real, h: real)
    requires h > 0.0 && a <= b
    ensures (b - a) / h >= 0.0 && (b - a) / h * h == b - a
  {
    ProductNonNegative(b - a, 1.0 / h);
    assert (b - a) / h == (b - a) * (1.0 / h);
  }

  /** A node whose index does not exceed the quotient does not pass `b`. */
  lemma NodeNotPastEnd(a: real, h: real, q: real, i: real)
    requires h > 0.0 && 0.0 <= i <= q
    ensures a + i * h <= a + q * h
  {
    ProductNonNegative(q - i, h);
    assert (q - i) * h == q * h - i * h;
  }

  /** The last node is less than one step short of `b`. */
  lemma LastGapBelowStep(a: real, b: real, h: real, n: real)
    requires h > 0.0 && a <= b && n <= (b - a) / h < n + 1.0
    ensures b - (a + n * h) < h
  {
    var q := (b - a) / h;
    QuotientFacts(a, b, h);
    var d := q - n;
    assert b - (a + n * h) == d * h;
    ProductNonNegative(1.0 - d, h);
    assert (1.0 - d) * h == h - d * h;
    assert (1.0 - d) * h != 0.0;
  }

  /** The last node of the grid of `floor((b - a)/h)` steps is less than one step short of `b`. */
  lemma LastNodeNearEnd(a: real, b: real, h: real, n: nat)
    requires h > 0.0 && a <= b && n == ((b - a) / h).Floor
    ensures b - Grid(a, h, n)[n] < h
  {
    LastGapBelowStep(a, b, h, n as real);
  }

  /** No node of a grid of at most `(b - a)/h` steps passes `b`. */
  lemma GridBelowEnd(a: real, b: real, h: real, n: nat)
    requires h > 0.0 && a <= b && n as real <= (b - a) / h
    ensures forall i :: 0 <= i < |Grid(a, h, n)| ==> Grid(a, h, n)[i] <= b
  {
    var q := (b - a) / h;
    QuotientFacts(a, b, h);
    assert a + q * h == b;
    var xs := Grid(a, h, n);
    forall i | 0 <= i < |xs|
      ensures xs[i] <= b
    {
      NodeNotPastEnd(a, h, q, i as real);
    }
  }

  /** Consecutive nodes of a grid with a positive step are exactly `h` apart. */
  lemma GridSpacing(a: real, h: real, n: int)
    requires h > 0.0
    ensures forall i :: 0 <= i < |Grid(a, h, n)| - 1 ==>
      Grid(a, h, n)[i] < Grid(a, h, n)[i + 1] && Grid(a, h, n)[i + 1] - Grid(a, h, n)[i] == h
  {
    var xs := Grid(a, h, n);
    forall i | 0 <= i < |xs| - 1
      ensures xs[i] < xs[i + 1] && xs[i + 1] - xs[i] == h
    {
      assert (i + 1) as real * h == i as real * h + h;
    }
  }

  /**
    For a positive step and `a <= b`: `n_pasos` is the floor of `(b - a)/h`,
    the grid has `n_pasos + 1` nodes spaced `h` apart starting at `a`, no node
    passes `b`, and the last node is less than one step short of `b`.
  */
  lemma GridCoversInterval(a: real, b: real, h: real)
    requires h > 0.0 && a <= b
    ensures StepCount(a, b, h) == Some(((b - a) / h).Floor)
    ensures var n := ((b - a) / h).Floor;
      var xs := Grid(a, h, n);
      && n >= 0 && |xs| == n + 1 && xs[0] == a
      && (forall i :: 0 <= i < |xs| ==> xs[i] <= b)
      && (forall i :: 0 <= i < |xs| - 1 ==> xs[i] < xs[i + 1] && xs[i + 1] - xs[i] == h)
      && b - xs[n] < h
  {
    QuotientFacts(a, b, h);
    var n := ((b - a) / h).Floor;
    GridBelowEnd(a, b, h, n);
    GridSpacing(a, h, n);
    LastNodeNearEnd(a, b, h, n);
  }

  // ---------------------------------------------------------------------------
  // Single steps and trajectories

  datatype Scheme = ForwardEuler | ClassicRk4

  /**
    The increment `h*k` of a step of size `h` along slope `k`. Naming the
    product keeps it out of the arguments of `f`, where the solver would
    otherwise have to match `h*k` against a rearranged product.
  */
  function Increment(h: real, k: real): real {
    h * k
  }

  /** Euler: `y + h*f(x, y)`. */
  function EulerStep(f: Field, x: real, y: real, h: real): (r: Eval)
    ensures r.Raised? <==> f(x, y).Raised?
  {
    match f(x, y)
    case Raised => Raised
    case Value(k) => Value(y + Increment(h, k))
  }

  /** Classical fourth-order Runge-Kutta with the four slopes k1..k4. */
  function Rk4Step(f: Field, x: real, y: real, h: real): Eval {
    match f(x, y)
    case Raised => Raised
    case Value(k1) =>
      match f(x + h / 2.0, y + Increment(h, k1) / 2.0)
      case Raised => Raised
      case Value(k2) =>
        match f(x + h / 2.0, y + Increment(h, k2) / 2.0)
        case Raised => Raised
        case Value(k3) =>
          match f(x + h, y + Increment(h, k3))
          case Raised => Raised
          case Value(k4) => Value(y + Increment(h / 6.0, k1 + 2.0 * k2 + 2.0 * k3 + k4))
  }

  /** The Runge-Kutta step from the four slopes, when all four evaluations succeed. */
  lemma Rk4StepFromSlopes(f: Field, x: real, y: real, h: real, k1: real, k2: real, k3: real, k4: real)
    requires f(x, y) == Value(k1)
    requires f(x + h / 2.0, y + Increment(h, k1) / 2.0) == Value(k2)
    requires f(x + h / 2.0, y + Increment(h, k2) / 2.0) == Value(k3)
    requires f(x + h, y + Increment(h, k3)) == Value(k4)
    ensures Rk4Step(f, x, y, h) == Value(y + Increment(h / 6.0, k1 + 2.0 * k2 + 2.0 * k3 + k4))
  {}

  /** The Runge-Kutta step raises when its second slope does. */
  lemma Rk4SecondRaises(f: Field, x: real, y: real, h: real, k1: real)
    requires f(x, y) == Value(k1)
    requires f(x + h / 2.0, y + Increment(h, k1) / 2.0).Raised?
    ensures Rk4Step(f, x, y, h).Raised?
  {}

  /** The Runge-Kutta step raises when its third slope does. */
  lemma Rk4ThirdRaises(f: Field, x: real, y: real, h: real, k1: real, k2: real)
    requires f(x, y) == Value(k1)
    requires f(x + h / 2.0, y + Increment(h, k1) / 2.0) == Value(k2)
    requires f(x + h / 2.0, y + Increment(h, k2) / 2.0).Raised?
    ensures Rk4Step(f, x, y, h).Raised?
  {}

  /** The Runge-Kutta step raises when its fourth slope does. */
  lemma Rk4FourthRaises(f: Field, x: real, y: real, h: real, k1: real, k2: real, k3: real)
    requires f(x, y) == Value(k1)
    requires f(x + h / 2.0, y + Increment(h, k1) / 2.0) == Value(k2)
    requires f(x + h / 2.0, y + Increment(h, k2) / 2.0) == Value(k3)
    requires f(x + h, y + Increment(h, k3)).Raised?
    ensures Rk4Step(f, x, y, h).Raised?
  {}

  function Step(scheme: Scheme, f: Field, x: real, y: real, h: real): Eval {
    match scheme
    case ForwardEuler => EulerStep(f, x, y, h)
    case ClassicRk4 => Rk4Step(f, x, y, h)
  }

  /**
    The list a scheme has built after `m` passes of its loop over the nodes
    `xs`, starting from `[y0]`; `None` once an evaluation of `f` raised.
  */
  function Trajectory(scheme: Scheme, f: Field, xs: seq<real>, h: real, y0: real, m: nat): (r: Option<seq<real>>)
    requires m <= |xs|
    ensures r.Some? ==> |r.value| == m + 1 && r.value[0] == y0
    decreases m
  {
    if m == 0 then Some([y0])
    else
      match Trajectory(scheme, f, xs, h, y0, m - 1)
      case None => None
      case Some(ys) =>
        match Step(scheme, f, xs[m - 1], ys[m - 1], h)
        case Raised => None
        case Value(y) => Some(ys + [y])
  }

  /** `ys` starts at `y0` and each entry is one step of the scheme from the previous one. */
  ghost predicate Follows(scheme: Scheme, f: Field, xs: seq<real>, h: real, y0: real, ys: seq<real>)
    requires |ys| <= |xs| + 1
  {
    && |ys| >= 1 && ys[0] == y0
    && forall i :: 0 <= i < |ys| - 1 ==> Step(scheme, f, xs[i], ys[i], h) == Value(ys[i + 1])
  }

  /**
    The trajectory after `m` passes is exactly the list of `m + 1` values that
    starts at `y0` and obeys the scheme's recurrence at every node.
  */
  lemma {:induction false} TrajectoryIsRecurrence(scheme: Scheme, f: Field, xs: seq<real>, h: real, y0: real, m: nat, ys: seq<real>)
    requires m <= |xs|
    ensures Trajectory(scheme, f, xs, h, y0, m) == Some(ys) <==> |ys| == m + 1 && Follows(scheme, f, xs, h, y0, ys)
    decreases m
  {
    if m > 0 && |ys| == m + 1 {
      var init := ys[..m];
      TrajectoryIsRecurrence(scheme, f, xs, h, y0, m - 1, init);
      assert ys == init + [ys[m]];
      if Follows(scheme, f, xs, h, y0, ys) {
        assert Follows(scheme, f, xs, h, y0, init) by {
          forall i | 0 <= i < |init| - 1
            ensures Step(scheme, f, xs[i], init[i], h) == Value(init[i + 1])
          {
            assert Step(scheme, f, xs[i], ys[i], h) == Value(ys[i + 1]);
          }
        }
      }
      if Trajectory(scheme, f, xs, h, y0, m) == Some(ys) {
        var prev := Trajectory(scheme, f, xs, h, y0, m - 1);
        assert prev.Some? && prev.value == init;
        assert Follows(scheme, f, xs, h, y0, init);
        forall i | 0 <= i < |ys| - 1
          ensures Step(scheme, f, xs[i], ys[i], h) == Value(ys[i + 1])
        {
          if i < m - 1 {
            assert Step(scheme, f, xs[i], init[i], h) == Value(init[i + 1]);
          }
        }
      }
    } else if m > 0 {
      var t := Trajectory(scheme, f, xs, h, y0, m);
      assert t.Some? ==> |t.value| == m + 1;
    } else {
      assert |ys| == 1 && ys[0] == y0 ==> ys == [y0];
    }
  }

  /**
    The Euler list after `m` passes: it starts at `y0` and each entry is the
    previous one plus `h` times the slope at the previous node.
  */
  lemma EulerRecurrence(f: Field, xs: seq<real>, h: real, y0: real, m: nat, ys: seq<real>)
    requires m <= |xs| && Trajectory(ForwardEuler, f, xs, h, y0, m) == Some(ys)
    ensures |ys| == m + 1 && ys[0] == y0
    ensures forall i :: 0 <= i < m ==> f(xs[i], ys[i]).Value? && ys[i + 1] == ys[i] + h * f(xs[i], ys[i]).v
  {
    TrajectoryIsRecurrence(ForwardEuler, f, xs, h, y0, m, ys);
    forall i | 0 <= i < m
      ensures f(xs[i], ys[i]).Value? && ys[i + 1] == ys[i] + h * f(xs[i], ys[i]).v
    {
      assert Step(ForwardEuler, f, xs[i], ys[i], h) == Value(ys[i + 1]);
    }
  }

  /**
    The Runge-Kutta list after `m` passes: it starts at `y0` and each entry is
    one classical Runge-Kutta step (`Rk4StepFromSlopes`) from the previous one.
  */
  lemma Rk4Recurrence(f: Field, xs: seq<real>, h: real, y0: real, m: nat, ys: seq<real>)
    requires m <= |xs| && Trajectory(ClassicRk4, f, xs, h, y0, m) == Some(ys)
    ensures |ys| == m + 1 && ys[0] == y0
    ensures forall i :: 0 <= i < m ==> Rk4Step(f, xs[i], ys[i], h) == Value(ys[i + 1])
  {
    TrajectoryIsRecurrence(ClassicRk4, f, xs, h, y0, m, ys);
    forall i | 0 <= i < m
      ensures Rk4Step(f, xs[i], ys[i], h) == Value(ys[i + 1])
    {
      assert Step(ClassicRk4, f, xs[i], ys[i], h) == Value(ys[i + 1]);
    }
  }

  /** Once an evaluation of `f` raises, every later pass of the loop is gone too. */
  lemma {:induction false} FailurePersists(scheme: Scheme, f: Field, xs: seq<real>, h: real, y0: real, k: nat, m: nat)
    requires k <= m <= |xs|
    requires Trajectory(scheme, f, xs, h, y0, k).None?
    ensures Trajectory(scheme, f, xs, h, y0, m).None?
    decreases m - k
  {
    if k < m {
      FailurePersists(scheme, f, xs, h, y0, k, m - 1);
    }
  }

  /** A pass whose step raises leaves no trajectory after any later number of passes. */
  lemma StepRaisedEndsTrajectory(scheme: Scheme, f: Field, xs: seq<real>, h: real, y0: real, m: nat, ys: seq<real>, passes: nat)
    requires m < passes <= |xs| && Trajectory(scheme, f, xs, h, y0, m) == Some(ys)
    requires Step(scheme, f, xs[m], ys[m], h).Raised?
    ensures Trajectory(scheme, f, xs, h, y0, passes).None?
  {
    FailurePersists(scheme, f, xs, h, y0, m + 1, passes);
  }

  /** A pass whose step succeeds appends the new value. */
  lemma StepAppends(scheme: Scheme, f: Field, xs: seq<real>, h: real, y0: real, m: nat, ys: seq<real>, y: real)
    requires m < |xs| && Trajectory(scheme, f, xs, h, y0, m) == Some(ys)
    requires Step(scheme, f, xs[m], ys[m], h) == Value(y)
    ensures Trajectory(scheme, f, xs, h, y0, m + 1) == Some(ys + [y])
  {}

  /** Under a constant field `c` a step of either scheme adds exactly `h*c`. */
  lemma ConstantFieldStep(scheme: Scheme, f: Field, c: real, x: real, y: real, h: real)
    requires forall x, y :: f(x, y) == Value(c)
    ensures Step(scheme, f, x, y, h) == Value(y + h * c)
  {
    match scheme {
      case ForwardEuler =>
        assert f(x, y) == Value(c);
      case ClassicRk4 =>
        assert f(x + h / 2.0, y + Increment(h, c) / 2.0) == Value(c);
        assert f(x + h, y + Increment(h, c)) == Value(c);
        Rk4StepFromSlopes(f, x, y, h, c, c, c, c);
        assert Increment(h / 6.0, c + 2.0 * c + 2.0 * c + c) == h * c;
    }
  }

  /** The values `y0 + i*d` for `i` from 0 to `m`. */
  function Line(y0: real, d: real, m: nat): (ys: seq<real>)
    ensures |ys| == m + 1
    ensures forall i :: 0 <= i <= m ==> ys[i] == y0 + i as real * d
  {
    seq(m + 1, i => y0 + i as real * d)
  }

  /** One more point of a line lies `d` above the last one. */
  lemma LineNext(y0: real, d: real, m: nat)
    ensures Line(y0, d, m) + [Line(y0, d, m)[m] + d] == Line(y0, d, m + 1)
  {
    var ys, zs := Line(y0, d, m), Line(y0, d, m + 1);
    forall i | 0 <= i <= m + 1
      ensures (ys + [ys[m] + d])[i] == zs[i]
    {
      if i == m + 1 {
        assert m as real * d + d == (m + 1) as real * d;
      }
    }
  }

  /** Under a constant field, a pass extends the line by one more point. */
  lemma ConstantFieldExtends(scheme: Scheme, f: Field, c: real, xs: seq<real>, h: real, y0: real, m: nat)
    requires m < |xs|
    requires forall x, y :: f(x, y) == Value(c)
    requires Trajectory(scheme, f, xs, h, y0, m) == Some(Line(y0, h * c, m))
    ensures Trajectory(scheme, f, xs, h, y0, m + 1) == Some(Line(y0, h * c, m + 1))
  {
    var ys := Line(y0, h * c, m);
    ConstantFieldStep(scheme, f, c, xs[m], ys[m], h);
    StepAppends(scheme, f, xs, h, y0, m, ys, ys[m] + h * c);
    LineNext(y0, h * c, m);
  }

  /** For a constant field `c` both schemes give exactly `y0 + i*h*c` at node `i`. */
  lemma {:induction false} ConstantFieldIsLinear(scheme: Scheme, f: Field, c: real, xs: seq<real>, h: real, y0: real, m: nat)
    requires m <= |xs|
    requires forall x, y :: f(x, y) == Value(c)
    ensures Trajectory(scheme, f, xs, h, y0, m) == Some(Line(y0, h * c, m))
    decreases m
  {
    if m > 0 {
      ConstantFieldIsLinear(scheme, f, c, xs, h, y0, m - 1);
      ConstantFieldExtends(scheme, f, c, xs, h, y0, m - 1);
    } else {
      var line := Line(y0, h * c, 0);
      assert line[0] == y0 + 0 as real * (h * c) == y0;
      assert line == [y0];
    }
  }

  // ---------------------------------------------------------------------------
  // The loops

  /** The Euler loop of `generar_tabla`: `for i in range(n_pasos)`, appending to `y_euler`. */
  /** One pass of an Euler loop: the slope at `(x, y)`, then the new value. */
  method EulerPass(f: Field, x: real, y: real, h: real) returns (r: Eval)
    ensures r == EulerStep(f, x, y, h)
  {
    var slope := f(x, y);
    if slope.Raised? {
      return Raised;
    }
    return Value(y + Increment(h, slope.v));
  }

  method EulerLoop(f: Field, xs: seq<real>, h: real, y0: real, passes: nat) returns (r: Option<seq<real>>)
    requires passes <= |xs|
    ensures r == Trajectory(ForwardEuler, f, xs, h, y0, passes)
  {
    var ye := [y0];
    for i := 0 to passes
      invariant Trajectory(ForwardEuler, f, xs, h, y0, i) == Some(ye)
    {
      var next := EulerPass(f, xs[i], ye[|ye| - 1], h);
      if next.Raised? {
        StepRaisedEndsTrajectory(ForwardEuler, f, xs, h, y0, i, ye, passes);
        return None;
      }
      StepAppends(ForwardEuler, f, xs, h, y0, i, ye, next.v);
      ye := ye + [next.v];
    }
    return Some(ye);
  }

  /** One pass of a Runge-Kutta loop: the four slopes at `(x, y)` in turn, then the new value. */
  method Rk4Pass(f: Field, x: real, y: real, h: real) returns (r: Eval)
    ensures r == Rk4Step(f, x, y, h)
  {
    var k1 := f(x, y);
    if k1.Raised? {
      return Raised;
    }
    var k2 := f(x + h / 2.0, y + Increment(h, k1.v) / 2.0);
    if k2.Raised? {
      Rk4SecondRaises(f, x, y, h, k1.v);
      return Raised;
    }
    var k3 := f(x + h / 2.0, y + Increment(h, k2.v) / 2.0);
    if k3.Raised? {
      Rk4ThirdRaises(f, x, y, h, k1.v, k2.v);
      return Raised;
    }
    var k4 := f(x + h, y + Increment(h, k3.v));
    if k4.Raised? {
      Rk4FourthRaises(f, x, y, h, k1.v, k2.v, k3.v);
      return Raised;
    }
    Rk4StepFromSlopes(f, x, y, h, k1.v, k2.v, k3.v, k4.v);
    return Value(y + Increment(h / 6.0, k1.v + 2.0 * k2.v + 2.0 * k3.v + k4.v));
  }

  /** The Runge-Kutta loop of `generar_tabla`: four slopes per pass, appending to `y_rk4`. */
  method Rk4Loop(f: Field, xs: seq<real>, h: real, y0: real, passes: nat) returns (r: Option<seq<real>>)
    requires passes <= |xs|
    ensures r == Trajectory(ClassicRk4, f, xs, h, y0, passes)
  {
    var yk := [y0];
    for i := 0 to passes
      invariant Trajectory(ClassicRk4, f, xs, h, y0, i) == Some(yk)
    {
      var next := Rk4Pass(f, xs[i], yk[|yk| - 1], h);
      if next.Raised? {
        StepRaisedEndsTrajectory(ClassicRk4, f, xs, h, y0, i, yk, passes);
        return None;
      }
      StepAppends(ClassicRk4, f, xs, h, y0, i, yk, next.v);
      yk := yk + [next.v];
    }
    return Some(yk);
  }

  /**
    The single loop of `graficar`, which advances Euler and then Runge-Kutta
    in each pass: it yields the same two lists as the two separate loops, and
    fails exactly when one of them does.
  */
  method JointLoop(f: Field, xs: seq<real>, h: real, y0: real, passes: nat) returns (r: Option<(seq<real>, seq<real>)>)
    requires passes <= |xs|
    ensures var e := Trajectory(ForwardEuler, f, xs, h, y0, passes);
      var k := Trajectory(ClassicRk4, f, xs, h, y0, passes);
      r == if e.Some? && k.Some? then Some((e.value, k.value)) else None
  {
    var ye := [y0];
    var yk := [y0];
    for i := 0 to passes
      invariant Trajectory(ForwardEuler, f, xs, h, y0, i) == Some(ye)
      invariant Trajectory(ClassicRk4, f, xs, h, y0, i) == Some(yk)
    {
      var next := EulerPass(f, xs[i], ye[|ye| - 1], h);
      if next.Raised? {
        StepRaisedEndsTrajectory(ForwardEuler, f, xs, h, y0, i, ye, passes);
        return None;
      }
      StepAppends(ForwardEuler, f, xs, h, y0, i, ye, next.v);
      ye := ye + [next.v];

      var nextRk4 := Rk4Pass(f, xs[i], yk[|yk| - 1], h);
      if nextRk4.Raised? {
        StepRaisedEndsTrajectory(ClassicRk4, f, xs, h, y0, i, yk, passes);
        return None;
      }
      StepAppends(ClassicRk4, f, xs, h, y0, i, yk, nextRk4.v);
      yk := yk + [nextRk4.v];
    }
    return Some((ye, yk));
  }

  // ---------------------------------------------------------------------------
  // Error rows

  /** One row of the table: node index, x, both approximations, the slope, the exact value and three errors. */
  datatype Row = Row(
    index: int, x: real, yEuler: real, yRk4: real, slope: real,
    yReal: real, errAbs: real, errRel: real, errPct: real)

  /**
    The row built at node `i`. The errors compare the exact value with the
    Euler value only; the relative error is 0 when the exact value is 0; the
    slope column is f at the node and its Euler value. `None` when y_real or f
    raises there.
  */
  function MakeRow(f: Field, yReal: Exact, i: int, x: real, ye: real, yk: real): (row: Option<Row>)
    ensures row.Some? <==> yReal(x).Value? && f(x, ye).Value?
    ensures row.Some? ==>
      var r := row.value;
      && r.index == i && r.x == x && r.yEuler == ye && r.yRk4 == yk
      && Value(r.slope) == f(x, ye) && Value(r.yReal) == yReal(x)
      && r.errAbs >= 0.0 && (r.errAbs == 0.0 <==> r.yReal == ye)
      && (r.errAbs == r.yReal - ye || r.errAbs == ye - r.yReal)
      && (r.yReal != 0.0 ==> r.errRel * Abs(r.yReal) == r.errAbs)
      && (r.yReal == 0.0 ==> r.errRel == 0.0)
      && r.errRel >= 0.0
      && r.errPct == 100.0 * r.errRel
  {
    match yReal(x)
    case Raised => None
    case Value(yr) =>
      var errAbs := Abs(yr - ye);
      var errRel := if yr != 0.0 then errAbs / Abs(yr) else 0.0;
      var errPct := errRel * 100.0;
      match f(x, ye)
      case Raised => None
      case Value(slope) => Some(Row(i, x, ye, yk, slope, yr, errAbs, errRel, errPct))
  }

  /** The Runge-Kutta value is only displayed: the errors of a row do not depend on it. */
  lemma ErrorsIgnoreRk4(f: Field, yReal: Exact, i: int, x: real, ye: real, yk1: real, yk2: real)
    ensures MakeRow(f, yReal, i, x, ye, yk1).Some? == MakeRow(f, yReal, i, x, ye, yk2).Some?
    ensures MakeRow(f, yReal, i, x, ye, yk1).Some? ==>
      MakeRow(f, yReal, i, x, ye, yk1).value.(yRk4 := yk2) == MakeRow(f, yReal, i, x, ye, yk2).value
  {}

  /**
    The insert loop `for i in range(count)` after it stops: the rows inserted,
    and whether every pass succeeded. A pass whose row raises ends the loop
    with the rows inserted before it.
  */
  function Filled(f: Field, yReal: Exact, xs: seq<real>, ye: seq<real>, yk: seq<real>, count: nat): (out: (seq<Row>, bool))
    requires count <= |xs| && count <= |ye| && count <= |yk|
    ensures |out.0| <= count
    ensures out.1 <==> |out.0| == count
    ensures forall i :: 0 <= i < |out.0| ==> MakeRow(f, yReal, i, xs[i], ye[i], yk[i]) == Some(out.0[i])
    ensures !out.1 ==> MakeRow(f, yReal, |out.0|, xs[|out.0|], ye[|out.0|], yk[|out.0|]).None?
    decreases count
  {
    if count == 0 then ([], true)
    else
      var (rows, ok) := Filled(f, yReal, xs, ye, yk, count - 1);
      if !ok then (rows, false)
      else
        match MakeRow(f, yReal, count - 1, xs[count - 1], ye[count - 1], yk[count - 1])
        case None => (rows, false)
        case Some(row) => (rows + [row], true)
  }

  /** A pass of the insert loop whose row is built appends it. */
  lemma FilledNext(f: Field, yReal: Exact, xs: seq<real>, ye: seq<real>, yk: seq<real>, i: nat, rows: seq<Row>, row: Row)
    requires i < |xs| && i < |ye| && i < |yk|
    requires Filled(f, yReal, xs, ye, yk, i) == (rows, true)
    requires MakeRow(f, yReal, i, xs[i], ye[i], yk[i]) == Some(row)
    ensures Filled(f, yReal, xs, ye, yk, i + 1) == (rows + [row], true)
  {}

  /** A pass of the insert loop whose row raises ends it with the rows inserted so far. */
  lemma {:induction false} FilledStops(f: Field, yReal: Exact, xs: seq<real>, ye: seq<real>, yk: seq<real>, i: nat, rows: seq<Row>, count: nat)
    requires i < count <= |xs| && count <= |ye| && count <= |yk|
    requires Filled(f, yReal, xs, ye, yk, i) == (rows, true)
    requires MakeRow(f, yReal, i, xs[i], ye[i], yk[i]).None?
    ensures Filled(f, yReal, xs, ye, yk, count) == (rows, false)
    decreases count
  {
    if count > i + 1 {
      FilledStops(f, yReal, xs, ye, yk, i, rows, count - 1);
    }
  }

  /**
    What `generar_tabla` leaves in the table, given the rows it held before,
    and whether it reported an error. The old rows are deleted only once both
    trajectories exist, so a zero step or a raising field keeps them.
  */
  function TableAfter(prior: seq<Row>, f: Field, yReal: Exact, y0: real, a: real, b: real, h: real): (r: (seq<Row>, bool))
    ensures !r.1 ==> h != 0.0 && |r.0| == |Grid(a, h, Trunc((b - a) / h))|
  {
    match StepCount(a, b, h)
    case None => (prior, true)
    case Some(n) =>
      var xs := Grid(a, h, n);
      var e := Trajectory(ForwardEuler, f, xs, h, y0, Passes(n));
      var k := Trajectory(ClassicRk4, f, xs, h, y0, Passes(n));
      if e.None? || k.None? then (prior, true)
      else
        var (rows, ok) := Filled(f, yReal, xs, e.value, k.value, |xs|);
        (rows, !ok)
  }

  /** A zero step, or a field that raises while stepping, reports an error and keeps the old rows. */
  lemma FailureBeforeClearKeepsRows(prior: seq<Row>, f: Field, yReal: Exact, y0: real, a: real, b: real, h: real)
    requires h == 0.0 ||
      var n := Trunc((b - a) / h);
      var xs := Grid(a, h, n);
      Trajectory(ForwardEuler, f, xs, h, y0, Passes(n)).None? || Trajectory(ClassicRk4, f, xs, h, y0, Passes(n)).None?
    ensures TableAfter(prior, f, yReal, y0, a, b, h) == (prior, true)
  {}

  /**
    On a positive step over `a <= b` with every evaluation succeeding, the table
    holds one row per grid node, in node order, with no trace of the old rows;
    row i shows node i, the Euler and Runge-Kutta values there, f at the Euler
    value, y_real, and the errors of the Euler value.
  */
  lemma CompleteTable(prior: seq<Row>, f: Field, yReal: Exact, y0: real, a: real, b: real, h: real)
    requires h > 0.0 && a <= b
    requires TableAfter(prior, f, yReal, y0, a, b, h).1 == false
    ensures var n := ((b - a) / h).Floor;
      var xs := Grid(a, h, n);
      var rows := TableAfter(prior, f, yReal, y0, a, b, h).0;
      var e := Trajectory(ForwardEuler, f, xs, h, y0, n);
      var k := Trajectory(ClassicRk4, f, xs, h, y0, n);
      && n >= 0 && e.Some? && k.Some?
      && |rows| == n + 1
      && forall i :: 0 <= i <= n ==>
           rows[i].index == i && rows[i].x == a + i as real * h
           && rows[i].yEuler == e.value[i] && rows[i].yRk4 == k.value[i]
           && Value(rows[i].slope) == f(xs[i], e.value[i])
           && Value(rows[i].yReal) == yReal(xs[i])
           && MakeRow(f, yReal, i, xs[i], e.value[i], k.value[i]) == Some(rows[i])
  {
    GridCoversInterval(a, b, h);
  }

  /**
    When a row raises during insertion, the table holds exactly the rows built
    for the nodes before it, and the row at the failing node could not be built.
  */
  lemma PartialTable(prior: seq<Row>, f: Field, yReal: Exact, y0: real, a: real, b: real, h: real)
    requires h != 0.0
    requires var n := Trunc((b - a) / h);
      var xs := Grid(a, h, n);
      Trajectory(ForwardEuler, f, xs, h, y0, Passes(n)).Some? && Trajectory(ClassicRk4, f, xs, h, y0, Passes(n)).Some?
    requires TableAfter(prior, f, yReal, y0, a, b, h).1
    ensures var n := Trunc((b - a) / h);
      var xs := Grid(a, h, n);
      var e := Trajectory(ForwardEuler, f, xs, h, y0, Passes(n)).value;
      var k := Trajectory(ClassicRk4, f, xs, h, y0, Passes(n)).value;
      var rows := TableAfter(prior, f, yReal, y0, a, b, h).0;
      && |rows| < |xs|
      && (forall i :: 0 <= i < |rows| ==> MakeRow(f, yReal, i, xs[i], e[i], k[i]) == Some(rows[i]))
      && MakeRow(f, yReal, |rows|, xs[|rows|], e[|rows|], k[|rows|]).None?
  {
    assert StepCount(a, b, h) == Some(Trunc((b - a) / h));
  }

  // ---------------------------------------------------------------------------
  // The series of `graficar`

  /** `[y_real(x) for x in x_vals]`; `None` when an evaluation raises. */
  function ExactValues(yReal: Exact, xs: seq<real>): (r: Option<seq<real>>)
    ensures r.Some? <==> forall i :: 0 <= i < |xs| ==> yReal(xs[i]).Value?
    ensures r.Some? ==> |r.value| == |xs| && forall i :: 0 <= i < |xs| ==> Value(r.value[i]) == yReal(xs[i])
    decreases |xs|
  {
    if xs == [] then Some([])
    else
      match yReal(xs[0])
      case Raised => None
      case Value(y) =>
        match ExactValues(yReal, xs[1..])
        case None => None
        case Some(ys) => Some([y] + ys)
  }

  /**
    `graficar` up to the drawing: the grid, the exact values and the two
    trajectories it would plot, or `failed` when it reports an error instead.
    A negative step count leaves the grid empty but both trajectories at
    `[y0]`, and `plt.plot` rejects series of unequal length.
  */
  method PlotSeries(f: Field, yReal: Exact, y0: real, a: real, b: real, h: real)
    returns (failed: bool, xs: seq<real>, exact: seq<real>, ye: seq<real>, yk: seq<real>)
    ensures failed <==> (h == 0.0 || var n := Trunc((b - a) / h);
      var grid := Grid(a, h, n);
      || n < 0
      || Trajectory(ForwardEuler, f, grid, h, y0, Passes(n)).None?
      || Trajectory(ClassicRk4, f, grid, h, y0, Passes(n)).None?
      || ExactValues(yReal, grid).None?)
    ensures !failed ==> var n := Trunc((b - a) / h);
      && xs == Grid(a, h, n)
      && Some(exact) == ExactValues(yReal, xs)
      && Some(ye) == Trajectory(ForwardEuler, f, xs, h, y0, Passes(n))
      && Some(yk) == Trajectory(ClassicRk4, f, xs, h, y0, Passes(n))
    ensures !failed ==> |exact| == |xs| && |ye| == |xs| && |yk| == |xs|
  {
    failed, xs, exact, ye, yk := true, [], [], [], [];
    var count := StepCount(a, b, h);
    if count.None? {
      return;
    }
    var n := count.value;
    if n < 0 {
      return;
    }
    var grid := Grid(a, h, n);
    var both := JointLoop(f, grid, h, y0, Passes(n));
    if both.None? {
      return;
    }
    var values := ExactValues(yReal, grid);
    if values.None? {
      return;
    }
    failed, xs, exact, ye, yk := false, grid, values.value, both.value.0, both.value.1;
  }
}
