/** The integer state machine behind the Spirograph drawer in `spiro.py`.

    A `Spiro` traces one hypotrochoid. Its angle accumulator `a` advances by
    `step` degrees per tick until it reaches `360 * nRot`, where `nRot` is the
    number of turns after which the curve closes, found by reducing the ratio
    of the radii by their greatest common divisor. A `SpiroAnimator` ticks a
    list of spiros together and relaunches all of them with new random
    parameters once every one is complete.

    The curve coordinates (floating-point trigonometry), the turtle graphics
    and the timer are not modelled; the turtle is reduced to its visibility
    flag and the random draws are inputs. */
module Spirograph {
  import opened Fractions

  /** Degrees the angle accumulator advances per tick. */
  const Step := 5

  datatype Option<T> = None | Some(value: T)

  /** Everything a `Spiro` holds that is not floating point or graphics:
      centre, radii, turns to close, angle in degrees, the completion flag
      and whether its turtle cursor is shown. */
  datatype SpiroState = SpiroState(
    xc: int, yc: int, R: int, r: int, nRot: int, a: int,
    complete: bool, visible: bool)

  /** The integer parameters `setparams` receives. */
  datatype Params = Params(xc: int, yc: int, R: int, r: int)

  // ---------------------------------------------------------------------
  // Closing the curve
  // ---------------------------------------------------------------------

  /** After `n` full turns of the angle, the curve's second term, whose angle
      is `(R - r) / r` times the first, is back at a whole number of turns
      as well, so the curve is back at its starting point. */
  predicate Closes(R: int, r: int, n: int)
  {
    n > 0 && Divides(r, (R - r) * n)
  }

  /** `nRot`: the inner radius floor-divided by the GCD of the two radii.
      Only positive radii are modelled; for others the value 0 stands in. */
  function ReducedRotations(R: int, r: int): int
  {
    if R > 0 && r > 0 then FloorDiv(r, Gcd(r, R)) else 0
  }

  /** `nRot` times the GCD is `r`, and the GCD divides `R` as well. */
  lemma ReducedRotationsFactor(R: int, r: int)
    requires R > 0 && r > 0
    ensures ReducedRotations(R, r) >= 1
    ensures ReducedRotations(R, r) * Gcd(r, R) == r
    ensures Divides(Gcd(r, R), R)
  {
    var g, nRot := Gcd(r, R), ReducedRotations(R, r);
    GcdIsGreatest(r, R);
    FloorDivIsDiv(r, g);
    assert r == g * nRot;
    if nRot <= 0 {
      MulNonNegative(g, -nRot);
    }
  }

  /** `nRot` divides `r` exactly, closes the curve, and every number of turns
      that closes the curve is a multiple of it, so it is the least one. */
  lemma ReducedRotationsClose(R: int, r: int)
    requires R > 0 && r > 0
    ensures ReducedRotations(R, r) >= 1
    ensures r % ReducedRotations(R, r) == 0
    ensures Closes(R, r, ReducedRotations(R, r))
    ensures forall n :: Closes(R, r, n) ==> n % ReducedRotations(R, r) == 0
  {
    var g, nRot := Gcd(r, R), ReducedRotations(R, r);
    ReducedRotationsFactor(R, r);
    MultipleDivisible(nRot, g);
    var m := R / g;
    assert R == g * m;
    assert (R - r) * nRot == r * (m - nRot);
    MultipleDivisible(r, m - nRot);
    forall n | Closes(R, r, n)
      ensures n % nRot == 0
    {
      ClosingTurnsAreMultiples(R, r, n);
    }
  }

  lemma ClosingTurnsAreMultiples(R: int, r: int, n: int)
    requires R > 0 && r > 0 && Closes(R, r, n)
    ensures ReducedRotations(R, r) >= 1 && n % ReducedRotations(R, r) == 0
  {
    var g, nRot := Gcd(r, R), ReducedRotations(R, r);
    ReducedRotationsFactor(R, r);
    // r divides both n * r and n * R, hence their GCD, which is n * g.
    ClosingDividesTurnsOfR(R, r, n);
    MultipleDivisible(r, n);
    GcdScale(r, R, n);
    GcdDivisors(n * r, n * R);
    assert Divides(r, n * g);
    CancelCommonFactor(n, g, nRot);
  }

  lemma ClosingDividesTurnsOfR(R: int, r: int, n: int)
    requires r > 0 && Closes(R, r, n)
    ensures Divides(r, n * R)
  {
    DividesCombination(r, (R - r) * n, r, n);
    assert (R - r) * n + n * r == n * R;
  }

  lemma CancelCommonFactor(n: int, g: int, k: int)
    requires g > 0 && k > 0 && Divides(k * g, n * g)
    ensures n % k == 0
  {
    var j := (n * g) / (k * g);
    assert n * g == (k * g) * j;
    assert (n - k * j) * g == 0;
    SmallMultipleIsZero(n - k * j, g);
    MultipleDivisible(k, j);
  }

  // ---------------------------------------------------------------------
  // One spiro
  // ---------------------------------------------------------------------

  /** The angle at which the drawing is complete. */
  function Bound(s: SpiroState): int
  {
    360 * s.nRot
  }

  /** What `setparams` establishes and no operation breaks: positive radii,
      `nRot` reduced from them, and an angle that is a non-negative multiple
      of the step. */
  predicate WellFormed(s: SpiroState)
  {
    s.R > 0 && s.r > 0 && s.nRot == ReducedRotations(s.R, s.r) &&
    s.a >= 0 && s.a % Step == 0
  }

  /** The completion flag is only ever set once the angle reached the bound.
      `setparams` alone can break this (it resets the angle and keeps the
      flag); `restart`, which always follows it, restores it. */
  predicate CompletionSound(s: SpiroState)
  {
    s.complete ==> s.a >= Bound(s)
  }

  /** Centre, radii and turns: what only `setparams` changes. */
  predicate SameParams(s: SpiroState, t: SpiroState)
  {
    s.xc == t.xc && s.yc == t.yc && s.R == t.R && s.r == t.r && s.nRot == t.nRot
  }

  /** `setparams`: new centre and radii, `nRot` recomputed, angle back to 0. */
  function WithParams(s: SpiroState, p: Params): SpiroState
  {
    s.(xc := p.xc, yc := p.yc, R := p.R, r := p.r,
       nRot := ReducedRotations(p.R, p.r), a := 0)
  }

  /** `restart`: clear the completion flag and show the turtle; the angle is
      left as it is. */
  function Restarted(s: SpiroState): SpiroState
  {
    s.(complete := false, visible := true)
  }

  /** The state of a spiro just made, or just relaunched, with `p`. */
  function Initial(p: Params): SpiroState
  {
    SpiroState(p.xc, p.yc, p.R, p.r, ReducedRotations(p.R, p.r), 0, false, true)
  }

  /** `update`: one tick of the animation. */
  function Tick(s: SpiroState): SpiroState
  {
    if s.complete then s
    else
      var a := s.a + Step;
      if a >= Bound(s) then s.(a := a, complete := true, visible := false)
      else s.(a := a)
  }

  /** `n` ticks in a row. */
  function Ticks(s: SpiroState, n: nat): SpiroState
  {
    if n == 0 then s else Tick(Ticks(s, n - 1))
  }

  /** `setparams` followed by `restart` forgets everything of the old state. */
  lemma RelaunchIsInitial(s: SpiroState, p: Params)
    requires p.R > 0 && p.r > 0
    ensures Restarted(WithParams(s, p)) == Initial(p)
    ensures WellFormed(Initial(p)) && CompletionSound(Initial(p))
  {
  }

  /** What one tick promises: a complete spiro stays exactly as it is; an
      incomplete one advances by exactly one step, keeps its parameters, and
      is complete afterwards exactly when the angle reached the bound. The
      flag is sticky and the angle never decreases. */
  lemma TickSpec(s: SpiroState)
    ensures s.complete ==> Tick(s) == s
    ensures !s.complete ==> Tick(s).a == s.a + Step
    ensures !s.complete ==> (Tick(s).complete <==> Tick(s).a >= Bound(s))
    ensures SameParams(s, Tick(s)) && s.a <= Tick(s).a
    ensures s.complete ==> Tick(s).complete
    ensures WellFormed(s) ==> WellFormed(Tick(s))
    ensures CompletionSound(s) ==> CompletionSound(Tick(s))
    ensures CompletionSound(s) ==> (Tick(s).complete <==> Tick(s).a >= Bound(s))
  {
  }

  /** Counting ticks from a fresh start: after `m <= 72 * nRot` ticks the
      angle is `5 * m` and the spiro is complete exactly when
      `m == 72 * nRot`. */
  lemma {:induction false} TicksFromStart(s: SpiroState, m: nat)
    requires s.a == 0 && !s.complete && s.nRot >= 1
    requires m <= 72 * s.nRot
    ensures SameParams(s, Ticks(s, m))
    ensures Ticks(s, m).a == Step * m
    ensures Ticks(s, m).complete <==> m == 72 * s.nRot
  {
    if m > 0 {
      TicksFromStart(s, m - 1);
    }
  }

  /** Once complete, further ticks change nothing. */
  lemma {:induction false} CompleteIsFinal(s: SpiroState, n: nat)
    requires s.complete
    ensures Ticks(s, n) == s
  {
    if n > 0 {
      CompleteIsFinal(s, n - 1);
    }
  }

  lemma {:induction false} TicksAdd(s: SpiroState, m: nat, n: nat)
    ensures Ticks(s, m + n) == Ticks(Ticks(s, m), n)
  {
    if n > 0 {
      TicksAdd(s, m, n - 1);
    }
  }

  /** A freshly launched spiro is complete after exactly `72 * nRot` ticks,
      at angle `360 * nRot`, not before, and stays so. */
  lemma CompletesAfterFullTurns(p: Params, n: nat)
    requires p.R > 0 && p.r > 0
    ensures var s := Initial(p);
      (Ticks(s, n).complete <==> n >= 72 * s.nRot) &&
      (n >= 72 * s.nRot ==> Ticks(s, n).a == 360 * s.nRot) &&
      (n <= 72 * s.nRot ==> Ticks(s, n).a == Step * n)
  {
    var s := Initial(p);
    ReducedRotationsClose(p.R, p.r);
    var full := 72 * s.nRot;
    if n <= full {
      TicksFromStart(s, n);
    } else {
      TicksFromStart(s, full);
      TicksAdd(s, full, n - full);
      CompleteIsFinal(Ticks(s, full), n - full);
    }
  }

  /** `restart` without `setparams` keeps the angle, so a spiro that was
      complete becomes complete again on the very next tick. */
  lemma RestartAloneRecompletes(s: SpiroState)
    requires s.complete && CompletionSound(s)
    ensures !Restarted(s).complete
    ensures Tick(Restarted(s)).complete
    ensures Tick(Restarted(s)).a == s.a + Step
  {
  }

  // ---------------------------------------------------------------------
  // The angles `draw` visits
  // ---------------------------------------------------------------------

  /** Python's `range(start, stop, step)` for a positive step. */
  function PyRange(start: int, stop: int, step: int): seq<int>
    requires step > 0
    decreases stop - start
  {
    if start >= stop then [] else [start] + PyRange(start + step, stop, step)
  }

  /** The range holds `ceil((stop - start) / step)` values. */
  lemma {:induction false} PyRangeLength(start: int, stop: int, step: int)
    requires step > 0
    ensures |PyRange(start, stop, step)| ==
      if start >= stop then 0 else (stop - start + step - 1) / step
    decreases stop - start
  {
    if start < stop {
      PyRangeLength(start + step, stop, step);
      var x := stop - start + step - 1;
      DivModUnique(x, step, (x - step) / step + 1, (x - step) % step);
    }
  }

  /** The `k`-th value of the range is `start + k * step`. */
  lemma {:induction false} PyRangeAt(start: int, stop: int, step: int, k: int)
    requires step > 0 && 0 <= k < |PyRange(start, stop, step)|
    ensures PyRange(start, stop, step)[k] == start + k * step
    decreases stop - start
  {
    if k > 0 {
      PyRangeAt(start + step, stop, step, k - 1);
    }
  }

  /** `draw` visits `72 * nRot + 1` angles, strictly increasing from 0 to
      exactly `360 * nRot`. */
  lemma DrawAngles(nRot: int)
    requires nRot >= 1
    ensures var s := PyRange(0, 360 * nRot + 1, Step);
      |s| == 72 * nRot + 1 && s[0] == 0 && s[|s| - 1] == 360 * nRot &&
      forall i, j :: 0 <= i < j < |s| ==> s[i] < s[j]
  {
    var s := PyRange(0, 360 * nRot + 1, Step);
    PyRangeLength(0, 360 * nRot + 1, Step);
    DivModUnique(360 * nRot + 5, 5, 72 * nRot + 1, 0);
    forall k | 0 <= k < |s|
      ensures s[k] == 5 * k
    {
      PyRangeAt(0, 360 * nRot + 1, Step, k);
    }
  }

  // ---------------------------------------------------------------------
  // Random parameters
  // ---------------------------------------------------------------------

  function Min(x: int, y: int): int
  {
    if x <= y then x else y
  }

  /** `random.randint(lo, hi)`, with the random source made an input `draw`:
      an empty range raises `ValueError`, here `None`. */
  function RandInt(lo: int, hi: int, draw: nat): (v: Option<int>)
    ensures v.Some? <==> lo <= hi
    ensures v.Some? ==> lo <= v.value <= hi
  {
    if lo <= hi then Some(lo + draw % (hi - lo + 1)) else None
  }

  /** Every value of a non-empty range is drawn by some draw. */
  lemma RandIntReachesAll(lo: int, hi: int, v: int)
    requires lo <= v <= hi
    ensures RandInt(lo, hi, v - lo) == Some(v)
  {
    DivModUnique(v - lo, hi - lo + 1, 0, v - lo);
  }

  /** The four random draws `genRandomParams` makes for integers. */
  datatype Draws = Draws(forR: nat, forr: nat, forXc: nat, forYc: nat)

  /** The bounds `genRandomParams` keeps to for a `width` by `height`
      window; `//` in the source is floor division, as `/` is here for a
      positive divisor. */
  predicate ParamsInBounds(width: int, height: int, p: Params)
  {
    50 <= p.R <= Min(width, height) / 2 &&
    10 <= p.r <= 9 * p.R / 10 &&
    (-width) / 2 <= p.xc <= width / 2 &&
    (-height) / 2 <= p.yc <= height / 2
  }

  /** `genRandomParams`: draws `R`, then `r` bounded by `R`, then the centre.
      It fails exactly when the window is too small for the smallest outer
      radius, and what it returns keeps to the bounds. */
  function GenRandomParams(width: int, height: int, d: Draws): (p: Option<Params>)
    ensures p.Some? <==> Min(width, height) / 2 >= 50
    ensures p.Some? ==> ParamsInBounds(width, height, p.value)
  {
    match RandInt(50, Min(width, height) / 2, d.forR)
    case None => None
    case Some(R) =>
      match RandInt(10, 9 * R / 10, d.forr)
      case None => None
      case Some(r) =>
        match RandInt((-width) / 2, width / 2, d.forXc)
        case None => None
        case Some(xc) =>
          match RandInt((-height) / 2, height / 2, d.forYc)
          case None => None
          case Some(yc) => Some(Params(xc, yc, R, r))
  }

  /** Conversely every parameter set within the bounds can be drawn. */
  lemma GenRandomParamsReachesAll(width: int, height: int, p: Params)
    requires ParamsInBounds(width, height, p)
    ensures exists d :: GenRandomParams(width, height, d) == Some(p)
  {
    var d := Draws(p.R - 50, p.r - 10, p.xc - (-width) / 2, p.yc - (-height) / 2);
    RandIntReachesAll(50, Min(width, height) / 2, p.R);
    RandIntReachesAll(10, 9 * p.R / 10, p.r);
    RandIntReachesAll((-width) / 2, width / 2, p.xc);
    RandIntReachesAll((-height) / 2, height / 2, p.yc);
    assert GenRandomParams(width, height, d) == Some(p);
  }

  /** Parameters within the bounds are valid for `setparams`, with the inner
      radius smaller than the outer one. */
  lemma BoundedParamsAreValid(width: int, height: int, p: Params)
    requires ParamsInBounds(width, height, p)
    ensures 0 < p.r < p.R
  {
  }

  // ---------------------------------------------------------------------
  // The group of spiros
  // ---------------------------------------------------------------------

  function TickAll(ss: seq<SpiroState>): (t: seq<SpiroState>)
  {
    seq(|ss|, i requires 0 <= i < |ss| => Tick(ss[i]))
  }

  function InitialAll(ps: seq<Params>): seq<SpiroState>
  {
    seq(|ps|, i requires 0 <= i < |ps| => Initial(ps[i]))
  }

  function Toggled(s: SpiroState): SpiroState
  {
    s.(visible := !s.visible)
  }

  function ToggleAll(ss: seq<SpiroState>): seq<SpiroState>
  {
    seq(|ss|, i requires 0 <= i < |ss| => Toggled(ss[i]))
  }

  /** The `nComplete` counter after the loop has seen the first `n` states. */
  function CountCompleteIn(ss: seq<SpiroState>, n: nat): (c: nat)
    requires n <= |ss|
  {
    if n == 0 then 0
    else CountCompleteIn(ss, n - 1) + (if ss[n - 1].complete then 1 else 0)
  }

  /** The `nComplete` counter: how many of the states are complete. */
  function CountComplete(ss: seq<SpiroState>): (n: nat)
  {
    CountCompleteIn(ss, |ss|)
  }

  /** Over the first `n` states the counter is at most `n`, and reaches `n`
      exactly when each of them is complete. */
  lemma {:induction false} CountCompleteInAll(ss: seq<SpiroState>, n: nat)
    requires n <= |ss|
    ensures CountCompleteIn(ss, n) <= n
    ensures CountCompleteIn(ss, n) == n <==> forall i :: 0 <= i < n ==> ss[i].complete
  {
    if n > 0 {
      CountCompleteInAll(ss, n - 1);
    }
  }

  /** The counter never exceeds the length of the list, and reaches it
      exactly when every state is complete. */
  lemma CountCompleteAll(ss: seq<SpiroState>)
    ensures CountComplete(ss) <= |ss|
    ensures CountComplete(ss) == |ss| <==> forall i :: 0 <= i < |ss| ==> ss[i].complete
  {
    CountCompleteInAll(ss, |ss|);
  }

  /** `SpiroAnimator.update`: tick every spiro, then relaunch all of them
      with `ps` if the count of complete ones equals the length. */
  function AnimatorTick(ss: seq<SpiroState>, ps: seq<Params>): (t: seq<SpiroState>)
    requires |ps| == |ss|
    ensures |t| == |ss|
  {
    var t := TickAll(ss);
    if CountComplete(t) == |t| then InitialAll(ps) else t
  }

  /** The group restarts exactly when every spiro is complete after its tick;
      after a restart every spiro is at angle 0, not complete and shown;
      otherwise every spiro has had exactly its own tick. */
  lemma AnimatorTickSpec(ss: seq<SpiroState>, ps: seq<Params>)
    requires |ps| == |ss|
    ensures var t := AnimatorTick(ss, ps);
      |t| == |ss| &&
      ((forall i :: 0 <= i < |ss| ==> Tick(ss[i]).complete) ==>
        forall i :: 0 <= i < |t| ==>
          t[i] == Initial(ps[i]) && t[i].a == 0 && !t[i].complete && t[i].visible) &&
      (!(forall i :: 0 <= i < |ss| ==> Tick(ss[i]).complete) ==>
        forall i :: 0 <= i < |t| ==> t[i] == Tick(ss[i]))
  {
    var t := TickAll(ss);
    CountCompleteAll(t);
    if forall i :: 0 <= i < |ss| ==> Tick(ss[i]).complete {
      assert forall i :: 0 <= i < |t| ==> t[i].complete;
      assert AnimatorTick(ss, ps) == InitialAll(ps);
    } else {
      var k :| 0 <= k < |ss| && !Tick(ss[k]).complete;
      assert !t[k].complete;
      assert AnimatorTick(ss, ps) == t;
    }
  }

  /** Toggling flips every visibility flag, changes nothing else, and
      toggling twice gives back the original states. */
  lemma ToggleAllSpec(ss: seq<SpiroState>)
    ensures |ToggleAll(ss)| == |ss|
    ensures forall i :: 0 <= i < |ss| ==>
      ToggleAll(ss)[i].visible == !ss[i].visible &&
      ToggleAll(ss)[i].(visible := ss[i].visible) == ss[i]
    ensures ToggleAll(ToggleAll(ss)) == ss
  {
  }

  /** The animator's invariant: every state of the group is well formed, and
      none is marked complete before its angle reached the bound. */
  predicate GroupInvariant(ss: seq<SpiroState>)
  {
    forall i :: 0 <= i < |ss| ==> WellFormed(ss[i]) && CompletionSound(ss[i])
  }

  /** A group launched with positive radii satisfies the invariant. */
  lemma InitialAllInvariant(ps: seq<Params>)
    requires forall i :: 0 <= i < |ps| ==> ps[i].R > 0 && ps[i].r > 0
    ensures GroupInvariant(InitialAll(ps))
  {
    forall i | 0 <= i < |ps|
      ensures WellFormed(InitialAll(ps)[i]) && CompletionSound(InitialAll(ps)[i])
    {
      RelaunchIsInitial(Initial(ps[i]), ps[i]);
    }
  }

  /** Ticking every spiro and toggling every turtle keep the invariant. */
  lemma GroupOperationsKeepInvariant(ss: seq<SpiroState>)
    requires GroupInvariant(ss)
    ensures GroupInvariant(TickAll(ss))
    ensures GroupInvariant(ToggleAll(ss))
  {
    forall i | 0 <= i < |ss|
      ensures WellFormed(TickAll(ss)[i]) && CompletionSound(TickAll(ss)[i])
    {
      TickSpec(ss[i]);
    }
  }

  /** A group tick keeps the invariant, whether or not it restarts with new
      parameters of positive radii. */
  lemma AnimatorTickKeepsInvariant(ss: seq<SpiroState>, ps: seq<Params>)
    requires GroupInvariant(ss) && |ps| == |ss|
    requires forall i :: 0 <= i < |ps| ==> ps[i].R > 0 && ps[i].r > 0
    ensures GroupInvariant(AnimatorTick(ss, ps))
  {
    GroupOperationsKeepInvariant(ss);
    InitialAllInvariant(ps);
  }

  // ---------------------------------------------------------------------
  // The classes
  // ---------------------------------------------------------------------

  /** One spirograph curve with its turtle. */
  class Spiro {
    var xc: int
    var yc: int
    var R: int
    var r: int
    var nRot: int
    var a: int
    const step: int := Step
    var drawingComplete: bool
    var visible: bool

    function State(): SpiroState
      reads this
    {
      SpiroState(xc, yc, R, r, nRot, a, drawingComplete, visible)
    }

    ghost predicate Valid()
      reads this
    {
      WellFormed(State())
    }

    /** Sets the parameters, then restarts: the spiro is launched. */
    constructor (xc: int, yc: int, R: int, r: int)
      requires R > 0 && r > 0
      ensures Valid() && CompletionSound(State())
      ensures State() == Initial(Params(xc, yc, R, r))
    {
      drawingComplete := false;
      visible := true;
      new;
      SetParams(xc, yc, R, r);
      Restart();
    }

    /** `setparams`. */
    method SetParams(xc: int, yc: int, R: int, r: int)
      requires R > 0 && r > 0
      modifies this
      ensures Valid()
      ensures State() == WithParams(old(State()), Params(xc, yc, R, r))
    {
      this.xc, this.yc := xc, yc;
      this.R, this.r := R, r;
      var gcdVal := Gcd(r, R);
      GcdDivisors(r, R);
      nRot := FloorDiv(r, gcdVal);
      a := 0;
    }

    /** `restart`. */
    method Restart()
      requires Valid()
      modifies this
      ensures Valid() && State() == Restarted(old(State()))
      ensures CompletionSound(State())
    {
      drawingComplete := false;
      visible := true;
    }

    /** `update`. */
    method Update()
      requires Valid()
      modifies this
      ensures Valid() && State() == Tick(old(State()))
    {
      if drawingComplete {
        return;
      }
      a := a + step;
      if a >= 360 * nRot {
        drawingComplete := true;
        visible := false;
      }
    }

    /** Shows the turtle if it is hidden and hides it if it is shown. */
    method ToggleTurtle()
      requires Valid()
      modifies this
      ensures Valid() && State() == Toggled(old(State()))
    {
      if visible {
        visible := false;
      } else {
        visible := true;
      }
    }

    /** `draw`: visits the angles of `range(0, 360 * nRot + 1, step)`, then
        hides the turtle; the angle accumulator is not touched. The angles
        run in steps from 0 to exactly `360 * nRot`, the full closed curve. */
    method Draw() returns (angles: seq<int>)
      requires Valid()
      modifies this
      ensures Valid() && State() == old(State()).(visible := false)
      ensures angles == PyRange(0, 360 * nRot + 1, step)
      ensures |angles| == 72 * nRot + 1 && angles[0] == 0 && angles[|angles| - 1] == 360 * nRot
      ensures forall i, j :: 0 <= i < j < |angles| ==> angles[i] < angles[j]
    {
      angles := RangeValues(0, 360 * nRot + 1, step);
      assert nRot >= 1 by {
        ReducedRotationsFactor(R, r);
      }
      DrawAngles(nRot);
      visible := false;
    }
  }

  /** The loop of `draw`: the values `range(start, stop, step)` visits, in
      order. */
  method RangeValues(start: int, stop: int, step: int) returns (values: seq<int>)
    requires step > 0
    ensures values == PyRange(start, stop, step)
  {
    values := [];
    var i := start;
    while i < stop
      invariant values + PyRange(i, stop, step) == PyRange(start, stop, step)
      decreases stop - i
    {
      values := values + [i];
      i := i + step;
    }
  }

  function StatesOf(ss: seq<Spiro>): (t: seq<SpiroState>)
    reads ss
    ensures |t| == |ss| && forall i :: 0 <= i < |ss| ==> t[i] == ss[i].State()
  {
    if ss == [] then [] else [ss[0].State()] + StatesOf(ss[1..])
  }

  /** Lists whose states agree one for one have the same `StatesOf`. */
  lemma StatesOfIs(ss: seq<Spiro>, t: seq<SpiroState>)
    requires |ss| == |t| && forall j :: 0 <= j < |ss| ==> ss[j].State() == t[j]
    ensures StatesOf(ss) == t
  {
  }

  /** No spiro appears twice in the list. */
  predicate DistinctSpiros(list: seq<Spiro>)
  {
    forall i, j :: 0 <= i < j < |list| ==> list[i] != list[j]
  }

  /** The body of `update`'s loop: the `i`-th spiro takes its tick, the
      others are untouched, and the counter goes up when that spiro is now
      complete. */
  method TickAndCount(list: seq<Spiro>, i: int, nComplete: nat, ghost ticked: seq<SpiroState>)
    returns (count: nat)
    requires DistinctSpiros(list) && 0 <= i < |list| == |ticked|
    requires list[i].Valid() && ticked[i] == Tick(list[i].State())
    requires nComplete == CountCompleteIn(ticked, i)
    modifies list[i]
    ensures list[i].State() == ticked[i]
    ensures forall j :: 0 <= j < |list| && j != i ==> list[j].State() == old(list[j].State())
    ensures count == CountCompleteIn(ticked, i + 1)
  {
    list[i].Update();
    count := nComplete;
    if list[i].drawingComplete {
      count := count + 1;
    }
  }

  /** The loop of `update`: `ticked` is what each state becomes after its
      tick; the result is the number of complete spiros afterwards. */
  method TickList(list: seq<Spiro>, ghost before: seq<SpiroState>, ghost ticked: seq<SpiroState>)
    returns (nComplete: nat)
    requires DistinctSpiros(list) && |before| == |list| && |ticked| == |list|
    requires forall j :: 0 <= j < |list| ==> list[j].Valid() && list[j].State() == before[j]
    requires forall j :: 0 <= j < |list| ==> ticked[j] == Tick(before[j])
    modifies list
    ensures forall j :: 0 <= j < |list| ==> list[j].State() == ticked[j]
    ensures nComplete == CountCompleteIn(ticked, |list|)
  {
    nComplete := 0;
    for i := 0 to |list|
      invariant forall j :: 0 <= j < i ==> list[j].State() == ticked[j]
      invariant forall j :: i <= j < |list| ==> list[j].Valid() && list[j].State() == before[j]
      invariant nComplete == CountCompleteIn(ticked, i)
    {
      nComplete := TickAndCount(list, i, nComplete, ticked);
    }
  }

  /** A group of spiros animated together in a `width` by `height` window. */
  class SpiroAnimator {
    var width: int
    var height: int
    var spiros: seq<Spiro>

    /** No spiro appears twice in the list. */
    ghost predicate Distinct()
      reads this
    {
      DistinctSpiros(spiros)
    }

    /** The animator's invariant: distinct spiros whose states satisfy
        `GroupInvariant`. */
    ghost predicate Valid()
      reads this, spiros
    {
      Distinct() && GroupInvariant(States())
    }

    ghost function States(): seq<SpiroState>
      reads this, spiros
    {
      StatesOf(spiros)
    }

    /** Makes one spiro per parameter set; the parameters are the draws
        `genRandomParams` made. */
    constructor (width: int, height: int, ps: seq<Params>)
      requires forall i :: 0 <= i < |ps| ==> ParamsInBounds(width, height, ps[i])
      ensures Valid() && this.width == width && this.height == height
      ensures forall i :: 0 <= i < |spiros| ==> fresh(spiros[i])
      ensures States() == InitialAll(ps)
    {
      var list: seq<Spiro> := [];
      for i := 0 to |ps|
        invariant |list| == i
        invariant forall j :: 0 <= j < i ==> fresh(list[j])
        invariant forall j :: 0 <= j < i ==> list[j].State() == Initial(ps[j])
        invariant forall j, k :: 0 <= j < k < i ==> list[j] != list[k]
      {
        BoundedParamsAreValid(width, height, ps[i]);
        var spiro := new Spiro(ps[i].xc, ps[i].yc, ps[i].R, ps[i].r);
        list := list + [spiro];
      }
      this.width, this.height := width, height;
      spiros := list;
      new;
      assert States() == InitialAll(ps);
      InitialAllInvariant(ps);
    }

    /** `restart`: relaunch every spiro with its new parameters. */
    method Restart(ps: seq<Params>)
      requires Valid() && |ps| == |spiros|
      requires forall i :: 0 <= i < |ps| ==> ParamsInBounds(width, height, ps[i])
      modifies spiros
      ensures Valid() && States() == InitialAll(ps)
    {
      for i := 0 to |spiros|
        invariant Distinct()
        invariant forall j :: 0 <= j < i ==> spiros[j].State() == Initial(ps[j])
      {
        BoundedParamsAreValid(width, height, ps[i]);
        ghost var s0 := spiros[i].State();
        spiros[i].SetParams(ps[i].xc, ps[i].yc, ps[i].R, ps[i].r);
        spiros[i].Restart();
        RelaunchIsInitial(s0, ps[i]);
      }
      assert States() == InitialAll(ps);
      InitialAllInvariant(ps);
    }

    /** `update`: one timer tick for the whole group. The parameters are
        used only if the group restarts. */
    method Update(ps: seq<Params>)
      requires Valid() && |ps| == |spiros|
      requires forall i :: 0 <= i < |ps| ==> ParamsInBounds(width, height, ps[i])
      modifies spiros
      ensures Valid() && States() == AnimatorTick(old(States()), ps)
    {
      ghost var before := States();
      var nComplete := TickEach();
      ghost var ticked := States();
      assert |ticked| == |spiros| && nComplete == CountComplete(ticked);
      GroupOperationsKeepInvariant(before);
      if nComplete == |spiros| {
        Restart(ps);
        assert AnimatorTick(before, ps) == InitialAll(ps);
      } else {
        assert AnimatorTick(before, ps) == ticked;
      }
    }

    /** `update`'s loop over the list: tick each spiro and count how many
        are complete afterwards. */
    method TickEach() returns (nComplete: nat)
      requires Valid()
      modifies spiros
      ensures Distinct() && States() == TickAll(old(States()))
      ensures nComplete == CountComplete(States())
    {
      var list := spiros;
      ghost var before := StatesOf(list);
      ghost var ticked := TickAll(before);
      nComplete := TickList(list, before, ticked);
      assert spiros == list;
      StatesOfIs(list, ticked);
    }

    /** `toggleTurtles`: show each hidden turtle and hide each shown one. */
    method ToggleTurtles()
      requires Valid()
      modifies spiros
      ensures Valid() && States() == ToggleAll(old(States()))
    {
      ghost var before := States();
      for i := 0 to |spiros|
        invariant Distinct()
        invariant forall j :: 0 <= j < i ==> spiros[j].State() == Toggled(before[j])
        invariant forall j :: i <= j < |spiros| ==> spiros[j].State() == before[j]
      {
        spiros[i].ToggleTurtle();
      }
      assert States() == ToggleAll(before);
      GroupOperationsKeepInvariant(before);
    }
  }
}
