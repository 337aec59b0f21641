/** The rate controller's steps over reals, and what any run of them keeps (ratelimit/core/controller.go,
    ratelimit/core/limits.go). */
module Controller {
  import opened Wrappers

  const INT64_MAX := 0x7fff_ffff_ffff_ffff
  const INT64_MIN := -0x8000_0000_0000_0000

  newtype Millis = x: int | INT64_MIN <= x <= INT64_MAX

  // ---------------------------------------------------------------- products, by their laws

  /** The product of two reals, a name that lets proofs use its laws and not its definition. */
  function Times(x: real, y: real): real { x * y }

  function Over(x: real, y: real): real
    requires y > 0.0
  {
    x / y
  }

  lemma TimesLaws(x: real, y: real, k: real)
    ensures Times(x, k) == Times(k, x) && Times(x + y, k) == Times(x, k) + Times(y, k)
  {
  }

  lemma TimesPositive(x: real, y: real)
    ensures x >= 0.0 && y >= 0.0 ==> Times(x, y) >= 0.0
    ensures x > 0.0 && y > 0.0 ==> Times(x, y) > 0.0
    ensures Times(0.0, y) == 0.0 && Times(1.0, y) == y
  {
  }

  lemma TimesGrows(x: real, y: real, k: real)
    requires k >= 0.0 && x <= y
    ensures Times(x, k) <= Times(y, k)
  {
    hide Times;
    TimesLaws(y - x, x, k);
    TimesPositive(y - x, k);
    assert y - x + x == y;
  }

  lemma OverTimes(x: real, y: real)
    requires y > 0.0
    ensures Times(Over(x, y), y) == x && (x > 0.0 ==> Over(x, y) > 0.0)
  {
  }

  lemma SquareOfSum(x: real, y: real)
    ensures Times(x + y, x + y) == Times(x, x) + 2.0 * Times(x, y) + Times(y, y)
  {
    hide Times;
    TimesLaws(x, y, x + y);
    TimesLaws(x, y, x);
    TimesLaws(x, y, y);
    TimesLaws(x + y, 0.0, x);
    TimesLaws(x + y, 0.0, y);
    TimesLaws(x, 0.0, y);
  }

  /** Squares keep the order of what is not negative. */
  lemma SquaresGrow(x: real, y: real)
    requires 0.0 <= x && 0.0 <= y && Times(x, x) <= Times(y, y)
    ensures x <= y
  {
    hide Times;
    if y < x {
      SquareOfSum(y, x - y);
      TimesPositive(y, x - y);
      TimesPositive(x - y, x - y);
    }
  }

  // ---------------------------------------------------------------- the limits

  datatype Limits = Limits(target: real, floor: real)

  const NO_LIMITS := Limits(0.0, 0.0)

  predicate Proper(l: Limits) {
    0.0 <= l.floor <= l.target && (l.floor > 0.0 || l.target == 0.0)
  }

  function LimitsAt(ceiling: real, target: real): Limits {
    if ceiling <= 0.0 then NO_LIMITS else Limits(Times(target, ceiling), Times(0.05, ceiling))
  }

  /** A ceiling above zero fixes a floor at a twentieth of it and a target between the floor and half of it. */
  lemma LimitsInRange(ceiling: real, target: real)
    requires 0.05 < target <= 0.5
    ensures var l := LimitsAt(ceiling, target);
            && Proper(l)
            && (ceiling > 0.0 ==> 0.0 < l.floor < l.target && 2.0 * l.target <= ceiling && 20.0 * l.floor == ceiling)
  {
    assert ceiling > 0.0 ==> 20.0 * LimitsAt(ceiling, target).floor == ceiling;
    hide Times;
    if ceiling > 0.0 {
      TimesPositive(0.05, ceiling);
      TimesPositive(target - 0.05, ceiling);
      TimesLaws(target - 0.05, 0.05, ceiling);
      assert target - 0.05 + 0.05 == target;
      TimesGrows(target, 0.5, ceiling);
      TimesLaws(0.5, 0.5, ceiling);
      TimesPositive(1.0, ceiling);
    }
  }

  function Bounded(l: Limits, rate: real): real {
    if rate <= l.floor then l.floor else if rate > l.target then l.target else rate
  }

  /** Addition held at the limits instead of wrapping. */
  function AddSaturating(a: Millis, b: Millis): (c: Millis)
    ensures var sum := a as int + b as int;
            c as int == if sum > INT64_MAX then INT64_MAX else if sum < INT64_MIN then INT64_MIN else sum
  {
    if b > 0 && a as int > INT64_MAX - b as int then INT64_MAX as Millis
    else if b < 0 && (a as int) < INT64_MIN - b as int then INT64_MIN as Millis
    else a + b
  }

  // ---------------------------------------------------------------- the backoff

  const BASE := 1000
  const MOST := 32000

  function Doubled(k: nat): (n: nat)
    ensures n >= BASE
  {
    if k == 0 then BASE else 2 * Doubled(k - 1)
  }

  function JitterBound(k: nat): nat {
    if Doubled(k) < MOST then Doubled(k) else MOST
  }

  /** A draw outside [0, 1) waits the whole bound. */
  function JitterOf(k: nat, draw: real): int {
    if 0.0 <= draw < 1.0 then Times(draw, JitterBound(k) as real).Floor else JitterBound(k)
  }

  lemma BoundAtMost(k: nat)
    ensures JitterBound(k) <= MOST
  {
  }

  lemma {:induction false} DoublesOn(i: nat, k: nat)
    requires i <= k
    ensures Doubled(i) <= Doubled(k)
    decreases k
  {
    if i >= k {
    } else {
      DoublesOn(i, k - 1);
    }
  }

  /** The bounds are 1, 2, 4, 8 and 16 seconds, and 32 from the fifth doubling on. */
  lemma JitterBounds(k: nat)
    ensures JitterBound(k) == match k
                              case 0 => 1000
                              case 1 => 2000
                              case 2 => 4000
                              case 3 => 8000
                              case 4 => 16000
                              case _ => 32000
  {
    if k >= 5 {
      DoublesOn(5, k);
    }
  }

  /** Full jitter: the draw times the bound, rounded down, and never more than the bound or 32 seconds. */
  lemma JitterWithin(k: nat, draw: real)
    ensures 0 <= JitterOf(k, draw) <= JitterBound(k) <= MOST
    ensures 0.0 <= draw < 1.0 ==>
              JitterOf(k, draw) as real <= Times(draw, JitterBound(k) as real) < JitterOf(k, draw) as real + 1.0
  {
    hide Times, JitterBound;
    assert JitterBound(k) <= MOST by { BoundAtMost(k); }
    if 0.0 <= draw < 1.0 {
      var bound := JitterBound(k) as real;
      var share := Times(draw, bound);
      TimesPositive(draw, bound);
      TimesGrows(draw, 1.0, bound);
      TimesPositive(1.0, bound);
      assert share.Floor as real <= share < share.Floor as real + 1.0;
    }
  }

  method Jitter(throttles: nat, draw: real) returns (wait: int)
    ensures wait == JitterOf(throttles, draw)
  {
    hide Times;
    var bound := BASE;
    var i := 0;
    while i < throttles && bound < MOST
      invariant i <= throttles && bound == Doubled(i)
      decreases throttles - i
    {
      bound := bound * 2;
      i := i + 1;
    }
    DoublesOn(i, throttles);
    if bound > MOST {
      bound := MOST;
    }
    assert bound == JitterBound(throttles);
    if !(0.0 <= draw < 1.0) {
      return bound;
    }
    wait := Times(draw, bound as real).Floor;
  }

  // ---------------------------------------------------------------- the steps

  datatype State = State(rate: real, backoffUntil: Millis, throttles: int)

  datatype Outcome =
    | Success(weight: real)
    | Throttle(retryAfter: Option<Millis>, now: Millis, draw: real)
    | ServerError
    | Latency(median: real, baseline: real)

  function AtLeast(a: real, b: real): real { if a >= b then a else b }

  function AtMost(a: real, b: real): real { if a <= b then a else b }

  function Later(a: Millis, b: Millis): Millis { if a >= b then a else b }

  const STEP := 0.02

  function Succeeded(s: State, l: Limits, weight: real): State {
    var rate := Bounded(l, s.rate);
    State(if weight > 0.0 && rate > 0.0
          then AtMost(rate + Over(Times(STEP * l.target, weight), rate), l.target) else rate,
          s.backoffUntil, 0)
  }

  function Throttled(s: State, l: Limits, retryAfter: Option<Millis>, now: Millis, draw: real): State {
    var throttles := if s.throttles > 0 then s.throttles else 0;
    JitterWithin(throttles, draw);
    var wait := if retryAfter.Some? && retryAfter.value > 0 then retryAfter.value
                else JitterOf(throttles, draw) as Millis;
    State(AtLeast(Bounded(l, s.rate) * 0.5, l.floor), Later(s.backoffUntil, AddSaturating(now, wait)),
          if throttles < INT64_MAX then throttles + 1 else throttles)
  }

  function ServerErrored(s: State, l: Limits): State {
    s.(rate := AtLeast(Bounded(l, s.rate) * 0.8, l.floor))
  }

  function LatencyMeasured(s: State, l: Limits, median: real, baseline: real): State {
    var rate := Bounded(l, s.rate);
    s.(rate := if baseline > 0.0 && median > 2.0 * baseline then AtLeast(rate * 0.9, l.floor) else rate)
  }

  function Next(s: State, l: Limits, o: Outcome): State {
    match o
    case Success(w) => Succeeded(s, l, w)
    case Throttle(r, now, draw) => Throttled(s, l, r, now, draw)
    case ServerError => ServerErrored(s, l)
    case Latency(m, b) => LatencyMeasured(s, l, m, b)
  }

  function After(s: State, l: Limits, run: seq<Outcome>): State {
    if run == [] then s else Next(After(s, l, run[..|run| - 1]), l, run[|run| - 1])
  }

  // ---------------------------------------------------------------- what every run keeps

  lemma NextWithin(s: State, l: Limits, o: Outcome)
    requires Proper(l)
    ensures l.floor <= Next(s, l, o).rate <= l.target
  {
    hide Times, Over, JitterOf;
    var rate := Bounded(l, s.rate);
    if o.Success? && o.weight > 0.0 && rate > 0.0 {
      TimesPositive(STEP * l.target, o.weight);
      OverTimes(Times(STEP * l.target, o.weight), rate);
    }
  }

  /** After any outcome the rate lies between the floor and the target, whatever it was before. */
  lemma RateWithin(s: State, l: Limits, run: seq<Outcome>)
    requires Proper(l) && (run != [] || l.floor <= s.rate <= l.target)
    ensures l.floor <= After(s, l, run).rate <= l.target
  {
    if run != [] {
      NextWithin(After(s, l, run[..|run| - 1]), l, run[|run| - 1]);
    }
  }

  /** From a rate in bounds a throttle takes half of it, a server error leaves 80% and a latency window whose
      median is more than twice its baseline leaves 90%, never below the floor. Any other window leaves it. */
  lemma FailuresLower(s: State, l: Limits, o: Outcome)
    requires Proper(l) && l.floor <= s.rate <= l.target && !o.Success?
    ensures var rate := Next(s, l, o).rate;
            && (o.Throttle? ==> if s.rate >= 2.0 * l.floor then rate + rate == s.rate else rate == l.floor)
            && (o.ServerError? ==>
                  if 4.0 * s.rate >= 5.0 * l.floor then 5.0 * rate == 4.0 * s.rate else rate == l.floor)
            && (o.Latency? && o.baseline > 0.0 && o.median > o.baseline + o.baseline ==>
                  if 9.0 * s.rate >= 10.0 * l.floor then 10.0 * rate == 9.0 * s.rate else rate == l.floor)
            && (o.Latency? && !(o.baseline > 0.0 && o.median > o.baseline + o.baseline) ==> rate == s.rate)
  {
    hide Times, Over, JitterOf;
  }

  /** The share of the rate a failure leaves. */
  function Share(o: Outcome): real {
    match o
    case Throttle(_, _, _) => 0.5
    case ServerError => 0.8
    case Latency(m, b) => if b > 0.0 && m > b + b then 0.9 else 1.0
    case Success(_) => 1.0
  }

  function Shared(r: real, run: seq<Outcome>): real {
    if run == [] then r else Shared(r, run[..|run| - 1]) * Share(run[|run| - 1])
  }

  /** Over any run without a success, in any order, the rate is the one it began with times every failure's
      share, held at the floor. */
  lemma {:induction false} FailuresCompound(s: State, l: Limits, run: seq<Outcome>)
    requires Proper(l) && l.floor <= s.rate <= l.target && forall o <- run :: !o.Success?
    ensures After(s, l, run).rate == AtLeast(Shared(s.rate, run), l.floor)
    decreases |run|
  {
    hide Times, Over, JitterOf;
    if run == [] {
    } else {
      var init, o := run[..|run| - 1], run[|run| - 1];
      FailuresCompound(s, l, init);
      RateWithin(s, l, init);
      var before := After(s, l, init);
      assert o in run;
      match o {
        case Throttle(_, _, _) => assert Shared(s.rate, run) == Shared(s.rate, init) * 0.5;
        case ServerError => assert Shared(s.rate, run) == Shared(s.rate, init) * 0.8;
        case Latency(m, b) =>
          assert Shared(s.rate, run) == Shared(s.rate, init) * (if b > 0.0 && m > b + b then 0.9 else 1.0);
        case Success(_) =>
      }
    }
  }

  function SinceSuccess(run: seq<Outcome>): set<int> {
    set i | 0 <= i < |run| && run[i].Throttle? && forall j | i < j < |run| :: !run[j].Success?
  }

  lemma SinceSuccessMore(run: seq<Outcome>)
    requires run != []
    ensures var n := |run| - 1;
            SinceSuccess(run) == if run[n].Success? then {}
                                 else SinceSuccess(run[..n]) + if run[n].Throttle? then {n} else {}
  {
    var n := |run| - 1;
    assert forall i | 0 <= i < n :: run[..n][i] == run[i];
    forall i | 0 <= i < n ensures i in SinceSuccess(run) <==> !run[n].Success? && i in SinceSuccess(run[..n]) { }
  }

  lemma NextThrottles(s: State, l: Limits, o: Outcome)
    ensures o.Success? ==> Next(s, l, o).throttles == 0
    ensures o.Throttle? && 0 <= s.throttles < INT64_MAX ==> Next(s, l, o).throttles == s.throttles + 1
    ensures !o.Success? && !o.Throttle? ==> Next(s, l, o).throttles == s.throttles
  {
    hide Times, Over, JitterOf;
  }

  lemma NoneSince()
    ensures SinceSuccess([]) == {}
  {
  }

  lemma SinceIsBefore(run: seq<Outcome>, n: nat)
    requires |run| <= n
    ensures n !in SinceSuccess(run)
  {
  }

  /** The throttles counted are those since the last success. */
  lemma {:induction false} ThrottlesAreCounted(s: State, l: Limits, run: seq<Outcome>)
    requires s.throttles == 0 && |run| <= INT64_MAX
    ensures After(s, l, run).throttles == |SinceSuccess(run)| <= |run|
    decreases |run|
  {
    hide Next, SinceSuccess;
    if run == [] {
      assert SinceSuccess(run) == {} by { NoneSince(); }
    } else {
      var n := |run| - 1;
      ThrottlesAreCounted(s, l, run[..n]);
      SinceSuccessMore(run);
      NextThrottles(After(s, l, run[..n]), l, run[n]);
      assert n !in SinceSuccess(run[..n]) by { SinceIsBefore(run[..n], n); }
    }
  }

  /** The instant before which nothing is issued never moves back. */
  lemma {:induction false} BackoffNeverEndsSooner(s: State, l: Limits, run: seq<Outcome>)
    ensures After(s, l, run).backoffUntil >= s.backoffUntil
  {
    hide Times, Over, JitterOf;
    if run == [] {
    } else {
      BackoffNeverEndsSooner(s, l, run[..|run| - 1]);
    }
  }

  /** Every positive retry-after is waited for in full, whatever follows it. */
  lemma {:induction false} RetryAfterHonoured(s: State, l: Limits, run: seq<Outcome>, i: nat)
    requires i < |run| && run[i].Throttle? && run[i].retryAfter.Some? && run[i].retryAfter.value > 0
    ensures After(s, l, run).backoffUntil >= AddSaturating(run[i].now, run[i].retryAfter.value)
  {
    hide Times, Over, JitterOf;
    if i >= |run| - 1 {
    } else {
      RetryAfterHonoured(s, l, run[..|run| - 1], i);
      BackoffNeverEndsSooner(After(s, l, run[..|run| - 1]), l, [run[|run| - 1]]);
      assert [run[|run| - 1]][..0] == [];
    }
  }

  /** A throttle without one waits its share of a second doubled per throttle since the last success, and no
      longer than that. */
  lemma BackoffIsBounded(s: State, l: Limits, now: Millis, draw: real)
    ensures var k := if s.throttles > 0 then s.throttles else 0;
            var t := Throttled(s, l, None, now, draw);
            && 0 <= JitterOf(k, draw) <= INT64_MAX
            && t.backoffUntil >= AddSaturating(now, JitterOf(k, draw) as Millis)
            && (t.backoffUntil as int <= s.backoffUntil as int || t.backoffUntil as int <= now as int + JitterBound(k))
  {
    hide JitterOf, JitterBound;
    JitterWithin(if s.throttles > 0 then s.throttles else 0, draw);
  }

  // ---------------------------------------------------------------- how successes raise the rate

  function Successes(weights: seq<real>): seq<Outcome> {
    seq(|weights|, i requires 0 <= i < |weights| => Success(weights[i]))
  }

  function Grown(r: real, l: Limits, weights: seq<real>): real {
    After(State(r, 0, 0), l, Successes(weights)).rate
  }

  /** The cost the successes spend, a cost that is not positive spending nothing. */
  function Total(weights: seq<real>): real {
    if weights == [] then 0.0
    else
      var w := weights[|weights| - 1];
      Total(weights[..|weights| - 1]) + if w > 0.0 then w else 0.0
  }

  lemma GrownStep(r: real, l: Limits, weights: seq<real>)
    requires weights != []
    ensures var before := State(Grown(r, l, weights[..|weights| - 1]), 0, 0);
            Grown(r, l, weights) == Succeeded(before, l, weights[|weights| - 1]).rate
  {
    hide Times, Over;
    var run, earlier := Successes(weights), weights[..|weights| - 1];
    assert run[..|run| - 1] == Successes(earlier);
    assert run[|run| - 1] == Success(weights[|weights| - 1]);
  }

  /** One success from g, where x is what was spent so far and a what this one spends. */
  lemma OneSuccess(r: real, target: real, g: real, x: real, a: real)
    requires 0.0 < r <= g <= target && a > 0.0
    requires Times(g - r, r) <= x && Times(g, g) >= AtMost(Times(target, target), Times(r, r) + 2.0 * x)
    ensures var next := AtMost(g + Over(a, g), target);
            && r <= next <= target
            && Times(next - r, r) <= x + a
            && Times(next, next) >= AtMost(Times(target, target), Times(r, r) + 2.0 * (x + a))
  {
    hide Times, Over;
    var step := Over(a, g);
    OverTimes(a, g);
    TimesGrows(r, g, step);
    TimesLaws(r, 0.0, step);
    TimesLaws(g, 0.0, step);
    TimesLaws(g - r, step, r);
    assert g - r + step == g + step - r;
    SquareOfSum(g, step);
    TimesPositive(step, step);
    if g + step > target {
      TimesGrows(target - r, g + step - r, r);
    } else if Times(g, g) >= Times(target, target) {
      SquaresGrow(target, g);
    }
  }

  /** Successes of total cost W raise a rate r by at most 2% of the target times W over r, and at least so far that
      its square grows by 4% of the target times W, up to the target. */
  lemma {:induction false} GrowthIsBounded(r: real, l: Limits, weights: seq<real>)
    requires Proper(l) && 0.0 < l.floor <= r <= l.target
    ensures var grown, spent := Grown(r, l, weights), Times(0.02 * l.target, Total(weights));
            && r <= grown <= l.target
            && Times(grown - r, r) <= spent
            && Times(grown, grown) >= AtMost(Times(l.target, l.target), Times(r, r) + 2.0 * spent)
  {
    hide Times, Over;
    var c := STEP * l.target;
    if weights == [] {
      TimesPositive(0.0, r);
      TimesPositive(0.0, c);
      TimesLaws(0.0, 0.0, c);
    } else {
      hide Grown;
      var earlier, w := weights[..|weights| - 1], weights[|weights| - 1];
      var g := Grown(r, l, earlier);
      GrowthIsBounded(r, l, earlier);
      GrownStep(r, l, weights);
      if w > 0.0 {
        TimesLaws(Total(earlier), w, c);
        TimesLaws(Total(earlier) + w, 0.0, c);
        TimesLaws(w, 0.0, c);
        TimesPositive(c, w);
        OneSuccess(r, l.target, g, Times(c, Total(earlier)), Times(c, w));
      }
    }
  }
}
