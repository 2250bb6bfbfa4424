/** Closed-loop pacing of one traffic flow (traffic_agent/main.go and
    traffic_agent/pattern.go). Times are integer nanoseconds, rates and random
    draws are reals. */
module Pacing {
  const SECOND: int := 1_000_000_000
  const MILLISECOND: int := 1_000_000
  const TICKS_PER_SECOND: int := 200
  const DEFAULT_PERIOD: int := 10 * SECOND

  datatype Pattern = Continuous | Periodic | Burst | Poisson | Ramp

  /** The random values one step may consume: two exponential draws with mean
      one and a uniform draw. */
  datatype Draws = Draws(size: real, gap: real, uniform: real)

  predicate Possible(d: Draws) {
    d.size >= 0.0 && d.gap >= 0.0 && 0.0 <= d.uniform < 1.0
  }

  datatype Step = Step(size: int, delay: int)

  datatype Pacer = Pacer(pattern: Pattern, perTick: int, tickSleep: int, period: int, jitterPct: real) {
    predicate Valid() {
      perTick >= 1 && tickSleep == SECOND / TICKS_PER_SECOND && period >= 0 && jitterPct >= 0.0
    }

    predicate Steady() {
      Valid() && pattern != Poisson && jitterPct == 0.0
    }

    function JitterDelay(base: int, uniform: real): int {
      if base <= 0 then 0
      else if jitterPct <= 0.0 then base
      else Truncated(Swung(base as real, jitterPct / 100.0, uniform))
    }

    /** One send decision, `elapsed` nanoseconds into the period. */
    function Decide(elapsed: int, d: Draws): Step {
      match pattern
      case Poisson =>
        var mean := if tickSleep < MILLISECOND then MILLISECOND else tickSleep;
        Step(AtLeastOne((d.size * perTick as real).Floor), JitterDelay((d.gap * mean as real).Floor, d.uniform))
      case Ramp =>
        Step(Share(perTick, RampFraction(elapsed, period)), JitterDelay(tickSleep, d.uniform))
      case _ =>
        Step(perTick, JitterDelay(tickSleep, d.uniform))
    }
  }

  function AtLeastOne(n: int): int {
    if n < 1 then 1 else n
  }

  /** How far a ramp has got, between a tenth and all of the way. */
  function RampFraction(elapsed: int, period: int): (frac: real)
    ensures 0.1 <= frac <= 1.0
  {
    var span := if period < MILLISECOND then MILLISECOND else period;
    Clamp(elapsed as real / span as real, 0.1, 1.0)
  }

  function Share(n: int, frac: real): int {
    AtLeastOne((n as real * frac).Floor)
  }

  function Clamp(x: real, lo: real, hi: real): real {
    var capped := if x < hi then x else hi;
    if capped > lo then capped else lo
  }

  /** Rate, period and jitter in source units become bytes per tick and
      nanoseconds; missing or negative settings fall back to the defaults. */
  method NewPacer(pattern: Pattern, rateKbps: real, periodS: real, jitterPct: real) returns (p: Pacer)
    ensures p.Valid() && p.pattern == pattern
    ensures var bps := if rateKbps > 0.0 then rateKbps * 1024.0 else 1024.0;
            p.perTick as real * 200.0 <= bps < (p.perTick + 1) as real * 200.0 || (p.perTick == 1 && bps < 200.0)
    ensures if periodS > 0.0 then p.period as real <= periodS * 1000000000.0 < (p.period + 1) as real
            else p.period == DEFAULT_PERIOD
    ensures p.jitterPct == if jitterPct > 0.0 then jitterPct else 0.0
  {
    var bps := rateKbps * 1024.0;
    if bps <= 0.0 {
      bps := 1024.0;
    }
    var perTick := (bps / 200.0).Floor;
    if perTick <= 0 {
      perTick := 1;
    }
    var period := DEFAULT_PERIOD;
    if periodS > 0.0 {
      period := (periodS * 1000000000.0).Floor;
    }
    var jitter := jitterPct;
    if jitter < 0.0 {
      jitter := 0.0;
    }
    p := Pacer(pattern, perTick, SECOND / TICKS_PER_SECOND, period, jitter);
  }

  /** `b` moved uniformly within plus or minus the share `q` of it. */
  function Swung(b: real, q: real, uniform: real): real {
    var j := b * q;
    b - j + uniform * 2.0 * j
  }

  function Truncated(d: real): int {
    if d < 0.0 then 0 else d.Floor
  }

  lemma SwungStaysInBand(b: real, q: real, uniform: real)
    requires b >= 0.0 && q >= 0.0 && 0.0 <= uniform < 1.0
    ensures b - b * q <= Swung(b, q, uniform) <= b + b * q
  {
    var j := b * q;
    assert j >= 0.0;
    var up := uniform * 2.0 * j;
    assert up == uniform * (2.0 * j);
    assert up >= 0.0;
    assert 2.0 * j - up == (1.0 - uniform) * (2.0 * j);
    NonNegativeProduct(1.0 - uniform, 2.0 * j);
  }

  lemma NonNegativeProduct(a: real, b: real)
    requires a >= 0.0 && b >= 0.0
    ensures a * b >= 0.0
  {
  }

  /** A jittered delay is never negative and stays in the configured band
      (up to the truncation to whole nanoseconds). */
  lemma JitterStaysInBand(p: Pacer, base: int, uniform: real)
    requires p.Valid() && base > 0 && 0.0 <= uniform < 1.0
    ensures var d, b := p.JitterDelay(base, uniform), base as real;
            var j := b * (p.jitterPct / 100.0);
            d >= 0 && b - j - 1.0 < d as real <= b + j
  {
    var b, q := base as real, p.jitterPct / 100.0;
    var swung := Swung(b, q, uniform);
    SwungStaysInBand(b, q, uniform);
    assert b * q >= 0.0;
    assert p.jitterPct <= 0.0 ==> b * q == 0.0;
  }

  /** `b`, and the share `q` of it as often as the draw lies above the middle. */
  function Scaled(b: real, q: real, uniform: real): real {
    b * (1.0 + (2.0 * uniform - 1.0) * q)
  }

  predicate RoundedDelay(d: int, exact: real) {
    if exact < 0.0 then d == 0 else d as real <= exact < d as real + 1.0
  }

  lemma ScaledByNothing(b: real, uniform: real)
    ensures Scaled(b, 0.0, uniform) == b
  {
    assert (2.0 * uniform - 1.0) * 0.0 == 0.0;
  }

  lemma SwungIsScaled(b: real, q: real, uniform: real)
    ensures Swung(b, q, uniform) == Scaled(b, q, uniform)
  {
    var j := b * q;
    assert uniform * 2.0 * j == b * (uniform * 2.0 * q);
    assert b * (1.0 + (2.0 * uniform - 1.0) * q) == b * (1.0 - q + uniform * 2.0 * q);
    assert b * (1.0 - q + uniform * 2.0 * q) == b * 1.0 - b * q + b * (uniform * 2.0 * q);
  }

  /** It follows the draw: the base, moved by at most the configured share of it in
      proportion to how far the draw is from the middle, and zero if that is negative. */
  lemma JitterFollowsDraw(p: Pacer, base: int, uniform: real)
    requires p.Valid()
    ensures if base <= 0 then p.JitterDelay(base, uniform) == 0
            else RoundedDelay(p.JitterDelay(base, uniform), Scaled(base as real, p.jitterPct / 100.0, uniform))
  {
    var b, q := base as real, p.jitterPct / 100.0;
    SwungIsScaled(b, q, uniform);
    if p.jitterPct <= 0.0 {
      assert q == 0.0;
      ScaledByNothing(b, uniform);
    }
  }

  lemma ShareBounds(n: int, frac: real)
    requires n >= 1 && 0.1 <= frac <= 1.0
    ensures Share(n, frac) <= n && n as real / 10.0 - 1.0 < Share(n, frac) as real
  {
    var r := n as real;
    var x := r * frac;
    assert r * (1.0 - frac) >= 0.0 && r * (1.0 - frac) == r - x;
    assert r * (frac - 0.1) >= 0.0 && r * (frac - 0.1) == x - r * 0.1;
  }

  /** Whatever is drawn, a step sends at least one byte and waits no negative
      time; outside poisson it sends between a tenth of a tick's bytes and all of
      them, and without jitter it then waits exactly a tick. */
  lemma StepSizes(p: Pacer, elapsed: int, d: Draws)
    requires p.Valid() && Possible(d)
    ensures var s := p.Decide(elapsed, d);
            && s.size >= 1 && s.delay >= 0
            && (p.pattern != Poisson ==> s.size <= p.perTick && p.perTick as real / 10.0 - 1.0 < s.size as real)
            && (p.pattern != Poisson && p.pattern != Ramp ==> s.size == p.perTick)
            && (p.Steady() ==> s.delay == p.tickSleep)
  {
    match p.pattern
    case Poisson =>
    case Ramp =>
      ShareBounds(p.perTick, RampFraction(elapsed, p.period));
    case _ =>
  }

  /** This many bytes, rounded down but at least one. */
  predicate RoundedSize(size: int, exact: real) {
    size >= 1 && (size as real <= exact < size as real + 1.0 || (size == 1 && exact < 1.0))
  }

  /** A ramp sends a tenth of a tick's bytes during the first tenth of its period, then
      in proportion to the time that has passed, and all of them from its end on. */
  lemma RampInProportion(p: Pacer, elapsed: int, d: Draws)
    requires p.Valid() && p.pattern == Ramp && p.period >= MILLISECOND
    ensures var size, all := p.Decide(elapsed, d).size, p.perTick as real;
            && (10 * elapsed <= p.period ==> RoundedSize(size, all * 0.1))
            && (p.period <= 10 * elapsed <= 10 * p.period ==>
                  RoundedSize(size, all * (elapsed as real / p.period as real)))
            && (elapsed >= p.period ==> size == p.perTick)
  {
    PartOfWhole(elapsed as real, p.period as real);
    ShareIsRounded(p.perTick, RampFraction(elapsed, p.period));
    assert p.perTick as real * 1.0 == p.perTick as real;
  }

  lemma PartOfWhole(part: real, whole: real)
    requires whole > 0.0
    ensures 10.0 * part <= whole <==> part / whole <= 0.1
    ensures part <= whole <==> part / whole <= 1.0
    ensures part >= whole <==> part / whole >= 1.0
    ensures 10.0 * part >= whole <==> part / whole >= 0.1
  {
    assert part == (part / whole) * whole;
  }

  lemma ShareIsRounded(n: int, frac: real)
    ensures RoundedSize(Share(n, frac), n as real * frac)
  {
  }

  /** In particular the sizes never shrink. */
  lemma RampGrows(p: Pacer, earlier: int, later: int, d: Draws, d': Draws)
    requires p.Valid() && p.pattern == Ramp && earlier <= later
    ensures p.Decide(earlier, d).size <= p.Decide(later, d').size
  {
    var span := if p.period < MILLISECOND then MILLISECOND else p.period;
    var a, b := RampFraction(earlier, p.period), RampFraction(later, p.period);
    assert earlier as real / span as real <= later as real / span as real;
    assert a <= b;
    assert p.perTick as real * (b - a) >= 0.0;
    assert p.perTick as real * b - p.perTick as real * a == p.perTick as real * (b - a);
  }

  /** Poisson sends the drawn share of a tick's bytes and waits the drawn share of a
      tick, each with mean one. */
  lemma PoissonSteps(p: Pacer, elapsed: int, d: Draws)
    requires p.Valid() && p.pattern == Poisson && p.jitterPct == 0.0 && Possible(d)
    ensures var s, wait := p.Decide(elapsed, d), d.gap * p.tickSleep as real;
            RoundedSize(s.size, d.size * p.perTick as real) && s.delay as real <= wait < s.delay as real + 1.0
  {
  }

  // ----- one send period -----

  /** What the surroundings do during one round of the loop: how long each stage
      takes, how much of the payload the connection accepts, whether the write
      fails, how late a sleep wakes, and when the run is cancelled. */
  datatype Round = Round(
    toCheck: nat, cancelled: bool, toStep: nat, toWrite: nat, write: nat, accepted: nat, failed: bool,
    toUntil: nat, oversleep: nat, cancelledAsleep: bool, toReset: nat, draws: Draws)

  /** One write: when it was due, when the loop let it through, when the write
      began, the delay asked for after it, the bytes accepted, and whether the
      loop then forgave its debt. */
  datatype Send = Send(due: int, decided: int, writeAt: int, delay: int, bytes: nat, reset: bool)

  datatype Pace = Pace(now: int, next: int, live: bool, sends: seq<Send>)

  /** The loop goes round once more. */
  predicate Passes(period: int, start: int, s: Pace, r: Round) {
    s.live && s.now + r.toCheck < start + period && !r.cancelled
  }

  /** A connection accepts no more than the payload. */
  function Accepted(r: Round, step: Step): nat {
    if r.accepted <= step.size then r.accepted else if step.size > 0 then step.size else 0
  }

  /** How far into the period the pacer is asked for a step. */
  function Elapsed(start: int, s: Pace, r: Round): int {
    s.now + r.toCheck + r.toStep - start
  }

  /** The write of a round. */
  function Sent(step: Step, s: Pace, r: Round): Send {
    var writeAt := s.now + r.toCheck + r.toStep + r.toWrite;
    var wait := s.next + step.delay - (writeAt + r.write + r.toUntil);
    Send(s.next, s.now + r.toCheck, writeAt, step.delay, Accepted(r, step), !r.failed && wait < -SECOND)
  }

  /** The clock, the target instant and the fate of the loop after that write. */
  function Settled(s: Pace, r: Round, sent: Send): Pace {
    var until := sent.writeAt + r.write + r.toUntil;
    var next := s.next + sent.delay;
    var sends := s.sends + [sent];
    if r.failed then Pace(sent.writeAt + r.write, s.next, false, sends)
    else if next > until then Pace(next + r.oversleep, next, !r.cancelledAsleep, sends)
    else if sent.reset then Pace(until + r.toReset, until + r.toReset, true, sends)
    else Pace(until, next, true, sends)
  }

  /** The step is asked for between the test of the clock and the write, and the send is
      due at the target instant the loop held. */
  lemma AskedBeforeTheWrite(start: int, s: Pace, r: Round, step: Step)
    ensures var sent := Sent(step, s, r);
            && sent.decided - start <= Elapsed(start, s, r) <= sent.writeAt - start
            && Elapsed(start, s, r) - (sent.decided - start) == r.toStep
            && sent.writeAt - start - Elapsed(start, s, r) == r.toWrite
            && sent.due == s.next && sent.delay == step.delay
  {
  }

  /** One round of the loop; `decide` is the pacer's step function. */
  function Advance(period: int, decide: (int, Draws) -> Step, start: int, s: Pace, r: Round): Pace {
    if Passes(period, start, s, r) then Settled(s, r, Sent(decide(Elapsed(start, s, r), r.draws), s, r))
    else if s.live then s.(now := s.now + r.toCheck, live := false)
    else s
  }

  /** The end of the write, when the loop looks at the clock again. */
  function Looked(sent: Send, r: Round): int {
    sent.writeAt + r.write + r.toUntil
  }

  /** A round that gets past the test. It ends the period only by a failed write or a
      cancelled sleep; it waits for the target and no longer; the target advances by the
      delay, unless the loop is by then more than a second behind, which it forgives; and
      the bytes counted are those the connection takes of the payload. */
  lemma RoundOutcome(period: int, decide: (int, Draws) -> Step, start: int, s: Pace, r: Round, step: Step)
    requires Passes(period, start, s, r) && step == decide(Elapsed(start, s, r), r.draws) && step.size >= 0
    ensures var sent, t := Sent(step, s, r), Advance(period, decide, start, s, r);
            var target, looked := s.next + step.delay, Looked(sent, r);
            && t.sends == s.sends + [sent]
            && (t.live <==> !r.failed && (target > looked ==> !r.cancelledAsleep))
            && (sent.reset <==> !r.failed && looked - target > SECOND)
            && (!r.failed ==> t.next == if sent.reset then t.now else target)
            && (!r.failed && target > looked ==> t.now == target + r.oversleep)
            && (!r.failed && target <= looked ==> t.now == looked + if sent.reset then r.toReset else 0)
            && (r.failed ==> t.now == sent.writeAt + r.write)
            && sent.bytes <= r.accepted && sent.bytes <= step.size && (sent.bytes == r.accepted || sent.bytes == step.size)
  {
  }

  /** A round that does not get past it ends the period: the deadline has come or the run
      is cancelled. */
  lemma StoppedByTest(period: int, decide: (int, Draws) -> Step, start: int, s: Pace, r: Round)
    requires s.live
    ensures var t := Advance(period, decide, start, s, r);
            && (t.sends == s.sends <==> s.now + r.toCheck >= start + period || r.cancelled)
            && (t.sends == s.sends ==> !t.live)
  {
  }

  function Run(period: int, decide: (int, Draws) -> Step, start: int, rounds: seq<Round>): Pace {
    if rounds == [] then Pace(start, start, true, [])
    else Advance(period, decide, start, Run(period, decide, start, rounds[..|rounds| - 1]), rounds[|rounds| - 1])
  }

  predicate PossibleRounds(rounds: seq<Round>) {
    forall i :: 0 <= i < |rounds| ==> Possible(rounds[i].draws)
  }

  /** Every delay the pacer can ask for is at least `m` and never negative. */
  ghost predicate WaitsAtLeast(decide: (int, Draws) -> Step, m: int) {
    forall elapsed: int, d: Draws :: Possible(d) ==> decide(elapsed, d).delay >= m && decide(elapsed, d).delay >= 0
  }

  ghost predicate SendsAtMost(decide: (int, Draws) -> Step, cap: nat) {
    forall elapsed: int, d: Draws :: Possible(d) ==> decide(elapsed, d).size <= cap
  }

  /** What holds of any two consecutive sends. */
  predicate Follows(a: Send, b: Send) {
    && b.due >= a.due + a.delay
    && b.due >= a.writeAt - SECOND
    && b.decided >= a.writeAt
    && (if a.reset then b.due > a.due + a.delay + SECOND else b.due == a.due + a.delay)
  }

  /** What holds of any one send of a period. */
  predicate InPeriod(period: int, start: int, m: int, s: Send) {
    s.due <= s.decided <= s.writeAt && s.decided < start + period && s.delay >= m && s.delay >= 0
  }

  /** The sends of one period, `m` being the least delay. */
  predicate Paced(period: int, start: int, m: int, sends: seq<Send>) {
    && (sends != [] ==> sends[0].due == start)
    && (forall i :: 0 <= i < |sends| ==> InPeriod(period, start, m, sends[i]))
    && (forall i :: 0 <= i < |sends| - 1 ==> Follows(sends[i], sends[i + 1]))
  }

  /** The loop's own state relates to its last send as a next send would. */
  predicate Ready(start: int, s: Pace) {
    s.live ==>
      && s.next <= s.now
      && (s.sends == [] ==> s.next == start)
      && (s.sends != [] ==>
            var a := s.sends[|s.sends| - 1];
            && s.next >= a.due + a.delay && s.next >= a.writeAt - SECOND && s.now >= a.writeAt
            && (if a.reset then s.next > a.due + a.delay + SECOND else s.next == a.due + a.delay))
  }

  lemma AdvanceKeepsPace(period: int, decide: (int, Draws) -> Step, start: int, m: int, s: Pace, r: Round)
    requires WaitsAtLeast(decide, m) && Possible(r.draws)
    requires Paced(period, start, m, s.sends) && Ready(start, s)
    ensures var t := Advance(period, decide, start, s, r); Paced(period, start, m, t.sends) && Ready(start, t)
  {
  }

  lemma {:induction false} RunIsPaced(period: int, decide: (int, Draws) -> Step, start: int, m: int, rounds: seq<Round>)
    requires WaitsAtLeast(decide, m) && PossibleRounds(rounds)
    ensures var s := Run(period, decide, start, rounds); Paced(period, start, m, s.sends) && Ready(start, s)
  {
    if rounds != [] {
      var init, last := rounds[..|rounds| - 1], rounds[|rounds| - 1];
      assert PossibleRounds(init) && Possible(last.draws);
      RunIsPaced(period, decide, start, m, init);
      AdvanceKeepsPace(period, decide, start, m, Run(period, decide, start, init), last);
    }
  }

  // ----- rate bounds -----

  /** The target instant advances by at least every delay asked for, resets included. */
  lemma {:induction false} DueGrows(period: int, start: int, m: int, sends: seq<Send>, i: nat, j: nat)
    requires Paced(period, start, m, sends) && i <= j < |sends|
    ensures sends[j].due >= sends[i].due + (j - i) * m
  {
    if i < j {
      DueGrows(period, start, m, sends, i, j - 1);
      assert Follows(sends[j - 1], sends[j]) && InPeriod(period, start, m, sends[j - 1]);
      assert (j - i) * m == (j - 1 - i) * m + m;
    }
  }

  lemma ProductOrder(x: int, y: int, m: int)
    requires m > 0
    ensures x >= y ==> x * m >= y * m
  {
    if x >= y {
      assert (x - y) * m >= 0;
      assert (x - y) * m == x * m - y * m;
    }
  }

  lemma QuotientBound(x: int, m: int, y: int)
    requires m > 0 && x * m <= y
    ensures x <= y / m
  {
    var q := y / m;
    assert y == q * m + y % m;
    assert (q + 1) * m == q * m + m;
    ProductOrder(x, q + 1, m);
  }

  /** The writes of a period begin in order, so those of a window are consecutive. */
  lemma {:induction false} WritesInOrder(period: int, start: int, m: int, sends: seq<Send>, i: nat, j: nat)
    requires Paced(period, start, m, sends) && i <= j < |sends|
    ensures sends[i].writeAt <= sends[j].writeAt
  {
    if i < j {
      WritesInOrder(period, start, m, sends, i, j - 1);
      assert Follows(sends[j - 1], sends[j]) && InPeriod(period, start, m, sends[j]);
    }
  }

  /** Token bucket: however long the writes take and however late the sleeps
      wake, the writes that begin within any window of `w` nanoseconds number at
      most (w + 1 s)/m + 2, where `m` is the least delay the pacer asks for. */
  lemma WindowBound(period: int, start: int, m: int, sends: seq<Send>, i: nat, j: nat, w: int)
    requires Paced(period, start, m, sends) && m > 0
    requires i <= j < |sends| && sends[j].writeAt - sends[i].writeAt <= w
    ensures j - i + 1 <= (w + SECOND) / m + 2
  {
    if i == j {
      QuotientBound(0, m, w + SECOND);
    } else {
      assert Follows(sends[i], sends[i + 1]);
      DueGrows(period, start, m, sends, i + 1, j);
      assert InPeriod(period, start, m, sends[j]);
      QuotientBound(j - i - 1, m, w + SECOND);
    }
  }

  /** One fewer when the first of them began no more than a second after it was due. */
  lemma PunctualWindowBound(period: int, start: int, m: int, sends: seq<Send>, i: nat, j: nat, w: int)
    requires Paced(period, start, m, sends) && m > 0
    requires i <= j < |sends| && sends[j].writeAt - sends[i].writeAt <= w
    requires sends[i].writeAt - sends[i].due <= SECOND
    ensures j - i + 1 <= (w + SECOND) / m + 1
  {
    DueGrows(period, start, m, sends, i, j);
    assert InPeriod(period, start, m, sends[j]);
    QuotientBound(j - i, m, w + SECOND);
  }

  function CeilDiv(a: int, m: int): int
    requires m > 0
  {
    (a + m - 1) / m
  }

  /** A whole period holds at most ceil(period/m) sends. */
  lemma PeriodBound(period: nat, start: int, m: int, sends: seq<Send>)
    requires Paced(period, start, m, sends) && m > 0
    ensures |sends| <= CeilDiv(period, m)
  {
    var n := |sends|;
    if n == 0 {
      QuotientBound(0, m, period + m - 1);
    } else {
      DueGrows(period, start, m, sends, 0, n - 1);
      assert InPeriod(period, start, m, sends[n - 1]);
      assert n * m == (n - 1) * m + m;
      QuotientBound(n, m, period + m - 1);
    }
  }

  function Bytes(sends: seq<Send>): nat {
    if sends == [] then 0 else Bytes(sends[..|sends| - 1]) + sends[|sends| - 1].bytes
  }

  /** The bytes of two stretches of sends add up, and those of one send are its own. */
  lemma {:induction false} BytesAddUp(a: seq<Send>, b: seq<Send>)
    ensures Bytes(a + b) == Bytes(a) + Bytes(b)
    ensures |b| == 1 ==> Bytes(b) == b[0].bytes
  {
    if b == [] {
      assert a + b == a;
    } else {
      assert (a + b)[..|a + b| - 1] == a + b[..|b| - 1];
      BytesAddUp(a, b[..|b| - 1]);
    }
  }

  lemma {:induction false} BytesBound(period: int, decide: (int, Draws) -> Step, start: int, cap: nat, rounds: seq<Round>)
    requires SendsAtMost(decide, cap) && PossibleRounds(rounds)
    ensures var sends := Run(period, decide, start, rounds).sends; Bytes(sends) <= |sends| * cap
  {
    if rounds != [] {
      var init, r := rounds[..|rounds| - 1], rounds[|rounds| - 1];
      assert PossibleRounds(init) && Possible(r.draws);
      BytesBound(period, decide, start, cap, init);
      var s := Run(period, decide, start, init);
      if Passes(period, start, s, r) {
        var sent := Sent(decide(Elapsed(start, s, r), r.draws), s, r);
        assert decide(Elapsed(start, s, r), r.draws).size <= cap;
        OneMore(|s.sends|, cap);
      }
    }
  }

  lemma OneMore(n: int, m: int)
    ensures (n + 1) * m == n * m + m
  {
  }

  /** The rest of a round, from the step on: the write and the wait after it. `g` is the
      loop's state when the round began. */
  method WriteAndWait(step: Step, at: int, target: int, r: Round, ghost g: Pace)
    returns (sent: Send, now: int, next: int, live: bool)
    requires step.size >= 1 && at == g.now + r.toCheck + r.toStep && target == g.next && g.live
    ensures sent == Sent(step, g, r) && Pace(now, next, live, g.sends + [sent]) == Settled(g, r, sent)
  {
    var decided := at - r.toStep;
    var writeAt := at + r.toWrite;
    var accepted := if r.accepted <= step.size then r.accepted else step.size;
    now, next, live := writeAt + r.write, target, true;
    var reset := false;
    if r.failed {
      live := false;
    } else {
      next := next + step.delay;
      now := now + r.toUntil;
      var wait := next - now;
      if wait > 0 {
        now := now + wait + r.oversleep;
        live := !r.cancelledAsleep;
      } else if wait < -SECOND {
        now := now + r.toReset;
        next := now;
        reset := true;
      }
    }
    sent := Send(target, decided, writeAt, step.delay, accepted, reset);
  }

  /** The loop of `sendOnePeriod` after the dial, against any surroundings. */
  method PacedLoop(period: int, decide: (int, Draws) -> Step, start: int, rounds: seq<Round>)
    returns (sends: seq<Send>, sentBytes: nat)
    requires SendsSomething(decide) && PossibleRounds(rounds)
    ensures sends == Run(period, decide, start, rounds).sends && sentBytes == Bytes(sends)
  {
    sends := [];
    sentBytes := 0;
    var now := start;
    var deadline := start + period;
    var next := start;
    var live := true;
    var i := 0;
    ghost var g := Pace(start, start, true, []);
    while i < |rounds| && live
      invariant 0 <= i <= |rounds|
      invariant g == Run(period, decide, start, rounds[..i])
      invariant now == g.now && next == g.next && live == g.live && sends == g.sends
      invariant sentBytes == Bytes(sends)
    {
      var r := rounds[i];
      RunStep(period, decide, start, rounds, i);
      i := i + 1;
      now := now + r.toCheck;
      if now >= deadline || r.cancelled {
        live := false;
        break;
      }
      now := now + r.toStep;
      var step := decide(now - start, r.draws);
      assert now - start == Elapsed(start, g, r) && step.size >= 1;
      var sent;
      sent, now, next, live := WriteAndWait(step, now, next, r, g);
      g := Settled(g, r, sent);
      sends := sends + [sent];
      sentBytes := sentBytes + sent.bytes;
    }
    StoppedRunStays(period, decide, start, rounds, i);
  }

  lemma RunStep(period: int, decide: (int, Draws) -> Step, start: int, rounds: seq<Round>, i: nat)
    requires i < |rounds|
    ensures Run(period, decide, start, rounds[..i + 1])
         == Advance(period, decide, start, Run(period, decide, start, rounds[..i]), rounds[i])
  {
    assert rounds[..i + 1][..i] == rounds[..i];
  }

  ghost predicate SendsSomething(decide: (int, Draws) -> Step) {
    forall elapsed: int, d: Draws :: Possible(d) ==> decide(elapsed, d).size >= 1
  }

  lemma {:induction false} StoppedRunStays(period: int, decide: (int, Draws) -> Step, start: int, rounds: seq<Round>, i: nat)
    requires i <= |rounds| && (i == |rounds| || !Run(period, decide, start, rounds[..i]).live)
    ensures Run(period, decide, start, rounds) == Run(period, decide, start, rounds[..i])
  {
    if i == |rounds| {
      assert rounds[..i] == rounds;
    } else {
      var init := rounds[..|rounds| - 1];
      assert init[..i] == rounds[..i];
      StoppedRunStays(period, decide, start, init, i);
    }
  }

  /** One send period of a pacer: the sends are paced, and without jitter or
      poisson they number at most ceil(period/tick) and carry at most that many
      ticks' worth of bytes. */
  method SendOnePeriod(p: Pacer, start: int, rounds: seq<Round>) returns (sends: seq<Send>, sentBytes: nat)
    requires p.Valid() && PossibleRounds(rounds)
    ensures sends == Run(p.period, p.Decide, start, rounds).sends && sentBytes == Bytes(sends)
    ensures Paced(p.period, start, 0, sends)
    ensures p.Steady() ==>
              && Paced(p.period, start, p.tickSleep, sends)
              && |sends| <= CeilDiv(p.period, p.tickSleep)
              && sentBytes <= CeilDiv(p.period, p.tickSleep) * p.perTick
  {
    PacerDecides(p);
    sends, sentBytes := PacedLoop(p.period, p.Decide, start, rounds);
    PeriodOfPacer(p, start, rounds);
  }

  lemma PacerDecides(p: Pacer)
    requires p.Valid()
    ensures SendsSomething(p.Decide) && WaitsAtLeast(p.Decide, 0)
    ensures p.pattern != Poisson ==> SendsAtMost(p.Decide, p.perTick)
    ensures p.Steady() ==> WaitsAtLeast(p.Decide, p.tickSleep)
  {
    forall elapsed: int, d: Draws | Possible(d)
      ensures var s := p.Decide(elapsed, d);
              && s.size >= 1 && s.delay >= 0 && (p.pattern != Poisson ==> s.size <= p.perTick)
              && (p.Steady() ==> s.delay == p.tickSleep)
    {
      StepSizes(p, elapsed, d);
    }
  }

  lemma PeriodOfPacer(p: Pacer, start: int, rounds: seq<Round>)
    requires p.Valid() && PossibleRounds(rounds)
    ensures var sends := Run(p.period, p.Decide, start, rounds).sends;
            && Paced(p.period, start, 0, sends)
            && (p.Steady() ==>
                  && Paced(p.period, start, p.tickSleep, sends)
                  && |sends| <= CeilDiv(p.period, p.tickSleep)
                  && Bytes(sends) <= CeilDiv(p.period, p.tickSleep) * p.perTick)
  {
    PacerDecides(p);
    RunIsPaced(p.period, p.Decide, start, 0, rounds);
    if p.Steady() {
      RunIsPaced(p.period, p.Decide, start, p.tickSleep, rounds);
      var sends := Run(p.period, p.Decide, start, rounds).sends;
      PeriodBound(p.period, start, p.tickSleep, sends);
      BytesBound(p.period, p.Decide, start, p.perTick, rounds);
      ProductOrder(CeilDiv(p.period, p.tickSleep), |sends|, p.perTick);
    }
  }

  // ----- no drift -----

  function SumDelays(sends: seq<Send>): int {
    if sends == [] then 0 else SumDelays(sends[..|sends| - 1]) + sends[|sends| - 1].delay
  }

  /** Without a debt reset the target instant is the start plus the delays asked
      for, whatever the writes cost and however late the sleeps woke. */
  lemma {:induction false} NoDrift(period: int, start: int, m: int, sends: seq<Send>, k: nat)
    requires Paced(period, start, m, sends) && k < |sends|
    requires forall i :: 0 <= i < k ==> !sends[i].reset
    ensures sends[k].due == start + SumDelays(sends[..k])
  {
    if k > 0 {
      NoDrift(period, start, m, sends, k - 1);
      assert Follows(sends[k - 1], sends[k]);
      assert sends[..k][..k - 1] == sends[..k - 1];
    }
  }

  /** Surroundings in which each round's work fits in a tick and sleeps wake on time. */
  predicate OnTime(r: Round, tick: int) {
    && Possible(r.draws)
    && r.toCheck == 0 && r.oversleep == 0 && !r.cancelled && !r.cancelledAsleep && !r.failed
    && r.toStep + r.toWrite + r.write + r.toUntil <= tick
  }

  ghost predicate WaitsExactly(decide: (int, Draws) -> Step, tick: int) {
    forall elapsed: int, d: Draws :: Possible(d) ==> decide(elapsed, d).delay == tick
  }

  /** An on-time round takes exactly one tick. */
  lemma OnTimeRound(period: nat, decide: (int, Draws) -> Step, tick: int, start: int, s: Pace, r: Round)
    requires tick > 0 && WaitsExactly(decide, tick) && OnTime(r, tick) && s.live && s.now == s.next
    ensures var t := Advance(period, decide, start, s, r);
            if s.now < start + period then
              && t.live && t.now == t.next == s.now + tick
              && |t.sends| == |s.sends| + 1 && t.sends[..|s.sends|] == s.sends
              && t.sends[|s.sends|].decided == s.now && !t.sends[|s.sends|].reset
            else !t.live && t.sends == s.sends
  {
    assert decide(Elapsed(start, s, r), r.draws).delay == tick;
    assert Passes(period, start, s, r) == (s.now < start + period);
    var sent := Sent(decide(Elapsed(start, s, r), r.draws), s, r);
    assert !sent.reset && sent.delay == tick && sent.decided == s.now;
  }

  /** On time, a pacer that asks for one tick lets its k-th send through exactly
      k ticks after the start, and stops after exactly ceil(period/tick) sends. */
  lemma {:induction false} OnTimeRun(period: nat, decide: (int, Draws) -> Step, tick: int, start: int, rounds: seq<Round>)
    requires tick > 0 && WaitsExactly(decide, tick)
    requires forall i :: 0 <= i < |rounds| ==> OnTime(rounds[i], tick)
    ensures var s, m := Run(period, decide, start, rounds), CeilDiv(period, tick);
            && |s.sends| == (if |rounds| <= m then |rounds| else m)
            && s.live == (|rounds| <= m)
            && (s.live ==> s.now == s.next == start + |s.sends| * tick)
            && (forall k :: 0 <= k < |s.sends| ==> s.sends[k].decided == start + k * tick && !s.sends[k].reset)
  {
    if rounds == [] {
      QuotientBound(0, tick, period + tick - 1);
    } else {
      var init, r := rounds[..|rounds| - 1], rounds[|rounds| - 1];
      assert OnTime(r, tick);
      OnTimeRun(period, decide, tick, start, init);
      var s, n := Run(period, decide, start, init), |init|;
      if s.live {
        CeilDivMeaning(period, tick, n);
        OnTimeRound(period, decide, tick, start, s, r);
        var t := Advance(period, decide, start, s, r);
        assert t == Run(period, decide, start, rounds);
        OneMore(n, tick);
        forall k | 0 <= k < |t.sends| ensures t.sends[k].decided == start + k * tick && !t.sends[k].reset {
          if k < |s.sends| {
            assert t.sends[..|s.sends|][k] == s.sends[k];
          }
        }
      }
    }
  }

  lemma CeilDivMeaning(a: int, m: int, n: int)
    requires m > 0
    ensures n * m < a <==> n < CeilDiv(a, m)
  {
    assert (n + 1) * m == n * m + m;
    if n * m < a {
      QuotientBound(n + 1, m, a + m - 1);
    }
    var q := (a + m - 1) / m;
    assert a + m - 1 == q * m + (a + m - 1) % m;
    ProductOrder(q, n + 1, m);
  }

  // ----- when one write fewer is enough -----

  /** Every window of a period holds at most (w + 1 s)/m + 1 writes. */
  predicate HoldsOneFewer(sends: seq<Send>, m: int)
    requires m > 0
  {
    forall i, j :: 0 <= i <= j < |sends| ==>
      j - i + 1 <= (sends[j].writeAt - sends[i].writeAt + SECOND) / m + 1
  }

  /** In a period of at most a second and a tick no window can exceed it. */
  lemma ShortPeriodHoldsOneFewer(period: nat, start: int, m: int, sends: seq<Send>)
    requires Paced(period, start, m, sends) && m > 0 && SECOND % m == 0 && period <= SECOND + m
    ensures HoldsOneFewer(sends, m)
  {
    forall i, j | 0 <= i <= j < |sends| ensures j - i + 1 <= (sends[j].writeAt - sends[i].writeAt + SECOND) / m + 1 {
      DueGrows(period, start, m, sends, 0, j);
      WritesInOrder(period, start, m, sends, i, j);
      assert InPeriod(period, start, m, sends[j]);
      BelowSecond(j, m);
      ProductOrder(j, j - i, m);
      QuotientBound(j - i, m, sends[j].writeAt - sends[i].writeAt + SECOND);
    }
  }

  lemma BelowSecond(j: nat, m: int)
    requires m > 0 && SECOND % m == 0 && j * m < SECOND + m
    ensures j * m <= SECOND
  {
    var q := SECOND / m;
    assert SECOND == q * m;
    assert (q + 1) * m == q * m + m;
    if j >= q + 1 {
      ProductOrder(j, q + 1, m);
    }
    ProductOrder(q, j, m);
  }

  const NO_DRAWS := Draws(0.0, 0.0, 0.0)
  const IDLE := Round(0, false, 0, 0, 0, 0, false, 0, 0, false, 0, NO_DRAWS)

  /** A first round that begins a second and a tick after the period did. */
  const LATE := IDLE.(toCheck := SECOND + SECOND / TICKS_PER_SECOND)

  function LateThenIdle(n: nat): (rounds: seq<Round>)
    ensures |rounds| == n + 1
  {
    [LATE] + seq(n, _ => IDLE)
  }

  lemma LateThenIdleGrows(n: nat)
    ensures var rounds := LateThenIdle(n + 1); rounds[..|rounds| - 1] == LateThenIdle(n) && rounds[|rounds| - 1] == IDLE
  {
  }

  /** A round that costs no time, while the loop is no more than a second behind. */
  lemma IdleRound(period: int, decide: (int, Draws) -> Step, tick: int, start: int, s: Pace)
    requires tick > 0 && WaitsExactly(decide, tick)
    requires s.live && s.now < start + period && s.now - SECOND - tick <= s.next <= s.now
    ensures var t := Advance(period, decide, start, s, IDLE);
            && t.live && t.next == s.next + tick && (s.next + tick <= s.now ==> t.now == s.now)
            && |t.sends| == |s.sends| + 1 && t.sends[..|s.sends|] == s.sends
            && t.sends[|s.sends|].writeAt == s.now
  {
    assert decide(Elapsed(start, s, IDLE), NO_DRAWS).delay == tick;
    var sent := Sent(decide(Elapsed(start, s, IDLE), NO_DRAWS), s, IDLE);
    assert !sent.reset && sent.writeAt == s.now;
    assert Advance(period, decide, start, s, IDLE) == Settled(s, IDLE, sent);
  }

  lemma FirstRoundIsLate(period: int, decide: (int, Draws) -> Step, tick: int, start: int)
    requires tick == SECOND / TICKS_PER_SECOND && WaitsExactly(decide, tick) && period > SECOND + tick
    ensures var s, t := Run(period, decide, start, LateThenIdle(0)), start + SECOND + tick;
            |s.sends| == 1 && s.live && s.next == start + tick && s.now == t && s.sends[0].writeAt == t
  {
    assert LateThenIdle(0) == [LATE];
    assert [LATE][..0] == [];
    var s := Pace(start, start, true, []);
    assert decide(Elapsed(start, s, LATE), NO_DRAWS).delay == tick;
    assert Run(period, decide, start, []) == s;
    assert Run(period, decide, start, [LATE]) == Settled(s, LATE, Sent(decide(Elapsed(start, s, LATE), NO_DRAWS), s, LATE));
  }

  lemma {:induction false} BurstAfterLateStart(period: int, decide: (int, Draws) -> Step, tick: int, start: int, n: nat)
    requires tick == SECOND / TICKS_PER_SECOND && WaitsExactly(decide, tick)
    requires period > SECOND + tick && n <= 201
    ensures var s := Run(period, decide, start, LateThenIdle(n));
            var t := start + 1_005_000_000;
            && |s.sends| == n + 1 && s.live
            && s.next == start + (n + 1) * 5_000_000
            && (n < 201 ==> s.now == t)
            && (forall k :: 0 <= k <= n ==> s.sends[k].writeAt == t)
  {
    if n == 0 {
      FirstRoundIsLate(period, decide, tick, start);
    } else {
      BurstAfterLateStart(period, decide, tick, start, n - 1);
      LateThenIdleGrows(n - 1);
      var s := Run(period, decide, start, LateThenIdle(n - 1));
      IdleRound(period, decide, tick, start, s);
      var t := Advance(period, decide, start, s, IDLE);
      forall k | 0 <= k <= n ensures t.sends[k].writeAt == start + 1_005_000_000 {
        if k < n {
          assert t.sends[..n][k] == s.sends[k];
        }
      }
    }
  }

  /** In a longer period 202 writes can begin at one instant: the bound of
      `WindowBound` for w = 0. */
  lemma WindowBoundIsTight(p: Pacer, start: int) returns (rounds: seq<Round>)
    requires p.Steady() && p.period > SECOND + p.tickSleep
    ensures PossibleRounds(rounds)
    ensures var sends := Run(p.period, p.Decide, start, rounds).sends;
            && |sends| == 202 && sends[201].writeAt == sends[0].writeAt
            && |sends| == (0 + SECOND) / p.tickSleep + 2
            && !HoldsOneFewer(sends, p.tickSleep)
  {
    SteadyPacerTicks(p);
    var n: nat :| n == 201;
    BurstAfterLateStart(p.period, p.Decide, p.tickSleep, start, n);
    rounds := LateThenIdle(n);
  }

  /** The smaller bound holds of every run and every window exactly when the period
      is no longer than a second and a tick. */
  lemma OneFewerIff(p: Pacer, start: int)
    requires p.Steady()
    ensures (forall rounds | PossibleRounds(rounds) ::
               HoldsOneFewer(Run(p.period, p.Decide, start, rounds).sends, p.tickSleep))
            <==> p.period <= SECOND + p.tickSleep
  {
    if p.period <= SECOND + p.tickSleep {
      forall rounds | PossibleRounds(rounds)
        ensures HoldsOneFewer(Run(p.period, p.Decide, start, rounds).sends, p.tickSleep)
      {
        PeriodOfPacer(p, start, rounds);
        ShortPeriodHoldsOneFewer(p.period, start, p.tickSleep, Run(p.period, p.Decide, start, rounds).sends);
      }
    } else {
      var rounds := WindowBoundIsTight(p, start);
    }
  }

  lemma SteadyPacerTicks(p: Pacer)
    requires p.Steady()
    ensures WaitsExactly(p.Decide, p.tickSleep)
  {
    forall elapsed: int, d: Draws | Possible(d) ensures p.Decide(elapsed, d).delay == p.tickSleep {
      StepSizes(p, elapsed, d);
    }
  }
}
