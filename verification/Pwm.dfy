/** The arithmetic of drivers/drv_pwm.c: a period and a pulse in nanoseconds become timer
    registers, and back. */
module Pwm {
  import opened Arithmetic

  const MAX_PERIOD: int := 65535
  const MIN_PERIOD: int := 3
  const MIN_PULSE: int := 2
  const U32: int := 0x1_0000_0000
  const U16: int := 0x1_0000

  /** How many cycles of a clock of `mhz` MHz a time in nanoseconds lasts. */
  function Cycles(ns: nat, mhz: nat): nat {
    ns * mhz / 1000
  }

  lemma Floor(a: nat, c: nat)
    requires 0 < c
    ensures a / c * c <= a < a / c * c + c
  {
    assert a == a / c * c + a % c;
  }

  lemma Mono(a: int, b: int, c: nat)
    requires a <= b
    ensures a * c <= b * c
  {
    NonNegative(b - a, c);
    Distribute(a, b - a, c);
  }

  /** Dividing by one more than p / m leaves less than m. */
  lemma Scaled(p: nat, m: nat)
    requires 0 < m
    ensures p / (p / m + 1) < m
  {
    var s := p / m + 1;
    Floor(p, m);
    Floor(p, s);
    Distribute(p / m, 1, m);
    Less(p / s, m, s, p);
  }

  lemma Less(q: nat, m: nat, s: nat, p: nat)
    requires q * s <= p < s * m
    ensures q < m
  {
    if m <= q {
      Mono(m, q, s);
    }
  }

  /** Truncating twice is truncating once. */
  lemma TwoFloors(x: nat, a: nat, b: nat)
    requires 0 < a && 0 < b
    ensures x / a / b * b * a <= x < x / a / b * b * a + b * a
  {
    var q := x / a;
    Floor(x, a);
    Floor(q, b);
    Mono(q / b * b, q, a);
    Mono(q + 1, q / b * b + b, a);
    Distribute(q / b * b, b, a);
    Distribute(q, 1, a);
  }

  /** What reading back `n` times `s` cycles of the clock yields, against a request that
      lasts at least that and less than `s` cycles more. */
  lemma Lost(request: nat, n: nat, s: nat, mhz: nat)
    requires 0 < mhz && n * s * 1000 <= request * mhz < n * s * 1000 + s * 1000
    ensures var got := n * s * 1000 / mhz; 0 <= (request - got) * mhz < s * 1000 + mhz
  {
    var got := n * s * 1000 / mhz;
    Floor(n * s * 1000, mhz);
    Distribute(got, request - got, mhz);
  }

  datatype Division = Div1 | Div2 | Div4

  /** The prescaler divides the clock by this, so that the period fits 16 bits. */
  function Divisor(cycles: nat): nat
    ensures 0 < Divisor(cycles)
  {
    cycles / MAX_PERIOD + 1
  }

  /** The period in steps of the divided clock. */
  function Steps(cycles: nat): nat {
    cycles / Divisor(cycles)
  }

  function PulseSteps(pulse: nat, mhz: nat, divisor: nat): nat
    requires 0 < divisor
  {
    pulse * mhz / divisor / 1000 % U32
  }

  function Nanoseconds(steps: nat, divisor: nat, mhz: nat): nat
    requires 0 < mhz
  {
    steps * divisor * 1000 % U32 / mhz
  }

  /** `ns` is how many whole nanoseconds so many steps of the divided clock last, of which
      32 bits are kept: one more would be too long. */
  ghost predicate Lasts(ns: nat, steps: nat, divisor: nat, mhz: nat) {
    ns * mhz <= steps * divisor * 1000 % U32 < ns * mhz + mhz
  }

  lemma LastsSo(steps: nat, divisor: nat, mhz: nat)
    requires 0 < mhz
    ensures Lasts(Nanoseconds(steps, divisor, mhz), steps, divisor, mhz)
  {
    Floor(steps * divisor * 1000 % U32, mhz);
  }

  lemma LastsOnce(a: nat, b: nat, x: nat, mhz: nat)
    requires 0 < mhz && a * mhz <= x && x < b * mhz + mhz
    ensures a <= b
  {
    Distribute(b, 1, mhz);
    Less(a, b + 1, mhz, x);
  }

  /** Only one time lasts so long. */
  lemma LastsIs(ns: nat, steps: nat, divisor: nat, mhz: nat)
    requires 0 < mhz && Lasts(ns, steps, divisor, mhz)
    ensures ns == Nanoseconds(steps, divisor, mhz)
  {
    LastsSo(steps, divisor, mhz);
    var x := steps * divisor * 1000 % U32;
    LastsOnce(ns, Nanoseconds(steps, divisor, mhz), x, mhz);
    LastsOnce(Nanoseconds(steps, divisor, mhz), ns, x, mhz);
  }

  lemma NoWrap(x: nat)
    requires x < U32
    ensures x % U32 == x
  {
  }

  lemma Longer(a: nat, m: nat, b: nat, n: nat, divisor: nat, mhz: nat)
    requires 0 < mhz && Lasts(a, m, divisor, mhz) && Lasts(b, n, divisor, mhz)
    requires m <= n && n * divisor * 1000 < U32
    ensures a <= b
  {
    Mono(m, n, divisor);
    Mono(m * divisor, n * divisor, 1000);
    NoWrap(m * divisor * 1000);
    NoWrap(n * divisor * 1000);
    LastsOnce(a, b, n * divisor * 1000, mhz);
  }

  lemma StepsFit(cycles: nat)
    ensures Steps(cycles) < MAX_PERIOD
    ensures Divisor(cycles) <= U16 <==> cycles < MAX_PERIOD * U16
  {
    Scaled(cycles, MAX_PERIOD);
  }

  /** The divisor is the least one that leaves fewer than 65535 steps. */
  lemma LeastDivisor(cycles: nat, d: nat)
    requires 0 < d
    ensures cycles / d < 65535 <==> Divisor(cycles) <= d
  {
    Floor(cycles, MAX_PERIOD);
    Floor(cycles, d);
    if cycles / d < MAX_PERIOD {
      Mono(cycles / d + 1, MAX_PERIOD, d);
      Distribute(cycles / d, 1, d);
      Less(cycles / MAX_PERIOD, d, MAX_PERIOD, cycles);
    } else {
      Mono(MAX_PERIOD, cycles / d, d);
    }
  }

  lemma EnoughSteps(cycles: nat)
    requires MIN_PERIOD <= cycles
    ensures MIN_PERIOD <= Steps(cycles)
  {
    var d := cycles / MAX_PERIOD + 1;
    Floor(cycles, MAX_PERIOD);
    Floor(cycles, d);
    assert MIN_PERIOD * d <= cycles;
    Distribute(cycles / d, 1, d);
    Less(MIN_PERIOD, cycles / d + 1, d, MIN_PERIOD * d);
  }

  /** A longer time has no fewer steps, in whatever order it is divided. */
  lemma StepsGrow(short: nat, long: nat, mhz: nat, d: nat)
    requires 0 < d && short <= long && long * mhz / 1000 < U32
    ensures Cycles(short, mhz) / d <= PulseSteps(long, mhz, d)
    ensures Cycles(short, mhz) < U32
  {
    Mono(short, long, mhz);
    Twice(short * mhz, long * mhz, d);
  }

  lemma Twice(x: nat, y: nat, d: nat)
    requires 0 < d && x <= y && y / 1000 < U32
    ensures x / 1000 / d <= y / d / 1000 % U32 && x / 1000 < U32
  {
    Swapped(x, y, d);
    Shorter(y, d);
    NoWrap(y / d / 1000);
  }

  lemma Swapped(x: nat, y: nat, d: nat)
    requires 0 < d && x <= y
    ensures x / 1000 / d <= y / d / 1000
  {
    var m, n := x / 1000 / d, y / d / 1000;
    TwoFloors(x, 1000, d);
    TwoFloors(y, d, 1000);
    Distribute(n * 1000, 1000, d);
    Less(m, n + 1, d * 1000, x);
  }

  lemma Shorter(y: nat, d: nat)
    requires 0 < d
    ensures y / d / 1000 <= y / 1000
  {
    Floor(y, d);
    Mono(1, d, y / d);
    Floor(y / d, 1000);
    Less(y / d / 1000, y / 1000 + 1, 1000, y);
  }

  /** A pulse as long as its period, or longer, has no fewer steps. */
  lemma LongPulse(period: nat, pulse: nat, mhz: nat)
    requires period <= pulse && MIN_PERIOD <= Cycles(period, mhz) && pulse * mhz / 1000 < U32
    ensures var c := Cycles(period, mhz) % U32; MIN_PERIOD <= Steps(c) <= PulseSteps(pulse, mhz, Divisor(c))
  {
    var c := Cycles(period, mhz);
    hide Cycles, Divisor, PulseSteps;
    StepsGrow(period, pulse, mhz, Divisor(c));
    NoWrap(c);
    EnoughSteps(c);
  }

  lemma ShortPulse(pulse: nat, mhz: nat, d: nat)
    requires 0 < d && pulse * mhz < MIN_PULSE * 1000
    ensures PulseSteps(pulse, mhz, d) < MIN_PULSE
  {
    FewSteps(pulse * mhz, d);
  }

  lemma FewSteps(x: nat, d: nat)
    requires 0 < d && x < MIN_PULSE * 1000
    ensures x / d / 1000 % U32 < MIN_PULSE
  {
    Floor(x, d);
    Mono(1, d, x / d);
    NoWrap(x / d / 1000);
  }

  function Clamp(x: int, low: int, high: int): int {
    if x < low then low else if high < x then high else x
  }

  class Timer {
    const clockHz: nat
    const division: Division
    var prescaler: nat
    var reload: nat
    var compare: nat
    var counter: nat

    constructor (hz: nat, div: Division)
      ensures clockHz == hz && division == div
    {
      clockHz, division, prescaler, reload, compare, counter := hz, div, 0, 0, 0, 0;
    }

    function Mhz(): nat {
      clockHz / 1000000
    }

    /** The period in clock cycles, as the 32-bit variable of drv_pwm_set holds it. */
    function PeriodCycles(period: nat): nat {
      Cycles(period, Mhz()) % U32
    }

    /** drv_pwm_set. The compare value never passes the reload value, both fit the registers,
        and the prescaler fits exactly if the period stays below 65535 * 65536 cycles. */
    method Set(period: nat, pulse: nat)
      requires period < U32 && pulse < U32
      modifies this
      ensures 0 < compare <= reload < 65535 && 3 <= reload + 1 && counter == 0
      ensures prescaler < 65536 <==> PeriodCycles(period) < 65535 * 65536
      ensures PeriodCycles(period) == period * Mhz() / 1000 % 0x1_0000_0000
      ensures prescaler + 1 == Divisor(PeriodCycles(period))
      ensures reload + 1 == Max(Steps(PeriodCycles(period)), 3)
      ensures compare + 1 == Clamp(PulseSteps(pulse, Mhz(), prescaler + 1), 2, reload + 1)
      ensures period <= pulse && 3 <= period * Mhz() / 1000 && pulse * Mhz() / 1000 < 0x1_0000_0000 ==>
        compare == reload
      ensures pulse * Mhz() < 2000 ==> compare == 1
    {
      assert Cycles(period, Mhz()) == period * Mhz() / 1000;
      hide Cycles, PulseSteps;
      if period <= pulse && MIN_PERIOD <= period * Mhz() / 1000 && pulse * Mhz() / 1000 < U32 {
        LongPulse(period, pulse, Mhz());
      }
      if pulse * Mhz() < MIN_PULSE * 1000 {
        ShortPulse(pulse, Mhz(), Divisor(PeriodCycles(period)));
      }
      var timClock := clockHz / 1000000;
      var per := Cycles(period, timClock) % U32;
      var psc := per / MAX_PERIOD + 1;
      StepsFit(per);
      assert per / psc == Steps(per);
      per := per / psc;
      prescaler := psc - 1;
      if per < MIN_PERIOD {
        per := MIN_PERIOD;
      }
      reload := per - 1;
      var pul := PulseSteps(pulse, timClock, psc);
      if pul < MIN_PULSE {
        pul := MIN_PULSE;
      } else if pul > per {
        pul := per;
      }
      compare := pul - 1;
      counter := 0;
    }

    /** The clock as drv_pwm_get sees it, which counts the clock division. */
    function GetMhz(): nat {
      match division
      case Div1 => clockHz / 1000000
      case Div2 => clockHz / 2 / 1000000
      case Div4 => clockHz / 4 / 1000000
    }

    /** Divided by two or four, it is that many times slower. */
    lemma SlowerClock()
      ensures var d := if division == Div1 then 1 else if division == Div2 then 2 else 4;
        GetMhz() * (d * 1000000) <= clockHz < GetMhz() * (d * 1000000) + d * 1000000
    {
      TwoFloors(clockHz, 2, 1000000);
      TwoFloors(clockHz, 4, 1000000);
      Floor(clockHz, 1000000);
    }

    /** drv_pwm_get: the whole nanoseconds that the steps in the registers last, as far as
        32 bits hold their product; then a pulse is not longer than its period. */
    method Get() returns (period: nat, pulse: nat)
      requires 0 < GetMhz()
      ensures Lasts(period, reload + 1, prescaler + 1, GetMhz()) && Lasts(pulse, compare + 1, prescaler + 1, GetMhz())
      ensures compare <= reload && (reload + 1) * (prescaler + 1) * 1000 < U32 ==> pulse <= period
    {
      hide Nanoseconds, Lasts;
      var timClock := clockHz;
      if division == Div2 {
        timClock := timClock / 2;
      } else if division == Div4 {
        timClock := timClock / 4;
      }
      timClock := timClock / 1000000;
      period := Nanoseconds(reload + 1, prescaler + 1, timClock);
      pulse := Nanoseconds(compare + 1, prescaler + 1, timClock);
      LastsSo(reload + 1, prescaler + 1, timClock);
      LastsSo(compare + 1, prescaler + 1, timClock);
      if compare <= reload && (reload + 1) * (prescaler + 1) * 1000 < U32 {
        Longer(pulse, compare + 1, period, reload + 1, prescaler + 1, timClock);
      }
    }
  }

  /** Setting a period and a pulse and reading them back: neither grows, and each loses less
      than one step of the divided clock and one nanosecond, if no clamp acts, the clock
      division is 1 and the products fit 32 bits. */
  method SetThenGet(timer: Timer, period: nat, pulse: nat) returns (gotPeriod: nat, gotPulse: nat)
    requires period < U32 && pulse <= period && timer.division == Div1 && 0 < timer.Mhz()
    requires Cycles(period, timer.Mhz()) * 1000 < U32
    requires MIN_PERIOD <= Steps(Cycles(period, timer.Mhz()))
    requires MIN_PULSE <= pulse * timer.Mhz() / Divisor(Cycles(period, timer.Mhz())) / 1000
    modifies timer
    ensures 0 <= (period - gotPeriod) * timer.Mhz() < (timer.prescaler + 1) * 1000 + timer.Mhz()
    ensures 0 <= (pulse - gotPulse) * timer.Mhz() < (timer.prescaler + 1) * 1000 + timer.Mhz()
  {
    hide Cycles, Divisor, Steps, PulseSteps, Nanoseconds, Lasts;
    ghost var t := timer.Mhz();
    ghost var cycles := Cycles(period, t);
    timer.Set(period, pulse);
    gotPeriod, gotPulse := timer.Get();
    LastsIs(gotPeriod, timer.reload + 1, timer.prescaler + 1, t);
    LastsIs(gotPulse, timer.compare + 1, timer.prescaler + 1, t);
    PeriodBack(period, t);
    PulseBack(period, pulse, t);
  }

  lemma PeriodBack(period: nat, t: nat)
    requires 0 < t && Cycles(period, t) * 1000 < U32
    ensures Cycles(period, t) % U32 == Cycles(period, t)
    ensures var c := Cycles(period, t); var got := Nanoseconds(Steps(c), Divisor(c), t);
      0 <= (period - got) * t < Divisor(c) * 1000 + t
  {
    var c := Cycles(period, t);
    var n, s := Steps(c), Divisor(c);
    hide Divisor;
    assert c == period * t / 1000 && n == c / s;
    hide Cycles, Steps;
    Floor(period * t, 1000);
    Floor(c, s);
    Mono(n * s, c, 1000);
    Mono(c + 1, n * s + s, 1000);
    Distribute(n * s, s, 1000);
    Lost(period, n, s, t);
    Unwrapped(n, s, t);
  }

  lemma PulseBack(period: nat, pulse: nat, t: nat)
    requires 0 < t && pulse <= period && Cycles(period, t) * 1000 < U32
    ensures var c := Cycles(period, t);
      var p := PulseSteps(pulse, t, Divisor(c));
      var got := Nanoseconds(p, Divisor(c), t);
      && p == pulse * t / Divisor(c) / 1000 && p <= Steps(c)
      && 0 <= (pulse - got) * t < Divisor(c) * 1000 + t
  {
    var c := Cycles(period, t);
    var s := Divisor(c);
    hide Cycles, Divisor, Nanoseconds, PulseSteps;
    PulseCount(pulse, period, t, s);
    var q := PulseSteps(pulse, t, s);
    Unwrapped(q, s, t);
    Lost(pulse, q, s, t);
  }

  lemma PulseCount(pulse: nat, period: nat, t: nat, s: nat)
    requires 0 < s && pulse <= period && Cycles(period, t) * 1000 < U32
    ensures var c, q := Cycles(period, t), PulseSteps(pulse, t, s);
      q == pulse * t / s / 1000 && q * s <= c && q <= c / s
      && q * s * 1000 <= pulse * t < q * s * 1000 + s * 1000
  {
    hide Cycles;
    CyclesBound(period, t);
    Mono(pulse, period, t);
    PulseFits(pulse * t, s, Cycles(period, t));
  }

  lemma CyclesBound(ns: nat, mhz: nat)
    ensures ns * mhz < Cycles(ns, mhz) * 1000 + 1000
  {
    Floor(ns * mhz, 1000);
  }

  /** A pulse of `x` thousandths of a cycle, no longer than a period of `c` cycles. */
  lemma PulseFits(x: nat, s: nat, c: nat)
    requires 0 < s && x < c * 1000 + 1000
    ensures var q := x / s / 1000; q * s * 1000 <= x < q * s * 1000 + s * 1000 && q * s <= c && q <= c && q <= c / s
  {
    var q := x / s / 1000;
    TwoFloors(x, s, 1000);
    Fewer(q, s, c);
    Mono(1, s, q);
  }

  lemma Fewer(q: nat, s: nat, c: nat)
    requires 0 < s && q * 1000 * s < c * 1000 + 1000
    ensures q <= c / s && q * s <= c
  {
    Floor(c, s);
    Distribute(c / s, 1, s);
    Less(q, c / s + 1, s, c);
  }

  lemma Unwrapped(n: nat, s: nat, t: nat)
    requires 0 < t && n * s * 1000 < U32
    ensures Nanoseconds(n, s, t) == n * s * 1000 / t
  {
  }
}
