/** Seconds and nanoseconds, with C's truncating division, and the poll timeout. */
module Timespecs {
  import opened Common

  const NSEC_PER_SEC := 1_000_000_000
  const NSEC_PER_MSEC := 1_000_000

  datatype Timespec = Timespec(sec: int, nsec: int)

  predicate Normalized(t: Timespec) {
    0 <= t.nsec < NSEC_PER_SEC
  }

  /** Division and remainder as in C: the quotient is cut off towards zero. */
  function CDiv(a: int, b: int): int
    requires b > 0
  {
    if a >= 0 then a / b else -((-a) / b)
  }

  function CMod(a: int, b: int): int
    requires b > 0
  {
    if a >= 0 then a % b else -((-a) % b)
  }

  /** timespec_to_nsec */
  function ToNsec(t: Timespec): int {
    t.sec * NSEC_PER_SEC + t.nsec
  }

  /** timespec_to_msec */
  function ToMsec(t: Timespec): int {
    t.sec * 1000 + CDiv(t.nsec, NSEC_PER_MSEC)
  }

  /** The normalized time at a number of nanoseconds. */
  function FromNsec(ns: int): Timespec {
    Timespec(ns / NSEC_PER_SEC, ns % NSEC_PER_SEC)
  }

  /** A normalized time is determined by its nanoseconds, and all numbers occur. */
  lemma NormalForm(t: Timespec, ns: int)
    ensures Normalized(FromNsec(ns)) && ToNsec(FromNsec(ns)) == ns
    ensures Normalized(t) ==> (ToNsec(t) == ns <==> t == FromNsec(ns))
  {
  }

  /** Rounding to milliseconds is down, also for times before zero. */
  lemma ToMsecIsFloor(t: Timespec)
    requires Normalized(t)
    ensures ToMsec(t) * NSEC_PER_MSEC <= ToNsec(t) < (ToMsec(t) + 1) * NSEC_PER_MSEC
  {
  }

  method Sub(a: Timespec, b: Timespec) returns (r: Timespec)
    ensures ToNsec(r) == ToNsec(a) - ToNsec(b)
    ensures Normalized(a) && Normalized(b) ==> Normalized(r)
  {
    r := Timespec(a.sec - b.sec, a.nsec - b.nsec);
    if r.nsec < 0 {
      r := r.(sec := r.sec - 1);
      r := r.(nsec := r.nsec + NSEC_PER_SEC);
    }
  }

  /** Exact for every normalized time and every increment, negative ones included. */
  method AddNsec(a: Timespec, b: int) returns (r: Timespec)
    requires Normalized(a)
    ensures Normalized(r) && r == FromNsec(ToNsec(a) + b)
  {
    r := Timespec(a.sec + CDiv(b, NSEC_PER_SEC), a.nsec + CMod(b, NSEC_PER_SEC));
    assert CDiv(b, NSEC_PER_SEC) * NSEC_PER_SEC + CMod(b, NSEC_PER_SEC) == b;
    if r.nsec >= NSEC_PER_SEC {
      r := r.(sec := r.sec + 1);
      r := r.(nsec := r.nsec - NSEC_PER_SEC);
    } else if r.nsec < 0 {
      r := r.(sec := r.sec - 1);
      r := r.(nsec := r.nsec + NSEC_PER_SEC);
    }
    NormalForm(r, ToNsec(a) + b);
  }

  method AddMsec(a: Timespec, ms: int) returns (r: Timespec)
    requires Normalized(a)
    ensures Normalized(r) && r == FromNsec(ToNsec(a) + ms * NSEC_PER_MSEC)
    ensures 0 <= r.nsec < 1_000_000_000
    ensures r.sec * 1_000_000_000 + r.nsec == a.sec * 1_000_000_000 + a.nsec + ms * 1_000_000
  {
    r := AddNsec(a, ms * NSEC_PER_MSEC);
    NormalForm(r, ToNsec(a) + ms * NSEC_PER_MSEC);
  }

  method SubToNsec(a: Timespec, b: Timespec) returns (ns: int)
    ensures ns == ToNsec(a) - ToNsec(b)
    ensures ns == (a.sec - b.sec) * 1_000_000_000 + (a.nsec - b.nsec)
  {
    var r := Sub(a, b);
    ns := ToNsec(r);
  }

  /** Storing a 64 bit value in an int keeps its low 32 bits. */
  function ToInt(x: int): int {
    (x + 0x8000_0000) % 0x1_0000_0000 - 0x8000_0000
  }

  /** How long poll() may sleep. Never past the next timer; and less than a millisecond short
      of it exactly when the distance in milliseconds fits an int. */
  method PollTimeout(next: Option<Timespec>, now: Timespec) returns (timeout: int)
    requires Normalized(now) && (next.Some? ==> Normalized(next.value) && ToNsec(next.value) > ToNsec(now))
    ensures next.None? ==> timeout == -1
    ensures next.Some? ==> 0 <= timeout <= INT_MAX && ToNsec(now) + timeout * NSEC_PER_MSEC <= ToNsec(next.value)
    ensures next.Some? ==>
              (ToNsec(next.value) < ToNsec(now) + (timeout + 1) * NSEC_PER_MSEC <==>
               (ToNsec(next.value) - ToNsec(now)) / NSEC_PER_MSEC <= INT_MAX)
    ensures next.Some? ==>
              var distance := (next.value.sec - now.sec) * 1_000_000_000 + (next.value.nsec - now.nsec);
              && timeout * 1_000_000 <= distance
              && (distance < 0x7fff_ffff * 1_000_000 ==> distance < (timeout + 1) * 1_000_000)
  {
    timeout := -1;
    if next.Some? {
      var diff := Sub(next.value, now);
      timeout := ToInt(ToMsec(diff));
      if timeout <= 0 {
        timeout := 0;
      }
      ToMsecIsFloor(diff);
      assert ToMsec(diff) == ToNsec(diff) / NSEC_PER_MSEC;
    }
  }

  /** A timer set with an int number of milliseconds from a clock that has not run ahead of
      now is never too far away for that. */
  lemma TimersAreInRange(clock: Timespec, now: Timespec, ms: int)
    requires 0 <= ms <= INT_MAX && ToNsec(clock) <= ToNsec(now)
    ensures (ToNsec(FromNsec(ToNsec(clock) + ms * NSEC_PER_MSEC)) - ToNsec(now)) / NSEC_PER_MSEC <= INT_MAX
  {
    NormalForm(clock, ToNsec(clock) + ms * NSEC_PER_MSEC);
  }
}
