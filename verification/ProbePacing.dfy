/** The probing loop of scamper.c, with the arithmetic on times of utils.c: how
    many probes it sends, whatever the clock and the work are. */
module ProbePacing {

  const MILLION := 1000000

  datatype Timeval = Timeval(sec: int, usec: int)

  predicate Normal(t: Timeval) {
    0 <= t.usec < MILLION
  }

  /** A time as a number of microseconds. */
  function Us(t: Timeval): int {
    t.sec * MILLION + t.usec
  }

  lemma UsIs(t: Timeval)
    ensures Us(t) == 1000000 * t.sec + t.usec && (Normal(t) <==> 0 <= t.usec < 1000000)
  {
  }

  // Division as in C, which rounds towards zero.
  function Div(a: int, b: int): int
    requires b > 0
  {
    if a >= 0 then a / b else -((-a) / b)
  }

  function Mod(a: int, b: int): int
    requires b > 0
  {
    a - Div(a, b) * b
  }

  /** timeval_cmp. */
  function Cmp(a: Timeval, b: Timeval): int {
    if a.sec < b.sec then -1 else if a.sec > b.sec then 1
    else if a.usec < b.usec then -1 else if a.usec > b.usec then 1 else 0
  }

  /** Comparing two times compares them as numbers. */
  lemma CmpIs(a: Timeval, b: Timeval)
    requires Normal(a) && Normal(b)
    ensures Cmp(a, b) < 0 <==> Us(a) < Us(b)
    ensures Cmp(a, b) > 0 <==> Us(a) > Us(b)
  {
  }

  method HandleWrap(t: Timeval) returns (r: Timeval)
    requires -MILLION < t.usec < 2 * MILLION
    ensures Normal(r) && Us(r) == Us(t)
  {
    r := t;
    if r.usec >= MILLION {
      r := Timeval(r.sec + 1, r.usec - MILLION);
    } else if r.usec < 0 {
      r := Timeval(r.sec - 1, r.usec + MILLION);
    }
  }

  lemma DivMod(us: int)
    ensures us == Div(us, MILLION) * MILLION + Mod(us, MILLION) && -MILLION < Mod(us, MILLION) < MILLION
  {
  }

  /** timeval_add_us. */
  method AddUs(t: Timeval, us: int) returns (r: Timeval)
    requires Normal(t)
    ensures Normal(r) && Us(r) == Us(t) + us
  {
    hide Div, Mod;
    DivMod(us);
    r := HandleWrap(Timeval(t.sec + Div(us, MILLION), t.usec + Mod(us, MILLION)));
  }

  /** timeval_sub_us. */
  method SubUs(t: Timeval, us: int) returns (r: Timeval)
    requires Normal(t)
    ensures Normal(r) && Us(r) == Us(t) - us
  {
    hide Div, Mod;
    DivMod(us);
    r := HandleWrap(Timeval(t.sec - Div(us, MILLION), t.usec - Mod(us, MILLION)));
  }

  /** timeval_inrange_us. */
  method InRangeUs(a: Timeval, b: Timeval, c: int) returns (r: bool)
    requires Normal(a) && Normal(b) && c >= 0
    ensures r <==> Us(b) - c <= Us(a) <= Us(b) + c
  {
    hide Cmp;
    CmpIs(a, b);
    var rc := Cmp(a, b);
    if rc < 0 {
      var tv := AddUs(a, c);
      CmpIs(tv, b);
      if Cmp(tv, b) < 0 {
        return false;
      }
    } else if rc > 0 {
      var tv := AddUs(b, c);
      CmpIs(tv, a);
      if Cmp(tv, a) < 0 {
        return false;
      }
    }
    r := true;
  }

  // ---------- One round ----------

  const PPS_MIN := 1
  const PPS_MAX := 50000
  const WINDOW_MAX := 65535

  // How many probes go out from last on, if there is work for so many.
  function Probes(last: int, now: int, wait: nat, work: nat): nat
    decreases work
  {
    if work == 0 || last + wait > now then 0 else 1 + Probes(last + wait, now, wait, work - 1)
  }

  /** The time that a round starts from: not too far from the clock. */
  function Base(last: int, now: int, wait: nat, window: nat): int {
    if last - window <= now <= last + window then last else now - wait
  }

  lemma {:induction false} ProbesReach(last: int, now: int, wait: nat, work: nat)
    requires last <= now
    ensures var n := Probes(last, now, wait, work);
            n <= work && last + n * wait <= now && (n < work ==> last + n * wait + wait > now)
    decreases work
  {
    if work > 0 && last + wait <= now {
      ProbesReach(last + wait, now, wait, work - 1);
      MulMore(Probes(last + wait, now, wait, work - 1), wait);
    }
  }

  lemma MulMore(n: nat, w: nat)
    ensures (n + 1) * w == n * w + w
  {
  }

  class Pacer {
    var pps: nat
    var window: nat
    var waitBetween: nat
    var probeWindow: nat
    var lastprobe: Timeval

    ghost predicate Valid()
      reads this
    {
      && Normal(lastprobe) && pps <= PPS_MAX && window <= WINDOW_MAX
      && waitBetween == (if pps == 0 then 0 else MILLION / pps)
      && probeWindow == 250000 + if waitBetween > 250000 then waitBetween else 0
    }

    lemma WaitFitsWindow()
      requires Valid()
      ensures waitBetween <= probeWindow
    {
    }

    // So many probes take a second, but for less than a microsecond each.
    lemma WaitIs()
      requires Valid()
      ensures pps != 0 ==> 1000000 - pps < pps * waitBetween <= 1000000
      ensures pps == 0 ==> waitBetween == 0
      ensures pps <= 50000 && window <= 65535
    {
    }

    constructor (now: Timeval)
      requires Normal(now)
      ensures Valid() && lastprobe == now && pps == 20 && window == 0
    {
      pps, window, waitBetween, probeWindow := 20, 0, MILLION / 20, 250000;
      lastprobe := now;
    }

    /** ppswindow_set. */
    method PpsWindowSet(p: int, w: int) returns (rc: int)
      requires Valid()
      modifies this`pps, this`window, this`waitBetween, this`probeWindow
      ensures Valid() && (rc == 0 || rc == -1)
      ensures rc == 0 ==> pps == p && window == w
      ensures rc == -1 ==> window == old(window) && (pps == old(pps) || (pps == p && (p != 0 || w != 0)))
      ensures rc == 0 <==> !(p == 0 && w == 0) && (p == old(pps) || 0 <= p <= 50000) &&
                           (w == old(window) || 0 <= w <= 65535)
    {
      if p == 0 && w == 0 {
        return -1;
      }
      if p != pps {
        if p != 0 && (p < PPS_MIN || p > PPS_MAX) {
          return -1;
        }
        pps := p;
        if p != 0 {
          waitBetween := MILLION / pps;
        } else {
          waitBetween := 0;
        }
        probeWindow := 250000;
        if waitBetween > 250000 {
          probeWindow := probeWindow + waitBetween;
        }
      }
      if w != window {
        if w != 0 && (w < 0 || w > WINDOW_MAX) {
          return -1;
        }
        window := w;
      }
      rc := 0;
    }

    /** The round of the loop in scamper() when there is something to probe: sent
        counts the probes. work says for how many the queue, the window and the
        sources have a task. */
    method Round(tv: Timeval, work: nat) returns (sent: nat)
      requires Valid() && Normal(tv)
      modifies this`lastprobe
      ensures Valid()
      ensures var base := Base(Us(old(lastprobe)), Us(tv), waitBetween, probeWindow);
              sent == Probes(base, Us(tv), waitBetween, work) && Us(lastprobe) == base + sent * waitBetween
    {
      hide Us, Cmp, Normal;
      var inrange := InRangeUs(tv, lastprobe, probeWindow);
      if !inrange {
        lastprobe := SubUs(tv, waitBetween);
      }
      ghost var base := Us(lastprobe);
      sent := 0;
      while true
        invariant Normal(lastprobe) && sent <= work && Us(lastprobe) == base + sent * waitBetween
        invariant sent + Probes(Us(lastprobe), Us(tv), waitBetween, work - sent) ==
                  Probes(base, Us(tv), waitBetween, work)
        decreases work - sent
      {
        var nextprobe := AddUs(lastprobe, waitBetween);
        CmpIs(nextprobe, tv);
        if Cmp(nextprobe, tv) > 0 {
          break;
        }
        if sent == work {
          break;
        }
        MulMore(sent, waitBetween);
        sent := sent + 1;
        lastprobe := nextprobe;
      }
    }
  }

  // ---------- Runs ----------

  // A round: the clock, and the work that there is.
  datatype Tick = Tick(now: int, work: nat)

  ghost predicate Clock(ticks: seq<Tick>, from: int) {
    (forall i :: 0 <= i < |ticks| ==> from <= ticks[i].now) &&
    forall i, j :: 0 <= i < j < |ticks| ==> ticks[i].now <= ticks[j].now
  }

  function SentIn(last: int, t: Tick, wait: nat, window: nat): nat {
    Probes(Base(last, t.now, wait, window), t.now, wait, t.work)
  }

  function LastAfter(last: int, t: Tick, wait: nat, window: nat): int {
    Base(last, t.now, wait, window) + SentIn(last, t, wait, window) * wait
  }

  function Sent(last: int, ticks: seq<Tick>, wait: nat, window: nat): nat
    decreases |ticks|
  {
    if ticks == [] then 0
    else SentIn(last, ticks[0], wait, window) + Sent(LastAfter(last, ticks[0], wait, window), ticks[1..], wait, window)
  }

  function LastOf(last: int, ticks: seq<Tick>, wait: nat, window: nat): int
    decreases |ticks|
  {
    if ticks == [] then last else LastOf(LastAfter(last, ticks[0], wait, window), ticks[1..], wait, window)
  }

  /** With the clock not running back, the time of the last probe neither goes
      back nor passes the clock; and a round that runs out of time, not of work,
      leaves the next probe strictly in the future. */
  lemma RoundKeeps(last: int, t: Tick, wait: nat, window: nat)
    requires last <= t.now && wait <= window
    ensures last <= LastAfter(last, t, wait, window) <= t.now
    ensures SentIn(last, t, wait, window) < t.work ==> LastAfter(last, t, wait, window) + wait > t.now
    ensures LastAfter(last, t, wait, window) >= last + SentIn(last, t, wait, window) * wait
    ensures t.now - window <= Base(last, t.now, wait, window)
  {
    var b := Base(last, t.now, wait, window);
    ProbesReach(b, t.now, wait, t.work);
    NonNegative(SentIn(last, t, wait, window), wait);
  }

  lemma NonNegative(n: nat, w: nat)
    ensures n * w >= 0
  {
  }

  /** A round after too long a gap, in either direction, sends one probe if it has
      work, and starts again from the clock; any other sends as many as are due
      by the clock, counted from the last one, as far as there is work. Without
      a wait it sends all the work that there is. */
  lemma RoundSends(last: int, t: Tick, wait: nat, window: nat)
    ensures var sent, after := SentIn(last, t, wait, window), LastAfter(last, t, wait, window);
            if t.now < last - window || t.now > last + window then
              && sent == (if wait == 0 then t.work else if t.work > 0 then 1 else 0)
              && after == (if t.work > 0 then t.now else t.now - wait)
            else
              && sent <= t.work && after == last + sent * wait
              && (sent > 0 ==> last + sent * wait <= t.now)
              && (sent < t.work ==> last + (sent + 1) * wait > t.now)
  {
    if t.now < last - window || t.now > last + window {
      ProbesReach(t.now - wait, t.now, wait, t.work);
      if wait > 0 {
        OneProbe(SentIn(last, t, wait, window), wait);
      }
    } else if last <= t.now {
      ProbesReach(last, t.now, wait, t.work);
      MulMore(SentIn(last, t, wait, window), wait);
    }
  }

  lemma OneProbe(n: nat, w: nat)
    requires w > 0 && n * w <= w
    ensures n <= 1
  {
    if n > 1 {
      MulMore(n - 1, w);
      MulMore(n - 2, w);
      NonNegative(n - 2, w);
    }
  }

  lemma {:induction false} RunReach(last: int, ticks: seq<Tick>, wait: nat, window: nat)
    requires wait <= window && Clock(ticks, last)
    ensures last + Sent(last, ticks, wait, window) * wait <= LastOf(last, ticks, wait, window)
    ensures ticks != [] ==> LastOf(last, ticks, wait, window) <= ticks[|ticks| - 1].now
    decreases |ticks|
  {
    hide SentIn, LastAfter, Base;
    if ticks != [] {
      var t, next := ticks[0], LastAfter(last, ticks[0], wait, window);
      RoundKeeps(last, t, wait, window);
      RunReach(next, ticks[1..], wait, window);
      Distribute(SentIn(last, t, wait, window), Sent(next, ticks[1..], wait, window), wait);
    }
  }

  lemma Distribute(m: nat, n: nat, w: nat)
    ensures (m + n) * w == m * w + n * w
  {
  }

  /** However the rounds fall and whatever was sent before, the probes sent in any
      stretch of time take no more than its length and the window. */
  lemma RateBound(last: int, ticks: seq<Tick>, wait: nat, window: nat)
    requires wait <= window && ticks != [] && Clock(ticks, last)
    ensures Sent(last, ticks, wait, window) * wait <= ticks[|ticks| - 1].now - ticks[0].now + window
  {
    hide SentIn, LastAfter;
    var t, base := ticks[0], Base(last, ticks[0].now, wait, window);
    RoundKeeps(last, t, wait, window);
    // the first round may as well have started from its base
    SameBase(last, ticks, wait, window);
    RunReach(base, ticks, wait, window);
  }

  lemma SameBase(last: int, ticks: seq<Tick>, wait: nat, window: nat)
    requires ticks != [] && wait <= window
    ensures var base := Base(last, ticks[0].now, wait, window);
            Sent(base, ticks, wait, window) == Sent(last, ticks, wait, window)
  {
    hide Probes;
  }

  // ---------- And no fewer ----------

  // There is always work, and no gap longer than the window.
  ghost predicate Busy(last: int, ticks: seq<Tick>, wait: nat, window: nat)
    decreases |ticks|
  {
    ticks != [] ==>
      ticks[0].now <= last + window && SentIn(last, ticks[0], wait, window) < ticks[0].work &&
      Busy(LastAfter(last, ticks[0], wait, window), ticks[1..], wait, window)
  }

  /** While there is always work and the loop comes round within the window, the
      probes fill the time, up to one wait. */
  lemma {:induction false} RateReached(last: int, ticks: seq<Tick>, wait: nat, window: nat)
    requires wait <= window && ticks != [] && Clock(ticks, last) && Busy(last, ticks, wait, window)
    ensures var sent := Sent(last, ticks, wait, window) * wait;
            last + sent <= ticks[|ticks| - 1].now < last + sent + wait
    decreases |ticks|
  {
    hide SentIn, LastAfter, Probes;
    var t, next := ticks[0], LastAfter(last, ticks[0], wait, window);
    RoundKeeps(last, t, wait, window);
    NoReset(last, t, wait, window);
    if |ticks| == 1 {
      assert ticks[1..] == [];
    } else {
      RateReached(next, ticks[1..], wait, window);
      Distribute(SentIn(last, t, wait, window), Sent(next, ticks[1..], wait, window), wait);
    }
  }

  lemma NoReset(last: int, t: Tick, wait: nat, window: nat)
    requires last <= t.now <= last + window
    ensures LastAfter(last, t, wait, window) == last + SentIn(last, t, wait, window) * wait
  {
    hide Probes;
  }
}
