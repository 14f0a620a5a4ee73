/** Rates that are measured once a tick and reported once an interval: minimum, average and maximum. */
module Rates {
  import opened Options

  /** The largest double, which stands for "no minimum yet". */
  const DBL_MAX: real := 179769313486231570814527423731704356798070567525844996598917476803157260780028538760589558632766878171540458953514382464234321326889464182768467546703537516986049910576551282076245490090389328944075868508455133942304583236903222948165808559332123348274797826204144723168738177180919299881250404026184124858368.0
  const EPSILON: real := 0.0000001

  /** A number that metrics add to, reset and bound. */
  class Value {
    var val: real

    constructor ()
      ensures val == 0.0
    {
      val := 0.0;
    }

    predicate IsClose(v: real)
      reads this
    {
      (if val >= v then val - v else v - val) < EPSILON
    }

    /** What is shown: zero instead of the sentinel. */
    function Get(): real
      reads this
    {
      if IsClose(DBL_MAX) then 0.0 else val
    }

    method Set(v: real)
      modifies this
      ensures val == v
    {
      val := v;
    }

    method Add(v: real)
      modifies this
      ensures val == old(val) + v
    {
      val := val + v;
    }

    method Minimize(v: real)
      modifies this
      ensures val == if v < old(val) then v else old(val)
    {
      if v < val { val := v; }
    }

    method Maximize(v: real)
      modifies this
      ensures val == if v > old(val) then v else old(val)
    {
      if v > val { val := v; }
    }
  }

  // --- What a series of ticks amounts to -----------------------------------------

  /** One tick: how many of `total` events counted as hits. */
  datatype Tick = Tick(hits: nat, total: nat)

  /** The rate of a tick; an idle tick has rate zero. */
  function Rate(t: Tick): real {
    if t.total == 0 then 0.0 else t.hits as real / t.total as real
  }

  function Hits(ticks: seq<Tick>): nat {
    if ticks == [] then 0 else Hits(ticks[..|ticks| - 1]) + ticks[|ticks| - 1].hits
  }

  function Totals(ticks: seq<Tick>): nat {
    if ticks == [] then 0 else Totals(ticks[..|ticks| - 1]) + ticks[|ticks| - 1].total
  }

  ghost predicate AtLeast(ticks: seq<Tick>, m: real) {
    forall i :: 0 <= i < |ticks| ==> m <= Rate(ticks[i])
  }

  ghost predicate AtMost(ticks: seq<Tick>, m: real) {
    forall i :: 0 <= i < |ticks| ==> Rate(ticks[i]) <= m
  }

  /** A tick without events has no hits. */
  ghost predicate Proper(ticks: seq<Tick>) {
    forall i :: 0 <= i < |ticks| && ticks[i].total == 0 ==> ticks[i].hits == 0
  }

  /** What is reported of an interval. */
  datatype Report = Report(avg: real, min: real, max: real)

  /** The mean over all events; zero when there were none. */
  function Mean(ticks: seq<Tick>): real {
    if Totals(ticks) == 0 then 0.0 else Hits(ticks) as real / Totals(ticks) as real
  }

  /** `r` reports the least and the greatest rate of the ticks, and their mean. */
  ghost predicate Describes(r: Report, ticks: seq<Tick>) {
    && r.avg == Mean(ticks)
    && AtLeast(ticks, r.min) && (exists i :: 0 <= i < |ticks| && Rate(ticks[i]) == r.min)
    && AtMost(ticks, r.max) && (exists i :: 0 <= i < |ticks| && Rate(ticks[i]) == r.max)
  }

  function Times(a: real, b: real): real {
    a * b
  }

  lemma TimesAdd(m: real, a: real, b: real)
    ensures Times(m, a + b) == Times(m, a) + Times(m, b) && Times(m, 0.0) == 0.0
  {
  }

  lemma Scaled(a: real, b: real, t: real)
    requires a <= b && t >= 0.0
    ensures a * t <= b * t
  {
  }

  lemma Divided(m: real, h: real, t: real)
    requires t > 0.0
    ensures Times(m, t) <= h <==> m <= h / t
    ensures h <= Times(m, t) <==> h / t <= m
  {
    assert h / t * t == h;
    if m <= h / t { Scaled(m, h / t, t); }
    if h / t <= m { Scaled(h / t, m, t); }
  }

  /** The rate of a tick times its events is its hits. */
  lemma RateIs(t: Tick)
    requires t.total == 0 ==> t.hits == 0
    ensures Times(Rate(t), t.total as real) == t.hits as real && (t.total == 0 ==> Rate(t) == 0.0)
  {
    if t.total > 0 { Divided(Rate(t), t.hits as real, t.total as real); }
  }

  /** The mean times all events is all hits. */
  lemma MeanIs(ticks: seq<Tick>)
    requires Hits(ticks) <= Totals(ticks)
    ensures Times(Mean(ticks), Totals(ticks) as real) == Hits(ticks) as real
    ensures Totals(ticks) == 0 ==> Mean(ticks) == 0.0
  {
    RateIs(Tick(Hits(ticks), Totals(ticks)));
  }

  /** A bound on a tick's rate is a bound on its hits. */
  lemma OneTick(t: Tick, m: real)
    requires t.total == 0 ==> t.hits == 0
    ensures m <= Rate(t) ==> Times(m, t.total as real) <= t.hits as real
    ensures Rate(t) <= m ==> t.hits as real <= Times(m, t.total as real)
  {
    TimesAdd(m, 0.0, 0.0);
    if t.total > 0 { Divided(m, t.hits as real, t.total as real); }
  }

  /** A lower bound on every tick's rate bounds all hits by all events. */
  lemma {:induction false} BoundedBelow(ticks: seq<Tick>, m: real)
    requires Proper(ticks) && AtLeast(ticks, m)
    ensures Times(m, Totals(ticks) as real) <= Hits(ticks) as real
  {
    hide Times, Rate, AtLeast, Proper;
    TimesAdd(m, 0.0, 0.0);
    if ticks != [] {
      var n := |ticks| - 1;
      Front(ticks, m);
      BoundedBelow(ticks[..n], m);
      OneTick(ticks[n], m);
      TimesAdd(m, Totals(ticks[..n]) as real, ticks[n].total as real);
    }
  }

  lemma {:induction false} BoundedAbove(ticks: seq<Tick>, m: real)
    requires Proper(ticks) && AtMost(ticks, m)
    ensures Hits(ticks) as real <= Times(m, Totals(ticks) as real)
  {
    hide Times, Rate, AtMost, Proper;
    TimesAdd(m, 0.0, 0.0);
    if ticks != [] {
      var n := |ticks| - 1;
      Front(ticks, m);
      BoundedAbove(ticks[..n], m);
      OneTick(ticks[n], m);
      TimesAdd(m, Totals(ticks[..n]) as real, ticks[n].total as real);
    }
  }

  lemma Front(ticks: seq<Tick>, m: real)
    requires ticks != []
    ensures Proper(ticks) ==> Proper(ticks[..|ticks| - 1])
    ensures AtLeast(ticks, m) ==> AtLeast(ticks[..|ticks| - 1], m) && m <= Rate(ticks[|ticks| - 1])
    ensures AtMost(ticks, m) ==> AtMost(ticks[..|ticks| - 1], m) && Rate(ticks[|ticks| - 1]) <= m
    ensures Proper(ticks) ==> (ticks[|ticks| - 1].total == 0 ==> ticks[|ticks| - 1].hits == 0)
  {
    hide Rate;
  }

  /** The mean over an interval lies between the least and the greatest rate of its ticks, idle ones counted as zero. */
  lemma MeanBetween(r: Report, ticks: seq<Tick>)
    requires Proper(ticks) && ticks != [] && Describes(r, ticks)
    ensures r.min <= r.avg <= r.max
  {
    hide Times, Rate;
    BoundedBelow(ticks, r.min);
    BoundedAbove(ticks, r.max);
    if Totals(ticks) > 0 {
      Divided(r.min, Hits(ticks) as real, Totals(ticks) as real);
      Divided(r.max, Hits(ticks) as real, Totals(ticks) as real);
    } else {
      AllIdle(ticks);
    }
  }

  lemma {:induction false} AllIdle(ticks: seq<Tick>)
    requires Totals(ticks) == 0
    ensures forall i :: 0 <= i < |ticks| ==> Rate(ticks[i]) == 0.0
  {
    if ticks != [] {
      AllIdle(ticks[..|ticks| - 1]);
      assert forall i :: 0 <= i < |ticks| - 1 ==> ticks[..|ticks| - 1][i] == ticks[i];
    }
  }

  // --- The two metrics --------------------------------------------------------------

  /** Counters hold what an int can. */
  const LIMIT := 0x7fff_ffff

  /** `v` is the least rate of the ticks, or the sentinel before the first one. */
  ghost predicate IsLeast(v: real, ticks: seq<Tick>) {
    if ticks == [] then v == DBL_MAX
    else AtLeast(ticks, v) && exists i :: 0 <= i < |ticks| && Rate(ticks[i]) == v
  }

  ghost predicate IsGreatest(v: real, ticks: seq<Tick>) {
    if ticks == [] then v == 0.0
    else AtMost(ticks, v) && exists i :: 0 <= i < |ticks| && Rate(ticks[i]) == v
  }

  /** Every rate is in the range of an int. */
  ghost predicate InRange(ticks: seq<Tick>) {
    forall i :: 0 <= i < |ticks| ==> 0.0 <= Rate(ticks[i]) <= LIMIT as real
  }

  lemma LeastOfMore(v: real, ticks: seq<Tick>, t: Tick)
    requires IsLeast(v, ticks) && 0.0 <= Rate(t) <= LIMIT as real
    ensures IsLeast(if Rate(t) < v then Rate(t) else v, ticks + [t])
  {
    hide Rate;
    var more := ticks + [t];
    assert forall i :: 0 <= i < |ticks| ==> more[i] == ticks[i];
    assert more[|ticks|] == t;
    if ticks != [] {
      var i :| 0 <= i < |ticks| && Rate(ticks[i]) == v;
      assert Rate(more[i]) == v;
    }
  }

  lemma GreatestOfMore(v: real, ticks: seq<Tick>, t: Tick)
    requires IsGreatest(v, ticks) && 0.0 <= Rate(t)
    ensures IsGreatest(if Rate(t) > v then Rate(t) else v, ticks + [t])
  {
    hide Rate;
    var more := ticks + [t];
    assert forall i :: 0 <= i < |ticks| ==> more[i] == ticks[i];
    assert more[|ticks|] == t;
    if ticks != [] {
      var i :| 0 <= i < |ticks| && Rate(ticks[i]) == v;
      assert Rate(more[i]) == v;
    }
  }

  lemma SumsOfMore(ticks: seq<Tick>, t: Tick)
    ensures Hits(ticks + [t]) == Hits(ticks) + t.hits && Totals(ticks + [t]) == Totals(ticks) + t.total
    ensures Proper(ticks) && (t.total == 0 ==> t.hits == 0) ==> Proper(ticks + [t])
    ensures InRange(ticks) && 0.0 <= Rate(t) <= LIMIT as real ==> InRange(ticks + [t])
  {
    hide Rate;
    assert (ticks + [t])[..|ticks|] == ticks;
  }

  /** The share of responses that report an error. */
  class ErrRate {
    const subtotal: Value
    const total: Value
    const subsum: Value
    const sum: Value
    const avg: Value
    const min: Value
    const max: Value
    /** The ticks of the running interval, and what came in since the last one. */
    ghost var ticks: seq<Tick>
    ghost var pending: Tick

    ghost function Parts(): set<Value> {
      {subtotal, total, subsum, sum, avg, min, max}
    }

    ghost predicate Valid()
      reads this, Parts()
    {
      && |Parts()| == 7
      && Proper(ticks) && InRange(ticks) && pending.hits <= pending.total
      && Totals(ticks) + pending.total <= LIMIT && Hits(ticks) <= Totals(ticks)
      && subtotal.val == pending.total as real && subsum.val == pending.hits as real
      && total.val == (Totals(ticks) + pending.total) as real
      && sum.val == (Hits(ticks) + pending.hits) as real
      && IsLeast(min.val, ticks) && IsGreatest(max.val, ticks)
    }

    constructor ()
      ensures Valid() && fresh(Parts()) && ticks == [] && pending == Tick(0, 0)
    {
      subtotal := new Value();
      total := new Value();
      subsum := new Value();
      sum := new Value();
      avg := new Value();
      min := new Value();
      max := new Value();
      new;
      Reset();
    }

    method Reset()
      requires |Parts()| == 7
      modifies this, Parts()
      ensures Valid() && ticks == [] && pending == Tick(0, 0)
    {
      total.Set(0.0);
      subtotal.Set(0.0);
      sum.Set(0.0);
      subsum.Set(0.0);
      avg.Set(0.0);
      min.Set(DBL_MAX);
      max.Set(0.0);
      ticks, pending := [], Tick(0, 0);
    }

    method OnResponseReceived(error: bool)
      requires Valid() && Totals(ticks) + pending.total < LIMIT
      modifies this, Parts()
      ensures Valid() && ticks == old(ticks)
      ensures pending == Tick(old(pending).hits + (if error then 1 else 0), old(pending).total + 1)
    {
      hide IsLeast, IsGreatest;
      subtotal.Add(1.0);
      total.Add(1.0);
      if error {
        subsum.Add(1.0);
        sum.Add(1.0);
      }
      pending := Tick(pending.hits + (if error then 1 else 0), pending.total + 1);
    }

    function GetRate(): (r: real)
      reads this, subtotal, subsum
    {
      if subtotal.Get() <= 0.0 then 0.0 else subsum.Get() / subtotal.Get()
    }

    /** A tick ends: its rate bounds the minimum and the maximum. */
    method OnTimerExpired()
      requires Valid()
      modifies this, Parts()
      ensures Valid() && ticks == old(ticks) + [old(pending)] && pending == Tick(0, 0)
    {
      hide IsLeast, IsGreatest, Proper, InRange, Hits, Totals;
      ShareInRange(pending);
      assert GetRate() == Rate(pending);
      hide Rate;
      var rate := GetRate();
      LeastOfMore(min.val, ticks, pending);
      GreatestOfMore(max.val, ticks, pending);
      SumsOfMore(ticks, pending);
      min.Minimize(rate);
      max.Maximize(rate);
      subsum.Set(0.0);
      subtotal.Set(0.0);
      ticks, pending := ticks + [pending], Tick(0, 0);
    }

    function GetAvg(): real
      reads this, total, sum
      requires total.Get() != 0.0 || total.IsClose(0.0)
    {
      if total.IsClose(0.0) then 0.0 else sum.Get() / total.Get()
    }

    /** An interval ends: it is reported, and a new one begins. */
    method OnIntervalExpired() returns (r: Report)
      requires Valid()
      modifies this, Parts()
      ensures Valid() && ticks == [] && pending == Tick(0, 0)
      ensures old(pending) == Tick(0, 0) && old(ticks) != [] ==>
                && Describes(r, old(ticks)) && r.min <= r.avg <= r.max
                && Times(r.avg, Totals(old(ticks)) as real) == Hits(old(ticks)) as real
    {
      hide Rate, Hits, Totals;
      assert total.Get() == total.val;
      if total.val != 0.0 { assert total.val >= 1.0; }
      avg.Set(GetAvg());
      r := Report(avg.Get(), min.Get(), max.Get());
      if pending == Tick(0, 0) && ticks != [] {
        MeanIsShare(ticks);
        BoundsInRange(min.val, max.val, ticks);
        assert avg.val == Mean(ticks);
        MeanIs(ticks);
        MeanBetween(r, ticks);
      }
      Reset();
    }
  }

  lemma MeanIsShare(ticks: seq<Tick>)
    requires Hits(ticks) <= Totals(ticks)
    ensures 0.0 <= Mean(ticks) <= 1.0
  {
    ShareInRange(Tick(Hits(ticks), Totals(ticks)));
  }

  lemma BoundsInRange(min: real, max: real, ticks: seq<Tick>)
    requires ticks != [] && InRange(ticks) && IsLeast(min, ticks) && IsGreatest(max, ticks)
    ensures 0.0 <= min <= LIMIT as real && 0.0 <= max <= LIMIT as real
  {
    hide Rate;
  }

  lemma ShareInRange(t: Tick)
    requires t.hits <= t.total
    ensures 0.0 <= Rate(t) <= 1.0
  {
    if t.total > 0 {
      Divided(0.0, t.hits as real, t.total as real);
      Divided(1.0, t.hits as real, t.total as real);
    }
  }

  /** A tick that counts requests. */
  ghost predicate Counts(ticks: seq<Tick>) {
    forall i :: 0 <= i < |ticks| ==> ticks[i].total == 1 && ticks[i].hits <= LIMIT
  }

  lemma {:induction false} CountsTotal(ticks: seq<Tick>)
    requires Counts(ticks)
    ensures Totals(ticks) == |ticks| && Proper(ticks) && InRange(ticks)
  {
    if ticks != [] {
      var n := |ticks| - 1;
      CountsTotal(ticks[..n]);
      forall i | 0 <= i < |ticks| ensures 0.0 <= Rate(ticks[i]) <= LIMIT as real {
        assert ticks[i].total == 1;
      }
    }
  }

  /** How many requests there are per tick. */
  class ReqRate {
    const subtotal: Value
    const sum: Value
    const avg: Value
    const min: Value
    const max: Value
    /** The ticks of the running interval, and the requests since the last one. */
    ghost var ticks: seq<Tick>
    ghost var pending: nat
    /** All requests ever counted, those in reported intervals, and those cut off between a last tick and its report. */
    ghost var counted: nat
    ghost var reported: nat
    ghost var lost: nat

    ghost function Parts(): set<Value> {
      {subtotal, sum, avg, min, max}
    }

    ghost predicate Valid()
      reads this, Parts()
    {
      && |Parts()| == 5
      && Counts(ticks) && Hits(ticks) + pending <= LIMIT
      && subtotal.val == pending as real
      && sum.val == Hits(ticks) as real
      && IsLeast(min.val, ticks) && IsGreatest(max.val, ticks)
      && counted == reported + lost + Hits(ticks) + pending
    }

    constructor ()
      ensures Valid() && fresh(Parts()) && ticks == [] && pending == counted == reported == lost == 0
    {
      subtotal := new Value();
      sum := new Value();
      avg := new Value();
      min := new Value();
      max := new Value();
      counted, reported, lost := 0, 0, 0;
      new;
      Reset();
    }

    method Reset()
      requires |Parts()| == 5 && counted == reported + lost
      modifies this`ticks, this`pending, Parts()
      ensures Valid() && ticks == [] && pending == 0
    {
      subtotal.Set(0.0);
      sum.Set(0.0);
      avg.Set(0.0);
      min.Set(DBL_MAX);
      max.Set(0.0);
      ticks, pending := [], 0;
    }

    method OnRequestReceived()
      requires Valid() && Hits(ticks) + pending < LIMIT
      modifies this`pending, this`counted, Parts()
      ensures Valid() && pending == old(pending) + 1 && counted == old(counted) + 1
    {
      hide IsLeast, IsGreatest, Counts;
      subtotal.Add(1.0);
      pending, counted := pending + 1, counted + 1;
    }

    /** A tick ends: its count bounds the minimum and the maximum, and is added to the sum. */
    method OnTimerExpired()
      requires Valid()
      modifies this`ticks, this`pending, Parts()
      ensures Valid() && ticks == old(ticks) + [Tick(old(pending), 1)] && pending == 0
    {
      hide IsLeast, IsGreatest, Hits;
      ghost var t := Tick(pending, 1);
      assert Rate(t) == pending as real;
      CountsMore(ticks, pending);
      hide Rate, Counts;
      var reqSubtotal := subtotal.Get().Floor;
      assert reqSubtotal == pending;
      LeastOfMore(min.val, ticks, t);
      GreatestOfMore(max.val, ticks, t);
      SumsOfMore(ticks, t);
      min.Minimize(reqSubtotal as real);
      max.Maximize(reqSubtotal as real);
      sum.Add(reqSubtotal as real);
      subtotal.Set(0.0);
      ticks, pending := ticks + [t], 0;
    }

    function GetAvg(interval: int): real
      reads this, sum
    {
      if interval <= 0 then 0.0 else sum.Get() / interval as real
    }

    /** Fixes the average and shows what is reported. */
    method Show(interval: int) returns (r: Report)
      requires Valid()
      modifies avg
      ensures Valid()
      ensures interval <= 0 ==> r.avg == 0.0
      ensures interval >= 1 ==> Times(r.avg, interval as real) == Hits(ticks) as real
      ensures interval >= 1 && |ticks| == interval ==> Describes(r, ticks) && r.min <= r.avg <= r.max
    {
      hide Rate, Hits, Times;
      avg.Set(GetAvg(interval));
      r := Report(avg.Get(), min.Get(), max.Get());
      if interval >= 1 {
        SmallShare(Hits(ticks), interval);
        CountsTotal(ticks);
        if |ticks| == interval {
          BoundsInRange(min.val, max.val, ticks);
          assert Describes(r, ticks);
          MeanBetween(r, ticks);
        }
      }
    }

    /** An interval ends: it is reported, and a new one begins. */
    method OnIntervalExpired(interval: int) returns (r: Report)
      requires Valid()
      modifies this, Parts()
      ensures Valid() && ticks == [] && pending == 0 && counted == old(counted)
      ensures reported == old(reported) + Hits(old(ticks)) && lost == old(lost) + old(pending)
      ensures counted == reported + lost
      ensures interval <= 0 ==> r.avg == 0.0
      ensures interval >= 1 ==> Times(r.avg, interval as real) == Hits(old(ticks)) as real
      ensures interval >= 1 && |old(ticks)| == interval ==> Describes(r, old(ticks)) && r.min <= r.avg <= r.max
    {
      hide Rate, Hits, Counts, Times, IsLeast, IsGreatest, Describes;
      r := Show(interval);
      reported, lost := reported + Hits(ticks), lost + pending;
      Reset();
    }
  }

  lemma CountsMore(ticks: seq<Tick>, n: nat)
    requires Counts(ticks) && n <= LIMIT
    ensures Counts(ticks + [Tick(n, 1)])
  {
  }

  lemma SmallShare(h: nat, n: int)
    requires h <= LIMIT && n >= 1
    ensures h as real / n as real <= LIMIT as real
    ensures Times(h as real / n as real, n as real) == h as real
  {
    Divided(h as real, h as real, n as real);
    Scaled(1.0, n as real, h as real);
  }

  // --- The clock -----------------------------------------------------------------------

  /** Counts ticks up to the interval length, and lets both metrics see every tick and every interval. */
  class Analysis {
    var intStep: int
    const interval: int
    const reqRate: ReqRate
    const errRate: ErrRate
    /** The reported averages, each times the interval, added up. */
    ghost var sent: real

    constructor (interval: int)
      ensures Valid() && this.interval == interval && intStep == 0
      ensures fresh(reqRate) && fresh(errRate) && fresh(reqRate.Parts()) && fresh(errRate.Parts())
      ensures reqRate.counted == 0
    {
      this.interval := interval;
      intStep, sent := 0, 0.0;
      reqRate := new ReqRate();
      errRate := new ErrRate();
    }

    ghost function Repr(): set<object> {
      {reqRate, errRate} + reqRate.Parts() + errRate.Parts()
    }

    /** Both metrics have seen the ticks of the running interval, which is not over yet. */
    ghost predicate Valid()
      reads this, Repr()
    {
      && reqRate.Parts() !! errRate.Parts()
      && reqRate.Valid() && errRate.Valid()
      && |reqRate.ticks| == |errRate.ticks| == intStep
      && 0 <= intStep && (intStep == 0 || intStep < interval)
      && reqRate.lost == 0
      && (interval >= 1 ==> sent == reqRate.reported as real)
    }

    /** A request is reported between two ticks. */
    method OnRequest()
      requires Valid() && Hits(reqRate.ticks) + reqRate.pending < LIMIT
      modifies reqRate, reqRate.Parts()
      ensures Valid() && reqRate.counted == old(reqRate.counted) + 1
    {
      reqRate.OnRequestReceived();
    }

    /** A response is reported between two ticks. */
    method OnResponse(error: bool)
      requires Valid() && Totals(errRate.ticks) + errRate.pending.total < LIMIT
      modifies errRate, errRate.Parts()
      ensures Valid()
    {
      errRate.OnResponseReceived(error);
    }

    lemma NothingHeldBack()
      requires Valid()
      ensures reqRate.counted == reqRate.reported + Hits(reqRate.ticks) + reqRate.pending
    {
    }

    /** One second passes; when that completes an interval, both metrics report on exactly its ticks. */
    method ProcessData() returns (reports: Option<(Report, Report)>)
      requires Valid()
      modifies this, Repr()
      ensures Valid() && reqRate.counted == old(reqRate.counted)
      ensures reports.Some? <==> old(intStep) + 1 >= interval
      ensures intStep == if reports.Some? then 0 else old(intStep) + 1
      ensures reports.Some? ==>
                var (q, e) := reports.value;
                var requests := old(reqRate.ticks) + [Tick(old(reqRate.pending), 1)];
                var responses := old(errRate.ticks) + [old(errRate.pending)];
                && Describes(e, responses) && e.min <= e.avg <= e.max
                && Times(e.avg, Totals(responses) as real) == Hits(responses) as real
                && (interval >= 1 ==>
                      && |requests| == |responses| == interval
                      && Describes(q, requests) && q.min <= q.avg <= q.max
                      && sent == old(sent) + Times(q.avg, interval as real) == reqRate.counted as real)
    {
      hide Describes, Hits, Totals, Rate, Times, ReqRate.Valid, ErrRate.Valid;
      NothingHeldBack();
      intStep := intStep + 1;
      reqRate.OnTimerExpired();
      errRate.OnTimerExpired();
      if intStep < interval {
        return None;
      }
      var q := reqRate.OnIntervalExpired(interval);
      var e := errRate.OnIntervalExpired();
      intStep := 0;
      if interval >= 1 { sent := sent + Times(q.avg, interval as real); }
      return Some((q, e));
    }
  }
}
