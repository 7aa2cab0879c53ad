/** Alert rules: the cooldown and hysteresis gates over every run of a rule's task. */
module Alerts {
  import opened Text

  datatype Op = Ge | Gt | Le | Lt | Eq

  datatype Rule = Rule(op: Op, threshold: nat, cooldown: nat)

  predicate Compare(op: Op, value: nat, threshold: nat) {
    match op
    case Ge => value >= threshold
    case Gt => value > threshold
    case Le => value <= threshold
    case Lt => value < threshold
    case Eq => value == threshold
  }

  /** The operators as orders: strict ones are the opposites of the others, equality is both of those, and
      growth never turns an upper condition false nor a lower one true. */
  lemma {:induction false} CompareMeaning(value: nat, more: nat, threshold: nat)
    requires value <= more
    ensures Compare(Gt, value, threshold) <==> !Compare(Le, value, threshold)
    ensures Compare(Ge, value, threshold) <==> !Compare(Lt, value, threshold)
    ensures Compare(Eq, value, threshold) <==> Compare(Ge, value, threshold) && Compare(Le, value, threshold)
    ensures Compare(Ge, threshold, threshold) && Compare(Le, threshold, threshold) && Compare(Eq, threshold, threshold)
    ensures !Compare(Gt, threshold, threshold) && !Compare(Lt, threshold, threshold)
    ensures Compare(Ge, value, threshold) ==> Compare(Ge, more, threshold)
    ensures Compare(Gt, value, threshold) ==> Compare(Gt, more, threshold)
    ensures value < more ==> Compare(Gt, more, value) && Compare(Lt, value, more)
  {
  }

  function SaturatingSub(a: nat, b: nat): nat {
    if a >= b then a - b else 0
  }

  /** What a rule remembers between ticks. */
  datatype Memory = Memory(lastFire: Option<nat>, lastConditionTrue: bool, brokeSinceFire: bool,
                           prevSample: Option<nat>)

  predicate Fires(rule: Rule, m: Memory, delta: nat, now: nat) {
    && Compare(rule.op, delta, rule.threshold)
    && (m.lastFire.Some? ==> SaturatingSub(now, m.lastFire.value) >= rule.cooldown && m.brokeSinceFire)
  }

  function After(rule: Rule, m: Memory, delta: nat, now: nat): Memory {
    var condition := Compare(rule.op, delta, rule.threshold);
    if Fires(rule, m, delta, now) then Memory(Some(now), condition, false, m.prevSample)
    else Memory(m.lastFire, condition, m.brokeSinceFire || !condition, m.prevSample)
  }

  class State {
    var lastFire: Option<nat>
    var lastConditionTrue: bool
    var brokeSinceFire: bool
    var prevSample: Option<nat>

    ghost function View(): Memory
      reads this
    {
      Memory(lastFire, lastConditionTrue, brokeSinceFire, prevSample)
    }

    constructor ()
      ensures View() == Memory(None, false, false, None)
    {
      lastFire, lastConditionTrue, brokeSinceFire, prevSample := None, false, false, None;
    }

    /** One observation: reports a fire and updates the gates in place. */
    method Evaluate(rule: Rule, delta: nat, now: nat) returns (fire: bool)
      modifies this
      ensures fire <==> Fires(rule, old(View()), delta, now)
      ensures View() == After(rule, old(View()), delta, now)
    {
      var condition := Compare(rule.op, delta, rule.threshold);
      fire := false;
      if condition {
        match lastFire
        case None => fire := true;
        case Some(last) => fire := SaturatingSub(now, last) >= rule.cooldown && brokeSinceFire;
      }
      lastConditionTrue := condition;
      if !condition {
        brokeSinceFire := true;
      }
      if fire {
        lastFire := Some(now);
        brokeSinceFire := false;
      }
    }
  }

  // ----- a rule's task -----

  /** One tick: the counter's value and the clock. */
  datatype Tick = Tick(value: nat, now: nat)

  /** The counter's value before tick `i`. */
  function Sample(baseline: nat, ticks: seq<Tick>, i: nat): nat
    requires i <= |ticks|
  {
    if i == 0 then baseline else ticks[i - 1].value
  }

  /** The growth of the counter seen at tick `i`. */
  function Delta(baseline: nat, ticks: seq<Tick>, i: nat): nat
    requires i < |ticks|
  {
    SaturatingSub(ticks[i].value, Sample(baseline, ticks, i))
  }

  predicate Holds(rule: Rule, baseline: nat, ticks: seq<Tick>, i: nat)
    requires i < |ticks|
  {
    Compare(rule.op, Delta(baseline, ticks, i), rule.threshold)
  }

  /** What fires may look like, said without any memory: a tick fires exactly when its condition holds
      and either nothing fired before, or the cooldown has passed since the last fire and the condition
      was false at some tick in between. */
  ghost predicate Correct(rule: Rule, baseline: nat, ticks: seq<Tick>, fires: seq<bool>) {
    && |fires| <= |ticks|
    && forall i :: 0 <= i < |fires| ==> (fires[i] <==> MayFire(rule, baseline, ticks, fires, i))
  }

  ghost predicate MayFire(rule: Rule, baseline: nat, ticks: seq<Tick>, fires: seq<bool>, i: nat)
    requires i < |ticks| && i <= |fires|
  {
    && Holds(rule, baseline, ticks, i)
    && (NoneFired(fires, i) || exists f :: LastFire(fires, f, i) && Released(rule, baseline, ticks, f, i))
  }

  ghost predicate NoneFired(fires: seq<bool>, i: nat)
    requires i <= |fires|
  {
    forall f :: 0 <= f < i ==> !fires[f]
  }

  ghost predicate LastFire(fires: seq<bool>, f: int, i: nat)
    requires i <= |fires|
  {
    0 <= f < i && fires[f] && forall g :: f < g < i ==> !fires[g]
  }

  ghost predicate Released(rule: Rule, baseline: nat, ticks: seq<Tick>, f: int, i: nat)
    requires 0 <= f < i < |ticks|
  {
    SaturatingSub(ticks[i].now, ticks[f].now) >= rule.cooldown && Broke(rule, baseline, ticks, f, i)
  }

  /** The condition was false at some tick strictly between. */
  ghost predicate Broke(rule: Rule, baseline: nat, ticks: seq<Tick>, f: int, i: nat)
    requires 0 <= f < i <= |ticks|
  {
    exists j: nat :: f < j < i && !Holds(rule, baseline, ticks, j)
  }

  /** The memory tells exactly what the gates need about the ticks so far. */
  ghost predicate Remembers(m: Memory, rule: Rule, baseline: nat, ticks: seq<Tick>, fires: seq<bool>) {
    && |fires| <= |ticks|
    && m.prevSample == Some(Sample(baseline, ticks, |fires|))
    && (m.lastFire.None? ==> NoneFired(fires, |fires|))
    && (m.lastFire.Some? ==> exists f :: RemembersFire(m, rule, baseline, ticks, fires, f))
  }

  ghost predicate RemembersFire(m: Memory, rule: Rule, baseline: nat, ticks: seq<Tick>, fires: seq<bool>, f: int)
    requires |fires| <= |ticks|
  {
    && LastFire(fires, f, |fires|)
    && m.lastFire == Some(ticks[f].now)
    && (m.brokeSinceFire <==> Broke(rule, baseline, ticks, f, |fires|))
  }

  lemma {:induction false} GateMeaning(m: Memory, rule: Rule, baseline: nat, ticks: seq<Tick>, fires: seq<bool>)
    requires Remembers(m, rule, baseline, ticks, fires) && |fires| < |ticks|
    ensures var i := |fires|;
            Fires(rule, m, Delta(baseline, ticks, i), ticks[i].now) <==> MayFire(rule, baseline, ticks, fires, i)
  {
    hide Compare, SaturatingSub, Delta, Broke;
    var i := |fires|;
    if m.lastFire.Some? {
      var f :| RemembersFire(m, rule, baseline, ticks, fires, f);
      forall g | LastFire(fires, g, i)
        ensures g == f
      {
      }
    }
  }

  lemma {:induction false} MemoryKept(m: Memory, rule: Rule, baseline: nat, ticks: seq<Tick>, fires: seq<bool>)
    requires Remembers(m, rule, baseline, ticks, fires) && |fires| < |ticks|
    ensures var i := |fires|;
            var delta := Delta(baseline, ticks, i);
            var next := After(rule, m, delta, ticks[i].now).(prevSample := Some(ticks[i].value));
            Remembers(next, rule, baseline, ticks, fires + [Fires(rule, m, delta, ticks[i].now)])
  {
    hide Compare, SaturatingSub, Delta;
    var i := |fires|;
    var delta := Delta(baseline, ticks, i);
    var fire := Fires(rule, m, delta, ticks[i].now);
    var next := After(rule, m, delta, ticks[i].now).(prevSample := Some(ticks[i].value));
    var now := fires + [fire];
    assert forall g :: 0 <= g < i ==> now[g] == fires[g];
    if fire {
      assert RemembersFire(next, rule, baseline, ticks, now, i);
    } else if m.lastFire.Some? {
      var f :| RemembersFire(m, rule, baseline, ticks, fires, f);
      BrokeExtends(rule, baseline, ticks, f, i);
      assert RemembersFire(next, rule, baseline, ticks, now, f);
    }
  }

  lemma {:induction false} BrokeExtends(rule: Rule, baseline: nat, ticks: seq<Tick>, f: int, i: nat)
    requires 0 <= f < i < |ticks|
    ensures Broke(rule, baseline, ticks, f, i + 1) <==>
            Broke(rule, baseline, ticks, f, i) || !Holds(rule, baseline, ticks, i)
  {
    hide Holds;
    if Broke(rule, baseline, ticks, f, i) {
      var j: nat :| f < j < i && !Holds(rule, baseline, ticks, j);
      assert f < j < i + 1;
    }
  }

  lemma {:induction false} CorrectExtends(rule: Rule, baseline: nat, ticks: seq<Tick>, fires: seq<bool>, fire: bool)
    requires Correct(rule, baseline, ticks, fires) && |fires| < |ticks|
    requires fire <==> MayFire(rule, baseline, ticks, fires, |fires|)
    ensures Correct(rule, baseline, ticks, fires + [fire])
  {
    hide Holds, Released;
    var now := fires + [fire];
    forall i | 0 <= i < |now|
      ensures now[i] <==> MayFire(rule, baseline, ticks, now, i)
    {
      SamePast(rule, baseline, ticks, fires, now, i);
    }
  }

  lemma {:induction false} SamePast(rule: Rule, baseline: nat, ticks: seq<Tick>, fires: seq<bool>, more: seq<bool>,
                                    i: nat)
    requires i < |ticks| && i <= |fires| && fires <= more
    ensures MayFire(rule, baseline, ticks, fires, i) <==> MayFire(rule, baseline, ticks, more, i)
  {
    hide Holds, Released;
    assert forall g :: 0 <= g < i ==> fires[g] == more[g];
    assert forall f :: LastFire(fires, f, i) <==> LastFire(more, f, i);
  }

  /** A change of the counter that meets a rule; a counter that fell counts as unchanged. */
  predicate Meets(rule: Rule, change: int) {
    match rule.op
    case Ge => change >= rule.threshold || rule.threshold == 0
    case Gt => change > rule.threshold
    case Le => change <= rule.threshold
    case Lt => change < rule.threshold && 0 < rule.threshold
    case Eq => change == rule.threshold || (rule.threshold == 0 && change < 0)
  }

  /** Until the first fire a tick fires exactly when the counter's change since the tick before meets the rule. */
  lemma {:induction false} FirstFire(rule: Rule, baseline: nat, ticks: seq<Tick>, fires: seq<bool>, i: nat)
    requires Correct(rule, baseline, ticks, fires) && i < |fires| && NoneFired(fires, i)
    ensures fires[i] <==> Meets(rule, ticks[i].value - if i == 0 then baseline else ticks[i - 1].value)
  {
  }

  /** The rule's task over the ticks that arrive before it is stopped: the first sample is only the
      baseline; every later tick is compared with the one before. */
  method RunRule(rule: Rule, baseline: nat, ticks: seq<Tick>) returns (fires: seq<bool>)
    ensures |fires| == |ticks|
    ensures Correct(rule, baseline, ticks, fires)
    ensures forall i: nat :: i < |fires| && NoneFired(fires, i) ==>
              (fires[i] <==> Meets(rule, ticks[i].value - if i == 0 then baseline else ticks[i - 1].value))
  {
    var state := new State();
    state.prevSample := Some(baseline);
    fires := [];
    while |fires| < |ticks|
      invariant Remembers(state.View(), rule, baseline, ticks, fires)
      invariant Correct(rule, baseline, ticks, fires)
    {
      hide MayFire, Correct, Compare, SaturatingSub, After, Fires, LastFire, NoneFired, RemembersFire;
      var i := |fires|;
      var tick := ticks[i];
      ghost var before := state.View();
      var delta := if state.prevSample.Some? then SaturatingSub(tick.value, state.prevSample.value) else 0;
      state.prevSample := Some(tick.value);
      var fire := state.Evaluate(rule, delta, tick.now);
      SampleIrrelevant(rule, before, tick.value, delta, tick.now);
      GateMeaning(before, rule, baseline, ticks, fires);
      MemoryKept(before, rule, baseline, ticks, fires);
      CorrectExtends(rule, baseline, ticks, fires, fire);
      fires := fires + [fire];
    }
    forall i: nat | i < |fires| && NoneFired(fires, i)
      ensures fires[i] <==> Meets(rule, ticks[i].value - if i == 0 then baseline else ticks[i - 1].value)
    {
      FirstFire(rule, baseline, ticks, fires, i);
    }
  }

  lemma {:induction false} SampleIrrelevant(rule: Rule, m: Memory, sample: nat, delta: nat, now: nat)
    ensures Fires(rule, m.(prevSample := Some(sample)), delta, now) == Fires(rule, m, delta, now)
    ensures After(rule, m.(prevSample := Some(sample)), delta, now) ==
            After(rule, m, delta, now).(prevSample := Some(sample))
  {
  }

  // ----- what follows for every run -----

  lemma {:induction false} FindLastFire(fires: seq<bool>, f: nat, i: nat) returns (last: nat)
    requires f < i <= |fires| && fires[f]
    ensures f <= last && LastFire(fires, last, i)
    decreases i
  {
    if fires[i - 1] {
      last := i - 1;
    } else {
      last := FindLastFire(fires, f, i - 1);
    }
  }

  /** Two fires of a run: the condition was false at a tick between them, and on a clock that never
      goes back they are at least the cooldown apart. */
  lemma {:induction false} FiresApart(rule: Rule, baseline: nat, ticks: seq<Tick>, fires: seq<bool>, f: nat, g: nat)
    requires Correct(rule, baseline, ticks, fires) && f < g < |fires| && fires[f] && fires[g]
    ensures exists j: nat :: f < j < g && !Holds(rule, baseline, ticks, j)
    ensures (forall i, j :: 0 <= i <= j < |ticks| ==> ticks[i].now <= ticks[j].now) ==>
              ticks[g].now - ticks[f].now >= rule.cooldown
  {
    hide Holds;
    assert MayFire(rule, baseline, ticks, fires, g);
    var last := FindLastFire(fires, f, g);
    var found :| LastFire(fires, found, g) && Released(rule, baseline, ticks, found, g);
    assert found == last;
    var j: nat :| last < j < g && !Holds(rule, baseline, ticks, j);
    assert f < j < g;
  }

  /** While the condition holds without a break a rule fires at most once. */
  lemma {:induction false} SustainedFiresOnce(rule: Rule, baseline: nat, ticks: seq<Tick>, fires: seq<bool>,
                                              from: nat, to: nat, f: nat, g: nat)
    requires Correct(rule, baseline, ticks, fires) && from <= to <= |fires|
    requires forall i: nat :: from <= i < to ==> Holds(rule, baseline, ticks, i)
    requires from <= f < to && from <= g < to && fires[f] && fires[g]
    ensures f == g
  {
    hide Holds, Correct;
    if f < g {
      FiresApart(rule, baseline, ticks, fires, f, g);
    } else if g < f {
      FiresApart(rule, baseline, ticks, fires, g, f);
    }
  }

  /** The verdicts are the only ones the rule's description allows. */
  lemma {:induction false} VerdictsUnique(rule: Rule, baseline: nat, ticks: seq<Tick>, a: seq<bool>, b: seq<bool>)
    requires Correct(rule, baseline, ticks, a) && Correct(rule, baseline, ticks, b) && |a| == |b|
    ensures a == b
    decreases |a|
  {
    hide MayFire;
    if a != [] {
      var n := |a| - 1;
      Shorter(rule, baseline, ticks, a, n);
      Shorter(rule, baseline, ticks, b, n);
      VerdictsUnique(rule, baseline, ticks, a[..n], b[..n]);
      SamePast(rule, baseline, ticks, a[..n], a, n);
      SamePast(rule, baseline, ticks, b[..n], b, n);
      assert a == a[..n] + [a[n]] && b == b[..n] + [b[n]];
    }
  }

  lemma {:induction false} Shorter(rule: Rule, baseline: nat, ticks: seq<Tick>, fires: seq<bool>, n: nat)
    requires Correct(rule, baseline, ticks, fires) && n <= |fires|
    ensures Correct(rule, baseline, ticks, fires[..n])
  {
    hide MayFire;
    forall i | 0 <= i < n
      ensures fires[..n][i] <==> MayFire(rule, baseline, ticks, fires[..n], i)
    {
      SamePast(rule, baseline, ticks, fires[..n], fires, i);
    }
  }

  function DeltaSum(baseline: nat, ticks: seq<Tick>, n: nat): nat
    requires n <= |ticks|
  {
    if n == 0 then 0 else DeltaSum(baseline, ticks, n - 1) + Delta(baseline, ticks, n - 1)
  }

  predicate NeverFalls(baseline: nat, ticks: seq<Tick>, n: nat)
    requires n <= |ticks|
  {
    forall i: nat :: i < n ==> Sample(baseline, ticks, i) <= ticks[i].value
  }

  /** Growth is neither lost nor counted twice: the deltas add up to the last value less the baseline
      exactly when the counter never falls; otherwise they add up to more. */
  lemma {:induction false} DeltasConserve(baseline: nat, ticks: seq<Tick>, n: nat)
    requires n <= |ticks|
    ensures DeltaSum(baseline, ticks, n) >= Sample(baseline, ticks, n) - baseline
    ensures DeltaSum(baseline, ticks, n) == Sample(baseline, ticks, n) - baseline <==>
            NeverFalls(baseline, ticks, n)
  {
    if n > 0 {
      DeltasConserve(baseline, ticks, n - 1);
      assert NeverFalls(baseline, ticks, n) <==>
        NeverFalls(baseline, ticks, n - 1) && Sample(baseline, ticks, n - 1) <= ticks[n - 1].value;
    }
  }
}
