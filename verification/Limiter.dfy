/** The failure limiter in front of the bearer token, alone and under concurrent requests. */
module Limiter {

  const MAX_FAILURES: nat := 20
  const MAX_COUNT: nat := 0xFFFF_FFFF

  /** Failures counted in the window that began at `start`. */
  datatype State = State(failures: nat, start: int)

  /** Time passed, zero when `now` lies before. */
  function Elapsed(now: int, start: int): nat {
    if now > start then now - start else 0
  }

  /** A new window begins when the old one has ended. */
  function Rolled(s: State, window: nat, now: int): State {
    if Elapsed(now, s.start) >= window then State(0, now) else s
  }

  predicate Limited(s: State) {
    s.failures >= MAX_FAILURES
  }

  function Recorded(s: State, window: nat, now: int): State {
    var r := Rolled(s, window, now);
    r.(failures := if r.failures < MAX_COUNT then r.failures + 1 else r.failures)
  }

  class AuthLimiter {
    var failures: nat
    var windowStart: int
    const window: nat

    ghost function View(): State
      reads this
    {
      State(failures, windowStart)
    }

    constructor (window: nat, now: int)
      ensures View() == State(0, now) && this.window == window
    {
      this.failures := 0;
      this.windowStart := now;
      this.window := window;
    }

    /** Rolls the window if it has ended, then reports whether the budget is used up. */
    method IsLimited(now: int) returns (limited: bool)
      modifies this
      ensures View() == Rolled(old(View()), window, now)
      ensures limited <==> Limited(View())
    {
      if Elapsed(now, windowStart) >= window {
        failures := 0;
        windowStart := now;
      }
      limited := failures >= MAX_FAILURES;
    }

    method RecordFailure(now: int)
      modifies this
      ensures View() == Recorded(old(View()), window, now)
    {
      if Elapsed(now, windowStart) >= window {
        failures := 0;
        windowStart := now;
      }
      failures := if failures < MAX_COUNT then failures + 1 else failures;
    }

    method Reset(now: int)
      modifies this
      ensures View() == State(0, now)
    {
      failures := 0;
      windowStart := now;
    }
  }

  // ----- concurrent requests -----

  /** A request reads the clock once; its check and its record or reset may lie far apart. */
  datatype Event = Check(now: int) | Fail(now: int) | Succeed(now: int)

  /** The limiter and the clock readings of the requests between check and outcome. */
  datatype System = System(limiter: State, inFlight: multiset<int>)

  predicate Enabled(sys: System, e: Event) {
    e.Check? || e.now in sys.inFlight
  }

  function Step(sys: System, window: nat, e: Event): System {
    match e
    case Check(now) =>
      var rolled := Rolled(sys.limiter, window, now);
      System(rolled, if Limited(rolled) then sys.inFlight else sys.inFlight + multiset{now})
    case Fail(now) => System(Recorded(sys.limiter, window, now), sys.inFlight - multiset{now})
    case Succeed(now) => System(State(0, now), sys.inFlight - multiset{now})
  }

  function Run(sys: System, window: nat, events: seq<Event>): System {
    if events == [] then sys
    else Step(Run(sys, window, events[..|events| - 1]), window, events[|events| - 1])
  }

  /** Every event was possible, and never more than `k` requests were in flight. */
  predicate Possible(sys: System, window: nat, events: seq<Event>, k: nat) {
    && |Run(sys, window, events).inFlight| <= k
    && (events == [] ||
        var before := events[..|events| - 1];
        Possible(sys, window, before, k) && Enabled(Run(sys, window, before), events[|events| - 1]))
  }

  /** Failures counted plus requests that may still add one. */
  lemma {:induction false} RunInvariant(start: int, window: nat, events: seq<Event>, k: nat)
    requires Possible(System(State(0, start), multiset{}), window, events, k)
    ensures var sys := Run(System(State(0, start), multiset{}), window, events);
            sys.limiter.failures + |sys.inFlight| <= MAX_FAILURES - 1 + k
    decreases |events|
  {
    if events != [] {
      var before, e := events[..|events| - 1], events[|events| - 1];
      RunInvariant(start, window, before, k);
      var sys := Run(System(State(0, start), multiset{}), window, before);
      if !e.Check? {
        assert |sys.inFlight - multiset{e.now}| == |sys.inFlight| - 1;
      }
    }
  }

  /** With at most `k` requests in flight the count never exceeds 19 + k, in any interleaving. */
  lemma {:induction false} FailuresBounded(start: int, window: nat, events: seq<Event>, k: nat)
    requires Possible(System(State(0, start), multiset{}), window, events, k)
    ensures Run(System(State(0, start), multiset{}), window, events).limiter.failures <= 19 + k
  {
    RunInvariant(start, window, events, k);
  }

  // ----- the bound is reached -----

  function Repeat(e: Event, n: nat): (r: seq<Event>)
    ensures |r| == n
  {
    if n == 0 then [] else Repeat(e, n - 1) + [e]
  }

  /** `n` failures one after the other at time `t`. */
  function OneByOne(t: int, n: nat): seq<Event> {
    if n == 0 then [] else OneByOne(t, n - 1) + [Check(t), Fail(t)]
  }

  lemma {:induction false} RunPush(sys: System, window: nat, events: seq<Event>, e: Event)
    ensures Run(sys, window, events + [e]) == Step(Run(sys, window, events), window, e)
  {
    assert (events + [e])[..|events|] == events;
  }

  lemma {:induction false} PossiblePush(sys: System, window: nat, events: seq<Event>, e: Event, k: nat)
    requires Possible(sys, window, events, k) && Enabled(Run(sys, window, events), e)
    requires |Step(Run(sys, window, events), window, e).inFlight| <= k
    ensures Possible(sys, window, events + [e], k)
  {
    var all := events + [e];
    assert all[..|all| - 1] == events && all[|all| - 1] == e;
    RunPush(sys, window, events, e);
  }

  lemma {:induction false} SequentialPart(t: int, window: nat, n: nat, k: nat)
    requires window > 0 && n <= 19 && k >= 1
    ensures var sys := System(State(0, t), multiset{});
            && Possible(sys, window, OneByOne(t, n), k)
            && Run(sys, window, OneByOne(t, n)) == System(State(n, t), multiset{})
  {
    var sys := System(State(0, t), multiset{});
    if n > 0 {
      SequentialPart(t, window, n - 1, k);
      var before := OneByOne(t, n - 1);
      PossiblePush(sys, window, before, Check(t), k);
      RunPush(sys, window, before, Check(t));
      PossiblePush(sys, window, before + [Check(t)], Fail(t), k);
      RunPush(sys, window, before + [Check(t)], Fail(t));
      assert before + [Check(t)] + [Fail(t)] == OneByOne(t, n);
    }
  }

  function Same(t: int, n: nat): (r: multiset<int>)
    ensures |r| == n
  {
    multiset{}[t := n]
  }

  lemma {:induction false} NoneInFlight(t: int)
    ensures Same(t, 0) == multiset{}
  {
  }

  lemma {:induction false} CheckStep(t: int, window: nat, failures: nat, passed: nat)
    requires window > 0 && failures < MAX_FAILURES
    ensures Enabled(System(State(failures, t), Same(t, passed)), Check(t))
    ensures Step(System(State(failures, t), Same(t, passed)), window, Check(t)) ==
            System(State(failures, t), Same(t, passed + 1))
  {
    assert Same(t, passed) + multiset{t} == Same(t, passed + 1);
  }

  lemma {:induction false} ChecksPart(t: int, window: nat, m: nat, n: nat, k: nat)
    requires window > 0 && m <= 19 && n <= k && k >= 1
    ensures var sys := System(State(0, t), multiset{});
            var events := OneByOne(t, m) + Repeat(Check(t), n);
            && Possible(sys, window, events, k)
            && Run(sys, window, events) == System(State(m, t), Same(t, n))
  {
    hide Possible, Run, Step, Enabled, OneByOne, Same;
    var sys := System(State(0, t), multiset{});
    var front := OneByOne(t, m);
    if n == 0 {
      SequentialPart(t, window, m, k);
      assert front + Repeat(Check(t), n) == front;
      NoneInFlight(t);
    } else {
      ChecksPart(t, window, m, n - 1, k);
      var before := front + Repeat(Check(t), n - 1);
      CheckStep(t, window, m, n - 1);
      PossiblePush(sys, window, before, Check(t), k);
      RunPush(sys, window, before, Check(t));
      assert before + [Check(t)] == front + Repeat(Check(t), n);
    }
  }

  lemma {:induction false} FailStep(t: int, window: nat, failures: nat, rest: nat)
    requires window > 0 && failures < MAX_COUNT
    ensures Enabled(System(State(failures, t), Same(t, rest + 1)), Fail(t))
    ensures Step(System(State(failures, t), Same(t, rest + 1)), window, Fail(t)) ==
            System(State(failures + 1, t), Same(t, rest))
  {
    assert Same(t, rest + 1) - multiset{t} == Same(t, rest);
  }

  lemma {:induction false} FailsPart(t: int, window: nat, m: nat, n: nat, k: nat)
    requires window > 0 && m <= 19 && n <= k && k >= 1 && m + k <= MAX_COUNT
    ensures var sys := System(State(0, t), multiset{});
            var events := OneByOne(t, m) + Repeat(Check(t), k) + Repeat(Fail(t), n);
            && Possible(sys, window, events, k)
            && Run(sys, window, events) == System(State(m + n, t), Same(t, k - n))
  {
    hide Possible, Run, Step, Enabled, OneByOne, Same;
    var sys := System(State(0, t), multiset{});
    var front := OneByOne(t, m) + Repeat(Check(t), k);
    if n == 0 {
      ChecksPart(t, window, m, k, k);
      assert front + Repeat(Fail(t), n) == front;
    } else {
      FailsPart(t, window, m, n - 1, k);
      var before := front + Repeat(Fail(t), n - 1);
      FailStep(t, window, m + n - 1, k - n);
      PossiblePush(sys, window, before, Fail(t), k);
      RunPush(sys, window, before, Fail(t));
      assert before + [Fail(t)] == front + Repeat(Fail(t), n);
    }
  }

  /** The bound 19 + k is reached: k requests that all passed the check at 19 failures. */
  lemma {:induction false} BoundReached(t: int, window: nat, k: nat) returns (events: seq<Event>)
    requires window > 0 && k >= 1 && 19 + k <= 4_294_967_295
    ensures Possible(System(State(0, t), multiset{}), window, events, k)
    ensures Run(System(State(0, t), multiset{}), window, events).limiter.failures == 19 + k
  {
    hide Possible, Run, OneByOne, Repeat;
    FailsPart(t, window, 19, k, k);
    events := OneByOne(t, 19) + Repeat(Check(t), k) + Repeat(Fail(t), k);
  }

  // ----- windows and successes -----

  /** A window lasts for its length from its start; a clock that goes back does not end it. */
  lemma {:induction false} WindowLasts(s: State, window: nat, now: int)
    ensures 0 < window && now < s.start + window ==> Rolled(s, window, now) == s
    ensures window == 0 || now >= s.start + window ==> Rolled(s, window, now) == State(0, now)
  {
  }

  /** A failure counts one more in the window it falls in, up to what 32 bits hold. */
  lemma {:induction false} FailureCounts(s: State, window: nat, now: int)
    ensures 0 < window && now < s.start + window && s.failures < 4_294_967_295 ==>
              Recorded(s, window, now) == State(s.failures + 1, s.start)
    ensures 0 < window && now < s.start + window && s.failures == 4_294_967_295 ==> Recorded(s, window, now) == s
    ensures window == 0 || now >= s.start + window ==> Recorded(s, window, now) == State(1, now)
  {
  }

  /** A success gives the full budget back, whatever the state: of the failures that follow in its window, one
      after the other, twenty are let through, and the next request is refused. */
  lemma {:induction false} SuccessRestores(sys: System, window: nat, t: int, u: int, n: nat)
    requires t <= u < t + window && n <= 20
    ensures var start := Step(sys, window, Succeed(t));
            var after := Run(start, window, OneByOne(u, n));
            && after == System(State(n, t), start.inFlight)
            && (n < 20 ==> Step(after, window, Check(u)).inFlight == start.inFlight + multiset{u})
            && (n == 20 ==> Step(after, window, Check(u)).inFlight == start.inFlight)
  {
    var start := Step(sys, window, Succeed(t));
    hide Step, Run;
    SuccessEmpties(sys, window, t);
    InTurn(window, t, u, n, start.inFlight);
    if n == 0 {
      NothingRun(start, window);
    } else {
      SuccessRestores(sys, window, t, u, n - 1);
      InTurn(window, t, u, n - 1, start.inFlight);
      var before := OneByOne(u, n - 1);
      RunPush(start, window, before, Check(u));
      RunPush(start, window, before + [Check(u)], Fail(u));
      assert before + [Check(u)] + [Fail(u)] == OneByOne(u, n);
    }
  }

  lemma {:induction false} NothingRun(sys: System, window: nat)
    ensures Run(sys, window, []) == sys
  {
  }

  lemma {:induction false} SuccessEmpties(sys: System, window: nat, t: int)
    ensures Step(sys, window, Succeed(t)).limiter == State(0, t)
  {
  }

  /** One request of a window that holds `n` failures: let through and failed, or refused. */
  lemma {:induction false} InTurn(window: nat, t: int, u: int, n: nat, others: multiset<int>)
    requires t <= u < t + window && n <= 20
    ensures n < 20 ==>
              && Step(System(State(n, t), others), window, Check(u)) == System(State(n, t), others + multiset{u})
              && Step(System(State(n, t), others + multiset{u}), window, Fail(u)) == System(State(n + 1, t), others)
    ensures n == 20 ==> Step(System(State(n, t), others), window, Check(u)) == System(State(n, t), others)
  {
    assert others + multiset{u} - multiset{u} == others;
  }

  // ----- one request at a time -----

  /** A recorded failure and the window it was counted in. */
  datatype Mark = Mark(time: int, start: int)

  /** The failures recorded when the attempts at `times` all fail, each checked and recorded in turn. */
  function Marks(s: State, window: nat, times: seq<int>): seq<Mark>
    decreases times
  {
    if times == [] then []
    else
      var rolled := Rolled(s, window, times[0]);
      if Limited(rolled) then Marks(rolled, window, times[1..])
      else
        var after := Recorded(rolled, window, times[0]);
        [Mark(times[0], after.start)] + Marks(after, window, times[1..])
  }

  predicate Increasing(from: int, times: seq<int>) {
    && (forall i :: 0 <= i < |times| ==> from <= times[i])
    && (forall i, j :: 0 <= i < j < |times| ==> times[i] <= times[j])
  }

  function CountStart(marks: seq<Mark>, start: int): nat {
    if marks == [] then 0 else (if marks[0].start == start then 1 else 0) + CountStart(marks[1..], start)
  }

  function CountWithin(marks: seq<Mark>, from: int, to: int): nat {
    if marks == [] then 0 else (if from <= marks[0].time < to then 1 else 0) + CountWithin(marks[1..], from, to)
  }

  /** Marks lie in their windows, windows do not overlap, and none holds more than twenty. */
  ghost predicate WellCounted(s: State, window: nat, marks: seq<Mark>) {
    && (forall m :: m in marks ==> m.start <= m.time < m.start + window)
    && (forall m :: m in marks ==> m.start == s.start || m.start >= s.start + window)
    && (forall i, j :: 0 <= i < j < |marks| ==>
        marks[i].start == marks[j].start || marks[j].start >= marks[i].start + window)
    && (forall w :: w != s.start ==> CountStart(marks, w) <= MAX_FAILURES)
    && CountStart(marks, s.start) + s.failures <= MAX_FAILURES
  }

  lemma {:induction false} NoMarkBefore(marks: seq<Mark>, w: int)
    requires forall m :: m in marks ==> m.start != w
    ensures CountStart(marks, w) == 0
  {
    if marks != [] {
      NoMarkBefore(marks[1..], w);
    }
  }

  lemma {:induction false} RollKeeps(s: State, window: nat, now: int, marks: seq<Mark>)
    requires window > 0 && s.start <= now && s.failures <= MAX_FAILURES
    requires WellCounted(Rolled(s, window, now), window, marks)
    ensures WellCounted(s, window, marks)
  {
    if Elapsed(now, s.start) >= window {
      NoMarkBefore(marks, s.start);
    }
  }

  lemma {:induction false} CountPrepend(m: Mark, marks: seq<Mark>, w: int)
    ensures CountStart([m] + marks, w) == (if m.start == w then 1 else 0) + CountStart(marks, w)
  {
    assert ([m] + marks)[1..] == marks;
  }

  lemma {:induction false} MarkAdds(s: State, window: nat, now: int, marks: seq<Mark>)
    requires window > 0 && s.start <= now < s.start + window && !Limited(s)
    requires WellCounted(s.(failures := s.failures + 1), window, marks)
    ensures WellCounted(s, window, [Mark(now, s.start)] + marks)
  {
    hide CountStart;
    var m := Mark(now, s.start);
    var all := [m] + marks;
    forall i, j | 0 <= i < j < |all|
      ensures all[i].start == all[j].start || all[j].start >= all[i].start + window
    {
      assert all[j] == marks[j - 1];
      if i > 0 {
        assert all[i] == marks[i - 1];
      } else {
        assert marks[j - 1] in marks;
      }
    }
    forall w | w != s.start
      ensures CountStart(all, w) <= MAX_FAILURES
    {
      CountPrepend(m, marks, w);
    }
    CountPrepend(m, marks, s.start);
  }

  lemma {:induction false} MarksCounted(s: State, window: nat, times: seq<int>)
    requires window > 0 && Increasing(s.start, times) && s.failures <= MAX_FAILURES
    ensures WellCounted(s, window, Marks(s, window, times))
    decreases times
  {
    if times != [] {
      var now := times[0];
      var rolled := Rolled(s, window, now);
      if Limited(rolled) {
        assert Increasing(rolled.start, times[1..]);
        MarksCounted(rolled, window, times[1..]);
      } else {
        var after := Recorded(rolled, window, now);
        assert after == rolled.(failures := rolled.failures + 1);
        assert Increasing(after.start, times[1..]);
        MarksCounted(after, window, times[1..]);
        MarkAdds(rolled, window, now, Marks(after, window, times[1..]));
      }
      RollKeeps(s, window, now, Marks(s, window, times));
    }
  }

  /** Marks of at most two windows are at most the sum of the two windows' counts. */
  lemma {:induction false} TwoWindows(marks: seq<Mark>, from: int, to: int, a: int, b: int)
    requires forall m :: m in marks && from <= m.time < to ==> m.start == a || m.start == b
    ensures CountWithin(marks, from, to) <= CountStart(marks, a) + (if a == b then 0 else CountStart(marks, b))
  {
    if marks != [] {
      TwoWindows(marks[1..], from, to, a, b);
    }
  }

  /** Windows that meet an interval of one window length: at most two. */
  lemma {:induction false} WindowsMet(s: State, window: nat, marks: seq<Mark>, from: int) returns (a: int, b: int)
    requires window > 0 && WellCounted(s, window, marks)
    ensures forall m :: m in marks && from <= m.time < from + window ==> m.start == a || m.start == b
  {
    if m :| m in marks && from <= m.time < from + window {
      a := m.start;
      if n :| n in marks && from <= n.time < from + window && n.start != a {
        b := n.start;
        forall x | x in marks && from <= x.time < from + window
          ensures x.start == a || x.start == b
        {
          Apart(s, window, marks, m, n);
          Apart(s, window, marks, m, x);
          Apart(s, window, marks, n, x);
        }
      } else {
        b := a;
      }
    } else {
      a, b := 0, 0;
    }
  }

  lemma {:induction false} Apart(s: State, window: nat, marks: seq<Mark>, m: Mark, n: Mark)
    requires WellCounted(s, window, marks) && m in marks && n in marks
    ensures m.start == n.start || m.start >= n.start + window || n.start >= m.start + window
  {
    var i :| 0 <= i < |marks| && marks[i] == m;
    var j :| 0 <= j < |marks| && marks[j] == n;
  }

  /** With a clock that never goes back and no success, any half-open interval of one window length
      holds at most 40 recorded failures. */
  lemma {:induction false} FortyPerWindow(start: int, window: nat, times: seq<int>, from: int)
    requires window > 0 && Increasing(start, times)
    ensures CountWithin(Marks(State(0, start), window, times), from, from + window) <= 40
  {
    var s := State(0, start);
    var marks := Marks(s, window, times);
    MarksCounted(s, window, times);
    var a, b := WindowsMet(s, window, marks, from);
    TwoWindows(marks, from, from + window, a, b);
    WindowCount(s, window, marks, a);
    WindowCount(s, window, marks, b);
  }

  lemma {:induction false} WindowCount(s: State, window: nat, marks: seq<Mark>, w: int)
    requires WellCounted(s, window, marks)
    ensures CountStart(marks, w) <= MAX_FAILURES
  {
  }

  // ----- forty are reached -----

  function Times(t: int, n: nat): seq<int> {
    if n == 0 then [] else [t] + Times(t, n - 1)
  }

  lemma {:induction false} TimesAt(t: int, n: nat)
    ensures |Times(t, n)| == n && forall i :: 0 <= i < n ==> Times(t, n)[i] == t
  {
    if n > 0 {
      TimesAt(t, n - 1);
    }
  }

  /** Attempts inside the current window and within the budget are all recorded. */
  lemma {:induction false} AllRecorded(s: State, window: nat, t: int, n: nat, rest: seq<int>, from: int)
    requires s.start <= t < s.start + window && s.failures + n <= MAX_FAILURES && from <= t < from + window
    ensures CountWithin(Marks(s, window, Times(t, n) + rest), from, from + window) ==
            n + CountWithin(Marks(State(s.failures + n, s.start), window, rest), from, from + window)
    decreases n
  {
    hide Marks, CountWithin;
    if n == 0 {
      assert Times(t, n) + rest == rest;
    } else {
      var after := State(s.failures + 1, s.start);
      var tail := Times(t, n - 1) + rest;
      assert Times(t, n) + rest == [t] + tail;
      AllRecorded(after, window, t, n - 1, rest, from);
      OneRecorded(s, window, t, tail, from);
    }
  }

  lemma {:induction false} OneRecorded(s: State, window: nat, t: int, rest: seq<int>, from: int)
    requires s.start <= t < s.start + window && s.failures < MAX_FAILURES && from <= t < from + window
    ensures CountWithin(Marks(s, window, [t] + rest), from, from + window) ==
            1 + CountWithin(Marks(State(s.failures + 1, s.start), window, rest), from, from + window)
  {
    assert ([t] + rest)[1..] == rest;
    var marks := Marks(State(s.failures + 1, s.start), window, rest);
    assert Marks(s, window, [t] + rest) == [Mark(t, s.start)] + marks;
    assert ([Mark(t, s.start)] + marks)[1..] == marks;
  }

  /** The first attempt of the next window is recorded there. */
  lemma {:induction false} NextWindow(s: State, window: nat, t: int, n: nat, from: int)
    requires window > 0 && t == s.start + window && n <= MAX_FAILURES && from <= t < from + window
    ensures CountWithin(Marks(s, window, Times(t, n)), from, from + window) ==
            CountWithin(Marks(State(0, t), window, Times(t, n)), from, from + window)
  {
    hide CountWithin;
    if n > 0 {
      assert Rolled(s, window, t) == State(0, t) == Rolled(State(0, t), window, t);
      assert Times(t, n)[0] == t;
    }
  }

  /** Twenty failures at the end of one window and twenty at the start of the next: forty in one window
      length, for every window of at least two units. */
  lemma {:induction false} FortyReached(start: int, window: nat) returns (times: seq<int>)
    requires window >= 2
    ensures Increasing(start, times)
    ensures CountWithin(Marks(State(0, start), window, times), start + window - 1, start + window - 1 + window) == 40
  {
    hide Marks, CountWithin, Times;
    var early, late, from := start + window - 1, start + window, start + window - 1;
    times := Times(early, 20) + Times(late, 20);
    TimesAt(early, 20);
    TimesAt(late, 20);
    AllRecorded(State(0, start), window, early, 20, Times(late, 20), from);
    NextWindow(State(20, start), window, late, 20, from);
    AllRecorded(State(0, late), window, late, 20, [], from);
    assert Times(late, 20) + [] == Times(late, 20);
    NoneLeft(State(20, late), window, from);
  }

  lemma {:induction false} NoneLeft(s: State, window: nat, from: int)
    ensures CountWithin(Marks(s, window, []), from, from + window) == 0
  {
  }
}
