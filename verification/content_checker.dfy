/** `docs/content_checker.ts`: the attempt-bounded retry timer. Real time is
    replaced by explicit transitions — starting the timer, a live timer
    firing, clearing — and the missing-content request a firing timer sends
    (`processDoneMessage`) is recorded as a `Retry` in a trace. */
module ContentChecker {
  import opened JsValues

  /** The defaults of `startContentCheckTimeout`, used by every restart. */
  const DefaultTimeoutMs: int := 5000
  const DefaultMaxAttempts: int := 3

  /** A scheduled `setTimeout` callback, with what it captured: the missing
      list of the call that scheduled it. */
  datatype Timer = Timer(id: nat, timeoutMs: int, missing: seq<string>)

  /** The checker's fields plus the timers that are still scheduled. Setting
      `contentCheckTimeoutId` does not cancel the timer it held, so several
      timers can be live while only the last one is tracked. */
  datatype Checker = Checker(
    attemptCounter: int,
    timers: seq<Timer>,
    tracked: Option<nat>,
    nextId: nat)

  /** The request a firing timer sends: the captured missing list and the
      key read from the state manager at that moment. */
  datatype Retry = Retry(missing: seq<string>, key: string)

  datatype StartResult = GaveUp | Scheduled

  /** A new checker: no attempts, nothing scheduled. */
  const Fresh: Checker := Checker(0, [], None, 0)

  /** Timer ids are unique and below `nextId`, and a tracked id is below
      `nextId` too. */
  predicate Valid(c: Checker) {
    && (forall k :: 0 <= k < |c.timers| ==> c.timers[k].id < c.nextId)
    && (forall k, l :: 0 <= k < l < |c.timers| ==> c.timers[k].id != c.timers[l].id)
    && (c.tracked.Some? ==> c.tracked.value < c.nextId)
  }

  /** `startContentCheckTimeout`. At the limit nothing is scheduled, the
      tracked id is dropped (the timer it named stays scheduled) and the
      result is `false`. Otherwise the counter grows by one and exactly one
      new timer is scheduled and tracked. */
  function Start(c: Checker, timeoutMs: int, maxAttempts: int, missing: seq<string>): (r: (Checker, StartResult))
    requires Valid(c)
    ensures Valid(r.0)
    ensures c.attemptCounter >= maxAttempts ==>
              r.1 == GaveUp && r.0 == c.(tracked := None)
    ensures c.attemptCounter < maxAttempts ==>
              && r.1 == Scheduled
              && r.0.attemptCounter == c.attemptCounter + 1
              && r.0.timers == c.timers + [Timer(c.nextId, timeoutMs, missing)]
              && r.0.tracked == Some(c.nextId)
              && (forall k :: 0 <= k < |c.timers| ==> c.timers[k].id != c.nextId)
  {
    if c.attemptCounter >= maxAttempts then
      (c.(tracked := None), GaveUp)
    else
      var t := Timer(c.nextId, timeoutMs, missing);
      (Checker(c.attemptCounter + 1, c.timers + [t], Some(c.nextId), c.nextId + 1), Scheduled)
  }

  /** The live timers without the one at `index`. */
  function RemoveAt(timers: seq<Timer>, index: nat): (r: seq<Timer>)
    requires index < |timers|
    ensures |r| == |timers| - 1
    ensures forall t :: t in r ==> t in timers
    ensures forall k :: 0 <= k < |timers| && k != index ==> timers[k] in r
  {
    var r := timers[..index] + timers[index + 1..];
    assert forall k :: 0 <= k < |timers| && k != index ==>
      timers[k] == (if k < index then r[k] else r[k - 1]);
    r
  }

  lemma RemoveAtKeepsValid(c: Checker, index: nat)
    requires Valid(c) && index < |c.timers|
    ensures Valid(c.(timers := RemoveAt(c.timers, index)))
  {
    var rest := RemoveAt(c.timers, index);
    assert rest == c.timers[..index] + c.timers[index + 1..];
    forall k, l | 0 <= k < l < |rest| ensures rest[k].id != rest[l].id {
      var k' := if k < index then k else k + 1;
      var l' := if l < index then l else l + 1;
      assert rest[k] == c.timers[k'] && rest[l] == c.timers[l'];
    }
    forall k | 0 <= k < |rest| ensures rest[k].id < c.nextId {
      assert rest[k] in c.timers;
    }
  }

  /** The live timer at `index` fires: its request goes out; when the request
      completes the tracked id is cleared and the timer restarts itself with
      the defaults and the same missing list. When the awaited request
      rejects, the callback stops there and the id is left as it was. */
  function Fire(c: Checker, index: nat, key: string, requestSucceeds: bool): (r: (Checker, Retry))
    requires Valid(c) && index < |c.timers|
    ensures Valid(r.0)
    ensures r.1 == Retry(c.timers[index].missing, key)
    ensures r.0.attemptCounter >= c.attemptCounter
    ensures !requestSucceeds ==> r.0 == c.(timers := RemoveAt(c.timers, index))
    ensures requestSucceeds ==>
              r.0 == Start(c.(timers := RemoveAt(c.timers, index), tracked := None),
                           DefaultTimeoutMs, DefaultMaxAttempts, c.timers[index].missing).0
  {
    var t := c.timers[index];
    var rest := c.(timers := RemoveAt(c.timers, index));
    RemoveAtKeepsValid(c, index);
    var retry := Retry(t.missing, key);
    if requestSucceeds then
      (Start(rest.(tracked := None), DefaultTimeoutMs, DefaultMaxAttempts, t.missing).0, retry)
    else
      (rest, retry)
  }

  /** The live timers without any whose id is `id`. */
  function Without(timers: seq<Timer>, id: nat): (r: seq<Timer>)
    ensures forall t :: t in r <==> t in timers && t.id != id
    ensures |r| <= |timers|
    decreases |timers|
  {
    if |timers| == 0 then []
    else if timers[0].id == id then Without(timers[1..], id)
    else [timers[0]] + Without(timers[1..], id)
  }

  /** `clearTimeout`: the tracked timer, if any, is cancelled and the id is
      nulled; with nothing tracked, nothing changes. Untracked timers stay. */
  function Clear(c: Checker): (r: Checker)
    requires Valid(c)
    ensures Valid(r)
    ensures r.tracked.None?
    ensures r.attemptCounter == c.attemptCounter && r.nextId == c.nextId
    ensures c.tracked.None? ==> r == c
    ensures c.tracked.Some? ==>
              forall t :: t in r.timers <==> t in c.timers && t.id != c.tracked.value
  {
    match c.tracked
    case None => c
    case Some(id) =>
      var rest := Without(c.timers, id);
      WithoutKeepsDistinctIds(c.timers, id);
      c.(timers := rest, tracked := None)
  }

  /** Removing timers keeps ids unique. */
  lemma {:induction false} WithoutKeepsDistinctIds(timers: seq<Timer>, id: nat)
    requires forall k, l :: 0 <= k < l < |timers| ==> timers[k].id != timers[l].id
    ensures forall k, l :: 0 <= k < l < |Without(timers, id)| ==> Without(timers, id)[k].id != Without(timers, id)[l].id
    decreases |timers|
  {
    if |timers| > 0 {
      WithoutKeepsDistinctIds(timers[1..], id);
      var rest := Without(timers[1..], id);
      if timers[0].id != id {
        var r := [timers[0]] + rest;
        forall l | 0 < l < |r| ensures r[0].id != r[l].id {
          assert r[l] in timers[1..];
          var m :| 0 <= m < |timers[1..]| && timers[1..][m] == r[l];
          assert timers[m + 1] == r[l];
        }
      }
    }
  }

  /** Clearing twice is clearing once. */
  lemma ClearIdempotent(c: Checker)
    requires Valid(c)
    ensures Clear(Clear(c)) == Clear(c)
  {
  }

  /** Starting again while a timer is pending schedules a second timer and
      tracks only that one, so clearing afterwards leaves the first timer
      scheduled. */
  lemma RestartLeavesFirstTimerLive(missing: seq<string>)
    ensures var once := Start(Fresh, DefaultTimeoutMs, DefaultMaxAttempts, missing).0;
            var twice := Start(once, DefaultTimeoutMs, DefaultMaxAttempts, missing).0;
            && |twice.timers| == 2
            && Clear(twice).timers == [Timer(0, DefaultTimeoutMs, missing)]
  {
    var once := Start(Fresh, DefaultTimeoutMs, DefaultMaxAttempts, missing).0;
    var twice := Start(once, DefaultTimeoutMs, DefaultMaxAttempts, missing).0;
    assert twice.timers == [Timer(0, DefaultTimeoutMs, missing), Timer(1, DefaultTimeoutMs, missing)];
    var t0 := Timer(0, DefaultTimeoutMs, missing);
    var t1 := Timer(1, DefaultTimeoutMs, missing);
    assert [t0, t1][1..] == [t1] && [t1][1..] == [];
    assert Without([t1], 1) == [];
    assert Without([t0, t1], 1) == [t0] + Without([t1], 1);
  }

  // ---------------------------------------------------------------------
  // runs

  /** What can happen after the timer has been started: a live timer fires
      (with the key at that moment and whether the awaited request
      completes), or `clearTimeout` is called. An index with no live timer
      is a no-op. */
  datatype Action = FireTimer(index: nat, key: string, requestSucceeds: bool) | ClearTimer

  /** One action: a live timer fires and sends exactly one request, a fire
      with no timer at that index does nothing, and a clear sends nothing. */
  function Step(c: Checker, a: Action): (r: (Checker, seq<Retry>))
    requires Valid(c)
    ensures Valid(r.0)
    ensures r.0.attemptCounter >= c.attemptCounter
    ensures a.FireTimer? && a.index < |c.timers| ==>
              r.1 == [Retry(c.timers[a.index].missing, a.key)]
    ensures a.FireTimer? && a.index >= |c.timers| ==> r == (c, [])
    ensures a.ClearTimer? ==> r.1 == [] && r.0 == Clear(c)
  {
    match a
    case FireTimer(index, key, ok) =>
      if index < |c.timers| then
        var f := Fire(c, index, key, ok);
        (f.0, [f.1])
      else (c, [])
    case ClearTimer => (Clear(c), [])
  }

  /** The retries a sequence of actions sends, and the checker it leaves. */
  function Run(c: Checker, actions: seq<Action>): (r: (Checker, seq<Retry>))
    requires Valid(c)
    ensures Valid(r.0)
    ensures r.0.attemptCounter >= c.attemptCounter
    decreases |actions|
  {
    if |actions| == 0 then (c, [])
    else
      var s := Step(c, actions[0]);
      var rest := Run(s.0, actions[1..]);
      (rest.0, s.1 + rest.1)
  }

  /** The bookkeeping of one self-restarting chain: at most three attempts,
      every live timer carries the chain's missing list, and the requests
      sent plus the timers still live never exceed the attempts made. */
  predicate ChainInv(c: Checker, missing: seq<string>, sent: nat) {
    && Valid(c)
    && c.attemptCounter <= DefaultMaxAttempts
    && sent + |c.timers| <= c.attemptCounter
    && forall k :: 0 <= k < |c.timers| ==> c.timers[k].missing == missing
  }

  lemma StepKeepsChainInv(c: Checker, a: Action, missing: seq<string>, sent: nat)
    requires ChainInv(c, missing, sent)
    ensures ChainInv(Step(c, a).0, missing, sent + |Step(c, a).1|)
    ensures forall k :: 0 <= k < |Step(c, a).1| ==> Step(c, a).1[k].missing == missing
  {
    match a
    case FireTimer(index, key, ok) =>
      if index < |c.timers| {
        var rest := RemoveAt(c.timers, index);
        forall k | 0 <= k < |rest| ensures rest[k].missing == missing {
          assert rest[k] in c.timers;
        }
      }
    case ClearTimer =>
      if c.tracked.Some? {
        var r := Clear(c).timers;
        forall k | 0 <= k < |r| ensures r[k].missing == missing {
          assert r[k] in c.timers;
        }
      }
  }

  lemma {:induction false} RunKeepsChainInv(c: Checker, actions: seq<Action>, missing: seq<string>, sent: nat)
    requires ChainInv(c, missing, sent)
    ensures ChainInv(Run(c, actions).0, missing, sent + |Run(c, actions).1|)
    ensures forall k :: 0 <= k < |Run(c, actions).1| ==> Run(c, actions).1[k].missing == missing
    decreases |actions|
  {
    if |actions| > 0 {
      var s := Step(c, actions[0]);
      StepKeepsChainInv(c, actions[0], missing, sent);
      RunKeepsChainInv(s.0, actions[1..], missing, sent + |s.1|);
    }
  }

  /** A fresh checker started once, with any limit: whatever fires or
      clears follow, at most three requests go out, each with the missing
      list of that first start, and the counter never passes three. */
  lemma AtMostThreeRetries(timeoutMs: int, maxAttempts: int, missing: seq<string>, actions: seq<Action>)
    ensures var c := Start(Fresh, timeoutMs, maxAttempts, missing).0;
            var r := Run(c, actions);
            && |r.1| <= DefaultMaxAttempts
            && r.0.attemptCounter <= DefaultMaxAttempts
            && forall k :: 0 <= k < |r.1| ==> r.1[k].missing == missing
  {
    var c := Start(Fresh, timeoutMs, maxAttempts, missing).0;
    assert ChainInv(c, missing, 0);
    RunKeepsChainInv(c, actions, missing, 0);
  }

  /** Firing the only live timer before the limit: one request, and one
      new timer in its place. */
  lemma FireOnlyTimer(c: Checker, key: string)
    requires Valid(c) && |c.timers| == 1 && c.attemptCounter < DefaultMaxAttempts
    ensures Step(c, FireTimer(0, key, true))
            == (Checker(c.attemptCounter + 1, [Timer(c.nextId, DefaultTimeoutMs, c.timers[0].missing)],
                        Some(c.nextId), c.nextId + 1),
                [Retry(c.timers[0].missing, key)])
  {
    assert RemoveAt(c.timers, 0) == [];
    var t := Timer(c.nextId, DefaultTimeoutMs, c.timers[0].missing);
    assert [] + [t] == [t];
    assert Fire(c, 0, key, true).0 == Start(c.(timers := [], tracked := None), DefaultTimeoutMs,
                                             DefaultMaxAttempts, c.timers[0].missing).0;
  }

  /** Firing the only live timer at the limit: one request, and nothing left. */
  lemma FireLastTimer(c: Checker, key: string)
    requires Valid(c) && |c.timers| == 1 && c.attemptCounter >= DefaultMaxAttempts
    ensures Step(c, FireTimer(0, key, true))
            == (Checker(c.attemptCounter, [], None, c.nextId), [Retry(c.timers[0].missing, key)])
  {
    assert RemoveAt(c.timers, 0) == [];
  }

  lemma RunCons(c: Checker, a: Action, rest: seq<Action>)
    requires Valid(c)
    ensures Run(c, [a] + rest)
            == (Run(Step(c, a).0, rest).0, Step(c, a).1 + Run(Step(c, a).0, rest).1)
  {
    assert ([a] + rest)[0] == a && ([a] + rest)[1..] == rest;
  }

  /** `k` copies of `x`. */
  function Repeat<T>(x: T, k: nat): (r: seq<T>)
    ensures |r| == k && forall i :: 0 <= i < k ==> r[i] == x
  {
    seq(k, _ => x)
  }

  lemma RepeatCons<T>(x: T, k: nat)
    requires k > 0
    ensures Repeat(x, k) == [x] + Repeat(x, k - 1)
  {
  }

  /** With no live timer a fire is a no-op, however often it is attempted. */
  lemma {:induction false} IdleFires(c: Checker, key: string, k: nat)
    requires Valid(c) && c.timers == []
    ensures Run(c, Repeat(FireTimer(0, key, true), k)) == (c, [])
    decreases k
  {
    var fire := FireTimer(0, key, true);
    if k > 0 {
      RepeatCons(fire, k);
      RunCons(c, fire, Repeat(fire, k - 1));
      assert Step(c, fire) == (c, []);
      IdleFires(c, key, k - 1);
      assert Run(c, Repeat(fire, k)).1 == [] + [];
      assert Run(c, Repeat(fire, k)).0 == c;
    } else {
      assert Repeat(fire, 0) == [];
      assert Run(c, []) == (c, []);
    }
  }

  /** A chain left to fire from attempt `n` sends `4 - n` requests, all with
      the chain's missing list, and ends with nothing scheduled at attempt 3. */
  lemma {:induction false} FireChain(c: Checker, key: string, k: nat)
    requires Valid(c) && |c.timers| == 1 && 1 <= c.attemptCounter <= DefaultMaxAttempts
    requires k >= DefaultMaxAttempts + 1 - c.attemptCounter
    ensures var r := Run(c, Repeat(FireTimer(0, key, true), k));
            && r.1 == Repeat(Retry(c.timers[0].missing, key), DefaultMaxAttempts + 1 - c.attemptCounter)
            && r.0.timers == [] && r.0.tracked.None? && r.0.attemptCounter == DefaultMaxAttempts
    decreases k
  {
    var fire := FireTimer(0, key, true);
    var retry := Retry(c.timers[0].missing, key);
    RepeatCons(fire, k);
    RunCons(c, fire, Repeat(fire, k - 1));
    var n := DefaultMaxAttempts + 1 - c.attemptCounter;
    RepeatCons(retry, n);
    if c.attemptCounter < DefaultMaxAttempts {
      FireOnlyTimer(c, key);
      var next := Step(c, fire).0;
      FireChain(next, key, k - 1);
    } else {
      FireLastTimer(c, key);
      var next := Step(c, fire).0;
      IdleFires(next, key, k - 1);
      assert Repeat(retry, 0) == [];
    }
  }

  /** The bound is reached: started with the defaults and left to fire,
      the chain sends exactly three requests and then gives up. */
  lemma ThreeRetriesThenStop(missing: seq<string>, key: string)
    ensures var c := Start(Fresh, DefaultTimeoutMs, DefaultMaxAttempts, missing).0;
            var r := Run(c, Repeat(FireTimer(0, key, true), 4));
            && r.1 == Repeat(Retry(missing, key), 3)
            && r.0.timers == [] && r.0.tracked.None? && r.0.attemptCounter == 3
  {
    var c := Start(Fresh, DefaultTimeoutMs, DefaultMaxAttempts, missing).0;
    assert c.timers == [Timer(0, DefaultTimeoutMs, missing)];
    FireChain(c, key, 4);
  }
}
