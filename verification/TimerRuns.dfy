/** What becomes of timers over whole runs: each is armed, has fired once, or was disarmed. */
module TimerRuns {
  import opened TimerSpec

  /** The timer whose handler an event calls. */
  function Starts(w: World, e: Event): seq<nat>
    requires Enabled(w, e)
  {
    if e.Fire? then [w.list[Expired(w.list, w.timers, e.now)]] else []
  }

  /** The armed timers an event disarms without calling their handlers. */
  function Drops(w: World, e: Event): seq<nat>
    requires Enabled(w, e)
  {
    match e
    case ClearTimeout(id) => if id in w.list then [id] else []
    case Shutdown => w.list
    case _ => []
  }

  /** The timers fired over a run, in order. */
  function Fires(w: World, es: seq<Event>): seq<nat>
    decreases |es|
  {
    if es == [] || !Enabled(w, es[0]) then [] else Starts(w, es[0]) + Fires(Apply(w, es[0]), es[1..])
  }

  /** The timers disarmed over a run. */
  function Dropped(w: World, es: seq<Event>): seq<nat>
    decreases |es|
  {
    if es == [] || !Enabled(w, es[0]) then [] else Drops(w, es[0]) + Dropped(Apply(w, es[0]), es[1..])
  }

  /** How often x stands in s. */
  function Times(s: seq<nat>, x: nat): nat {
    multiset(s)[x]
  }

  lemma TimesAppend(s: seq<nat>, u: seq<nat>, x: nat)
    ensures Times(s + u, x) == Times(s, x) + Times(u, x)
  {
  }

  lemma TimesOne(y: nat, x: nat)
    ensures Times([y], x) == (if x == y then 1 else 0) && Times([], x) == 0
  {
  }

  lemma TimesOut(l: seq<nat>, k: nat, r: seq<nat>, x: nat)
    requires TakenOut(l, k, r)
    ensures Times(l, x) == Times(r, x) + if x == l[k] then 1 else 0
  {
    assert l == l[..k] + [l[k]] + l[k + 1..];
  }

  /** Timers set so far count once. */
  function Known(w: World, x: nat): nat {
    if x < |w.timers| then 1 else 0
  }

  /** One event: what leaves the list has been fired or disarmed, what enters it is new. */
  lemma StepFate(w: World, e: Event, x: nat)
    requires Enabled(w, e) && Distinct(w.list)
    ensures var v := Apply(w, e);
      Times(v.list, x) + Times(Starts(w, e), x) + Times(Drops(w, e), x) == Times(w.list, x) + Known(v, x) - Known(w, x)
  {
    hide Apply, Enabled, Without, Distinct, Times;
    HasEffect(w, e);
    TimesOne(x, x);
    match e
    case SetTimeout(_) =>
      TimesAppend(w.list, [|w.timers|], x);
      TimesOne(|w.timers|, x);
    case ClearTimeout(id) => ClearFate(w, id, x, Apply(w, e));
    case Fire(now) => FireFate(w, now, x, Apply(w, e));
    case _ =>
  }

  lemma ClearFate(w: World, id: nat, x: nat, v: World)
    requires Enabled(w, ClearTimeout(id)) && Effect(w, ClearTimeout(id), v)
    ensures Times(v.list, x) + Times(Drops(w, ClearTimeout(id)), x) == Times(w.list, x) && |v.timers| == |w.timers|
  {
    hide Times;
    TimesOne(id, x);
    if id in w.list {
      var k: nat :| TakenOut(w.list, k, v.list) && w.list[k] == id;
      TimesOut(w.list, k, v.list, x);
    }
  }

  lemma FireFate(w: World, now: int, x: nat, v: World)
    requires Enabled(w, Fire(now)) && Effect(w, Fire(now), v)
    ensures Times(v.list, x) + Times(Starts(w, Fire(now)), x) == Times(w.list, x) && |v.timers| == |w.timers|
  {
    hide Times, Starts;
    var k: nat :| Fired(w, now, k, v);
    FirstExpired(w, now, k, v);
    TimesOne(w.list[k], x);
    TimesOut(w.list, k, v.list, x);
  }

  lemma FirstExpired(w: World, now: int, k: nat, v: World)
    requires Enabled(w, Fire(now)) && Fired(w, now, k, v)
    ensures Starts(w, Fire(now)) == [w.list[k]]
  {
    ExpiredAt(w.list, w.timers, now, k);
  }

  /** The same over a run. */
  lemma {:induction false} RunFate(w: World, es: seq<Event>, v: World, x: nat)
    requires Inv(w) && Run(w, es, v)
    ensures Times(v.list, x) + Times(Fires(w, es), x) + Times(Dropped(w, es), x)
         == Times(w.list, x) + Known(v, x) - Known(w, x)
    decreases |es|
  {
    TimesOne(x, x);
    if es != [] {
      var e := es[0];
      Step(w, e);
      StepFate(w, e, x);
      hide Inv, Apply, Enabled, Times, Starts, Drops;
      var u := Apply(w, e);
      RunFate(u, es[1..], v, x);
      TimesAppend(Starts(w, e), Fires(u, es[1..]), x);
      TimesAppend(Drops(w, e), Dropped(u, es[1..]), x);
    }
  }

  /**
   Over every run from the start, every timer that was set is armed, or has fired, or was disarmed: exactly one of
   these, exactly once.
   */
  lemma Fate(es: seq<Event>, v: World, id: nat)
    requires Run(START, es, v)
    ensures Times(v.list, id) + Times(Fires(START, es), id) + Times(Dropped(START, es), id)
         == if id < |v.timers| then 1 else 0
  {
    StartSound();
    TimesOne(id, id);
    hide Run, Inv, Times;
    RunFate(START, es, v, id);
  }

  /** After clearTimeout no run fires the timer. */
  lemma ClearedNeverFires(w: World, id: nat, es: seq<Event>, v: World)
    requires Inv(w) && Enabled(w, ClearTimeout(id)) && Run(Apply(w, ClearTimeout(id)), es, v)
    ensures id !in Fires(Apply(w, ClearTimeout(id)), es) && id !in v.list
  {
    var u := Apply(w, ClearTimeout(id));
    HasEffect(w, ClearTimeout(id));
    Step(w, ClearTimeout(id));
    hide Inv, Apply, Enabled, Run;
    NotThere(u, id, es, v);
  }

  /** A timer that is not armed does not fire. */
  lemma NotThere(w: World, id: nat, es: seq<Event>, v: World)
    requires Inv(w) && id < |w.timers| && id !in w.list && Run(w, es, v)
    ensures id !in Fires(w, es) && id !in v.list
  {
    RunGrows(w, es, v);
    RunFate(w, es, v, id);
    assert Times(w.list, id) == 0;
    assert Times(Fires(w, es), id) == 0 && Times(v.list, id) == 0;
  }

  lemma {:induction false} RunGrows(w: World, es: seq<Event>, v: World)
    requires Run(w, es, v)
    ensures |v.timers| >= |w.timers|
    decreases |es|
  {
    if es != [] {
      assert |Apply(w, es[0]).timers| >= |w.timers|;
      hide Apply, Enabled;
      RunGrows(Apply(w, es[0]), es[1..], v);
    }
  }

  /** A handler is never called twice, and not once its timer was disarmed. */
  lemma FiresOnce(es: seq<Event>, v: World, id: nat)
    requires Run(START, es, v)
    ensures Times(Fires(START, es), id) <= 1
    ensures id in Fires(START, es) ==> id < |v.timers| && id !in v.list && id !in Dropped(START, es)
  {
    hide Run;
    Fate(es, v, id);
  }
}
