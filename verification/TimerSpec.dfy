/**
 The life of timers as a state machine: set, cleared, fired, finalized and shut down in any
 order, also from within a handler. Timers are numbered in the order they are set.
 */
module TimerSpec {
  /**
   A timer: whether its script object lives, whether it holds its callback, how often it was freed
   and its callback released.
   */
  datatype Info = Info(hasObject: bool, timeout: int, holds: bool, freed: nat, released: nat)

  /** The list of armed timers, all timers ever set, and the handlers being called. */
  datatype World = World(list: seq<nat>, timers: seq<Info>, calls: seq<nat>)

  datatype Event =
    | SetTimeout(timeout: int)
    | ClearTimeout(id: nat)
    | Fire(now: int)
    | Return
    | Finalize(id: nat)
    | Shutdown

  /** Give back the timer's memory, and its callback if it still holds it. */
  function Free(t: Info): Info {
    t.(freed := t.freed + 1, released := t.released + (if t.holds then 1 else 0), holds := false)
  }

  /** The list without a timer. */
  function Without(l: seq<nat>, id: nat): (r: seq<nat>)
    ensures id !in r && forall x :: x in r <==> x in l && x != id
  {
    if l == [] then [] else if l[0] == id then Without(l[1..], id) else [l[0]] + Without(l[1..], id)
  }

  predicate Distinct(l: seq<nat>) {
    forall i, j | 0 <= i < j < |l| :: l[i] != l[j]
  }

  predicate InRange(w: World) {
    forall i | 0 <= i < |w.list| :: w.list[i] < |w.timers|
  }

  /** The first armed timer that has expired: its place in the list. */
  function Expired(l: seq<nat>, timers: seq<Info>, now: int): (k: nat)
    requires forall i | 0 <= i < |l| :: l[i] < |timers|
    ensures k <= |l| && (k < |l| ==> timers[l[k]].timeout <= now) && forall i | 0 <= i < k :: timers[l[i]].timeout > now
  {
    if l == [] || timers[l[0]].timeout <= now then 0 else 1 + Expired(l[1..], timers, now)
  }

  lemma {:induction false} ExpiredAt(l: seq<nat>, timers: seq<Info>, now: int, k: nat)
    requires forall i | 0 <= i < |l| :: l[i] < |timers|
    requires k <= |l| && (k < |l| ==> timers[l[k]].timeout <= now)
    requires forall i | 0 <= i < k :: timers[l[i]].timeout > now
    ensures Expired(l, timers, now) == k
    decreases |l|
  {
    if k > 0 {
      assert forall i | 0 <= i < |l| - 1 :: l[1..][i] == l[i + 1];
      ExpiredAt(l[1..], timers, now, k - 1);
    }
  }

  /** Objects are finalized, and passed to clearTimeout, only while they live; a handler returns only if one runs. */
  predicate Enabled(w: World, e: Event) {
    InRange(w) &&
    match e
    case SetTimeout(_) => true
    case ClearTimeout(id) => id < |w.timers| && w.timers[id].hasObject
    case Fire(now) => Expired(w.list, w.timers, now) < |w.list|
    case Return => |w.calls| > 0 && w.calls[|w.calls| - 1] < |w.timers|
    case Finalize(id) => id < |w.timers| && w.timers[id].hasObject
    case Shutdown => true
  }

  function DropObject(w: World, id: nat): World
    requires id < |w.timers|
  {
    var t := w.timers[id].(hasObject := false);
    w.(timers := w.timers[id := if id in w.list then t else Free(t)])
  }

  /** Disarm a timer whose time has come and start its handler. */
  function Start(w: World, id: nat): World
    requires id < |w.timers|
  {
    var t := w.timers[id].(holds := false);
    World(Without(w.list, id), w.timers[id := if t.hasObject then t else Free(t)], w.calls + [id])
  }

  function Stop(w: World): World
    requires |w.calls| > 0 && w.calls[|w.calls| - 1] < |w.timers|
  {
    var n := |w.calls| - 1;
    var id := w.calls[n];
    w.(timers := w.timers[id := w.timers[id].(released := w.timers[id].released + 1)], calls := w.calls[..n])
  }

  function FreeAll(w: World): (r: World)
    ensures |r.timers| == |w.timers|
  {
    World([], seq(|w.timers|, i requires 0 <= i < |w.timers| => if i in w.list && !w.timers[i].hasObject
        then Free(w.timers[i]) else w.timers[i]), w.calls)
  }

  function Apply(w: World, e: Event): World
    requires Enabled(w, e)
  {
    match e
    case SetTimeout(timeout) => World(w.list + [|w.timers|], w.timers + [Info(true, timeout, true, 0, 0)], w.calls)
    case ClearTimeout(id) => w.(list := Without(w.list, id))
    case Fire(now) => Start(w, w.list[Expired(w.list, w.timers, now)])
    case Return => Stop(w)
    case Finalize(id) => DropObject(w, id)
    case Shutdown => FreeAll(w)
  }

  // ----- what events do, in terms of what can be seen -----

  /** r is l with the entry at k taken out; the others keep their order. */
  predicate TakenOut(l: seq<nat>, k: nat, r: seq<nat>) {
    k < |l| && r == l[..k] + l[k + 1..]
  }

  /** r is l without id, if it was there; the others keep their order. */
  ghost predicate Off(l: seq<nat>, id: nat, r: seq<nat>) {
    id !in r && if id in l then exists k: nat :: TakenOut(l, k, r) && l[k] == id else r == l
  }

  /** Nothing but timer id has changed. */
  predicate OnlyTimer(ts: seq<Info>, id: nat, us: seq<Info>) {
    |us| == |ts| && id < |ts| && forall i | 0 <= i < |ts| && i != id :: us[i] == ts[i]
  }

  /** Timer t given back: freed once more, and a callback it held released once more. */
  predicate GivenBack(t: Info, u: Info) {
    && u.freed == t.freed + 1 && !u.holds && u.released == (if t.holds then t.released + 1 else t.released)
    && u.hasObject == t.hasObject && u.timeout == t.timeout
  }

  /** The first armed timer that has expired, at place k, is disarmed and its handler called. */
  ghost predicate Fired(w: World, now: int, k: nat, v: World) {
    && k < |w.list| && w.list[k] < |w.timers| && |v.timers| == |w.timers|
    && (forall i | 0 <= i < k :: w.list[i] < |w.timers| && w.timers[w.list[i]].timeout > now)
    && var id := w.list[k];
       var t, u := w.timers[id], v.timers[id];
       && t.timeout <= now && TakenOut(w.list, k, v.list) && id !in v.list && v.calls == w.calls + [id]
       && OnlyTimer(w.timers, id, v.timers) && !u.holds && u.hasObject == t.hasObject && u.timeout == t.timeout
       && u.released == t.released && u.freed == (if t.hasObject then t.freed else t.freed + 1)
  }

  /** What the world looks like after an event. */
  ghost predicate Effect(w: World, e: Event, v: World) {
    match e
    case SetTimeout(timeout) =>
      && v.list == w.list + [|w.timers|] && v.calls == w.calls
      && v.timers == w.timers + [Info(true, timeout, true, 0, 0)]
    case ClearTimeout(id) => Off(w.list, id, v.list) && v.timers == w.timers && v.calls == w.calls
    case Fire(now) => exists k :: Fired(w, now, k, v)
    case Return =>
      && |w.calls| > 0 && v.calls == w.calls[..|w.calls| - 1] && v.list == w.list
      && var id := w.calls[|w.calls| - 1];
         && OnlyTimer(w.timers, id, v.timers)
         && v.timers[id] == w.timers[id].(released := w.timers[id].released + 1)
    case Finalize(id) =>
      && v.list == w.list && v.calls == w.calls && OnlyTimer(w.timers, id, v.timers)
      && if id in w.list then v.timers[id] == w.timers[id].(hasObject := false)
         else GivenBack(w.timers[id].(hasObject := false), v.timers[id])
    case Shutdown =>
      && v.list == [] && v.calls == w.calls && |v.timers| == |w.timers|
      && forall i | 0 <= i < |w.timers| ::
           if i in w.list && !w.timers[i].hasObject then GivenBack(w.timers[i], v.timers[i])
           else v.timers[i] == w.timers[i]
  }

  lemma {:induction false} WithoutNone(l: seq<nat>, id: nat)
    requires id !in l
    ensures Without(l, id) == l
  {
    if l != [] {
      WithoutNone(l[1..], id);
    }
  }

  lemma {:induction false} WithoutAt(l: seq<nat>, k: nat)
    requires k < |l| && Distinct(l)
    ensures Without(l, l[k]) == l[..k] + l[k + 1..]
  {
    if k == 0 {
      assert l[0] !in l[1..];
      WithoutNone(l[1..], l[0]);
    } else {
      WithoutAt(l[1..], k - 1);
      assert l[..k] + l[k + 1..] == [l[0]] + (l[1..][..k - 1] + l[1..][k..]);
    }
  }

  lemma WithoutOff(l: seq<nat>, id: nat)
    requires Distinct(l)
    ensures Off(l, id, Without(l, id))
  {
    if id in l {
      var k: nat :| k < |l| && l[k] == id;
      WithoutAt(l, k);
      assert TakenOut(l, k, Without(l, id));
    } else {
      WithoutNone(l, id);
    }
  }

  /** Every event has its effect. */
  lemma HasEffect(w: World, e: Event)
    requires Enabled(w, e) && Distinct(w.list)
    ensures Effect(w, e, Apply(w, e))
  {
    hide Without, Distinct;
    match e
    case SetTimeout(_) =>
    case ClearTimeout(id) => WithoutOff(w.list, id);
    case Fire(now) => FireHasEffect(w, now);
    case Return =>
    case Finalize(id) =>
    case Shutdown =>
  }

  lemma FireHasEffect(w: World, now: int)
    requires Enabled(w, Fire(now)) && Distinct(w.list)
    ensures exists k :: Fired(w, now, k, Apply(w, Fire(now)))
  {
    hide Distinct, Without, Expired;
    var k, v := Expired(w.list, w.timers, now), Apply(w, Fire(now));
    WithoutAt(w.list, k);
    assert Fired(w, now, k, v);
  }

  /** An effect leaves no choice. */
  lemma EffectExact(w: World, e: Event, u: World, v: World)
    requires Distinct(w.list) && Effect(w, e, u) && Effect(w, e, v)
    ensures u == v
  {
    match e
    case SetTimeout(_) =>
    case ClearTimeout(id) => OffExact(w.list, id, u.list, v.list);
    case Fire(now) =>
      var k :| Fired(w, now, k, u);
      var l :| Fired(w, now, l, v);
      assert k == l;
      assert u.timers == v.timers;
    case Return => assert u.timers == v.timers;
    case Finalize(_) => assert u.timers == v.timers;
    case Shutdown => assert u.timers == v.timers;
  }

  lemma OffExact(l: seq<nat>, id: nat, r: seq<nat>, r': seq<nat>)
    requires Distinct(l) && Off(l, id, r) && Off(l, id, r')
    ensures r == r'
  {
    if id in l {
      var k: nat :| TakenOut(l, k, r) && l[k] == id;
      var k': nat :| TakenOut(l, k', r') && l[k'] == id;
      assert k == k';
    }
  }

  // ----- the invariant -----

  /** Alive exactly while armed or reachable; one callback reference, held, in a call or released. */
  ghost predicate Sound(w: World, id: nat)
    requires id < |w.timers|
  {
    var t := w.timers[id];
    && t.freed == (if id in w.list || t.hasObject then 0 else 1)
    && (if t.holds then 1 else 0) + (if id in w.calls then 1 else 0) + t.released == 1
    && (id in w.list ==> t.holds)
    && (t.holds ==> t.freed == 0)
  }

  ghost predicate Inv(w: World) {
    && InRange(w) && Distinct(w.list)
    && Distinct(w.calls) && (forall i | 0 <= i < |w.calls| :: w.calls[i] < |w.timers|)
    && forall id | 0 <= id < |w.timers| :: Sound(w, id)
  }

  const START: World := World([], [], [])

  lemma {:induction false} WithoutDistinct(l: seq<nat>, id: nat)
    requires Distinct(l)
    ensures Distinct(Without(l, id))
  {
    if l != [] {
      var r := Without(l[1..], id);
      WithoutDistinct(l[1..], id);
      if l[0] != id {
        assert forall j | 0 <= j < |r| :: r[j] in l[1..];
      }
    }
  }

  lemma SetSound(w: World, timeout: int)
    requires Inv(w)
    ensures Inv(Apply(w, SetTimeout(timeout)))
  {
    var v := Apply(w, SetTimeout(timeout));
    var n := |w.timers|;
    forall id | 0 <= id < |v.timers|
      ensures Sound(v, id)
    {
      if id < n {
        assert Sound(w, id);
        assert id in v.list <==> id in w.list;
      } else {
        assert v.list[|w.list|] == n;
        assert n !in w.calls;
      }
    }
  }

  lemma ClearSound(w: World, id: nat)
    requires Inv(w) && Enabled(w, ClearTimeout(id))
    ensures Inv(Apply(w, ClearTimeout(id)))
  {
    WithoutDistinct(w.list, id);
    var v := Apply(w, ClearTimeout(id));
    InRangeOf(v, w);
    forall k | 0 <= k < |v.timers|
      ensures Sound(v, k)
    {
      assert Sound(w, k);
    }
  }

  lemma InRangeOf(v: World, w: World)
    requires InRange(w) && |v.timers| >= |w.timers| && forall x | x in v.list :: x in w.list
    ensures InRange(v)
  {
    forall i | 0 <= i < |v.list|
      ensures v.list[i] < |v.timers|
    {
      var x := v.list[i];
      assert x in v.list;
      var j :| 0 <= j < |w.list| && w.list[j] == x;
    }
  }

  lemma FinalizeSound(w: World, id: nat)
    requires Inv(w) && Enabled(w, Finalize(id))
    ensures Inv(Apply(w, Finalize(id)))
  {
    var v := Apply(w, Finalize(id));
    forall k | 0 <= k < |v.timers|
      ensures Sound(v, k)
    {
      assert Sound(w, k);
    }
  }

  lemma FireSound(w: World, now: int)
    requires Inv(w) && Enabled(w, Fire(now))
    ensures Inv(Apply(w, Fire(now)))
  {
    var id := w.list[Expired(w.list, w.timers, now)];
    var v := Start(w, id);
    assert id in w.list && Sound(w, id);
    WithoutDistinct(w.list, id);
    InRangeOf(v, w);
    forall k | 0 <= k < |v.timers|
      ensures Sound(v, k)
    {
      assert Sound(w, k);
      assert k in v.calls <==> k in w.calls || k == id by {
        assert v.calls[|w.calls|] == id;
        if k in w.calls {
          var j :| 0 <= j < |w.calls| && w.calls[j] == k;
          assert v.calls[j] == k;
        }
      }
    }
  }

  lemma ReturnSound(w: World)
    requires Inv(w) && Enabled(w, Return)
    ensures Inv(Apply(w, Return))
  {
    var n := |w.calls| - 1;
    var id := w.calls[n];
    var v := Stop(w);
    forall k | 0 <= k < |v.timers|
      ensures Sound(v, k)
    {
      assert Sound(w, k);
      assert k in w.calls <==> k in v.calls || k == id by {
        assert w.calls == v.calls + [id];
      }
      assert id !in v.calls;
    }
  }

  lemma ShutdownSound(w: World)
    requires Inv(w)
    ensures Inv(FreeAll(w))
  {
    var v := FreeAll(w);
    forall k | 0 <= k < |v.timers|
      ensures Sound(v, k)
    {
      assert Sound(w, k);
    }
  }

  /** Shutting down, after the first k timers of the list. */
  ghost predicate FreedSome(w: World, k: nat, ts: seq<Info>) {
    && k <= |w.list| && |ts| == |w.timers|
    && forall i | 0 <= i < |ts| ::
         ts[i] == if i in w.list[..k] && !w.timers[i].hasObject then Free(w.timers[i]) else w.timers[i]
  }

  lemma FreedMore(w: World, k: nat, ts: seq<Info>)
    requires FreedSome(w, k, ts) && k < |w.list| && Distinct(w.list) && w.list[k] < |w.timers|
    ensures var id := w.list[k];
        ts[id] == w.timers[id] && FreedSome(w, k + 1, ts[id := if ts[id].hasObject then ts[id] else Free(ts[id])])
  {
    var id := w.list[k];
    assert w.list[..k + 1] == w.list[..k] + [id];
    assert id !in w.list[..k];
  }

  lemma FreedDone(w: World, ts: seq<Info>)
    requires FreedSome(w, |w.list|, ts)
    ensures World([], ts, w.calls) == FreeAll(w)
  {
    assert w.list[..|w.list|] == w.list;
    assert ts == FreeAll(w).timers;
  }

  /** Every event keeps the invariant. */
  lemma Step(w: World, e: Event)
    requires Inv(w) && Enabled(w, e)
    ensures Inv(Apply(w, e))
  {
    hide Inv, Apply, Enabled;
    match e
    case SetTimeout(timeout) => SetSound(w, timeout);
    case ClearTimeout(id) => ClearSound(w, id);
    case Fire(now) => FireSound(w, now);
    case Return => ReturnSound(w);
    case Finalize(id) => FinalizeSound(w, id);
    case Shutdown =>
      ShutdownSound(w);
      ShutdownIs(w);
  }

  lemma ShutdownIs(w: World)
    requires Enabled(w, Shutdown)
    ensures Apply(w, Shutdown) == FreeAll(w)
  {
  }

  // ----- whole runs -----

  /** Each event is enabled when its turn comes. */
  ghost predicate Run(w: World, es: seq<Event>, v: World)
    decreases |es|
  {
    if es == [] then v == w else Enabled(w, es[0]) && Run(Apply(w, es[0]), es[1..], v)
  }

  lemma {:induction false} RunKeeps(w: World, es: seq<Event>, v: World)
    requires Inv(w) && Run(w, es, v)
    ensures Inv(v)
    decreases |es|
  {
    hide Inv, Apply;
    if es != [] {
      Step(w, es[0]);
      RunKeeps(Apply(w, es[0]), es[1..], v);
    }
  }

  /**
   Over every run from the start: a timer is alive exactly while it is armed or its object
   lives, it is never freed twice, and its callback is never released twice.
   */
  lemma Lifetime(es: seq<Event>, w: World, id: nat)
    requires Run(START, es, w) && id < |w.timers|
    ensures w.timers[id].freed <= 1 && w.timers[id].released <= 1
    ensures w.timers[id].freed == 0 <==> id in w.list || w.timers[id].hasObject
    ensures w.timers[id].released == 0 <==> w.timers[id].holds || id in w.calls
  {
    StartSound();
    hide Inv, Run;
    RunKeeps(START, es, w);
    SoundAt(w, id);
  }

  lemma StartSound()
    ensures Inv(START)
  {
  }

  lemma SoundAt(w: World, id: nat)
    requires Inv(w) && id < |w.timers|
    ensures Sound(w, id)
  {
  }

  /**
   Once nothing is armed, reachable or running, every timer has been freed and every callback
   released, exactly once.
   */
  lemma AllFreed(es: seq<Event>, w: World, id: nat)
    requires Run(START, es, w) && id < |w.timers|
    requires w.list == [] && w.calls == [] && forall k | 0 <= k < |w.timers| :: !w.timers[k].hasObject
    ensures w.timers[id].freed == 1 && w.timers[id].released == 1
  {
    hide Run;
    Lifetime(es, w, id);
    StartSound();
    RunKeeps(START, es, w);
    SoundAt(w, id);
  }

  /** A timer that is not armed never is again: a cleared or fired one does not fire. */
  lemma {:induction false} NeverAgain(w: World, es: seq<Event>, v: World, id: nat)
    requires Run(w, es, v) && id < |w.timers| && id !in w.list
    ensures id < |v.timers| && id !in v.list
    decreases |es|
  {
    hide Apply, Enabled;
    if es != [] {
      NotRearmed(w, es[0], id);
      NeverAgain(Apply(w, es[0]), es[1..], v, id);
    }
  }

  lemma NotRearmed(w: World, e: Event, id: nat)
    requires Enabled(w, e) && id < |w.timers| && id !in w.list
    ensures id < |Apply(w, e).timers| && id !in Apply(w, e).list
  {
  }
}
