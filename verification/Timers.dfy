/** Timers on their circular doubly linked list, updated in place. */
module Timers {
  import opened TimerSpec

  /** The links of a list, embedded in the timer with number `id`. */
  class Link {
    const id: nat
    var prev: Link?
    var next: Link?

    constructor (id: nat)
      ensures this.id == id && prev == null && next == null
    {
      this.id := id;
      prev, next := null, null;
    }
  }

  class Timer {
    const link: Link
    var hasObject: bool
    var timeout: int
    var holds: bool
    ghost var freed: nat
    ghost var released: nat

    constructor (id: nat, timeout: int)
      ensures fresh(link) && link.id == id && link.prev == null && link.next == null
      ensures Value() == Info(true, timeout, true, 0, 0)
    {
      link := new Link(id);
      hasObject, this.timeout, holds := true, timeout, true;
      freed, released := 0, 0;
    }

    ghost function Value(): Info
      reads this
    {
      Info(hasObject, timeout, holds, freed, released)
    }
  }

  // ----- the list -----

  /** The nodes with the head before and behind them. */
  ghost function Around(head: Link, nodes: seq<Link>): (r: seq<Link>)
    ensures |r| == |nodes| + 2 && r[0] == head && r[|nodes| + 1] == head
    ensures forall i | 1 <= i <= |nodes| :: r[i] == nodes[i - 1]
  {
    [head] + nodes + [head]
  }

  /** Neighbours point at each other, all the way round, and no node occurs twice. */
  ghost predicate Ring(head: Link, nodes: seq<Link>)
    reads head, nodes
  {
    var r := Around(head, nodes);
    && (forall i, j | 0 <= i < j <= |nodes| :: r[i] != r[j])
    && (forall i | 0 <= i <= |nodes| :: r[i].next == r[i + 1])
    && (forall i | 0 <= i <= |nodes| :: r[i + 1].prev == r[i])
  }

  method InitListHead(head: Link)
    modifies head
    ensures Ring(head, [])
  {
    head.prev := head;
    head.next := head;
  }

  /** Between two neighbours. */
  method ListAdd(el: Link, prev: Link, next: Link)
    requires el != prev && el != next
    modifies prev`next, el, next`prev
    ensures prev.next == el && el.prev == prev && el.next == next && next.prev == el
  {
    prev.next := el;
    el.prev := prev;
    el.next := next;
    next.prev := el;
  }

  /** At the end, before the head. */
  method ListAddTail(el: Link, head: Link, ghost nodes: seq<Link>)
    requires Ring(head, nodes) && el != head && el !in nodes
    modifies head, nodes, el
    ensures Ring(head, nodes + [el])
  {
    ghost var n, r := |nodes|, Around(head, nodes);
    assert head.prev == r[n];
    ListAdd(el, head.prev, head);
    ghost var q := Around(head, nodes + [el]);
    assert forall i | 0 <= i <= n :: q[i] == r[i];
    assert q[n + 1] == el && q[n + 2] == head;
  }

  /** Take node k out. */
  method ListDel(el: Link, head: Link, ghost nodes: seq<Link>, ghost k: nat)
    requires Ring(head, nodes) && k < |nodes| && el == nodes[k]
    modifies head, nodes
    ensures Ring(head, nodes[..k] + nodes[k + 1..]) && el.prev == null && el.next == null
  {
    ghost var r := Around(head, nodes);
    assert el == r[k + 1];
    assert r[k].next == el && r[k + 1].prev == r[k] && r[k + 1].next == r[k + 2];
    var prev, next := el.prev, el.next;
    prev.next := next;
    next.prev := prev;
    el.prev := null;
    el.next := null;
    ghost var q := Around(head, nodes[..k] + nodes[k + 1..]);
    assert forall i | 0 <= i <= k :: q[i] == r[i];
    assert forall i | k < i < |q| :: q[i] == r[i + 1];
  }

  // ----- the timers of a runtime -----

  ghost function LinksOf(ts: seq<Timer>): (r: seq<Link>)
    ensures |r| == |ts| && forall i | 0 <= i < |ts| :: r[i] == ts[i].link
  {
    seq(|ts|, i requires 0 <= i < |ts| => ts[i].link)
  }

  ghost function Values(ts: seq<Timer>): (r: seq<Info>)
    reads ts
    ensures |r| == |ts|
  {
    if ts == [] then [] else Values(ts[..|ts| - 1]) + [ts[|ts| - 1].Value()]
  }

  lemma {:induction false} ValuesAt(ts: seq<Timer>)
    ensures forall i | 0 <= i < |ts| :: Values(ts)[i] == ts[i].Value()
  {
    if ts != [] {
      ValuesAt(ts[..|ts| - 1]);
    }
  }

  lemma ValuesPush(ts: seq<Timer>, th: Timer)
    ensures Values(ts + [th]) == Values(ts) + [th.Value()] && (ts + [th])[..|ts|] == ts
  {
    assert (ts + [th])[..|ts|] == ts;
  }

  /** The links at the given numbers. */
  ghost function At(links: seq<Link>, list: seq<nat>): (r: seq<Link>)
    requires forall k | 0 <= k < |list| :: list[k] < |links|
    ensures |r| == |list| && forall k | 0 <= k < |list| :: r[k] == links[list[k]]
  {
    seq(|list|, k requires 0 <= k < |list| => links[list[k]])
  }

  lemma AtWithin(links: seq<Link>, list: seq<nat>)
    requires forall k | 0 <= k < |list| :: list[k] < |links|
    ensures forall x | x in At(links, list) :: x in links
  {
  }

  /** Timers, their links and their numbers are all different. */
  ghost predicate Named(head: Link, created: seq<Timer>, list: seq<nat>) {
    var links := LinksOf(created);
    && (forall i, j | 0 <= i < j < |created| :: created[i] != created[j] && links[i] != links[j])
    && (forall i | 0 <= i < |created| :: links[i] != head && links[i].id == i)
    && (forall k | 0 <= k < |list| :: list[k] < |created|) && Distinct(list)
  }

  lemma NamedWithout(head: Link, created: seq<Timer>, list: seq<nat>, k: nat)
    requires Named(head, created, list) && k < |list|
    ensures var rest := Without(list, list[k]); var nodes := At(LinksOf(created), list);
      Named(head, created, rest) && At(LinksOf(created), rest) == nodes[..k] + nodes[k + 1..]
  {
    hide Without, Distinct;
    WithoutAt(list, k);
    WithoutDistinct(list, list[k]);
    AtRest(LinksOf(created), list, k);
  }

  lemma AtRest(links: seq<Link>, list: seq<nat>, k: nat)
    requires k < |list| && forall j | 0 <= j < |list| :: list[j] < |links|
    ensures var rest, nodes := list[..k] + list[k + 1..], At(links, list);
      (forall j | 0 <= j < |rest| :: rest[j] < |links|) && At(links, rest) == nodes[..k] + nodes[k + 1..]
  {
  }

  /** The links of timers that are not armed are not in the ring. */
  lemma NotNode(head: Link, created: seq<Timer>, list: seq<nat>, i: nat)
    requires Named(head, created, list) && i < |created| && i !in list
    ensures created[i].link != head && created[i].link !in At(LinksOf(created), list)
  {
    var links := LinksOf(created);
    assert links[i] == created[i].link;
    forall k | 0 <= k < |list|
      ensures links[list[k]] != links[i]
    {
      assert list[k] != i;
    }
  }

  /** A live timer that is not armed has no links. */
  ghost predicate Loose(created: seq<Timer>, list: seq<nat>)
    reads LinksOf(created), created
  {
    forall i | 0 <= i < |created| && created[i].freed == 0 && i !in list :: created[i].link.prev == null
  }

  /** The list is a ring of the armed timers. */
  ghost predicate Shaped(head: Link, created: seq<Timer>, list: seq<nat>)
    reads head, LinksOf(created), created
  {
    Named(head, created, list) && Ring(head, At(LinksOf(created), list)) && Loose(created, list)
  }

  /** The time to wait: until the next timer is due, at most ten seconds, and then exactly that. */
  ghost predicate Wait(list: seq<nat>, created: seq<Timer>, now: int, delay: int)
    reads created
  {
    && 0 < delay <= 10000
    && (forall i | 0 <= i < |list| :: list[i] < |created| && delay <= created[list[i]].timeout - now)
    && (delay == 10000 || exists i | 0 <= i < |list| :: delay == created[list[i]].timeout - now)
  }

  lemma WaitNone(list: seq<nat>, created: seq<Timer>, now: int)
    ensures Wait(list[..0], created, now, 10000)
  {
  }

  /** One more timer to wait for; those before have not expired. */
  lemma WaitMore(list: seq<nat>, created: seq<Timer>, now: int, k: nat, delay: int)
    requires k < |list| && list[k] < |created| && Wait(list[..k], created, now, delay)
    ensures var d := created[list[k]].timeout - now;
      d > 0 ==> Wait(list[..k + 1], created, now, if d < delay then d else delay)
    ensures forall i | 0 <= i < k :: list[i] < |created| && created[list[i]].timeout > now
  {
    var l, l' := list[..k], list[..k + 1];
    assert forall i | 0 <= i < k :: l[i] == list[i] && l'[i] == list[i];
    assert l'[k] == list[k];
    if delay != 10000 {
      var i :| 0 <= i < k && delay == created[l[i]].timeout - now;
      assert delay == created[l'[i]].timeout - now;
    }
  }

  lemma WaitAll(list: seq<nat>, created: seq<Timer>, now: int, delay: int)
    requires Wait(list[..|list|], created, now, delay)
    ensures Wait(list, created, now, delay)
    ensures forall i | 0 <= i < |list| :: list[i] < |created| && created[list[i]].timeout > now
  {
    assert list[..|list|] == list;
  }

  class Runtime {
    const head: Link
    /** Every timer ever set, by number. */
    var created: seq<Timer>
    /** The numbers of the armed timers, and of those whose handlers are running. */
    ghost var list: seq<nat>
    ghost var calls: seq<nat>

    ghost predicate Shape()
      reads this, head, LinksOf(created), created
    {
      Shaped(head, created, list)
    }

    ghost function Abs(): World
      reads this, created
    {
      World(list, Values(created), calls)
    }

    ghost predicate Valid()
      reads this, head, LinksOf(created), created
    {
      Shape() && Inv(Abs())
    }

    constructor ()
      ensures Valid() && fresh(head) && Abs() == START
    {
      head := new Link(0);
      created, list, calls := [], [], [];
      new;
      InitListHead(head);
      StartSound();
    }

    /** An armed timer is the one with links. */
    lemma LinkedIff(id: nat)
      requires Shape() && id < |created| && created[id].freed == 0
      ensures created[id].link.prev != null <==> id in list
    {
      if id in list {
        var k :| 0 <= k < |list| && list[k] == id;
        var nodes := At(LinksOf(created), list);
        assert Around(head, nodes)[k + 1] == created[id].link;
        assert Around(head, nodes)[k + 1].prev == Around(head, nodes)[k];
      }
    }

    /** Take an armed timer off the list. */
    method Disarm(id: nat, ghost k: nat)
      requires Shape() && k < |list| && list[k] == id && id < |created|
      modifies this`list, head, At(LinksOf(created), list)
      ensures Shape() && list == Without(old(list), id)
    {
      hide Ring, Without, Distinct;
      ghost var nodes := At(LinksOf(created), list);
      NamedWithout(head, created, list, k);
      forall i | 0 <= i < |created| && i !in list
        ensures created[i].link != head && created[i].link !in nodes
      {
        NotNode(head, created, list, i);
      }
      ListDel(created[id].link, head, nodes, k);
      list := Without(list, id);
    }

    /** Take a live timer off the list, if it is on it. */
    method UnlinkTimer(id: nat)
      requires Shape() && id < |created| && created[id].freed == 0
      modifies this`list, head, LinksOf(created)
      ensures Shape() && list == Without(old(list), id) && Values(created) == old(Values(created))
    {
      hide Shaped, Without, Values;
      LinkedIff(id);
      if created[id].link.prev != null {
        ghost var k :| 0 <= k < |list| && list[k] == id;
        NamedTimers();
        AtWithin(LinksOf(created), list);
        Disarm(id, k);
      } else {
        WithoutNone(list, id);
      }
    }

    /** Give back a timer that is alive and not armed. */
    method FreeTimer(id: nat)
      requires Shape() && id < |created| && created[id].freed == 0 && id !in list
      modifies created[id]
      ensures Shape() && Values(created) == old(Values(created))[id := Free(old(Values(created))[id])]
    {
      hide Ring, Named, Values;
      NamedTimers();
      ValuesAt(created);
      ghost var was := Values(created);
      var th := created[id];
      if th.holds {
        th.released := th.released + 1;
        th.holds := false;
      }
      th.freed := th.freed + 1;
      ValuesAt(created);
      assert Values(created) == was[id := th.Value()];
    }

    lemma NamedTimers()
      requires Shape()
      ensures forall i, j | 0 <= i < j < |created| :: created[i] != created[j]
      ensures forall k | 0 <= k < |list| :: list[k] < |created|
    {
    }

    method DropObjectFlag(id: nat)
      requires Shape() && id < |created|
      modifies created[id]
      ensures Shape() && Values(created) == old(Values(created))[id := old(Values(created))[id].(hasObject := false)]
    {
      hide Ring, Named, Values;
      NamedTimers();
      ValuesAt(created);
      ghost var was := Values(created);
      created[id].hasObject := false;
      ValuesAt(created);
      assert Values(created) == was[id := created[id].Value()];
    }

    /** Take the callback out of the timer. */
    method TakeCallback(id: nat)
      requires Shape() && id < |created|
      modifies created[id]
      ensures Shape() && Values(created) == old(Values(created))[id := old(Values(created))[id].(holds := false)]
    {
      hide Ring, Named, Values;
      NamedTimers();
      ValuesAt(created);
      ghost var was := Values(created);
      created[id].holds := false;
      ValuesAt(created);
      assert Values(created) == was[id := created[id].Value()];
    }

    ghost method Release(id: nat)
      requires Shape() && id < |created|
      modifies created[id]
      ensures Shape()
      ensures Values(created)
          == old(Values(created))[id := old(Values(created))[id].(released := old(Values(created))[id].released + 1)]
    {
      hide Ring, Named, Values;
      NamedTimers();
      ValuesAt(created);
      ghost var was := Values(created);
      created[id].released := created[id].released + 1;
      ValuesAt(created);
      assert Values(created) == was[id := created[id].Value()];
    }

    /** A live timer is sound, so a call on it is safe. */
    lemma Alive(id: nat)
      requires Inv(Abs()) && id < |created| && (id in list || Abs().timers[id].hasObject)
      ensures created[id].freed == 0
    {
      ValuesAt(created);
      SoundAt(Abs(), id);
    }

    /** Put a new timer at the end of the list. */
    method Enlist(th: Timer)
      requires Shape() && th.link.id == |created| && th !in created && th.link != head && th.link !in LinksOf(created)
      modifies this`created, this`list, head, LinksOf(created), th.link
      ensures Shape() && created == old(created) + [th] && list == old(list) + [|old(created)|]
    {
      hide Ring, Distinct;
      ghost var nodes, links := At(LinksOf(created), list), LinksOf(created);
      assert forall x | x in nodes :: x in links;
      NamedMore(head, created, list, th);
      forall i | 0 <= i < |created| && i !in list
        ensures created[i].link != head && created[i].link !in nodes && created[i].link != th.link
      {
        NotNode(head, created, list, i);
        assert links[i] == created[i].link;
      }
      ListAddTail(th.link, head, nodes);
      hide Named;
      list := list + [|created|];
      created := created + [th];
      assert At(LinksOf(created), list) == nodes + [th.link];
    }

    /** Arm a new timer; its number stands for the script object that is returned. */
    method SetTimeout(delay: int, now: int) returns (id: nat)
      requires Valid()
      modifies this`created, this`list, head, LinksOf(created)
      ensures Valid() && id == |old(created)| && |created| == id + 1 && created[..id] == old(created)
      ensures fresh(created[id]) && fresh(created[id].link)
      ensures Enabled(old(Abs()), TimerSpec.SetTimeout(now + delay))
      ensures Abs() == Apply(old(Abs()), TimerSpec.SetTimeout(now + delay))
      ensures Effect(old(Abs()), TimerSpec.SetTimeout(now + delay), Abs())
      ensures list == old(list) + [id] && Abs().timers[id] == Info(true, now + delay, true, 0, 0)
    {
      hide Shaped, Inv, Values;
      id := |created|;
      InRangeNow();
      SetSound(Abs(), now + delay);
      ListDistinct();
      HasEffect(Abs(), TimerSpec.SetTimeout(now + delay));
      ghost var was := Values(created);
      var th := new Timer(id, now + delay);
      Enlist(th);
      ValuesPush(old(created), th);
      assert Abs() == Apply(old(Abs()), TimerSpec.SetTimeout(now + delay));
    }

    lemma InRangeNow()
      requires Shape()
      ensures InRange(Abs())
    {
    }

    /** Disarm a timer whose object the script still has. */
    method ClearTimeout(id: nat)
      requires Valid() && Enabled(Abs(), TimerSpec.ClearTimeout(id))
      modifies this`list, head, LinksOf(created)
      ensures Valid() && Abs() == Apply(old(Abs()), TimerSpec.ClearTimeout(id))
      ensures Effect(old(Abs()), TimerSpec.ClearTimeout(id), Abs())
      ensures id !in list && Off(old(list), id, list) && Values(created) == old(Values(created))
    {
      hide Shaped, Inv, Values, Without;
      ListDistinct();
      HasEffect(Abs(), TimerSpec.ClearTimeout(id));
      Alive(id);
      ClearSound(Abs(), id);
      UnlinkTimer(id);
    }

    /** The script object goes away. */
    method Finalize(id: nat)
      requires Valid() && Enabled(Abs(), TimerSpec.Finalize(id))
      modifies created[id]
      ensures Valid() && Abs() == Apply(old(Abs()), TimerSpec.Finalize(id))
      ensures Effect(old(Abs()), TimerSpec.Finalize(id), Abs())
    {
      hide Shaped, Inv, Values, Effect;
      ListDistinct();
      HasEffect(Abs(), TimerSpec.Finalize(id));
      Alive(id);
      FinalizeSound(Abs(), id);
      LinkedIff(id);
      ValuesAt(created);
      DropObjectFlag(id);
      ValuesAt(created);
      if created[id].link.prev == null {
        FreeTimer(id);
      }
      assert Abs() == Apply(old(Abs()), TimerSpec.Finalize(id));
    }

    /** The handler that was called last returns; its reference to the callback is released. */
    method HandlerReturned()
      requires Valid() && Enabled(Abs(), Return)
      modifies this`calls, created[calls[|calls| - 1]]
      ensures Valid() && Abs() == Apply(old(Abs()), Return)
      ensures Effect(old(Abs()), Return, Abs())
    {
      ListDistinct();
      hide Inv, Values, Ring, Named, Effect;
      HasEffect(Abs(), Return);
      ReturnSound(Abs());
      ghost var id := calls[|calls| - 1];
      calls := calls[..|calls| - 1];
      Release(id);
      assert Abs() == Apply(old(Abs()), Return);
    }

    /** The expired timer `id` is disarmed and its handler called. */
    method StartTimer(id: nat)
      requires Valid() && id in list && id < |created|
      modifies this`list, this`calls, head, LinksOf(created), created[id]
      ensures Shape() && Abs() == Start(old(Abs()), id)
    {
      hide Shaped, Inv, Values, Without, LinksOf;
      Alive(id);
      ValuesAt(created);
      TakeCallback(id);
      ValuesAt(created);
      UnlinkTimer(id);
      if !created[id].hasObject {
        FreeTimer(id);
      }
      calls := calls + [id];
    }

    /** The node after k others is that of the k-th armed timer, or the head. */
    lemma NodeAt(k: nat)
      requires Shape() && k <= |list|
      ensures var r := Around(head, At(LinksOf(created), list));
        && r[k].next == r[k + 1] && (k < |list| <==> r[k + 1] != head)
        && (k < |list| ==> list[k] < |created| && r[k + 1] == created[list[k]].link && r[k + 1].id == list[k])
    {
    }

    /** The first expired timer on the list; if there is none, the time to wait, at most ten seconds. */
    method Scan(now: int) returns (found: bool, id: nat, minDelay: int)
      requires Shape()
      ensures InRange(Abs()) && found == (Expired(list, Values(created), now) < |list|)
      ensures found ==> id == list[Expired(list, Values(created), now)]
      ensures !found ==> Wait(list, created, now, minDelay)
    {
      hide Shaped, Values, LinksOf, At, Around, Expired, Wait;
      minDelay, id := 10000, 0;
      WaitNone(list, created, now);
      ghost var k := 0;
      NodeAt(0);
      NamedTimers();
      InRangeNow();
      ValuesAt(created);
      var el := head.next;
      while el != head
        invariant k <= |list| && el == Around(head, At(LinksOf(created), list))[k + 1]
        invariant Wait(list[..k], created, now, minDelay)
        decreases |list| - k
      {
        NodeAt(k);
        var delay := created[el.id].timeout - now;
        WaitMore(list, created, now, k, minDelay);
        if delay <= 0 {
          ExpiredAt(list, Values(created), now, k);
          return true, el.id, 0;
        } else if delay < minDelay {
          minDelay := delay;
        }
        NodeAt(k + 1);
        el := el.next;
        k := k + 1;
      }
      NodeAt(k);
      WaitAll(list, created, now, minDelay);
      ExpiredAt(list, Values(created), now, k);
      found := false;
    }

    /** The timer part of polling: call the handler of the first expired timer on the list, if there is one. */
    method Poll(now: int) returns (fired: bool, minDelay: int)
      requires Valid()
      modifies this`list, this`calls, head, LinksOf(created), created
      ensures Valid() && fired == Enabled(old(Abs()), Fire(now))
      ensures fired ==> Abs() == Apply(old(Abs()), Fire(now))
      ensures fired ==> exists k :: Fired(old(Abs()), now, k, Abs())
      ensures !fired ==> Abs() == old(Abs()) && Wait(list, created, now, minDelay)
    {
      hide Shaped, Inv, Values, Without, LinksOf, Start, Fired, Wait;
      ListDistinct();
      var id;
      fired, id, minDelay := Scan(now);
      if fired {
        FireSound(Abs(), now);
        FireHasEffect(Abs(), now);
        NamedTimers();
        StartTimer(id);
      }
    }

    /** Take the first timer off the list, and give it back if it has no object. */
    method FreeFirst() returns (next: Link)
      requires Shape() && |list| > 0 && list[0] < |created| && created[list[0]].freed == 0
      modifies this`list, head, LinksOf(created), created
      ensures Shape() && list == old(list)[1..] && next == head.next
      ensures var ts, id := old(Values(created)), old(list[0]);
        Values(created) == ts[id := if ts[id].hasObject then ts[id] else Free(ts[id])]
    {
      hide Shaped, Values, Without, LinksOf;
      NodeAt(0);
      NodeAt(1);
      ValuesAt(created);
      ListDistinct();
      FirstOff(list);
      var el := head.next;
      next := el.next;
      UnlinkTimer(el.id);
      if !created[el.id].hasObject {
        FreeTimer(el.id);
      }
      NodeAt(0);
    }

    lemma ListDistinct()
      requires Shape()
      ensures Distinct(list)
    {
    }

    /** Shutdown: disarm every timer, and give back those without an object. */
    method FreeHandlers()
      requires Valid()
      modifies this`list, head, LinksOf(created), created
      ensures Valid() && Abs() == FreeAll(old(Abs())) && Effect(old(Abs()), Shutdown, Abs())
    {
      hide Shaped, Inv, Values, Distinct, FreedSome, Effect;
      ListDistinct();
      InRangeNow();
      HasEffect(Abs(), Shutdown);
      ghost var w, k := Abs(), 0;
      ShutdownSound(w);
      ShutdownStart(w);
      NodeAt(0);
      NamedTimers();
      ListDistinct();
      var el := head.next;
      while el != head
        invariant k <= |w.list| && Shape() && list == w.list[k..] && el == head.next && FreedSome(w, k, Values(created))
        decreases |w.list| - k
      {
        NodeAt(0);
        ghost var id := w.list[k];
        FreedMore(w, k, Values(created));
        ValuesAt(created);
        SoundAt(w, id);
        el := FreeFirst();
        k := k + 1;
      }
      NodeAt(0);
      FreedDone(w, Values(created));
    }
  }

  lemma FirstOff(l: seq<nat>)
    requires |l| > 0 && Distinct(l)
    ensures Without(l, l[0]) == l[1..]
  {
    WithoutAt(l, 0);
  }

  lemma ShutdownStart(w: World)
    ensures FreedSome(w, 0, w.timers)
  {
  }

  lemma NamedMore(head: Link, created: seq<Timer>, list: seq<nat>, th: Timer)
    requires Named(head, created, list) && th.link.id == |created| && th !in created && th.link != head
    requires th.link !in LinksOf(created)
    ensures Named(head, created + [th], list + [|created|])
  {
    var links, more := LinksOf(created), LinksOf(created + [th]);
    assert more == links + [th.link];
  }
}
