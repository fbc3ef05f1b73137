/** TimerCluster: timers shared between a set ordered by (expiry, id) and a map by id, their fields changed in place.
    Times count nanoseconds of the steady clock, intervals milliseconds. */
module TimerClusters {
  import opened Basics

  datatype Kind = Single | Cycle

  /** What a timer is, apart from its callback. */
  datatype Info = Info(kind: Kind, interval: nat, expire: nat)

  /** The timers by id, as a value. */
  type Timers = map<nat, Info>

  function Later(now: nat, interval: nat): nat {
    now + 1000000 * interval
  }

  // The specification

  datatype Event =
    | Add(id: nat, kind: Kind, interval: nat)
    | Del(id: nat)
    | Reset(id: nat, interval: nat)
    | Tick

  /** An event with the clock's value when it reads it. */
  datatype Timed = At(now: nat, event: Event)

  predicate Before(m: Timers, a: nat, b: nat)
    requires a in m && b in m
  {
    m[a].expire < m[b].expire || (m[a].expire == m[b].expire && a < b)
  }

  ghost predicate IsFirst(m: Timers, id: nat) {
    id in m && forall k :: k in m && k != id ==> Before(m, id, k)
  }

  lemma {:induction false} FirstExists(m: Timers)
    requires m != map[]
    ensures exists id :: IsFirst(m, id)
  {
    var x :| x in m;
    var rest := m - {x};
    assert forall k :: k in m && k != x ==> k in rest;
    if rest == map[] {
      assert IsFirst(m, x);
    } else {
      Shrinks(m, x);
      FirstExists(rest);
      var y :| IsFirst(rest, y);
      var z := if Before(m, x, y) then x else y;
      forall k | k in m && k != z
        ensures Before(m, z, k)
      {
        if k != x && k != y {
          assert Before(rest, y, k);
        }
      }
      assert IsFirst(m, z);
    }
  }

  lemma Shrinks(m: Timers, x: nat)
    requires x in m
    ensures |m - {x}| < |m|
  {
    assert m.Keys == (m - {x}).Keys + {x};
  }

  ghost function First(m: Timers): nat
    requires m != map[]
    ensures IsFirst(m, First(m))
  {
    FirstExists(m);
    var id :| IsFirst(m, id);
    id
  }

  ghost predicate Fires(m: Timers, e: Timed, id: nat) {
    e.event.Tick? && IsFirst(m, id) && m[id].expire <= e.now
  }

  ghost function Fired(m: Timers, e: Timed): Option<nat> {
    if e.event.Tick? && m != map[] && m[First(m)].expire <= e.now then Some(First(m)) else None
  }

  lemma OneFirst(m: Timers, a: nat, b: nat)
    requires IsFirst(m, a) && b in m
    ensures IsFirst(m, b) <==> a == b
  {
    assert a != b ==> Before(m, a, b);
  }

  lemma FiredIs(m: Timers, e: Timed, id: nat)
    ensures Fired(m, e) == Some(id) <==> Fires(m, e, id)
  {
    if id in m {
      OneFirst(m, First(m), id);
    }
  }

  /** A cyclic timer that fires is due again one interval later; a single one is gone. */
  function Renewed(m: Timers, id: nat, now: nat): Timers
    requires id in m
  {
    if m[id].kind.Cycle? then m[id := m[id].(expire := Later(now, m[id].interval))] else m - {id}
  }

  ghost function Step(m: Timers, e: Timed): Timers {
    match e.event
    case Add(id, kind, interval) => if id in m then m else m[id := Info(kind, interval, Later(e.now, interval))]
    case Del(id) => m - {id}
    case Reset(id, interval) => if id in m then m[id := Info(m[id].kind, interval, Later(e.now, interval))] else m
    case Tick => if Fired(m, e).Some? then Renewed(m, Fired(m, e).value, e.now) else m
  }

  /** The answer of the call: whether it succeeded, for a tick whether a timer fired. */
  ghost function Answer(m: Timers, e: Timed): bool {
    match e.event
    case Add(id, _, _) => id !in m
    case Del(id) => id in m
    case Reset(id, _) => id in m
    case Tick => Fired(m, e).Some?
  }

  // The implementation

  class Timer {
    const id: nat
    const kind: Kind
    var interval: nat
    var expire: nat

    constructor (id: nat, kind: Kind, interval: nat, expire: nat)
      ensures this.id == id && this.kind == kind && this.interval == interval && this.expire == expire
    {
      this.id, this.kind, this.interval, this.expire := id, kind, interval, expire;
    }

    ghost function Value(): Info
      reads this
    {
      Info(kind, interval, expire)
    }

    /** TimerInfoCompare */
    predicate Less(that: Timer)
      reads this, that
    {
      if expire != that.expire then expire < that.expire else id < that.id
    }
  }

  ghost predicate Sorted(s: seq<Timer>)
    reads s
  {
    forall i, j {:trigger s[i].Less(s[j])} :: 0 <= i < j < |s| ==> s[i].Less(s[j])
  }

  /** The set and the map hold the same timers. */
  ghost predicate Agree(s: seq<Timer>, byId: map<nat, Timer>) {
    && (forall i {:trigger s[i]} :: 0 <= i < |s| ==> s[i].id in byId && byId[s[i].id] == s[i])
    && (forall k :: k in byId ==> byId[k] in s && byId[k].id == k)
  }

  class TimerCluster {
    var order: seq<Timer>
    var byId: map<nat, Timer>

    ghost predicate Valid()
      reads this, order
    {
      Sorted(order) && Agree(order, byId)
    }

    ghost function Values(): Timers
      requires Valid()
      reads this, order
    {
      map k | k in byId :: byId[k].Value()
    }

    constructor ()
      ensures Valid() && order == [] && Values() == map[]
    {
      order, byId := [], map[];
    }

    /** The place of a timer in the ordered set: what comes before it is less, what comes after is not. */
    method LowerBound(x: Timer) returns (i: nat)
      requires Sorted(order)
      ensures i <= |order|
      ensures forall j :: 0 <= j < i ==> order[j].Less(x)
      ensures forall j :: i <= j < |order| ==> !order[j].Less(x)
    {
      i := 0;
      while i < |order| && order[i].Less(x)
        invariant i <= |order|
        invariant forall j :: 0 <= j < i ==> order[j].Less(x)
      {
        i := i + 1;
      }
      forall j | i <= j < |order|
        ensures !order[j].Less(x)
      {
        if i < j {
          assert order[i].Less(order[j]);
        }
      }
    }

    /** std::set::insert of a timer that the set does not hold */
    method SetInsert(x: Timer) returns (ghost i: nat)
      requires Sorted(order) && forall t :: t in order ==> t.id != x.id
      modifies this`order
      ensures i <= |old(order)| && order == old(order)[..i] + [x] + old(order)[i..] && Sorted(order)
    {
      var k := LowerBound(x);
      i := k;
      if k == |order| || x.Less(order[k]) {
        order := order[..k] + [x] + order[k..];
      }
    }

    /** std::set::erase by value: the element that is neither less nor greater goes. */
    method SetErase(x: Timer) returns (ghost i: nat)
      requires Sorted(order) && x in order
      modifies this`order
      ensures i < |old(order)| && old(order)[i] == x && order == old(order)[..i] + old(order)[i + 1..]
      ensures Sorted(order) && x !in order
    {
      var k := LowerBound(x);
      ghost var p :| 0 <= p < |order| && order[p] == x;
      assert forall q :: k < q < |order| ==> order[k].Less(order[q]);
      i := k;
      if k < |order| && !x.Less(order[k]) {
        order := order[..k] + order[k + 1..];
      }
    }

    /** Put a timer of a new id into the set and the map. */
    method Enter(x: Timer)
      requires Valid() && x.id !in byId
      modifies this
      ensures Valid() && forall t :: t in order ==> t in old(order) || t == x
      ensures Values() == old(Values())[x.id := x.Value()]
    {
      ghost var before, timers := order, byId;
      ghost var i := SetInsert(x);
      byId := byId[x.id := x];
      AgreeAdded(before, timers, i, x);
    }

    method AddTimer(id: nat, kind: Kind, interval: nat, now: nat) returns (added: bool)
      requires Valid()
      modifies this
      ensures Valid() && forall t :: t in order ==> t in old(order) || fresh(t)
      ensures added == Answer(old(Values()), At(now, Add(id, kind, interval)))
      ensures Values() == Step(old(Values()), At(now, Add(id, kind, interval)))
      ensures added <==> id !in old(Values())
      ensures added ==> Values() == old(Values())[id := Info(kind, interval, now + 1000000 * interval)]
    {
      if id in byId {
        return false;
      }
      var x := new Timer(id, kind, interval, Later(now, interval));
      Enter(x);
      return true;
    }

    method DelTimer(id: nat, now: nat) returns (deleted: bool)
      requires Valid()
      modifies this
      ensures Valid() && forall t :: t in order ==> t in old(order)
      ensures deleted == Answer(old(Values()), At(now, Del(id)))
      ensures Values() == Step(old(Values()), At(now, Del(id)))
      ensures (deleted <==> id in old(Values())) && Values() == old(Values()) - {id}
    {
      if id !in byId {
        return false;
      }
      ghost var before, timers := order, byId;
      ghost var i := SetErase(byId[id]);
      byId := byId - {id};
      AgreeErased(before, timers, i);
      return true;
    }

    /** Take a timer out, change its expiry, put it back. */
    method Reschedule(x: Timer, interval: nat, expire: nat)
      requires Valid() && x in order
      modifies this`order, x
      ensures Valid() && (forall t :: t in order <==> t in old(order))
      ensures x.Value() == Info(x.kind, interval, expire)
    {
      ghost var before := order;
      ghost var i := SetErase(x);
      AgreeErased(before, byId, i);
      ghost var between := order;
      x.interval := interval;
      x.expire := expire;
      ghost var j := SetInsert(x);
      AgreeAdded(between, byId - {x.id}, j, x);
      assert byId == (byId - {x.id})[x.id := x];
      SameMembers(before, between, order, i, j);
    }

    method Change(x: Timer, interval: nat, expire: nat)
      requires Valid() && x in order
      modifies this`order, x
      ensures Valid() && (forall t :: t in order <==> t in old(order))
      ensures Values() == old(Values())[x.id := Info(x.kind, interval, expire)]
    {
      ghost var m := Values();
      Reschedule(x, interval, expire);
      forall k | k in byId && k != x.id
        ensures byId[k].Value() == m[k]
      {
        assert byId[k] != x;
      }
    }

    method ResetTimer(id: nat, interval: nat, now: nat) returns (reset: bool)
      requires Valid()
      modifies this, order
      ensures Valid() && forall t :: t in order ==> t in old(order)
      ensures reset == Answer(old(Values()), At(now, Reset(id, interval)))
      ensures Values() == Step(old(Values()), At(now, Reset(id, interval)))
      ensures reset <==> id in old(Values())
      ensures reset ==>
                Values() == old(Values())[id := Info(old(Values())[id].kind, interval, now + 1000000 * interval)]
    {
      if id !in byId {
        return false;
      }
      Change(byId[id], interval, Later(now, interval));
      return true;
    }

    /** std::set::erase of the first element */
    method PopFirst() returns (x: Timer)
      requires Sorted(order) && order != []
      modifies this`order
      ensures x == old(order)[0] && order == old(order)[..0] + old(order)[1..]
      ensures Sorted(order) && x !in order
    {
      FirstOnce(order);
      x := order[0];
      order := order[1..];
    }

    /** timer_set.erase(timer_set.begin()) and timer_map.erase */
    method DropFirst()
      requires Valid() && order != []
      modifies this
      ensures Valid() && forall t :: t in order ==> t in old(order)
      ensures Values() == old(Values()) - {old(order[0].id)}
    {
      ghost var before, timers := order, byId;
      var x := PopFirst();
      byId := byId - {x.id};
      AgreeErased(before, timers, 0);
    }

    /** One round of the processing thread: the first timer fires if it is due. */
    method Process(now: nat) returns (fired: Option<nat>)
      requires Valid()
      modifies this, order
      ensures Valid() && forall t :: t in order ==> t in old(order)
      ensures fired == Fired(old(Values()), At(now, Tick))
      ensures Values() == Step(old(Values()), At(now, Tick))
    {
      if |order| == 0 {
        NothingToFire();
        return None;
      }
      var x := order[0];
      FirstInOrder();
      FiredIs(Values(), At(now, Tick), x.id);
      if x.expire <= now {
        if x.kind == Cycle {
          Change(x, x.interval, Later(now, x.interval));
        } else {
          DropFirst();
        }
        return Some(x.id);
      }
      NoneFired(Values(), At(now, Tick), x.id);
      return None;
    }

    lemma NothingToFire()
      requires Valid() && order == []
      ensures Values() == map[]
    {
      assert forall k :: k in byId ==> byId[k] in order;
    }

    lemma FirstInOrder()
      requires Valid() && order != []
      ensures IsFirst(Values(), order[0].id)
    {
      forall k | k in byId && k != order[0].id
        ensures Before(Values(), order[0].id, k)
      {
        var j :| 0 <= j < |order| && order[j] == byId[k];
        assert order[0].Less(order[j]);
      }
    }

    /** A whole run of calls and ticks: the cluster answers and fires as the specification says. */
    method Run(events: seq<Timed>) returns (firings: seq<Firing>)
      requires Valid()
      modifies this, order
      ensures Valid() && Values() == After(old(Values()), events)
      ensures firings == Firings(old(Values()), events)
    {
      firings := [];
      ghost var start := Values();
      for k := 0 to |events|
        invariant Valid() && forall t :: t in order ==> t in old(order) || fresh(t)
        invariant Values() == After(start, events[..k])
        invariant firings == Firings(start, events[..k])
      {
        assert events[..k + 1] == events[..k] + [events[k]];
        RunFurther(start, events[..k], events[k]);
        var now := events[k].now;
        var answer;
        match events[k].event {
          case Add(id, kind, interval) => answer := AddTimer(id, kind, interval, now);
          case Del(id) => answer := DelTimer(id, now);
          case Reset(id, interval) => answer := ResetTimer(id, interval, now);
          case Tick =>
            var fired := Process(now);
            if fired.Some? {
              firings := firings + [Firing(fired.value, now)];
            }
        }
      }
      assert events[..|events|] == events;
    }
  }

  lemma FirstOnce(s: seq<Timer>)
    requires s != [] && Sorted(s)
    ensures s[0] !in s[1..] && Sorted(s[1..])
  {
    forall j | 0 < j < |s|
      ensures s[j] != s[0]
    {
      assert s[0].Less(s[j]);
    }
  }

  lemma AgreeAdded(s: seq<Timer>, byId: map<nat, Timer>, i: nat, x: Timer)
    requires Agree(s, byId) && i <= |s| && x.id !in byId
    ensures Agree(s[..i] + [x] + s[i..], byId[x.id := x])
  {
    var t, byId' := s[..i] + [x] + s[i..], byId[x.id := x];
    forall k | k in byId'
      ensures byId'[k] in t
    {
      if k == x.id {
        assert t[i] == x;
      } else {
        var j :| 0 <= j < |s| && s[j] == byId[k];
        assert t[if j < i then j else j + 1] == s[j];
      }
    }
  }

  lemma AgreeErased(s: seq<Timer>, byId: map<nat, Timer>, i: nat)
    requires Agree(s, byId) && i < |s| && s[i] !in s[..i] + s[i + 1..]
    ensures Agree(s[..i] + s[i + 1..], byId - {s[i].id})
  {
    var t := s[..i] + s[i + 1..];
    forall j | 0 <= j < |t|
      ensures t[j].id in byId - {s[i].id} && byId[t[j].id] == t[j]
    {
      assert t[j] == s[if j < i then j else j + 1] && t[j] != s[i];
    }
    forall k | k in byId - {s[i].id}
      ensures byId[k] in t
    {
      var j :| 0 <= j < |s| && s[j] == byId[k];
      assert t[if j < i then j else j - 1] == s[j];
    }
  }

  lemma SameMembers(s: seq<Timer>, t: seq<Timer>, u: seq<Timer>, i: nat, j: nat)
    requires i < |s| && j < |s|
    requires t == s[..i] + s[i + 1..] && u == t[..j] + [s[i]] + t[j..]
    ensures forall x :: x in u <==> x in s
  {
    assert s == s[..i] + [s[i]] + s[i + 1..] && t == t[..j] + t[j..];
    forall x
      ensures x in u <==> x in s
    {
      assert x in s <==> x in t || x == s[i];
      assert x in u <==> x in t || x == s[i];
    }
  }

  lemma NoneFired(m: Timers, e: Timed, id: nat)
    requires IsFirst(m, id) && !Fires(m, e, id)
    ensures Fired(m, e).None?
  {
    assert m != map[];
    OneFirst(m, id, First(m));
  }

  // Runs

  datatype Firing = Firing(id: nat, at: nat)

  ghost function After(m: Timers, events: seq<Timed>): Timers
    decreases |events|
  {
    if events == [] then m else After(Step(m, events[0]), events[1..])
  }

  ghost function FiringAt(m: Timers, e: Timed): seq<Firing> {
    if Fired(m, e).Some? then [Firing(Fired(m, e).value, e.now)] else []
  }

  ghost function Firings(m: Timers, events: seq<Timed>): seq<Firing>
    decreases |events|
  {
    if events == [] then [] else FiringAt(m, events[0]) + Firings(Step(m, events[0]), events[1..])
  }

  lemma {:induction false} RunFurther(m: Timers, events: seq<Timed>, e: Timed)
    ensures After(m, events + [e]) == Step(After(m, events), e)
    ensures Firings(m, events + [e]) == Firings(m, events) + FiringAt(After(m, events), e)
    decreases |events|
  {
    if events == [] {
      assert [e][1..] == [];
      assert ([] + [e])[0] == e;
    } else {
      RunFurther(Step(m, events[0]), events[1..], e);
      assert (events + [e])[1..] == events[1..] + [e];
    }
  }

  /** The times at which one timer fires. */
  ghost function TimesOf(firings: seq<Firing>, id: nat): seq<nat> {
    if firings == [] then [] else (if firings[0].id == id then [firings[0].at] else []) + TimesOf(firings[1..], id)
  }

  lemma {:induction false} TimesConcat(a: seq<Firing>, b: seq<Firing>, id: nat)
    ensures TimesOf(a + b, id) == TimesOf(a, id) + TimesOf(b, id)
  {
    if a == [] {
      assert a + b == b;
    } else {
      var t, head := a + b, if a[0].id == id then [a[0].at] else [];
      assert t[0] == a[0] && t[1..] == a[1..] + b;
      TimesConcat(a[1..], b, id);
      assert TimesOf(t, id) == head + TimesOf(t[1..], id);
      Regroup(head, TimesOf(a[1..], id), TimesOf(b, id));
    }
  }

  lemma TimesStep(m: Timers, events: seq<Timed>, id: nat)
    requires events != []
    ensures TimesOf(Firings(m, events), id)
            == (if Fires(m, events[0], id) then [events[0].now] else []) +
               TimesOf(Firings(Step(m, events[0]), events[1..]), id)
  {
    var head := FiringAt(m, events[0]);
    TimesConcat(head, Firings(Step(m, events[0]), events[1..]), id);
    FiredIs(m, events[0], id);
    if head != [] {
      assert head[1..] == [];
    }
  }

  /** Nobody resets or deletes the timer. */
  predicate LeftAlone(events: seq<Timed>, id: nat) {
    forall i :: 0 <= i < |events| ==>
                  events[i].event != Del(id) && !(events[i].event.Reset? && events[i].event.id == id)
  }

  /** The firings of a cyclic timer that is left alone: none before it expires, and each an interval after the last. */
  lemma {:induction false} CycleIsSpaced(m: Timers, events: seq<Timed>, id: nat, k: nat)
    requires id in m && m[id].kind.Cycle? && LeftAlone(events, id) && k < |TimesOf(Firings(m, events), id)|
    ensures TimesOf(Firings(m, events), id)[k] >= m[id].expire + k * (1000000 * m[id].interval)
    decreases |events|
  {
    var e, rest := events[0], events[1..];
    var m' := Step(m, e);
    TimesStep(m, events, id);
    StepLeavesAlone(m, e, id);
    if !Fires(m, e, id) {
      CycleIsSpaced(m', rest, id, k);
    } else if k > 0 {
      CycleIsSpaced(m', rest, id, k - 1);
      OneMore(k, 1000000 * m[id].interval);
    }
  }

  lemma OneMore(k: nat, span: nat)
    requires k > 0
    ensures k * span == (k - 1) * span + span
  {
  }

  lemma StepLeavesAlone(m: Timers, e: Timed, id: nat)
    requires id in m && m[id].kind.Cycle? && e.event != Del(id) && !(e.event.Reset? && e.event.id == id)
    ensures id in Step(m, e)
    ensures Step(m, e)[id] == if Fires(m, e, id) then m[id].(expire := Later(e.now, m[id].interval)) else m[id]
  {
    FiredIs(m, e, id);
  }

  /** The n-th time an added cyclic timer fires, at least n intervals have passed since it was added. */
  lemma NthFiring(m: Timers, e: Timed, events: seq<Timed>, n: nat)
    requires e.event.Add? && e.event.kind.Cycle? && e.event.id !in m
    requires LeftAlone(events, e.event.id) && 0 < n <= |TimesOf(Firings(Step(m, e), events), e.event.id)|
    ensures TimesOf(Firings(Step(m, e), events), e.event.id)[n - 1] >= e.now + n * (1000000 * e.event.interval)
  {
    CycleIsSpaced(Step(m, e), events, e.event.id, n - 1);
    OneMore(n, 1000000 * e.event.interval);
  }

  // When exactly a timer fires

  /** The event is about this timer, or fires it. */
  ghost predicate Touches(m: Timers, e: Timed, id: nat) {
    match e.event
    case Add(k, _, _) => k == id
    case Del(k) => k == id
    case Reset(k, _) => k == id
    case Tick => Fires(m, e, id)
  }

  /** No event changes a timer that it is not about and does not fire. */
  lemma OthersStay(m: Timers, e: Timed, id: nat)
    requires !Touches(m, e, id)
    ensures (id in Step(m, e) <==> id in m) && (id in m ==> Step(m, e)[id] == m[id])
  {
    FiredIs(m, e, id);
  }

  /** A call that answers true has done what it is for, and one that answers false has done nothing. */
  lemma CallsKeepTheirWord(m: Timers, e: Timed)
    ensures e.event.Add? ==> (Answer(m, e) <==> e.event.id !in m && e.event.id in Step(m, e))
    ensures e.event.Del? ==> (Answer(m, e) <==> e.event.id in m) && e.event.id !in Step(m, e)
    ensures e.event.Reset? ==> (Answer(m, e) <==> e.event.id in m && e.event.id in Step(m, e))
    ensures !Answer(m, e) ==> Step(m, e) == m
    ensures Answer(m, e) && (e.event.Add? || e.event.Reset?) ==>
              && Step(m, e)[e.event.id].interval == e.event.interval
              && Step(m, e)[e.event.id].expire == e.now + 1000000 * e.event.interval
  {
    if e.event.Del? && e.event.id !in m {
      assert m - {e.event.id} == m;
    }
  }

  lemma {:induction false} AbsentIsSilent(m: Timers, events: seq<Timed>, id: nat)
    requires id !in m && forall i :: 0 <= i < |events| ==> !(events[i].event.Add? && events[i].event.id == id)
    ensures id !in After(m, events) && TimesOf(Firings(m, events), id) == []
    decreases |events|
  {
    if events != [] {
      TimesStep(m, events, id);
      FiredIs(m, events[0], id);
      AbsentIsSilent(Step(m, events[0]), events[1..], id);
    }
  }

  /** A deleted timer never fires, of whatever kind it was, until it is added again; no other timer is affected. */
  lemma DeletedIsSilent(m: Timers, now: nat, events: seq<Timed>, id: nat)
    requires forall i :: 0 <= i < |events| ==> !(events[i].event.Add? && events[i].event.id == id)
    ensures TimesOf(Firings(Step(m, At(now, Del(id))), events), id) == []
    ensures forall k :: k != id ==> (k in Step(m, At(now, Del(id))) <==> k in m)
    ensures forall k :: k != id && k in m ==> Step(m, At(now, Del(id)))[k] == m[k]
  {
    AbsentIsSilent(Step(m, At(now, Del(id))), events, id);
  }

  function Last(times: seq<nat>, start: nat): nat {
    if times == [] then start else times[|times| - 1]
  }

  /** A timer that is left alone: until it fires it is as it was, and a cyclic one is due again one interval after every
      firing. */
  lemma {:induction false} LeftAloneIs(m: Timers, events: seq<Timed>, id: nat)
    requires id in m && LeftAlone(events, id)
    ensures TimesOf(Firings(m, events), id) == [] ==> id in After(m, events) && After(m, events)[id] == m[id]
    ensures m[id].kind.Cycle? && TimesOf(Firings(m, events), id) != [] ==>
              && id in After(m, events)
              && After(m, events)[id]
                 == m[id].(expire := Last(TimesOf(Firings(m, events), id), 0) + 1000000 * m[id].interval)
    decreases |events|
  {
    if events != [] {
      var e, m' := events[0], Step(m, events[0]);
      TimesStep(m, events, id);
      AloneStep(m, e, id);
      var rest := TimesOf(Firings(m', events[1..]), id);
      assert Last([e.now] + rest, 0) == Last(rest, e.now);
      if id in m' {
        LeftAloneIs(m', events[1..], id);
      }
    }
  }

  lemma AloneStep(m: Timers, e: Timed, id: nat)
    requires id in m && e.event != Del(id) && !(e.event.Reset? && e.event.id == id)
    ensures !Fires(m, e, id) ==> id in Step(m, e) && Step(m, e)[id] == m[id]
    ensures Fires(m, e, id) && m[id].kind.Cycle? ==>
              id in Step(m, e) && Step(m, e)[id] == m[id].(expire := e.now + 1000000 * m[id].interval)
  {
    FiredIs(m, e, id);
  }

  /** A timer that was added or reset with an interval, and left alone since, is fired by a round exactly when it is the
      first and that interval has passed, in milliseconds of a million nanoseconds each, since the call or, for a cyclic
      timer, since it last fired. */
  lemma FiresExactlyWhen(m: Timers, e: Timed, events: seq<Timed>, now: nat)
    requires (e.event.Add? && e.event.id !in m) || (e.event.Reset? && e.event.id in m)
    requires LeftAlone(events, e.event.id)
    ensures var id, m' := e.event.id, Step(m, e);
            var times := TimesOf(Firings(m', events), id);
            id in m' && (times == [] || m'[id].kind.Cycle? ==>
              (Fires(After(m', events), At(now, Tick), id) <==>
               IsFirst(After(m', events), id) && Last(times, e.now) + 1000000 * e.event.interval <= now))
  {
    CallsKeepTheirWord(m, e);
    LeftAloneIs(Step(m, e), events, e.event.id);
  }

  /** And once it is overdue it is fired after at most as many rounds as there are timers ahead of it. */
  lemma FiresInTime(m: Timers, e: Timed, events: seq<Timed>, more: seq<Timed>)
    requires (e.event.Add? && e.event.id !in m) || (e.event.Reset? && e.event.id in m)
    requires LeftAlone(events, e.event.id) && LeftAlone(more, e.event.id)
    requires var m' := Step(m, e); var times := TimesOf(Firings(m', events), e.event.id);
             && (times == [] || (e.event.id in m' && m'[e.event.id].kind.Cycle?))
             && (forall i :: 0 <= i < |more| ==> Last(times, e.now) + 1000000 * e.event.interval < more[i].now)
             && (e.event.id in After(m', events) ==> Ticks(more) > |Ahead(After(m', events), e.event.id)|)
    ensures TimesOf(Firings(After(Step(m, e), events), more), e.event.id) != []
  {
    CallsKeepTheirWord(m, e);
    LeftAloneIs(Step(m, e), events, e.event.id);
    OverdueFires(After(Step(m, e), events), more, e.event.id);
  }

  /** One for a single timer of this id in m. */
  function Singles(m: Timers, id: nat): nat {
    if id in m && m[id].kind.Single? then 1 else 0
  }

  ghost function SinglesAdded(m: Timers, events: seq<Timed>, id: nat): nat
    decreases |events|
  {
    if events == [] then 0
    else (if id !in m && events[0].event.Add? && events[0].event.id == id && events[0].event.kind.Single? then 1 else 0)
         + SinglesAdded(Step(m, events[0]), events[1..], id)
  }

  ghost function SinglesFired(m: Timers, events: seq<Timed>, id: nat): nat
    decreases |events|
  {
    if events == [] then 0
    else (if Fires(m, events[0], id) then Singles(m, id) else 0) + SinglesFired(Step(m, events[0]), events[1..], id)
  }

  ghost function SinglesDeleted(m: Timers, events: seq<Timed>, id: nat): nat
    decreases |events|
  {
    if events == [] then 0
    else (if events[0].event == Del(id) then Singles(m, id) else 0) +
         SinglesDeleted(Step(m, events[0]), events[1..], id)
  }

  /** Every single timer that was there or was added has fired once, been deleted, or is still there. */
  lemma {:induction false} SinglesBalance(m: Timers, events: seq<Timed>, id: nat)
    ensures Singles(m, id) + SinglesAdded(m, events, id)
            == SinglesFired(m, events, id) + SinglesDeleted(m, events, id) + Singles(After(m, events), id)
    decreases |events|
  {
    if events != [] {
      SinglesBalance(Step(m, events[0]), events[1..], id);
      FiredIs(m, events[0], id);
    }
  }

  /** How many timers are to fire before this one. */
  ghost function Ahead(m: Timers, id: nat): set<nat>
    requires id in m
  {
    set k | k in m && Before(m, k, id)
  }

  /** The event keeps a due timer where it is, or puts another one ahead of it: the clock stands at its expiry, and a
      timer of smaller id is due again, or for the first time, at that very moment. */
  ghost predicate Stalls(m: Timers, e: Timed, id: nat) {
    && id in m && e.now == m[id].expire
    && match e.event
       case Add(k, _, interval) => k !in m && k < id && interval == 0
       case Del(_) => false
       case Reset(k, interval) => k in m && k < id && interval == 0 && !Before(m, k, id)
       case Tick => First(m) < id && m[First(m)].kind.Cycle? && m[First(m)].interval == 0
  }

  /** A round that does not fire a due timer brings it forward exactly when it does not stall it. */
  lemma TickAdvances(m: Timers, e: Timed, id: nat)
    requires id in m && e.event.Tick? && m[id].expire <= e.now && !Fires(m, e, id)
    ensures id in Step(m, e) && Step(m, e)[id] == m[id]
    ensures |Ahead(Step(m, e), id)| <= |Ahead(m, id)|
    ensures |Ahead(Step(m, e), id)| < |Ahead(m, id)| <==> !Stalls(m, e, id)
  {
    var first, m' := First(m), Step(m, e);
    FiredIs(m, e, id);
    FiredIs(m, e, first);
    assert id != first && Before(m, first, id) && Fired(m, e) == Some(first);
    assert first in Ahead(m, id);
    forall k | k != first
      ensures k in Ahead(m', id) <==> k in Ahead(m, id)
    {
      assert k in m' <==> k in m;
    }
    if Stalls(m, e, id) {
      assert Ahead(m', id) == Ahead(m, id);
    } else {
      assert Ahead(m', id) == Ahead(m, id) - {first};
    }
  }

  /** A call on another timer puts none ahead of a due one exactly when it does not stall it. */
  lemma CallsStayBehind(m: Timers, e: Timed, id: nat)
    requires id in m && !e.event.Tick? && m[id].expire <= e.now
    requires e.event != Del(id) && !(e.event.Reset? && e.event.id == id)
    ensures id in Step(m, e) && Step(m, e)[id] == m[id]
    ensures |Ahead(Step(m, e), id)| <= |Ahead(m, id)| + 1
    ensures |Ahead(Step(m, e), id)| <= |Ahead(m, id)| <==> !Stalls(m, e, id)
  {
    var m', k := Step(m, e), e.event.id;
    forall x | x != k
      ensures x in Ahead(m', id) <==> x in Ahead(m, id)
    {
      assert x in m' <==> x in m;
    }
    if Stalls(m, e, id) {
      assert Ahead(m', id) == Ahead(m, id) + {k} && k !in Ahead(m, id);
    } else {
      assert k in Ahead(m', id) ==> k in Ahead(m, id);
      SubsetSize(Ahead(m', id), Ahead(m, id));
    }
  }

  /** How many rounds do not stall the timer, and how many calls do. */
  ghost function Rounds(m: Timers, events: seq<Timed>, id: nat): nat
    decreases |events|
  {
    if events == [] then 0
    else (if events[0].event.Tick? && !Stalls(m, events[0], id) then 1 else 0) +
         Rounds(Step(m, events[0]), events[1..], id)
  }

  ghost function Jumps(m: Timers, events: seq<Timed>, id: nat): nat
    decreases |events|
  {
    if events == [] then 0
    else (if !events[0].event.Tick? && Stalls(m, events[0], id) then 1 else 0) +
         Jumps(Step(m, events[0]), events[1..], id)
  }

  /** Whatever happens to other timers in between, a timer that is due and left alone fires after at most as many rounds
      that do not stall it as there are timers ahead of it, counting those that calls put ahead of it later. */
  lemma {:induction false} NoStarvation(m: Timers, events: seq<Timed>, id: nat)
    requires id in m && LeftAlone(events, id) && Rounds(m, events, id) > |Ahead(m, id)| + Jumps(m, events, id)
    requires forall i :: 0 <= i < |events| ==> m[id].expire <= events[i].now
    ensures TimesOf(Firings(m, events), id) != []
    decreases |events|
  {
    var e := events[0];
    TimesStep(m, events, id);
    if !Fires(m, e, id) {
      if e.event.Tick? {
        TickAdvances(m, e, id);
      } else {
        CallsStayBehind(m, e, id);
      }
      NoStarvation(Step(m, e), events[1..], id);
    }
  }

  function Ticks(events: seq<Timed>): nat {
    if events == [] then 0 else (if events[0].event.Tick? then 1 else 0) + Ticks(events[1..])
  }

  /** An overdue timer is never stalled: it fires after at most as many rounds as there were timers ahead of it. */
  lemma {:induction false} OverdueFires(m: Timers, events: seq<Timed>, id: nat)
    requires id in m && LeftAlone(events, id) && Ticks(events) > |Ahead(m, id)|
    requires forall i :: 0 <= i < |events| ==> m[id].expire < events[i].now
    ensures TimesOf(Firings(m, events), id) != []
    decreases |events|
  {
    var e := events[0];
    TimesStep(m, events, id);
    if !Fires(m, e, id) {
      if e.event.Tick? {
        TickAdvances(m, e, id);
      } else {
        CallsStayBehind(m, e, id);
      }
      OverdueFires(Step(m, e), events[1..], id);
    }
  }

  // A clock that stands still

  /** n rounds at one moment */
  function Still(t: nat, n: nat): (events: seq<Timed>)
    ensures |events| == n && forall i :: 0 <= i < n ==> events[i] == At(t, Tick)
  {
    seq(n, _ => At(t, Tick))
  }

  /** A cyclic timer of interval 0 and smaller id that is due at that moment */
  ghost predicate Blocks(m: Timers, k: nat, id: nat, t: nat) {
    k in m && k < id && m[k].kind.Cycle? && m[k].interval == 0 && m[k].expire <= t
  }

  lemma {:induction false} BlockedStarves(m: Timers, id: nat, k: nat, t: nat, n: nat)
    requires id in m && m[id].expire == t && Blocks(m, k, id, t)
    ensures TimesOf(Firings(m, Still(t, n)), id) == []
    decreases n
  {
    if n > 0 {
      var e := At(t, Tick);
      assert Before(m, k, id) && !Fires(m, e, id);
      TickAdvances(m, e, id);
      BlockStays(m, e, k);
      assert Still(t, n)[1..] == Still(t, n - 1);
      BlockedStarves(Step(m, e), id, k, t, n - 1);
      TimesStep(m, Still(t, n), id);
    }
  }

  /** A round changes nothing of a timer but its expiry, which for one of interval 0 is then now. */
  lemma BlockStays(m: Timers, e: Timed, k: nat)
    requires e.event.Tick?
    ensures k in m && m[k].kind.Cycle? ==> k in Step(m, e)
    ensures k in Step(m, e) ==> k in m && Step(m, e)[k].kind == m[k].kind && Step(m, e)[k].interval == m[k].interval
    ensures k in Step(m, e) && Step(m, e)[k] != m[k] ==>
              Fires(m, e, k) && Step(m, e)[k].expire == Later(e.now, m[k].interval)
  {
    FiredIs(m, e, k);
  }

  lemma {:induction false} UnblockedRounds(m: Timers, id: nat, t: nat, n: nat)
    requires id in m && m[id].expire == t && forall k :: !Blocks(m, k, id, t)
    ensures TimesOf(Firings(m, Still(t, n)), id) != [] || n <= |Ahead(m, id)|
    decreases n
  {
    if n > 0 {
      var e := At(t, Tick);
      assert Still(t, n)[1..] == Still(t, n - 1);
      TimesStep(m, Still(t, n), id);
      if !Fires(m, e, id) {
        TickAdvances(m, e, id);
        forall k
          ensures !Blocks(Step(m, e), k, id, t)
        {
          BlockStays(m, e, k);
          assert !Blocks(m, k, id, t);
        }
        assert !Blocks(m, First(m), id, t);
        UnblockedRounds(Step(m, e), id, t, n - 1);
      }
    }
  }

  /** While the clock stands still at its expiry, a timer waits for ever exactly when a cyclic timer of interval 0 and
      smaller id is due as well. */
  lemma StarvesExactlyWhen(m: Timers, id: nat)
    requires id in m
    ensures (forall n :: TimesOf(Firings(m, Still(m[id].expire, n)), id) == []) <==>
            exists k :: Blocks(m, k, id, m[id].expire)
  {
    var t := m[id].expire;
    if k :| Blocks(m, k, id, t) {
      forall n: nat
        ensures TimesOf(Firings(m, Still(t, n)), id) == []
      {
        BlockedStarves(m, id, k, t, n);
      }
    } else {
      UnblockedRounds(m, id, t, |Ahead(m, id)| + 1);
    }
  }

  /** One that does: timer 1 behind timer 0. */
  lemma StuckClockStarves(t: nat, n: nat)
    ensures TimesOf(Firings(map[0 := Info(Cycle, 0, t), 1 := Info(Single, 0, t)], Still(t, n)), 1) == []
  {
    BlockedStarves(map[0 := Info(Cycle, 0, t), 1 := Info(Single, 0, t)], 1, 0, t, n);
  }
}
