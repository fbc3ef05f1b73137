/** Walking a safe list while callbacks delete and add elements and start walks of their own. */
module SafeListWalks {
  import opened Basics
  import opened SafeLists

  // ----- what a callback does

  /** A callback may delete whatever element is at a position of the list, may add a new element or one that is out
      of the list, at its end or at its front, and may walk the list itself. */
  datatype Act = DeleteAt(position: nat) | Add(first: bool) | Readd(which: nat, first: bool) | Walk(bodies: seq<Body>)

  /** One invocation of a callback: what it does, and whether it asks to stop the walk. */
  datatype Body = Body(acts: seq<Act>, stop: bool)

  /** The context that callbacks share: the nodes that have been deleted and not added again. */
  class Context {
    var spare: seq<Node>

    constructor ()
      ensures spare == []
    {
      spare := [];
    }
  }

  // ----- logs

  datatype Event = Deleted(x: Node) | Appended(x: Node) | Prepended(x: Node) | Visited(walker: Iter, x: Node)
  {
    predicate Inserts() {
      Appended? || Prepended?
    }
  }

  ghost function Remove(s: seq<Node>, x: Node): seq<Node> {
    if s == [] then [] else if s[0] == x then Remove(s[1..], x) else [s[0]] + Remove(s[1..], x)
  }

  /** The elements of the list after an event. */
  ghost function Listed(items: seq<Node>, e: Event): seq<Node> {
    match e
    case Deleted(x) => Remove(items, x)
    case Appended(x) => items + [x]
    case Prepended(x) => [x] + items
    case Visited(_, _) => items
  }

  /** What a walk has still to visit after an event: an appended element too, unless its iterator hangs on the head, but
      never one put in front. */
  ghost function Owed(rest: seq<Node>, e: Event): seq<Node> {
    match e
    case Deleted(x) => Remove(rest, x)
    case Appended(x) => if rest == [] then [] else rest + [x]
    case Prepended(x) => rest
    case Visited(_, _) => rest
  }

  ghost function Replay(items: seq<Node>, log: seq<Event>): seq<Node>
    decreases |log|
  {
    if log == [] then items else Replay(Listed(items, log[0]), log[1..])
  }

  ghost function Follow(rest: seq<Node>, log: seq<Event>): seq<Node>
    decreases |log|
  {
    if log == [] then rest else Follow(Owed(rest, log[0]), log[1..])
  }

  /** Only elements that are in the list at that time are visited or deleted, and only others added. */
  ghost predicate Legal(items: seq<Node>, log: seq<Event>)
    decreases |log|
  {
    log == [] || ((log[0].x in items <==> !log[0].Inserts()) && Legal(Listed(items, log[0]), log[1..]))
  }

  ghost function VisitsBy(log: seq<Event>, it: Iter): seq<Node>
    decreases |log|
  {
    if log == [] then []
    else (if log[0].Visited? && log[0].walker == it then [log[0].x] else []) + VisitsBy(log[1..], it)
  }

  ghost predicate IsVisit(e: Event, me: Iter) {
    e.Visited? && e.walker == me
  }

  /** What one walk has still to visit after an event that may be a visit of its own. */
  ghost function After(p: seq<Node>, e: Event, me: Iter): seq<Node> {
    if IsVisit(e, me) then (if p == [] then [] else p[1..]) else Owed(p, e)
  }

  /** What one walk has still to visit after a log that holds its own visits. */
  ghost function Pending(p: seq<Node>, log: seq<Event>, me: Iter): seq<Node>
    decreases |log|
  {
    if log == [] then p
    else Pending(After(p, log[0], me), log[1..], me)
  }

  /** The walk always visits the first of what it has still to visit. */
  ghost predicate Faithful(p: seq<Node>, log: seq<Event>, me: Iter)
    decreases |log|
  {
    log == [] || ((IsVisit(log[0], me) ==> p != [] && p[0] == log[0].x) && Faithful(After(p, log[0], me), log[1..], me))
  }

  /** Added elements have not been seen before. */
  ghost predicate Novel(seen: set<Node>, log: seq<Event>)
    decreases |log|
  {
    log == [] || if log[0].Inserts() then log[0].x !in seen && Novel(seen + {log[0].x}, log[1..])
                 else Novel(seen, log[1..])
  }

  ghost function Inserted(log: seq<Event>): seq<Node>
    decreases |log|
  {
    if log == [] then [] else (if log[0].Inserts() then [log[0].x] else []) + Inserted(log[1..])
  }

  /** The appended elements alone */
  ghost function Appends(log: seq<Event>): seq<Node>
    decreases |log|
  {
    if log == [] then [] else (if log[0].Appended? then [log[0].x] else []) + Appends(log[1..])
  }

  /** The nodes that are out of the list, in the order in which they came out. */
  ghost function SpareAfter(spare: seq<Node>, log: seq<Event>): seq<Node>
    decreases |log|
  {
    if log == [] then spare
    else SpareAfter(match log[0]
                    case Deleted(x) => spare + [x]
                    case Visited(_, _) => spare
                    case _ => Remove(spare, log[0].x), log[1..])
  }

  // ----- what callbacks ask for

  /** The log is what the act asks for: the element at the position goes, one new element comes in at that end, the
      named one of those that are out comes in again, or the list is walked. */
  ghost predicate ActDoes(items: seq<Node>, spare: seq<Node>, act: Act, log: seq<Event>)
    decreases act
  {
    match act
    case DeleteAt(p) => log == if p < |items| then [Deleted(items[p])] else []
    case Add(first) => |log| == 1 && log[0].x !in items && log[0].x !in spare && log == [Insertion(log[0].x, first)]
    case Readd(w, first) => log == if w < |spare| then [Insertion(spare[w], first)] else []
    case Walk(bodies) =>
      if log == [] then items == []
      else log[0].Visited? && WalkOf(items, spare, bodies, log, log[0].walker, |VisitsBy(log, log[0].walker)|)
  }

  function Insertion(x: Node, first: bool): Event {
    if first then Prepended(x) else Appended(x)
  }

  /** The log is what the acts ask for, one after the other. */
  ghost predicate ActsDo(items: seq<Node>, spare: seq<Node>, acts: seq<Act>, log: seq<Event>)
    decreases acts
  {
    if acts == [] then log == []
    else
      var a := |acts| - 1;
      exists n: nat {:trigger log[..n]} ::
        && n <= |log| && ActsDo(items, spare, acts[..a], log[..n])
        && ActDoes(Replay(items, log[..n]), SpareAfter(spare, log[..n]), acts[a], log[n..])
  }

  /** The log is that of k visits, each followed by what the callback then does, and nothing beyond its bodies. */
  ghost predicate WalkDoes(items: seq<Node>, spare: seq<Node>, bodies: seq<Body>, log: seq<Event>, me: Iter, k: nat)
    decreases bodies, k, 0
  {
    if k == 0 then log == []
    else
      exists n: nat {:trigger log[..n]} ::
        && n < |log| && IsVisit(log[n], me) && WalkDoes(items, spare, bodies, log[..n], me, k - 1)
        && if k <= |bodies|
           then ActsDo(Replay(items, log[..n]), SpareAfter(spare, log[..n]), bodies[k - 1].acts, log[n + 1..])
           else log[n + 1..] == []
  }

  /** The k-th invocation of the callback asks to stop. */
  predicate StopsAt(bodies: seq<Body>, k: nat) {
    0 < k <= |bodies| && bodies[k - 1].stop
  }

  /** No callback before the k-th invocation asks to stop. */
  predicate NoneStops(bodies: seq<Body>, k: nat) {
    k == 0 || (!StopsAt(bodies, k - 1) && NoneStops(bodies, k - 1))
  }

  /** The log is that of a whole walk of k visits: it always visits the first of what is left, and it ends at the first
      callback that asks to stop, or when nothing is left. */
  ghost predicate WalkOf(items: seq<Node>, spare: seq<Node>, bodies: seq<Body>, log: seq<Event>, me: Iter, k: nat)
    decreases bodies, k, 1
  {
    && k == |VisitsBy(log, me)| && Faithful(items, log, me) && WalkDoes(items, spare, bodies, log, me, k)
    && NoneStops(bodies, k) && (StopsAt(bodies, k) || Pending(items, log, me) == [])
  }

  // ----- facts about them

  lemma {:induction false} ReplayConcat(items: seq<Node>, l1: seq<Event>, l2: seq<Event>)
    ensures Replay(items, l1 + l2) == Replay(Replay(items, l1), l2)
    ensures Legal(items, l1) && Legal(Replay(items, l1), l2) ==> Legal(items, l1 + l2)
    decreases |l1|
  {
    if l1 == [] {
      assert l1 + l2 == l2;
    } else {
      assert (l1 + l2)[1..] == l1[1..] + l2;
      ReplayConcat(Listed(items, l1[0]), l1[1..], l2);
    }
  }

  lemma {:induction false} FollowConcat(rest: seq<Node>, l1: seq<Event>, l2: seq<Event>)
    ensures Follow(rest, l1 + l2) == Follow(Follow(rest, l1), l2)
    decreases |l1|
  {
    if l1 == [] {
      assert l1 + l2 == l2;
    } else {
      assert (l1 + l2)[1..] == l1[1..] + l2;
      FollowConcat(Owed(rest, l1[0]), l1[1..], l2);
    }
  }

  lemma {:induction false} SpareConcat(spare: seq<Node>, l1: seq<Event>, l2: seq<Event>)
    ensures SpareAfter(spare, l1 + l2) == SpareAfter(SpareAfter(spare, l1), l2)
    decreases |l1|
  {
    if l1 == [] {
      assert l1 + l2 == l2;
    } else {
      assert (l1 + l2)[1..] == l1[1..] + l2;
      SpareConcat(match l1[0]
                  case Deleted(x) => spare + [x]
                  case Visited(_, _) => spare
                  case _ => Remove(spare, l1[0].x), l1[1..], l2);
    }
  }

  lemma ActsMore(items: seq<Node>, spare: seq<Node>, acts: seq<Act>, a: nat, log: seq<Event>, more: seq<Event>)
    requires a < |acts| && ActsDo(items, spare, acts[..a], log)
    requires ActDoes(Replay(items, log), SpareAfter(spare, log), acts[a], more)
    ensures ActsDo(items, spare, acts[..a + 1], log + more)
  {
    var now, all := acts[..a + 1], log + more;
    assert now[..a] == acts[..a] && all[..|log|] == log && all[|log|..] == more;
  }

  lemma WalkMore(items: seq<Node>, spare: seq<Node>, bodies: seq<Body>, log: seq<Event>, me: Iter, k: nat, x: Node,
                 more: seq<Event>)
    requires WalkDoes(items, spare, bodies, log, me, k)
    requires if k < |bodies| then ActsDo(Replay(items, log), SpareAfter(spare, log), bodies[k].acts, more)
             else more == []
    ensures WalkDoes(items, spare, bodies, log + [Visited(me, x)] + more, me, k + 1)
  {
    var all, n := log + [Visited(me, x)] + more, |log|;
    assert all[..n] == log && all[n] == Visited(me, x) && all[n + 1..] == more;
  }

  /** A walk begins with a visit of its own. */
  lemma {:induction false} WalkBegins(items: seq<Node>, spare: seq<Node>, bodies: seq<Body>, log: seq<Event>, me: Iter,
                                      k: nat)
    requires WalkDoes(items, spare, bodies, log, me, k) && log != []
    ensures IsVisit(log[0], me)
    decreases k
  {
    var n: nat :| n < |log| && IsVisit(log[n], me) && WalkDoes(items, spare, bodies, log[..n], me, k - 1);
    if n > 0 {
      WalkBegins(items, spare, bodies, log[..n], me, k - 1);
    }
  }

  lemma {:induction false} VisitsConcat(l1: seq<Event>, l2: seq<Event>, it: Iter)
    ensures VisitsBy(l1 + l2, it) == VisitsBy(l1, it) + VisitsBy(l2, it)
    decreases |l1|
  {
    if l1 == [] {
      assert l1 + l2 == l2;
    } else {
      assert (l1 + l2)[1..] == l1[1..] + l2;
      VisitsConcat(l1[1..], l2, it);
    }
  }

  lemma {:induction false} PendingConcat(p: seq<Node>, l1: seq<Event>, l2: seq<Event>, me: Iter)
    ensures Pending(p, l1 + l2, me) == Pending(Pending(p, l1, me), l2, me)
    ensures Faithful(p, l1, me) && Faithful(Pending(p, l1, me), l2, me) ==> Faithful(p, l1 + l2, me)
    decreases |l1|
  {
    if l1 == [] {
      assert l1 + l2 == l2;
    } else {
      assert (l1 + l2)[1..] == l1[1..] + l2;
      PendingConcat(After(p, l1[0], me), l1[1..], l2, me);
    }
  }

  /** Without visits of its own, what a walk has to visit changes as what its iterator has to visit. */
  lemma {:induction false} PendingFollows(p: seq<Node>, log: seq<Event>, me: Iter)
    requires forall e :: e in log ==> !IsVisit(e, me)
    ensures Pending(p, log, me) == Follow(p, log) && Faithful(p, log, me) && VisitsBy(log, me) == []
    decreases |log|
  {
    if log != [] {
      assert log[0] in log;
      PendingFollows(Owed(p, log[0]), log[1..], me);
    }
  }

  lemma {:induction false} RemoveMembers(s: seq<Node>, x: Node, y: Node)
    ensures y in Remove(s, x) <==> y in s && y != x
  {
    if s != [] {
      RemoveMembers(s[1..], x, y);
    }
  }

  /** Every element of the list was there or has been added. */
  lemma {:induction false} ReplayMembers(items: seq<Node>, log: seq<Event>, y: Node)
    requires y in Replay(items, log)
    ensures y in items || y in Inserted(log)
    decreases |log|
  {
    if log != [] {
      ReplayMembers(Listed(items, log[0]), log[1..], y);
      if log[0].Deleted? {
        RemoveMembers(items, log[0].x, y);
      }
    }
  }

  lemma {:induction false} RemoveAbsent(s: seq<Node>, x: Node)
    requires x !in s
    ensures Remove(s, x) == s
  {
    if s != [] {
      RemoveAbsent(s[1..], x);
    }
  }

  /** Removing the element at position k of a sequence without repetitions. */
  lemma {:induction false} RemoveAt(s: seq<Node>, k: nat)
    requires Distinct(s) && k < |s|
    ensures Remove(s, s[k]) == DropAt(s, k)
    decreases |s|
  {
    if k == 0 {
      assert s[0] !in s[1..];
      RemoveAbsent(s[1..], s[0]);
    } else {
      RemoveAt(s[1..], k - 1);
      assert DropAt(s, k) == [s[0]] + DropAt(s[1..], k - 1);
    }
  }

  // ----- what the log of a walk says about its visits

  /** t is what is left of s when some of its elements are left out. */
  ghost predicate InOrder(s: seq<Node>, t: seq<Node>) {
    t == [] || (s != [] && (InOrder(s[1..], t) || (s[0] == t[0] && InOrder(s[1..], t[1..]))))
  }

  /** The elements of the list that the walk has visited since they were added, if it had visited these before. */
  ghost function Seen(seen: set<Node>, log: seq<Event>, me: Iter): set<Node>
    decreases |log|
  {
    if log == [] then seen
    else Seen(match log[0]
              case Deleted(x) => seen - {x}
              case Visited(walker, x) => if walker == me then seen + {x} else seen
              case _ => seen, log[1..], me)
  }

  /** The elements of the list that were put in front during the walk, or appended while nothing but the element it
      was at was left to visit. */
  ghost function Missed(missed: set<Node>, p: seq<Node>, log: seq<Event>, me: Iter): set<Node>
    decreases |log|
  {
    if log == [] then missed
    else Missed(match log[0]
                case Deleted(x) => missed - {x}
                case Prepended(x) => missed + {x}
                case Appended(x) => if p == [] then missed + {x} else missed
                case _ => missed, After(p, log[0], me), log[1..], me)
  }

  lemma {:induction false} InOrderItself(s: seq<Node>)
    ensures InOrder(s, s)
  {
    if s != [] {
      InOrderItself(s[1..]);
    }
  }

  lemma {:induction false} InOrderWithout(s: seq<Node>, t: seq<Node>, x: Node, u: seq<Node>)
    requires InOrder(s, t + [x] + u)
    ensures InOrder(s, t + u)
    decreases |s|
  {
    var w := t + [x] + u;
    if InOrder(s[1..], w) {
      InOrderWithout(s[1..], t, x, u);
    } else if t == [] {
      assert w[1..] == u && t + u == u;
    } else {
      assert w[1..] == t[1..] + [x] + u && (t + u)[1..] == t[1..] + u && w[0] == t[0] == (t + u)[0];
      InOrderWithout(s[1..], t[1..], x, u);
    }
  }

  lemma {:induction false} InOrderRemove(s: seq<Node>, t: seq<Node>, u: seq<Node>, x: Node)
    requires InOrder(s, t + u)
    ensures InOrder(s, t + Remove(u, x))
    decreases |u|
  {
    if u != [] {
      var one, rest := [u[0]], u[1..];
      assert u == one + rest;
      ConcatOne(t, one, rest);
      if u[0] == x {
        InOrderWithout(s, t, x, rest);
        InOrderRemove(s, t, rest, x);
      } else {
        InOrderRemove(s, t + one, rest, x);
        ConcatOne(t, one, Remove(rest, x));
      }
    }
  }

  lemma {:induction false} InOrderExtend(s: seq<Node>, t: seq<Node>, x: Node)
    requires InOrder(s, t)
    ensures InOrder(s + [x], t) && InOrder(s + [x], t + [x])
    decreases |s|
  {
    if s == [] {
      assert t + [x] == [x] && s + [x] == [x];
    } else {
      assert (s + [x])[1..] == s[1..] + [x] && (s + [x])[0] == s[0];
      if InOrder(s[1..], t) {
        InOrderExtend(s[1..], t, x);
      } else {
        assert (t + [x])[1..] == t[1..] + [x] && (t + [x])[0] == t[0];
        InOrderExtend(s[1..], t[1..], x);
      }
    }
  }

  lemma {:induction false} InOrderFront(s: seq<Node>, t: seq<Node>, u: seq<Node>)
    requires InOrder(s, t + u)
    ensures InOrder(s, t)
    decreases |s|
  {
    if t != [] {
      if InOrder(s[1..], t + u) {
        InOrderFront(s[1..], t, u);
      } else {
        assert (t + u)[1..] == t[1..] + u;
        InOrderFront(s[1..], t[1..], u);
      }
    }
  }

  lemma {:induction false} InOrderMembers(s: seq<Node>, t: seq<Node>, x: Node)
    requires InOrder(s, t) && x in t
    ensures x in s
  {
    if InOrder(s[1..], t) {
      InOrderMembers(s[1..], t, x);
    } else if x != t[0] {
      InOrderMembers(s[1..], t[1..], x);
    }
  }

  lemma {:induction false} InOrderDistinct(s: seq<Node>, t: seq<Node>)
    requires InOrder(s, t) && Distinct(s)
    ensures Distinct(t)
  {
    if t != [] {
      assert s[0] !in s[1..];
      if InOrder(s[1..], t) {
        InOrderDistinct(s[1..], t);
      } else {
        InOrderDistinct(s[1..], t[1..]);
        if t[0] in t[1..] {
          InOrderMembers(s[1..], t[1..], t[0]);
        }
        DistinctFront(t[0], t[1..]);
        assert t == [t[0]] + t[1..];
      }
    }
  }

  lemma DistinctFront(x: Node, s: seq<Node>)
    requires Distinct(s) && x !in s
    ensures Distinct([x] + s)
  {
  }

  lemma OrderStep(all: seq<Node>, done: seq<Node>, p: seq<Node>, e: Event, me: Iter)
    requires InOrder(all, done + p) && (IsVisit(e, me) ==> p != [] && p[0] == e.x)
    ensures InOrder(if e.Appended? then all + [e.x] else all,
                    (if IsVisit(e, me) then done + [e.x] else done) + After(p, e, me))
  {
    match e {
      case Deleted(x) =>
        InOrderRemove(all, done, p, x);
      case Appended(x) =>
        InOrderExtend(all, done + p, x);
        assert done + p + [x] == done + (p + [x]);
        assert p == [] ==> done + [] == done + p;
      case Prepended(_) =>
      case Visited(_, x) =>
        assert IsVisit(e, me) ==> done + p == done + [x] + p[1..];
    }
  }

  lemma {:induction false} OrderKept(all: seq<Node>, done: seq<Node>, p: seq<Node>, log: seq<Event>, me: Iter)
    requires InOrder(all, done + p) && Faithful(p, log, me)
    ensures InOrder(all + Appends(log), done + VisitsBy(log, me))
    decreases |log|
  {
    if log == [] {
      assert all + Appends(log) == all && done + VisitsBy(log, me) == done;
      InOrderFront(all, done, p);
    } else {
      var e := log[0];
      var all', done' := if e.Appended? then all + [e.x] else all, if IsVisit(e, me) then done + [e.x] else done;
      OrderStep(all, done, p, e, me);
      OrderKept(all', done', After(p, e, me), log[1..], me);
      FirstEvent(all, done, log, me);
    }
  }

  lemma FirstEvent(all: seq<Node>, done: seq<Node>, log: seq<Event>, me: Iter)
    requires log != []
    ensures all + Appends(log) == (if log[0].Appended? then all + [log[0].x] else all) + Appends(log[1..])
    ensures done + VisitsBy(log, me)
            == (if IsVisit(log[0], me) then done + [log[0].x] else done) + VisitsBy(log[1..], me)
  {
    ConcatOne(all, if log[0].Appended? then [log[0].x] else [], Appends(log[1..]));
    ConcatOne(done, if IsVisit(log[0], me) then [log[0].x] else [], VisitsBy(log[1..], me));
  }

  lemma ConcatOne(s: seq<Node>, one: seq<Node>, t: seq<Node>)
    ensures s + (one + t) == s + one + t && (one == [] ==> s + one == s)
  {
  }

  lemma {:induction false} NeverAgain(seen: set<Node>, log: seq<Event>, x: Node)
    requires Novel(seen, log) && x in seen
    ensures x !in Inserted(log) && x !in Appends(log)
    decreases |log|
  {
    if log != [] {
      NeverAgain(if log[0].Inserts() then seen + {log[0].x} else seen, log[1..], x);
    }
  }

  lemma {:induction false} AppendsDistinct(seen: set<Node>, log: seq<Event>)
    requires Novel(seen, log)
    ensures Distinct(Appends(log))
    decreases |log|
  {
    if log != [] {
      var x := log[0].x;
      AppendsDistinct(if log[0].Inserts() then seen + {x} else seen, log[1..]);
      if log[0].Appended? {
        NeverAgain(seen + {x}, log[1..], x);
        DistinctFront(x, Appends(log[1..]));
      } else {
        assert Appends(log) == Appends(log[1..]);
      }
    }
  }

  /** A walk visits in the order of the list, appended elements behind the others, each at most once for every time that
      it is there at the start or appended ... */
  lemma VisitsInOrder(items: seq<Node>, log: seq<Event>, me: Iter)
    requires Faithful(items, log, me)
    ensures InOrder(items + Appends(log), VisitsBy(log, me))
  {
    assert [] + items == items && [] + VisitsBy(log, me) == VisitsBy(log, me);
    InOrderItself(items);
    OrderKept(items, [], items, log, me);
  }

  /** ... so none twice if no element is added again. */
  lemma VisitsOnce(items: seq<Node>, log: seq<Event>, me: Iter)
    requires Faithful(items, log, me) && Distinct(items) && Novel(NodeSet(items), log)
    ensures Distinct(VisitsBy(log, me))
  {
    VisitsInOrder(items, log, me);
    AppendsDistinct(NodeSet(items), log);
    forall x | x in items
      ensures x !in Appends(log)
    {
      NeverAgain(NodeSet(items), log, x);
    }
    ConcatDistinct(items, Appends(log));
    InOrderDistinct(items + Appends(log), VisitsBy(log, me));
  }

  /** Every element of the list has been visited since it was added, is still to be visited, or has been missed, and
      only one of these. */
  ghost predicate Split(items: seq<Node>, p: seq<Node>, seen: set<Node>, missed: set<Node>) {
    && Distinct(p) && NodeSet(p) + seen + missed <= NodeSet(items)
    && forall x :: x in items ==> OneOf(x in p, x in seen, x in missed)
  }

  predicate OneOf(a: bool, b: bool, c: bool) {
    (a && !b && !c) || (!a && b && !c) || (!a && !b && c)
  }

  lemma {:induction false} RemoveDistinct(s: seq<Node>, x: Node)
    requires Distinct(s)
    ensures Distinct(Remove(s, x))
  {
    if s != [] {
      RemoveDistinct(s[1..], x);
      RemoveMembers(s[1..], x, s[0]);
      assert s[0] !in s[1..];
      if s[0] != x {
        DistinctFront(s[0], Remove(s[1..], x));
      }
    }
  }

  lemma SplitDeleted(items: seq<Node>, p: seq<Node>, seen: set<Node>, missed: set<Node>, x: Node)
    requires Split(items, p, seen, missed)
    ensures Split(Remove(items, x), Remove(p, x), seen - {x}, missed - {x})
  {
    RemoveDistinct(p, x);
    RemoveSet(p, x);
    RemoveSet(items, x);
    forall y | y in Remove(items, x)
      ensures OneOf(y in Remove(p, x), y in seen - {x}, y in missed - {x})
    {
      assert y in NodeSet(items) - {x};
      assert y in Remove(p, x) <==> y in NodeSet(p) - {x};
    }
  }

  lemma {:induction false} RemoveSet(s: seq<Node>, x: Node)
    ensures NodeSet(Remove(s, x)) == NodeSet(s) - {x}
  {
    if s != [] {
      RemoveSet(s[1..], x);
      NodeSetFront(s[0], s[1..]);
      NodeSetFront(s[0], Remove(s[1..], x));
      assert s == [s[0]] + s[1..];
    }
  }

  lemma NodeSetFront(x: Node, s: seq<Node>)
    ensures NodeSet([x] + s) == NodeSet(s + [x]) == {x} + NodeSet(s)
  {
  }

  lemma SplitVisited(items: seq<Node>, p: seq<Node>, seen: set<Node>, missed: set<Node>)
    requires Split(items, p, seen, missed) && p != []
    ensures Split(items, p[1..], seen + {p[0]}, missed)
  {
    assert p == [p[0]] + p[1..] && p[0] !in p[1..];
    NodeSetFront(p[0], p[1..]);
    assert p[0] in NodeSet(p);
  }

  lemma SplitAppended(items: seq<Node>, p: seq<Node>, seen: set<Node>, missed: set<Node>, x: Node)
    requires Split(items, p, seen, missed) && x !in items
    ensures Split(items + [x], p + [x], seen, missed) && Split(items + [x], p, seen, missed + {x})
    ensures Split([x] + items, p, seen, missed + {x})
  {
    NodeSetFront(x, items);
    NodeSetFront(x, p);
    assert x !in NodeSet(items);
  }

  lemma {:induction false} SplitKept(items: seq<Node>, p: seq<Node>, seen: set<Node>, missed: set<Node>,
                                     log: seq<Event>, me: Iter)
    requires Split(items, p, seen, missed) && Legal(items, log) && Faithful(p, log, me)
    ensures Split(Replay(items, log), Pending(p, log, me), Seen(seen, log, me), Missed(missed, p, log, me))
    decreases |log|
  {
    if log != [] {
      var items', p', rest := Listed(items, log[0]), After(p, log[0], me), log[1..];
      match log[0] {
        case Deleted(x) =>
          SplitDeleted(items, p, seen, missed, x);
          SplitKept(items', p', seen - {x}, missed - {x}, rest, me);
        case Appended(x) =>
          SplitAppended(items, p, seen, missed, x);
          SplitKept(items', p', seen, if p == [] then missed + {x} else missed, rest, me);
        case Prepended(x) =>
          SplitAppended(items, p, seen, missed, x);
          SplitKept(items', p', seen, missed + {x}, rest, me);
        case Visited(walker, x) =>
          if walker == me {
            SplitVisited(items, p, seen, missed);
          }
          SplitKept(items', p', if walker == me then seen + {x} else seen, missed, rest, me);
      }
    }
  }

  /** Of the elements that are in the list in the end, a walk that is not stopped has visited, since they were added,
      exactly those that were not put in front of it or appended while it was at its last element. */
  lemma WalkIsComplete(items: seq<Node>, log: seq<Event>, me: Iter)
    requires Faithful(items, log, me) && Pending(items, log, me) == [] && Legal(items, log) && Distinct(items)
    ensures forall x :: x in Replay(items, log) ==> (x in Seen({}, log, me) <==> x !in Missed({}, items, log, me))
  {
    SplitKept(items, items, {}, {}, log, me);
  }

  /** An element of the final list that was never added again has been visited since it was added if it has been
      visited. */
  lemma {:induction false} SeenIsVisited(ever: set<Node>, items: seq<Node>, seen: set<Node>, log: seq<Event>, me: Iter,
                                         x: Node)
    requires Novel(ever, log) && Legal(items, log) && x in Replay(items, log)
    requires (x in items ==> x in ever) && (x !in items ==> x !in seen)
    ensures x in Seen(seen, log, me) <==> x in seen || x in VisitsBy(log, me)
    decreases |log|
  {
    if log != [] {
      var e, items' := log[0], Listed(items, log[0]);
      if e.Deleted? {
        RemoveMembers(items, e.x, x);
        if e.x == x {
          NeverAgain(ever, log, x);
          ReplayMembers(items', log[1..], x);
        }
      }
      var seen' := match e
        case Deleted(y) => seen - {y}
        case Visited(walker, y) => if walker == me then seen + {y} else seen
        case _ => seen;
      SeenIsVisited(if e.Inserts() then ever + {e.x} else ever, items', seen', log[1..], me, x);
    }
  }

  /** When no element is added again, these are the elements that it has visited at all. */
  lemma VisitedExactlyWhen(items: seq<Node>, log: seq<Event>, me: Iter, x: Node)
    requires Faithful(items, log, me) && Pending(items, log, me) == [] && Legal(items, log) && Distinct(items)
    requires Novel(NodeSet(items), log) && x in Replay(items, log)
    ensures x in VisitsBy(log, me) <==> x !in Missed({}, items, log, me)
  {
    WalkIsComplete(items, log, me);
    SeenIsVisited(NodeSet(items), items, {}, log, me, x);
  }

  // ----- what an iterator has yet to visit

  ghost function RestAt(ring: seq<Node>, k: nat): seq<Node>
    requires k < |ring|
  {
    if k == 0 then [] else ring[k..]
  }

  /** `rest` is what the iterator has still to visit: the list from the node it hangs on, nothing if that is the
      head. */
  ghost predicate HasRest(ring: seq<Node>, chains: seq<seq<Iter>>, it: Iter, rest: seq<Node>) {
    && |ring| == |chains|
    && exists k: nat {:trigger chains[k]} :: k < |chains| && it in chains[k] && rest == RestAt(ring, k)
  }

  lemma RestAfterDel(ring: seq<Node>, chains: seq<seq<Iter>>, k: nat, it: Iter, rest: seq<Node>)
    requires HasRest(ring, chains, it, rest) && Distinct(ring) && 0 < k < |ring|
    ensures HasRest(DropAt(ring, k), Merged(chains, k), it, Remove(rest, ring[k]))
  {
    var c: nat :| c < |chains| && it in chains[c] && rest == RestAt(ring, c);
    RestWithout(ring, k, c);
    StillHangs(chains, k, c, it);
  }

  /** Position of the chain that holds the iterators of position c once position k is gone. */
  ghost function NewPosition(n: nat, k: nat, c: nat): (p: nat)
    requires 0 < k < n && c < n
    ensures p < n - 1
  {
    var o := if c == k then Succ(n, k) else c;
    if o < k then o else o - 1
  }

  lemma StillHangs(chains: seq<seq<Iter>>, k: nat, c: nat, it: Iter)
    requires 0 < k < |chains| && c < |chains| && it in chains[c]
    ensures it in Merged(chains, k)[NewPosition(|chains|, k, c)]
  {
    MergedAt(chains, k, NewPosition(|chains|, k, c));
  }

  lemma RestWithout(ring: seq<Node>, k: nat, c: nat)
    requires Distinct(ring) && 0 < k < |ring| && c < |ring|
    ensures RestAt(DropAt(ring, k), NewPosition(|ring|, k, c)) == Remove(RestAt(ring, c), ring[k])
  {
    if c == 0 {
      assert Remove([], ring[k]) == [];
    } else if c <= k {
      SuffixWithout(ring, k, c);
      assert NewPosition(|ring|, k, c) == if c == |ring| - 1 then 0 else c;
      assert c == |ring| - 1 ==> DropAt(ring, k)[c..] == [];
    } else {
      SuffixStays(ring, k, c);
      assert NewPosition(|ring|, k, c) == c - 1 > 0;
    }
  }

  lemma SuffixStays(ring: seq<Node>, k: nat, c: nat)
    requires Distinct(ring) && k < c < |ring|
    ensures Remove(ring[c..], ring[k]) == ring[c..] == DropAt(ring, k)[c - 1..]
  {
    assert ring[k] !in ring[c..];
    RemoveAbsent(ring[c..], ring[k]);
  }

  lemma SuffixWithout(ring: seq<Node>, k: nat, c: nat)
    requires Distinct(ring) && 0 < c <= k < |ring|
    ensures Remove(ring[c..], ring[k]) == DropAt(ring, k)[c..]
  {
    RemoveAt(ring[c..], k - c);
    assert ring[c..][k - c] == ring[k];
    assert DropAt(ring[c..], k - c) == DropAt(ring, k)[c..];
  }

  lemma RestAfterSet(ring: seq<Node>, chains: seq<seq<Iter>>, m: nat, me: Iter)
    requires |ring| == |chains| && m < |chains|
    ensures var chains' := chains[m := [me] + chains[m]];
            && HasRest(ring, chains', me, RestAt(ring, m))
            && Iters(chains') == Iters(chains) + {me}
            && forall it, rest :: HasRest(ring, chains, it, rest) ==> HasRest(ring, chains', it, rest)
  {
    var chains' := chains[m := [me] + chains[m]];
    assert me in chains'[m];
    assert forall k :: 0 <= k < |chains| ==> forall it :: it in chains[k] ==> it in chains'[k];
    assert Iters(chains') == Iters(chains) + {me} by {
      forall it
        ensures it in Iters(chains') <==> it in Iters(chains) + {me}
      {
        InIters(chains', it);
        InIters(chains, it);
      }
    }
    forall it, rest | HasRest(ring, chains, it, rest)
      ensures HasRest(ring, chains', it, rest)
    {
      var k: nat :| k < |chains| && it in chains[k] && rest == RestAt(ring, k);
      assert it in chains'[k];
    }
  }

  lemma InIters(chains: seq<seq<Iter>>, it: Iter)
    ensures it in Iters(chains) <==> exists k :: 0 <= k < |chains| && it in chains[k]
  {
    if it in Iters(chains) {
      var k, j :| 0 <= k < |chains| && 0 <= j < |chains[k]| && chains[k][j] == it;
      assert it in chains[k];
    }
    if k :| 0 <= k < |chains| && it in chains[k] {
      var j :| 0 <= j < |chains[k]| && chains[k][j] == it;
    }
  }

  lemma RestAfterDrop(ring: seq<Node>, chains: seq<seq<Iter>>, k: nat, j: nat)
    requires |ring| == |chains| && k < |chains| && j < |chains[k]| && DistinctIters(chains)
    ensures var chains', me := chains[k := DropAt(chains[k], j)], chains[k][j];
            && Iters(chains') == Iters(chains) - {me}
            && forall it, rest :: it != me && HasRest(ring, chains, it, rest) ==> HasRest(ring, chains', it, rest)
  {
    var chains', me := chains[k := DropAt(chains[k], j)], chains[k][j];
    assert Distinct(chains[k]) && me in chains[k];
    forall it, c | 0 <= c < |chains|
      ensures it in chains'[c] <==> it in chains[c] && it != me
    {
      if c == k && it in chains[k] && it != me {
        var u :| 0 <= u < |chains[k]| && chains[k][u] == it;
        assert chains'[k][if u < j then u else u - 1] == it;
      }
    }
    assert Iters(chains') == Iters(chains) - {me} by {
      forall it
        ensures it in Iters(chains') <==> it in Iters(chains) - {me}
      {
        InIters(chains', it);
        InIters(chains, it);
      }
    }
    forall it, rest | it != me && HasRest(ring, chains, it, rest)
      ensures HasRest(ring, chains', it, rest)
    {
      var c: nat :| c < |chains| && it in chains[c] && rest == RestAt(ring, c);
      assert it in chains'[c];
    }
  }

  lemma ItersAfterDel(chains: seq<seq<Iter>>, k: nat)
    requires 0 < k < |chains|
    ensures Iters(Merged(chains, k)) == Iters(chains)
  {
    var r := Merged(chains, k);
    forall it
      ensures it in Iters(r) <==> it in Iters(chains)
    {
      InIters(r, it);
      InIters(chains, it);
      if c: nat :| c < |chains| && it in chains[c] {
        StillHangs(chains, k, c, it);
      }
      if c: nat :| c < |r| && it in r[c] {
        MergedAt(chains, k, c);
      }
    }
  }

  // ----- how a list evolves

  /** The log takes the list from one state to another: what it deletes is gone from the list and from what every
      iterator has yet to visit, what it appends is at the end of the list and of what every iterator has yet to visit
      that does not hang on the head, what it puts in front is there and of no concern to any iterator, and nothing else
      has changed.  `extra` are iterators that have been added. */
  ghost predicate Evolves(ring: seq<Node>, chains: seq<seq<Iter>>, log: seq<Event>,
                          ring': seq<Node>, chains': seq<seq<Iter>>, extra: set<Iter>)
  {
    && |ring| >= 1 && |ring'| >= 1 && ring'[0] == ring[0]
    && Legal(ring[1..], log) && ring'[1..] == Replay(ring[1..], log)
    && Iters(chains') == Iters(chains) + extra
    && |ring| == |chains|
    && forall k: nat, it {:trigger it in chains[k]} :: k < |chains| && it in chains[k] ==>
         HasRest(ring', chains', it, Follow(RestAt(ring, k), log))
  }

  lemma EvolvesTogether(r0: seq<Node>, c0: seq<seq<Iter>>, l1: seq<Event>, r1: seq<Node>, c1: seq<seq<Iter>>,
                        l2: seq<Event>, r2: seq<Node>, c2: seq<seq<Iter>>, extra: set<Iter>)
    requires Evolves(r0, c0, l1, r1, c1, extra) && Evolves(r1, c1, l2, r2, c2, {})
    ensures Evolves(r0, c0, l1 + l2, r2, c2, extra)
  {
    ReplayConcat(r0[1..], l1, l2);
    forall k: nat, it | k < |c0| && it in c0[k]
      ensures HasRest(r2, c2, it, Follow(RestAt(r0, k), l1 + l2))
    {
      FollowConcat(RestAt(r0, k), l1, l2);
      assert HasRest(r1, c1, it, Follow(RestAt(r0, k), l1));
      var k1: nat :| k1 < |c1| && it in c1[k1] && Follow(RestAt(r0, k), l1) == RestAt(r1, k1);
    }
  }

  lemma OneEvent(s: seq<Node>, e: Event)
    ensures Replay(s, [e]) == Listed(s, e) && Follow(s, [e]) == Owed(s, e)
    ensures Legal(s, [e]) <==> (e.x in s <==> !e.Inserts())
  {
    assert [e][1..] == [];
    assert Replay(s, [e]) == Replay(Listed(s, e), []) && Follow(s, [e]) == Follow(Owed(s, e), []);
  }

  lemma DelEvolves(ring: seq<Node>, chains: seq<seq<Iter>>, k: nat)
    requires |ring| == |chains| && 0 < k < |ring| && Distinct(ring)
    ensures Evolves(ring, chains, [Deleted(ring[k])], DropAt(ring, k), Merged(chains, k), {})
  {
    var x, log := ring[k], [Deleted(ring[k])];
    OneEvent(ring[1..], Deleted(x));
    assert ring[1..][k - 1] == x;
    SuffixWithout(ring, k, 1);
    ItersAfterDel(chains, k);
    forall c: nat, it | c < |chains| && it in chains[c]
      ensures HasRest(DropAt(ring, k), Merged(chains, k), it, Follow(RestAt(ring, c), log))
    {
      RestAfterDel(ring, chains, k, it, RestAt(ring, c));
      OneEvent(RestAt(ring, c), Deleted(x));
    }
  }

  /** An element appended to the list is to be visited by every iterator that does not hang on the head. */
  lemma AppendEvolves(ring: seq<Node>, chains: seq<seq<Iter>>, x: Node)
    requires |ring| == |chains| >= 1 && x !in ring
    ensures Evolves(ring, chains, [Appended(x)], ring + [x], chains + [[]], {})
  {
    var log, ring', chains' := [Appended(x)], ring + [x], chains + [[]];
    OneEvent(ring[1..], Appended(x));
    assert ring'[1..] == ring[1..] + [x];
    ItersStay(chains, |chains|);
    assert InsertAt(chains, |chains|, []) == chains + [[]];
    forall c: nat, it | c < |chains| && it in chains[c]
      ensures HasRest(ring', chains', it, Follow(RestAt(ring, c), log))
    {
      OneEvent(RestAt(ring, c), Appended(x));
      assert chains'[c] == chains[c];
      assert c > 0 ==> ring'[c..] == ring[c..] + [x];
    }
  }

  /** An element put in front is to be visited by no iterator. */
  lemma PrependEvolves(ring: seq<Node>, chains: seq<seq<Iter>>, x: Node)
    requires |ring| == |chains| >= 1 && x !in ring
    ensures Evolves(ring, chains, [Prepended(x)], InsertAt(ring, 1, x), InsertAt(chains, 1, []), {})
  {
    var log, ring', chains' := [Prepended(x)], InsertAt(ring, 1, x), InsertAt(chains, 1, []);
    OneEvent(ring[1..], Prepended(x));
    assert ring'[1..] == [x] + ring[1..];
    ItersStay(chains, 1);
    forall c: nat, it | c < |chains| && it in chains[c]
      ensures HasRest(ring', chains', it, Follow(RestAt(ring, c), log))
    {
      OneEvent(RestAt(ring, c), Prepended(x));
      var d := if c == 0 then 0 else c + 1;
      assert chains'[d] == chains[c];
      assert c > 0 ==> ring'[d..] == ring[c..];
    }
  }

  lemma ItersStay(chains: seq<seq<Iter>>, p: nat)
    requires p <= |chains|
    ensures Iters(InsertAt(chains, p, [])) == Iters(chains)
  {
    var chains' := InsertAt(chains, p, []);
    assert forall k :: 0 <= k < |chains| ==> chains'[if k < p then k else k + 1] == chains[k];
    forall it
      ensures it in Iters(chains') <==> it in Iters(chains)
    {
      InIters(chains', it);
      InIters(chains, it);
    }
  }

  // ----- callbacks and walks

  /** The element at a position of the list, or the head if there is none. */
  method Nth(l: SafeList, position: nat) returns (x: Node, ghost k: nat)
    requires l.Valid()
    ensures k < |l.ring| && l.ring[k] == x && k == if position + 1 < |l.ring| then position + 1 else 0
  {
    assert RingAt(l.ring, l.chains, 0);
    x, k := l.head.next, Succ(|l.ring|, 0);
    var p := position;
    while p > 0 && x != l.head
      invariant 0 <= p <= position && k < |l.ring| && l.ring[k] == x
      invariant k == if position - p + 1 < |l.ring| then position - p + 1 else 0
    {
      assert RingAt(l.ring, l.chains, k);
      x, k := x.next, Succ(|l.ring|, k);
      p := p - 1;
    }
    assert k > 0 ==> l.ring[0] != l.ring[k];
  }

  /** The spare nodes are out of the list. */
  ghost predicate Ready(l: SafeList, ctx: Context)
    reads l, ctx, l.ring, Iters(l.chains)
  {
    l.Valid() && Distinct(ctx.spare) && forall x :: x in ctx.spare ==> x !in l.ring
  }

  /** All nodes in the list and out of it */
  ghost function Nodes(l: SafeList, ctx: Context): set<Node>
    reads l, ctx
  {
    NodeSet(l.ring) + NodeSet(ctx.spare)
  }

  /** What a callback or a part of it may have done to a list, as its log has it. */
  twostate predicate Effect(l: SafeList, ctx: Context, new log: seq<Event>)
    reads l, ctx
  {
    && Evolves(old(l.ring), old(l.chains), log, l.ring, l.chains, {})
    && ctx.spare == SpareAfter(old(ctx.spare), log)
    && (forall e :: e in log && e.Visited? ==> e.walker !in old(Iters(l.chains)))
    && (forall x :: x in Nodes(l, ctx) ==> x in old(Nodes(l, ctx)) || fresh(x))
  }

  lemma DroppedMembers(ring: seq<Node>, k: nat)
    requires Distinct(ring) && k < |ring|
    ensures ring[k] !in DropAt(ring, k) && forall x :: x in DropAt(ring, k) ==> x in ring
  {
  }

  /** The acts on single elements leave their event, if there is one to leave. */
  lemma OneSpare(spare: seq<Node>, e: Event)
    ensures SpareAfter(spare, [e])
            == if e.Deleted? then spare + [e.x] else if e.Visited? then spare else Remove(spare, e.x)
  {
    assert [e][1..] == [];
  }

  method DeletePosition(l: SafeList, ctx: Context, position: nat) returns (ghost log: seq<Event>)
    requires Ready(l, ctx)
    modifies l, ctx, Nodes(l, ctx), Iters(l.chains)
    ensures Ready(l, ctx) && Effect(l, ctx, log)
    ensures log == if position + 1 < |old(l.ring)| then [Deleted(old(l.ring)[position + 1])] else []
  {
    ghost var k;
    var x;
    x, k := Nth(l, position);
    log := [];
    assert k > 0 <==> x != l.head;
    if x != l.head {
      DelEvolves(l.ring, l.chains, k);
      log := [Deleted(x)];
      DroppedMembers(l.ring, k);
      ConcatDistinct(ctx.spare, [x]);
      OneSpare(ctx.spare, Deleted(x));
      l.Del(x, k);
      ctx.spare := ctx.spare + [x];
    } else {
      NothingEvolves(l.ring, l.chains);
    }
  }

  /** safe_list_add or safe_list_add_first */
  method Put(l: SafeList, x: Node, first: bool) returns (ghost log: seq<Event>)
    requires l.Valid() && x !in l.ring
    modifies l, NodeSet(l.ring), x
    ensures l.Valid() && Evolves(old(l.ring), old(l.chains), log, l.ring, l.chains, {})
    ensures log == [Insertion(x, first)] && forall y :: y in l.ring ==> y in old(l.ring) || y == x
  {
    if first {
      PrependEvolves(l.ring, l.chains, x);
      l.AddFirst(x);
      log := [Prepended(x)];
    } else {
      AppendEvolves(l.ring, l.chains, x);
      l.Add(x);
      log := [Appended(x)];
    }
  }

  method AddNew(l: SafeList, ctx: Context, first: bool) returns (ghost log: seq<Event>)
    requires Ready(l, ctx)
    modifies l, ctx, Nodes(l, ctx), Iters(l.chains)
    ensures Ready(l, ctx) && Effect(l, ctx, log)
    ensures |log| == 1 && fresh(log[0].x) && log == [Insertion(log[0].x, first)]
  {
    var x := new Node();
    OneSpare(ctx.spare, Insertion(x, first));
    RemoveAbsent(ctx.spare, x);
    log := Put(l, x, first);
  }

  method AddAgain(l: SafeList, ctx: Context, which: nat, first: bool) returns (ghost log: seq<Event>)
    requires Ready(l, ctx)
    modifies l, ctx, Nodes(l, ctx), Iters(l.chains)
    ensures Ready(l, ctx) && Effect(l, ctx, log)
    ensures log == if which < |old(ctx.spare)| then [Insertion(old(ctx.spare)[which], first)] else []
  {
    log := [];
    if which < |ctx.spare| {
      var x := ctx.spare[which];
      OneSpare(ctx.spare, Insertion(x, first));
      RemoveAt(ctx.spare, which);
      DroppedMembers(ctx.spare, which);
      log := Put(l, x, first);
      ctx.spare := ctx.spare[..which] + ctx.spare[which + 1..];
    } else {
      NothingEvolves(l.ring, l.chains);
    }
  }

  lemma NothingEvolves(ring: seq<Node>, chains: seq<seq<Iter>>)
    requires |ring| == |chains| >= 1
    ensures Evolves(ring, chains, [], ring, chains, {})
  {
  }

  method Do(l: SafeList, ctx: Context, act: Act) returns (ghost log: seq<Event>)
    requires Ready(l, ctx)
    modifies l, ctx, Nodes(l, ctx), Iters(l.chains)
    ensures Ready(l, ctx) && Effect(l, ctx, log)
    ensures ActDoes(old(l.ring)[1..], old(ctx.spare), act, log) && (act.Add? ==> fresh(log[0].x))
    decreases act
  {
    match act {
      case DeleteAt(position) =>
        log := DeletePosition(l, ctx, position);
      case Add(first) =>
        log := AddNew(l, ctx, first);
      case Readd(which, first) =>
        log := AddAgain(l, ctx, which, first);
      case Walk(bodies) =>
        var visited, stopped;
        ghost var me;
        visited, stopped, log, me := ForEach(l, ctx, bodies);
        if log != [] {
          WalkBegins(old(l.ring)[1..], old(ctx.spare), bodies, log, me, |visited|);
        }
    }
  }

  /** The effects of one callback invocation. */
  method Perform(l: SafeList, ctx: Context, acts: seq<Act>) returns (ghost log: seq<Event>)
    requires Ready(l, ctx)
    modifies l, ctx, Nodes(l, ctx), Iters(l.chains)
    ensures Ready(l, ctx) && Effect(l, ctx, log) && ActsDo(old(l.ring)[1..], old(ctx.spare), acts, log)
    decreases acts
  {
    NothingEvolves(l.ring, l.chains);
    log := [];
    for a := 0 to |acts|
      invariant Ready(l, ctx) && Effect(l, ctx, log) && ActsDo(old(l.ring)[1..], old(ctx.spare), acts[..a], log)
    {
      ghost var ring, chains := l.ring, l.chains;
      ghost var more := Do(l, ctx, acts[a]);
      EvolvesTogether(old(l.ring), old(l.chains), log, ring, chains, more, l.ring, l.chains, {});
      SpareConcat(old(ctx.spare), log, more);
      ActsMore(old(l.ring)[1..], old(ctx.spare), acts, a, log, more);
      log := log + more;
    }
    assert acts[..|acts|] == acts;
  }

  /** The walk with this iterator is at cur, and then comes what the iterator has still to visit; it is done at the
      head. */
  ghost predicate At(items: seq<Node>, log: seq<Event>, ring: seq<Node>, chains: seq<seq<Iter>>,
                     it: Iter, cur: Node, rest: seq<Node>)
    requires |ring| >= 1
  {
    && Faithful(items, log, it)
    && if cur == ring[0] then Pending(items, log, it) == []
       else cur in ring[1..] && HasRest(ring, chains, it, rest) && Pending(items, log, it) == [cur] + rest
  }

  /** Between two visits: the walk has still to visit what its iterator has still to visit. */
  ghost predicate Paused(items: seq<Node>, log: seq<Event>, ring: seq<Node>, chains: seq<seq<Iter>>,
                         it: Iter, rest: seq<Node>)
  {
    Faithful(items, log, it) && HasRest(ring, chains, it, rest) && Pending(items, log, it) == rest
  }

  lemma VisitLogged(p: seq<Node>, log: seq<Event>, it: Iter, cur: Node, rest: seq<Node>, more: seq<Event>)
    requires Faithful(p, log, it) && Pending(p, log, it) == [cur] + rest && forall e :: e in more ==> !IsVisit(e, it)
    ensures Faithful(p, log + [Visited(it, cur)] + more, it)
    ensures Pending(p, log + [Visited(it, cur)] + more, it) == Follow(rest, more)
    ensures VisitsBy(log + [Visited(it, cur)] + more, it) == VisitsBy(log, it) + [cur]
  {
    var v := [Visited(it, cur)];
    assert v[1..] == [] && ([cur] + rest)[1..] == rest;
    assert Pending([cur] + rest, v, it) == Pending(rest, [], it) && Faithful([cur] + rest, v, it);
    assert VisitsBy(v, it) == [cur] + VisitsBy([], it) == [cur];
    PendingFollows(rest, more, it);
    PendingConcat(p, log, v, it);
    PendingConcat(p, log + v, more, it);
    VisitsConcat(log, v, it);
    VisitsConcat(log + v, more, it);
  }

  lemma VisitEvolves(r0: seq<Node>, c0: seq<seq<Iter>>, log: seq<Event>, r1: seq<Node>, c1: seq<seq<Iter>>, it: Iter,
                     cur: Node)
    requires Evolves(r0, c0, log, r1, c1, {it}) && cur in r1[1..]
    ensures Evolves(r0, c0, log + [Visited(it, cur)], r1, c1, {it})
  {
    var e := Visited(it, cur);
    OneEvent(r1[1..], e);
    ReplayConcat(r0[1..], log, [e]);
    forall k: nat, u | k < |c0| && u in c0[k]
      ensures HasRest(r1, c1, u, Follow(RestAt(r0, k), log + [e]))
    {
      FollowConcat(RestAt(r0, k), log, [e]);
      OneEvent(Follow(RestAt(r0, k), log), e);
    }
  }

  method Begin(l: SafeList, it: Iter) returns (cur: Node, ghost rest: seq<Node>)
    requires l.Valid() && it !in Iters(l.chains)
    modifies l`chains, NodeSet(l.ring)`i, Iters(l.chains)`head, it
    ensures l.Valid() && Evolves(l.ring, old(l.chains), [], l.ring, l.chains, {it})
    ensures At(l.ring[1..], [], l.ring, l.chains, it, cur, rest)
  {
    assert RingAt(l.ring, l.chains, 0);
    cur := l.head.next;
    ghost var k := Succ(|l.ring|, 0);
    ghost var m := Succ(|l.ring|, k);
    RestAfterSet(l.ring, l.chains, m, it);
    ghost var chains := l.chains;
    l.SetIterator(cur, it, k);
    rest := RestAt(l.ring, m);
    SetEvolves(l.ring, chains, m, it);
    if |l.ring| > 1 {
      assert [cur] + rest == l.ring[1..];
      assert cur == l.ring[1..][0];
    }
  }

  lemma SetEvolves(ring: seq<Node>, chains: seq<seq<Iter>>, m: nat, it: Iter)
    requires |ring| == |chains| && m < |ring|
    ensures Evolves(ring, chains, [], ring, chains[m := [it] + chains[m]], {it})
  {
    RestAfterSet(ring, chains, m, it);
    forall k: nat, u | k < |chains| && u in chains[k]
      ensures HasRest(ring, chains[m := [it] + chains[m]], u, Follow(RestAt(ring, k), []))
    {
      assert HasRest(ring, chains, u, RestAt(ring, k));
    }
  }

  /** The `cur = i.next, __safe_list_move_iterator(cur, &i)` of the loop. */
  method Advance(l: SafeList, it: Iter, ghost rest: seq<Node>, ghost r0: seq<Node>, ghost c0: seq<seq<Iter>>,
                 ghost log: seq<Event>)
    returns (cur: Node, ghost rest': seq<Node>)
    requires l.Valid() && Evolves(r0, c0, log, l.ring, l.chains, {it}) && it !in Iters(c0)
    requires Paused(r0[1..], log, l.ring, l.chains, it, rest)
    modifies l`chains, NodeSet(l.ring)`i, Iters(l.chains)
    ensures l.Valid() && Evolves(r0, c0, log, l.ring, l.chains, {it})
    ensures At(r0[1..], log, l.ring, l.chains, it, cur, rest')
    ensures cur != l.head ==> |rest'| < |rest|
  {
    ghost var k: nat :| k < |l.chains| && it in l.chains[k] && rest == RestAt(l.ring, k);
    ghost var j: nat :| j < |l.chains[k]| && l.chains[k][j] == it;
    assert ChainOk(l.ring[k], l.chains[k]) && IterAt(l.ring[k], l.chains[k], j);
    ghost var chains := l.chains;
    cur := it.next;
    MoveIterator(l, cur, it, k, j);
    MoveEvolves(r0, c0, log, l.ring, chains, k, j);
    rest' := RestAt(l.ring, Succ(|l.ring|, k));
    FirstOfRest(l.ring, k);
  }

  lemma FirstOfRest(ring: seq<Node>, k: nat)
    requires Distinct(ring) && k < |ring|
    ensures RestAt(ring, k) == if k == 0 then [] else [ring[k]] + RestAt(ring, Succ(|ring|, k))
    ensures k > 0 ==> ring[k] != ring[0] && ring[k] in ring[1..]
  {
    if k > 0 {
      assert ring[1..][k - 1] == ring[k];
    }
  }

  /** The chains after iterator j of chain k has been moved on to the next chain. */
  ghost function MovedOn(chains: seq<seq<Iter>>, k: nat, j: nat): seq<seq<Iter>>
    requires k < |chains| && j < |chains[k]|
  {
    var chains' := chains[k := DropAt(chains[k], j)];
    var m := Succ(|chains|, k);
    chains'[m := [chains[k][j]] + chains'[m]]
  }

  /** __safe_list_move_iterator */
  method MoveIterator(l: SafeList, list: Node, it: Iter, ghost k: nat, ghost j: nat)
    requires l.Valid() && k < |l.ring| && l.ring[k] == list && j < |l.chains[k]| && l.chains[k][j] == it
    modifies l`chains, NodeSet(l.ring)`i, Iters(l.chains)
    ensures l.Valid() && l.chains == MovedOn(old(l.chains), k, j)
  {
    RestAfterDrop(l.ring, l.chains, k, j);
    InIters(l.chains, it);
    l.DelIterator(it, k, j);
    l.SetIterator(list, it, k);
  }

  lemma MoveEvolves(r0: seq<Node>, c0: seq<seq<Iter>>, log: seq<Event>, ring: seq<Node>, chains: seq<seq<Iter>>,
                    k: nat, j: nat)
    requires |ring| == |chains| && k < |chains| && j < |chains[k]| && DistinctIters(chains)
    requires Evolves(r0, c0, log, ring, chains, {chains[k][j]}) && chains[k][j] !in Iters(c0)
    ensures Evolves(r0, c0, log, ring, MovedOn(chains, k, j), {chains[k][j]})
    ensures HasRest(ring, MovedOn(chains, k, j), chains[k][j], RestAt(ring, Succ(|ring|, k)))
  {
    var it := chains[k][j];
    RestAfterDrop(ring, chains, k, j);
    RestAfterSet(ring, chains[k := DropAt(chains[k], j)], Succ(|ring|, k), it);
    forall c: nat, u | c < |c0| && u in c0[c]
      ensures HasRest(ring, MovedOn(chains, k, j), u, Follow(RestAt(r0, c), log))
    {
      InIters(c0, u);
      assert u != it && HasRest(ring, chains, u, Follow(RestAt(r0, c), log));
    }
  }

  /** The walk takes its iterator out of the list. */
  method Finish(l: SafeList, it: Iter, ghost r0: seq<Node>, ghost c0: seq<seq<Iter>>, ghost log: seq<Event>)
    requires l.Valid() && Evolves(r0, c0, log, l.ring, l.chains, {it}) && it !in Iters(c0)
    modifies l`chains, NodeSet(l.ring)`i, Iters(l.chains)
    ensures l.Valid() && Evolves(r0, c0, log, l.ring, l.chains, {})
  {
    InIters(l.chains, it);
    ghost var k: nat :| k < |l.chains| && it in l.chains[k];
    ghost var j: nat :| j < |l.chains[k]| && l.chains[k][j] == it;
    ghost var chains := l.chains;
    l.DelIterator(it, k, j);
    RestAfterDrop(l.ring, chains, k, j);
    forall c: nat, u | c < |c0| && u in c0[c]
      ensures HasRest(l.ring, l.chains, u, Follow(RestAt(r0, c), log))
    {
      InIters(c0, u);
      assert u != it && HasRest(l.ring, chains, u, Follow(RestAt(r0, c), log));
    }
  }

  /** One call of the callback: its k-th body. */
  method Invoke(l: SafeList, ctx: Context, bodies: seq<Body>, k: nat) returns (ghost log: seq<Event>)
    requires Ready(l, ctx)
    modifies l, ctx, Nodes(l, ctx), Iters(l.chains)
    ensures Ready(l, ctx) && Effect(l, ctx, log)
    ensures if k < |bodies| then ActsDo(old(l.ring)[1..], old(ctx.spare), bodies[k].acts, log) else log == []
    decreases bodies, 0
  {
    log := [];
    if k < |bodies| {
      log := Perform(l, ctx, bodies[k].acts);
    } else {
      NothingEvolves(l.ring, l.chains);
    }
  }

  /** The visits are those of walks begun since. */
  ghost predicate OwnLog(c0: seq<seq<Iter>>, log: seq<Event>) {
    forall e :: e in log && e.Visited? ==> e.walker !in Iters(c0)
  }

  /** The walk begun at that list and those spare nodes has made k visits. */
  ghost predicate Walked(r0: seq<Node>, s0: seq<Node>, bodies: seq<Body>, log: seq<Event>, it: Iter, k: nat,
                         spare: seq<Node>)
    requires r0 != []
  {
    forall look: bool {:trigger Closed(look)} ::
      Closed(look) ==> WalkDoes(r0[1..], s0, bodies, log, it, k) && spare == SpareAfter(s0, log)
  }

  /** Keeps what it guards out of proofs that do not mention it. */
  ghost predicate Closed(look: bool) {
    true
  }

  /** The visit of one node by the walk whose iterator is `it`. */
  method Visit(l: SafeList, ctx: Context, bodies: seq<Body>, k: nat, it: Iter, cur: Node, ghost rest: seq<Node>,
               ghost r0: seq<Node>, ghost c0: seq<seq<Iter>>, ghost s0: seq<Node>, ghost log: seq<Event>)
    returns (ghost log': seq<Event>, ghost rest': seq<Node>)
    requires Ready(l, ctx) && Evolves(r0, c0, log, l.ring, l.chains, {it}) && it !in Iters(c0)
    requires cur != l.ring[0] && At(r0[1..], log, l.ring, l.chains, it, cur, rest) && OwnLog(c0, log)
    requires Walked(r0, s0, bodies, log, it, k, ctx.spare)
    modifies l, ctx, Nodes(l, ctx), Iters(l.chains)
    ensures Ready(l, ctx) && Evolves(r0, c0, log', l.ring, l.chains, {it})
    ensures Paused(r0[1..], log', l.ring, l.chains, it, rest') && (k >= |bodies| ==> |rest'| <= |rest|)
    ensures VisitsBy(log', it) == VisitsBy(log, it) + [cur] && OwnLog(c0, log')
    ensures Walked(r0, s0, bodies, log', it, k + 1, ctx.spare)
    ensures forall x :: x in Nodes(l, ctx) ==> x in old(Nodes(l, ctx)) || fresh(x)
    decreases bodies, 1
  {
    ghost var ring, chains, spare := l.ring, l.chains, ctx.spare;
    ghost var v := log + [Visited(it, cur)];
    VisitEvolves(r0, c0, log, ring, chains, it, cur);
    InIters(chains, it);
    ghost var more := Invoke(l, ctx, bodies, k);
    EvolvesTogether(r0, c0, v, ring, chains, more, l.ring, l.chains, {it});
    VisitLogged(r0[1..], log, it, cur, rest, more);
    VisitWalked(r0, s0, bodies, log, it, k, cur, ring, spare, more);
    log', rest' := v + more, Follow(rest, more);
  }

  lemma VisitWalked(r0: seq<Node>, s0: seq<Node>, bodies: seq<Body>, log: seq<Event>, it: Iter, k: nat, cur: Node,
                    ring: seq<Node>, spare: seq<Node>, more: seq<Event>)
    requires r0 != [] && ring != [] && ring[1..] == Replay(r0[1..], log) && Walked(r0, s0, bodies, log, it, k, spare)
    requires if k < |bodies| then ActsDo(ring[1..], spare, bodies[k].acts, more) else more == []
    ensures Walked(r0, s0, bodies, log + [Visited(it, cur)] + more, it, k + 1, SpareAfter(spare, more))
  {
    assert Closed(true);
    WalkMore(r0[1..], s0, bodies, log, it, k, cur, more);
    SpareConcat(s0, log, [Visited(it, cur)]);
    OneSpare(spare, Visited(it, cur));
    SpareConcat(s0, log + [Visited(it, cur)], more);
  }

  /** One turn of the walk's loop: a visit and, if the callback does not stop the walk, the step to the next node. */
  method Turn(l: SafeList, ctx: Context, bodies: seq<Body>, k: nat, it: Iter, cur: Node, ghost rest: seq<Node>,
              ghost r0: seq<Node>, ghost c0: seq<seq<Iter>>, ghost s0: seq<Node>, ghost log: seq<Event>)
    returns (stop: bool, cur': Node, ghost log': seq<Event>, ghost rest': seq<Node>)
    requires Ready(l, ctx) && Evolves(r0, c0, log, l.ring, l.chains, {it}) && it !in Iters(c0)
    requires cur != l.ring[0] && At(r0[1..], log, l.ring, l.chains, it, cur, rest) && OwnLog(c0, log)
    requires Walked(r0, s0, bodies, log, it, k, ctx.spare)
    modifies l, ctx, Nodes(l, ctx), Iters(l.chains)
    ensures Ready(l, ctx) && Evolves(r0, c0, log', l.ring, l.chains, {it})
    ensures stop <==> StopsAt(bodies, k + 1)
    ensures if stop then Faithful(r0[1..], log', it) else At(r0[1..], log', l.ring, l.chains, it, cur', rest')
    ensures k >= |bodies| && cur' != l.head ==> |rest'| < |rest|
    ensures VisitsBy(log', it) == VisitsBy(log, it) + [cur] && OwnLog(c0, log')
    ensures Walked(r0, s0, bodies, log', it, k + 1, ctx.spare)
    ensures forall x :: x in Nodes(l, ctx) ==> x in old(Nodes(l, ctx)) || fresh(x)
    decreases bodies, 2
  {
    log', rest' := Visit(l, ctx, bodies, k, it, cur, rest, r0, c0, s0, log);
    stop, cur' := k < |bodies| && bodies[k].stop, l.head;
    if !stop {
      cur', rest' := Advance(l, it, rest', r0, c0, log');
    }
  }

  /** The loop of a walk, from the first node on. */
  method WalkOn(l: SafeList, ctx: Context, bodies: seq<Body>, it: Iter, first: Node, ghost after: seq<Node>,
                ghost r0: seq<Node>, ghost c0: seq<seq<Iter>>)
    returns (visited: seq<Node>, stopped: bool, ghost log: seq<Event>)
    requires Ready(l, ctx) && Evolves(r0, c0, [], l.ring, l.chains, {it}) && it !in Iters(c0)
    requires At(r0[1..], [], l.ring, l.chains, it, first, after)
    modifies l, ctx, Nodes(l, ctx), Iters(l.chains)
    ensures Ready(l, ctx) && Evolves(r0, c0, log, l.ring, l.chains, {it})
    ensures visited == VisitsBy(log, it) && Faithful(r0[1..], log, it) && OwnLog(c0, log)
    ensures Walked(r0, old(ctx.spare), bodies, log, it, |visited|, ctx.spare)
    ensures !stopped ==> Pending(r0[1..], log, it) == []
    ensures (stopped <==> StopsAt(bodies, |visited|)) && NoneStops(bodies, |visited|)
    ensures forall x :: x in Nodes(l, ctx) ==> x in old(Nodes(l, ctx)) || fresh(x)
    decreases bodies, 3
  {
    visited, stopped, log := [], false, [];
    var cur, k := first, 0;
    ghost var rest := after;
    while cur != l.head
      invariant Ready(l, ctx) && Evolves(r0, c0, log, l.ring, l.chains, {it})
      invariant At(r0[1..], log, l.ring, l.chains, it, cur, rest) && visited == VisitsBy(log, it) && OwnLog(c0, log)
      invariant k == |visited| && NoneStops(bodies, k + 1)
      invariant Walked(r0, old(ctx.spare), bodies, log, it, k, ctx.spare)
      invariant forall x :: x in Nodes(l, ctx) ==> x in old(Nodes(l, ctx)) || fresh(x)
      decreases if k < |bodies| then |bodies| - k else 0, if cur == l.head then 0 else 1 + |rest|
    {
      visited := visited + [cur];
      stopped, cur, log, rest := Turn(l, ctx, bodies, k, it, cur, rest, r0, c0, old(ctx.spare), log);
      k := k + 1;
      if stopped {
        break;
      }
    }
    assert k == |visited| && NoneStops(bodies, k) && (stopped <==> StopsAt(bodies, k));
  }

  /** safe_list_for_each with a callback whose k-th invocation does bodies[k], and nothing beyond that: the walk always
      visits the first of what it has still to visit, does after each visit what the callback asks for, and ends at the
      first callback that asks to stop, or with nothing left. */
  method ForEach(l: SafeList, ctx: Context, bodies: seq<Body>)
    returns (visited: seq<Node>, stopped: bool, ghost log: seq<Event>, ghost me: Iter)
    requires Ready(l, ctx)
    modifies l, ctx, Nodes(l, ctx), Iters(l.chains)
    ensures Ready(l, ctx) && Effect(l, ctx, log) && fresh(me)
    ensures visited == VisitsBy(log, me) && WalkOf(old(l.ring)[1..], old(ctx.spare), bodies, log, me, |visited|)
    ensures stopped <==> visited != [] && |visited| <= |bodies| && bodies[|visited| - 1].stop
    ensures forall k :: 0 <= k < |visited| - 1 && k < |bodies| ==> !bodies[k].stop
    ensures InOrder(old(l.ring)[1..] + Appends(log), visited)
    ensures Novel(NodeSet(old(l.ring)[1..]), log) ==> Distinct(visited)
    ensures !stopped ==> Pending(old(l.ring)[1..], log, me) == []
    ensures !stopped ==> forall x :: x in l.ring[1..] ==>
                                       (x in Seen({}, log, me) <==> x !in Missed({}, old(l.ring)[1..], log, me))
    decreases bodies, 4
  {
    var it := new Iter();
    me := it;
    ghost var ring, chains, rest := l.ring, l.chains, [];
    var cur;
    cur, rest := Begin(l, it);
    visited, stopped, log := WalkOn(l, ctx, bodies, it, cur, rest, ring, chains);
    Finish(l, it, ring, chains, log);
    assert Closed(true);
    WalkOutcome(ring, log, it, stopped);
    StopsOnce(bodies, |visited|);
  }

  lemma {:induction false} StopsOnce(bodies: seq<Body>, n: nat)
    requires NoneStops(bodies, n)
    ensures forall k :: 0 <= k < n - 1 && k < |bodies| ==> !bodies[k].stop
  {
    if n > 0 {
      StopsOnce(bodies, n - 1);
    }
  }

  lemma WalkOutcome(ring: seq<Node>, log: seq<Event>, me: Iter, stopped: bool)
    requires |ring| >= 1 && Distinct(ring) && Legal(ring[1..], log) && Faithful(ring[1..], log, me)
    requires !stopped ==> Pending(ring[1..], log, me) == []
    ensures InOrder(ring[1..] + Appends(log), VisitsBy(log, me))
    ensures Novel(NodeSet(ring[1..]), log) ==> Distinct(VisitsBy(log, me))
    ensures !stopped ==> forall x :: x in Replay(ring[1..], log) ==>
                                       (x in Seen({}, log, me) <==> x !in Missed({}, ring[1..], log, me))
  {
    VisitsInOrder(ring[1..], log, me);
    if Novel(NodeSet(ring[1..]), log) {
      VisitsOnce(ring[1..], log, me);
    }
    if !stopped {
      WalkIsComplete(ring[1..], log, me);
    }
  }
}
