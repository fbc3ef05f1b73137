/** BoundedQueue: a deque under one mutex with two condition variables and notify_one.

    Every operation runs under the mutex from lock to wait or return, so one critical
    section is one step.  A step is taken by a thread that starts an operation or that
    has left a wait set (notified, spuriously, or by timeout) and re-checks its
    condition.  Any number of threads, any interleaving, any choice of the thread that
    notify_one wakes.  Quit is not part of the machine. */
module BoundedQueues {
  import opened Basics

  type Tid = nat

  /** Where a thread blocked in wait is: in the wait set, or out of it on its way back to the mutex. */
  datatype Wake = Asleep | Notified | Spurious

  /** Pop takes the front; PopAll exchanges the queue for the caller's deque, which holds val. */
  datatype Take<T> = One | All(val: seq<T>)

  datatype Thread<T> =
    | Idle
    | Pushing(value: T, wake: Wake)
    | Popping(take: Take<T>, timed: bool, wake: Wake)

  datatype State<T> = State(
    capacity: nat,
    items: seq<T>,
    threads: map<Tid, Thread<T>>,
    accepted: seq<T>,    // history: values pushed, in order
    delivered: seq<T>)   // history: values popped, in order

  /** `w` is the thread that notify_one picks, if there is one to pick. */
  datatype Pick = Nobody | Wakes(w: Tid)

  datatype Step<T> =
    | Push(t: Tid, value: T, pick: Pick)      // call Push
    | TryPush(t: Tid, value: T, pick: Pick)   // call tryPush
    | Pop(t: Tid, take: Take<T>, timed: bool, pick: Pick)  // call Pop, PopAll, PopTimeout or PopAllTimeout
    | TryPop(t: Tid, take: Take<T>, pick: Pick)            // call tryPop or tryPopAll
    | PushAgain(t: Tid, pick: Pick)           // a pusher back from its wait set
    | PopAgain(t: Tid, expired: bool, pick: Pick)  // a popper back from its wait set
    | WakeUp(t: Tid)                          // spurious wake-up or timeout

  /** What a step answers to the caller: nothing yet, while the thread waits or is only woken; false; true for a
      push; or true with what was taken. */
  datatype Answer<T> = Waits | Refused | Pushed | Popped(taken: seq<T>)

  // ----- the two wait sets

  ghost predicate Pushers<T>(th: Thread<T>, wake: Wake) {
    th.Pushing? && th.wake == wake
  }

  ghost predicate Poppers<T>(th: Thread<T>, wake: Wake) {
    th.Popping? && th.wake == wake
  }

  ghost function PushersIn<T>(ths: map<Tid, Thread<T>>, wake: Wake): set<Tid> {
    set t | t in ths && Pushers(ths[t], wake)
  }

  ghost function PoppersIn<T>(ths: map<Tid, Thread<T>>, wake: Wake): set<Tid> {
    set t | t in ths && Poppers(ths[t], wake)
  }

  /** cond_notEmpty_.notify_one() wakes one popper in the wait set if there is one. */
  ghost predicate CanNotifyPopper<T>(ths: map<Tid, Thread<T>>, pick: Pick) {
    match pick
    case Nobody => PoppersIn(ths, Asleep) == {}
    case Wakes(w) => w in PoppersIn(ths, Asleep)
  }

  ghost function NotifyPopper<T>(ths: map<Tid, Thread<T>>, pick: Pick): map<Tid, Thread<T>>
    requires CanNotifyPopper(ths, pick)
  {
    match pick
    case Nobody => ths
    case Wakes(w) => ths[w := Popping(ths[w].take, ths[w].timed, Notified)]
  }

  /** cond_notFull_.notify_one() */
  ghost predicate CanNotifyPusher<T>(ths: map<Tid, Thread<T>>, pick: Pick) {
    match pick
    case Nobody => PushersIn(ths, Asleep) == {}
    case Wakes(w) => w in PushersIn(ths, Asleep)
  }

  ghost function NotifyPusher<T>(ths: map<Tid, Thread<T>>, pick: Pick): map<Tid, Thread<T>>
    requires CanNotifyPusher(ths, pick)
  {
    match pick
    case Nobody => ths
    case Wakes(w) => ths[w := Pushing(ths[w].value, Notified)]
  }

  // ----- critical sections

  /** emplace_back and notify a consumer; the calling thread returns. */
  ghost predicate Appends<T>(s: State<T>, t: Tid, v: T, pick: Pick, ans: Answer<T>, s': State<T>) {
    var ths := s.threads[t := Idle];
    && ans == Pushed
    && CanNotifyPopper(ths, pick)
    && s' == s.(items := s.items + [v], accepted := s.accepted + [v], threads := NotifyPopper(ths, pick))
  }

  /** pop_front and notify a producer; the calling thread returns. */
  ghost predicate TakesFront<T>(s: State<T>, t: Tid, pick: Pick, ans: Answer<T>, s': State<T>) {
    var ths := s.threads[t := Idle];
    && s.items != [] && ans == Popped([s.items[0]])
    && CanNotifyPusher(ths, pick)
    && s' == s.(items := s.items[1..], delivered := s.delivered + [s.items[0]], threads := NotifyPusher(ths, pick))
  }

  /** The queue and the caller's deque change places, and one producer is notified. */
  ghost predicate Swaps<T>(s: State<T>, t: Tid, val: seq<T>, pick: Pick, ans: Answer<T>, s': State<T>) {
    var ths := s.threads[t := Idle];
    && s.items != [] && ans == Popped(s.items)
    && CanNotifyPusher(ths, pick)
    && s' == s.(items := val, delivered := s.delivered + s.items, threads := NotifyPusher(ths, pick))
  }

  ghost predicate Takes<T>(s: State<T>, t: Tid, take: Take<T>, pick: Pick, ans: Answer<T>, s': State<T>) {
    match take
    case One => TakesFront(s, t, pick, ans, s')
    case All(val) => Swaps(s, t, val, pick, ans, s')
  }

  /** The thread is in that state now; nothing else happens. */
  ghost predicate Becomes<T>(s: State<T>, t: Tid, th: Thread<T>, ans: Answer<T>, s': State<T>) {
    s' == s.(threads := s.threads[t := th]) && ans == if th.Idle? then Refused else Waits
  }

  ghost predicate Next<T>(s: State<T>, step: Step<T>, ans: Answer<T>, s': State<T>) {
    match step
    case Push(t, v, pick) =>
      t in s.threads && s.threads[t].Idle? &&
      if |s.items| < s.capacity then Appends(s, t, v, pick, ans, s')
      else Becomes(s, t, Pushing(v, Asleep), ans, s')
    case PushAgain(t, pick) =>
      t in s.threads && s.threads[t].Pushing? && !s.threads[t].wake.Asleep? &&
      if |s.items| < s.capacity then Appends(s, t, s.threads[t].value, pick, ans, s')
      else Becomes(s, t, Pushing(s.threads[t].value, Asleep), ans, s')
    case TryPush(t, v, pick) =>
      t in s.threads && s.threads[t].Idle? &&
      if |s.items| < s.capacity then Appends(s, t, v, pick, ans, s') else Becomes(s, t, Idle, ans, s')
    case Pop(t, take, timed, pick) =>
      t in s.threads && s.threads[t].Idle? &&
      if s.items != [] then Takes(s, t, take, pick, ans, s')
      else Becomes(s, t, Popping(take, timed, Asleep), ans, s')
    case PopAgain(t, expired, pick) =>
      t in s.threads && s.threads[t].Popping? && !s.threads[t].wake.Asleep? && (expired ==> s.threads[t].timed) &&
      if s.items != [] then Takes(s, t, s.threads[t].take, pick, ans, s')
      else if expired then Becomes(s, t, Idle, ans, s')
      else Becomes(s, t, Popping(s.threads[t].take, s.threads[t].timed, Asleep), ans, s')
    case TryPop(t, take, pick) =>
      t in s.threads && s.threads[t].Idle? &&
      if s.items != [] then Takes(s, t, take, pick, ans, s') else Becomes(s, t, Idle, ans, s')
    case WakeUp(t) =>
      t in s.threads && !s.threads[t].Idle? && s.threads[t].wake.Asleep? &&
      Becomes(s, t, match s.threads[t]
                    case Pushing(v, _) => Pushing(v, Spurious)
                    case Popping(take, timed, _) => Popping(take, timed, Spurious)
                    case Idle => Idle, ans, s')
  }

  ghost predicate Init<T>(s: State<T>) {
    && s.capacity > 0 && s.items == [] && s.accepted == [] && s.delivered == []
    && forall t :: t in s.threads ==> s.threads[t].Idle?
  }

  /** What the step takes, should it find something. */
  ghost function TakeOf<T>(s: State<T>, step: Step<T>): Take<T> {
    match step
    case Pop(_, take, _, _) => take
    case TryPop(_, take, _) => take
    case PopAgain(t, _, _) => if t in s.threads && s.threads[t].Popping? then s.threads[t].take else One
    case _ => One
  }

  /** Taking all frees many slots but notifies one producer, and leaves the caller's elements in the queue. It does no
      harm when it finds nothing, or when the caller's deque is empty and either no producer is left asleep or the
      notified ones are enough to fill the queue. */
  ghost predicate Harmless<T>(s: State<T>, step: Step<T>) {
    TakeOf(s, step).All? && s.items != [] ==> TakeOf(s, step).val == [] && EnoughAwake(s)
  }

  ghost predicate EnoughAwake<T>(s: State<T>) {
    |PushersIn(s.threads, Asleep)| <= 1 || s.capacity <= |PushersIn(s.threads, Notified)| + 1
  }

  /** A run of any steps, those that take all where they do no harm. */
  ghost predicate IsRun<T>(states: seq<State<T>>, steps: seq<Step<T>>, answers: seq<Answer<T>>) {
    && |states| == |steps| + 1 && |answers| == |steps| && Init(states[0])
    && forall i :: 0 <= i < |steps| ==>
                     Harmless(states[i], steps[i]) && Next(states[i], steps[i], answers[i], states[i + 1])
  }

  // ----- the invariant

  /** Nothing is lost, duplicated or reordered, and the capacity is respected. */
  ghost predicate Fifo<T>(s: State<T>) {
    s.accepted == s.delivered + s.items && |s.items| <= s.capacity
  }

  /** While a consumer sleeps un-notified, every queued item has a notified consumer coming for it. */
  ghost predicate ConsumersAwaited<T>(s: State<T>) {
    PoppersIn(s.threads, Asleep) != {} ==> |s.items| <= |PoppersIn(s.threads, Notified)|
  }

  /** While a producer sleeps un-notified, every free slot has a notified producer coming for it. */
  ghost predicate ProducersAwaited<T>(s: State<T>) {
    PushersIn(s.threads, Asleep) != {} ==> s.capacity - |s.items| <= |PushersIn(s.threads, Notified)|
  }

  ghost predicate Inv<T>(s: State<T>) {
    s.capacity > 0 && Fifo(s) && ConsumersAwaited(s) && ProducersAwaited(s)
  }

  // ----- how the wait sets change

  lemma SetThread<T>(ths: map<Tid, Thread<T>>, t: Tid, th: Thread<T>, wake: Wake)
    ensures PushersIn(ths[t := th], wake)
            == if Pushers(th, wake) then PushersIn(ths, wake) + {t} else PushersIn(ths, wake) - {t}
    ensures PoppersIn(ths[t := th], wake)
            == if Poppers(th, wake) then PoppersIn(ths, wake) + {t} else PoppersIn(ths, wake) - {t}
  {
  }

  /** notify_one moves one thread from asleep to notified. */
  lemma PopperNotified<T>(ths: map<Tid, Thread<T>>, pick: Pick)
    requires CanNotifyPopper(ths, pick)
    ensures var ths' := NotifyPopper(ths, pick);
            && (forall wake :: PushersIn(ths', wake) == PushersIn(ths, wake))
            && (if pick.Nobody? then PoppersIn(ths', Asleep) == {}
                else
                  && PoppersIn(ths', Asleep) == PoppersIn(ths, Asleep) - {pick.w}
                  && |PoppersIn(ths', Notified)| == |PoppersIn(ths, Notified)| + 1)
  {
    if pick.Wakes? {
      var th := Popping(ths[pick.w].take, ths[pick.w].timed, Notified);
      forall wake {
        SetThread(ths, pick.w, th, wake);
      }
      assert pick.w !in PoppersIn(ths, Notified);
    }
  }

  lemma PusherNotified<T>(ths: map<Tid, Thread<T>>, pick: Pick)
    requires CanNotifyPusher(ths, pick)
    ensures var ths' := NotifyPusher(ths, pick);
            && (forall wake :: PoppersIn(ths', wake) == PoppersIn(ths, wake))
            && (if pick.Nobody? then PushersIn(ths', Asleep) == {}
                else
                  && PushersIn(ths', Asleep) == PushersIn(ths, Asleep) - {pick.w}
                  && |PushersIn(ths', Notified)| == |PushersIn(ths, Notified)| + 1)
  {
    if pick.Wakes? {
      var th := Pushing(ths[pick.w].value, Notified);
      forall wake {
        SetThread(ths, pick.w, th, wake);
      }
      assert pick.w !in PushersIn(ths, Notified);
    }
  }

  // ----- every step keeps the invariant

  ghost predicate Running<T>(s: State<T>, t: Tid) {
    t in s.threads && (s.threads[t].Idle? || !s.threads[t].wake.Asleep?)
  }

  lemma AppendKeepsInv<T>(s: State<T>, t: Tid, v: T, pick: Pick, ans: Answer<T>, s': State<T>)
    requires Inv(s) && Running(s, t) && !s.threads[t].Popping? && |s.items| < s.capacity
    requires Appends(s, t, v, pick, ans, s')
    ensures Inv(s')
  {
    Departs(s.threads, t);
    PopperNotified(s.threads[t := Idle], pick);
    assert Fifo(s') by {
      assert s'.delivered + s'.items == (s.delivered + s.items) + [v];
    }
  }

  /** A thread that returns leaves both wait sets as they are and stops counting as notified. */
  lemma Departs<T>(ths: map<Tid, Thread<T>>, t: Tid)
    requires t in ths && (ths[t].Idle? || !ths[t].wake.Asleep?)
    ensures var ths' := ths[t := Idle];
            && PushersIn(ths', Asleep) == PushersIn(ths, Asleep) && PoppersIn(ths', Asleep) == PoppersIn(ths, Asleep)
            && |PushersIn(ths', Notified)| == |PushersIn(ths, Notified)| - (if Pushers(ths[t], Notified) then 1 else 0)
            && |PoppersIn(ths', Notified)| == |PoppersIn(ths, Notified)| - (if Poppers(ths[t], Notified) then 1 else 0)
  {
    SetThread(ths, t, Idle, Asleep);
    SetThread(ths, t, Idle, Notified);
  }

  lemma TakeKeepsInv<T>(s: State<T>, t: Tid, pick: Pick, ans: Answer<T>, s': State<T>)
    requires Inv(s) && Running(s, t) && !s.threads[t].Pushing? && TakesFront(s, t, pick, ans, s')
    ensures Inv(s')
  {
    Departs(s.threads, t);
    PusherNotified(s.threads[t := Idle], pick);
    assert Fifo(s') by {
      assert s.items == [s.items[0]] + s.items[1..];
    }
  }

  /** Taking all keeps the invariant exactly when the caller's deque is empty and at most one producer is asleep, or the
      notified producers are enough to fill the queue. */
  lemma PopAllKeepsInvExactlyWhen<T>(s: State<T>, t: Tid, val: seq<T>, pick: Pick, ans: Answer<T>, s': State<T>)
    requires Inv(s) && Running(s, t) && !s.threads[t].Pushing? && Swaps(s, t, val, pick, ans, s')
    ensures Inv(s') <==> val == [] && EnoughAwake(s)
  {
    Departs(s.threads, t);
    var ths := s.threads[t := Idle];
    PusherNotified(ths, pick);
    var asleep, all := PushersIn(ths, Asleep), s.delivered + s.items;
    assert s'.delivered + s'.items == all + val && |all + val| == |all| + |val|;
    if pick.Nobody? {
      assert |asleep| == 0;
    } else {
      assert |asleep - {pick.w}| == |asleep| - 1;
    }
  }

  /** Falling asleep (only on a full or an empty queue), giving up, or leaving a wait set unnotified. */
  lemma MoveKeepsInv<T>(s: State<T>, t: Tid, th: Thread<T>, s': State<T>)
    requires Inv(s) && t in s.threads && s' == s.(threads := s.threads[t := th])
    requires s.threads[t].Pushing? && s.threads[t].wake.Notified? ==> |s.items| == s.capacity
    requires s.threads[t].Popping? && s.threads[t].wake.Notified? ==> s.items == []
    requires Pushers(th, Asleep) ==> |s.items| == s.capacity
    requires Poppers(th, Asleep) ==> s.items == []
    ensures Inv(s')
  {
    SetThread(s.threads, t, th, Asleep);
    SetThread(s.threads, t, th, Notified);
  }

  lemma TakesExactlyWhen<T>(s: State<T>, t: Tid, take: Take<T>, pick: Pick, ans: Answer<T>, s': State<T>)
    requires Inv(s) && Running(s, t) && !s.threads[t].Pushing? && Takes(s, t, take, pick, ans, s')
    ensures Inv(s') <==> (take.All? ==> take.val == [] && EnoughAwake(s))
  {
    match take
    case One => TakeKeepsInv(s, t, pick, ans, s');
    case All(val) => PopAllKeepsInvExactlyWhen(s, t, val, pick, ans, s');
  }

  /** Every step keeps the invariant exactly when it does no harm. */
  lemma NextKeepsInv<T>(s: State<T>, step: Step<T>, ans: Answer<T>, s': State<T>)
    requires Inv(s) && Next(s, step, ans, s')
    ensures Inv(s') <==> Harmless(s, step)
  {
    match step
    case Push(t, v, pick) =>
      if |s.items| < s.capacity {
        AppendKeepsInv(s, t, v, pick, ans, s');
      } else {
        MoveKeepsInv(s, t, Pushing(v, Asleep), s');
      }
    case PushAgain(t, pick) =>
      if |s.items| < s.capacity {
        AppendKeepsInv(s, t, s.threads[t].value, pick, ans, s');
      } else {
        MoveKeepsInv(s, t, Pushing(s.threads[t].value, Asleep), s');
      }
    case TryPush(t, v, pick) =>
      if |s.items| < s.capacity {
        AppendKeepsInv(s, t, v, pick, ans, s');
      } else {
        MoveKeepsInv(s, t, Idle, s');
      }
    case Pop(t, take, timed, pick) =>
      if s.items != [] {
        TakesExactlyWhen(s, t, take, pick, ans, s');
      } else {
        MoveKeepsInv(s, t, Popping(take, timed, Asleep), s');
      }
    case PopAgain(t, expired, pick) =>
      if s.items != [] {
        TakesExactlyWhen(s, t, s.threads[t].take, pick, ans, s');
      } else {
        MoveKeepsInv(s, t, if expired then Idle else Popping(s.threads[t].take, s.threads[t].timed, Asleep), s');
      }
    case TryPop(t, take, pick) =>
      if s.items != [] {
        TakesExactlyWhen(s, t, take, pick, ans, s');
      } else {
        MoveKeepsInv(s, t, Idle, s');
      }
    case WakeUp(t) =>
      MoveKeepsInv(s, t, s'.threads[t], s');
  }

  lemma InitHasInv<T>(s: State<T>)
    requires Init(s)
    ensures Inv(s)
  {
    assert PoppersIn(s.threads, Asleep) == {} && PushersIn(s.threads, Asleep) == {};
  }

  lemma {:induction false} RunKeepsInv<T>(states: seq<State<T>>, steps: seq<Step<T>>, answers: seq<Answer<T>>, i: nat)
    requires IsRun(states, steps, answers) && i < |states|
    ensures Inv(states[i])
  {
    if i == 0 {
      InitHasInv(states[0]);
    } else {
      RunKeepsInv(states, steps, answers, i - 1);
      NextKeepsInv(states[i - 1], steps[i - 1], answers[i - 1], states[i]);
    }
  }

  // ----- what the invariant gives

  /** Pops return accepted pushes in FIFO order, and no more than capacity are in between. */
  lemma RunIsFifo<T>(states: seq<State<T>>, steps: seq<Step<T>>, answers: seq<Answer<T>>, i: nat)
    requires IsRun(states, steps, answers) && i < |states|
    ensures states[i].accepted == states[i].delivered + states[i].items && |states[i].items| <= states[i].capacity
  {
    RunKeepsInv(states, steps, answers, i);
  }

  /** No lost wake-up: if a consumer sleeps while there is an item, a notified consumer is on its way,
      and its next step takes the front item, or all. */
  lemma NoLostItem<T>(states: seq<State<T>>, steps: seq<Step<T>>, answers: seq<Answer<T>>, i: nat, t: Tid)
    requires IsRun(states, steps, answers) && i < |states|
    requires t in PoppersIn(states[i].threads, Asleep) && states[i].items != []
    ensures exists c :: c in PoppersIn(states[i].threads, Notified)
    ensures forall c, pick, ans, s' | c in PoppersIn(states[i].threads, Notified) ::
              Next(states[i], PopAgain(c, false, pick), ans, s') ==>
                ans == Popped(if states[i].threads[c].take.One? then [states[i].items[0]] else states[i].items)
  {
    RunKeepsInv(states, steps, answers, i);
    assert |PoppersIn(states[i].threads, Notified)| > 0;
  }

  /** The mirror image for a producer asleep while there is a free slot. */
  lemma NoLostSlot<T>(states: seq<State<T>>, steps: seq<Step<T>>, answers: seq<Answer<T>>, i: nat, t: Tid)
    requires IsRun(states, steps, answers) && i < |states|
    requires t in PushersIn(states[i].threads, Asleep) && |states[i].items| < states[i].capacity
    ensures exists p :: p in PushersIn(states[i].threads, Notified)
    ensures forall p, pick, ans, s' | p in PushersIn(states[i].threads, Notified) ::
              Next(states[i], PushAgain(p, pick), ans, s') ==>
                ans == Pushed && s'.accepted == states[i].accepted + [states[i].threads[p].value]
  {
    RunKeepsInv(states, steps, answers, i);
    assert |PushersIn(states[i].threads, Notified)| > 0;
  }

  /** Producers and consumers are never all asleep at once with no wake-up pending. */
  lemma NoDeadlock<T>(states: seq<State<T>>, steps: seq<Step<T>>, answers: seq<Answer<T>>, i: nat)
    requires IsRun(states, steps, answers) && i < |states|
    requires PoppersIn(states[i].threads, Asleep) != {} && PushersIn(states[i].threads, Asleep) != {}
    ensures PoppersIn(states[i].threads, Notified) != {} || PushersIn(states[i].threads, Notified) != {}
  {
    RunKeepsInv(states, steps, answers, i);
  }

  // ----- answers

  /** A push or tryPush answers true exactly when there is room, and a pop or tryPop exactly when there is an item, then
      with the front one, or with all; otherwise the try answers false and the others wait, or give up when their time
      is over. */
  lemma AnsweredExactlyWhen<T>(s: State<T>, step: Step<T>, ans: Answer<T>, s': State<T>)
    requires Next(s, step, ans, s')
    ensures step.Push? || step.TryPush? || step.PushAgain? ==>
              ans == if |s.items| < s.capacity then Pushed else if step.TryPush? then Refused else Waits
    ensures step.Pop? || step.TryPop? || step.PopAgain? ==>
              ans == if s.items != [] then Popped(if TakeOf(s, step).One? then [s.items[0]] else s.items)
                     else if step.TryPop? || (step.PopAgain? && step.expired) then Refused else Waits
    ensures step.WakeUp? ==> ans == Waits
  {
  }

  /** What a step adds to the values accepted and delivered is what its answer says, and nothing else goes into the
      queue or out of it, except by the exchange with a caller's deque. */
  lemma AnswersAreTrue<T>(s: State<T>, step: Step<T>, ans: Answer<T>, s': State<T>)
    requires Next(s, step, ans, s')
    ensures s'.delivered == s.delivered + (if ans.Popped? then ans.taken else []) && s'.capacity == s.capacity
    ensures |s'.accepted| == |s.accepted| + (if ans.Pushed? then 1 else 0) && s.accepted <= s'.accepted
    ensures ans.Pushed? ==> s'.items == s.items + [s'.accepted[|s.accepted|]]
    ensures ans.Popped? ==> s.items == ans.taken + (if TakeOf(s, step).One? then s'.items else [])
    ensures ans.Waits? || ans.Refused? ==> s'.items == s.items && s'.accepted == s.accepted
  {
  }

  /** The value of the thread's latest Push call. */
  ghost function LatestPush<T>(steps: seq<Step<T>>, t: Tid): Option<T> {
    if steps == [] then None
    else
      var step := steps[|steps| - 1];
      if step.Push? && step.t == t then Some(step.value) else LatestPush(steps[..|steps| - 1], t)
  }

  /** The value that the last step is to push: that of its call, or of the call that it goes on with. */
  ghost function Offered<T>(steps: seq<Step<T>>): Option<T>
    requires steps != []
  {
    match steps[|steps| - 1]
    case Push(_, v, _) => Some(v)
    case TryPush(_, v, _) => Some(v)
    case PushAgain(t, _) => LatestPush(steps[..|steps| - 1], t)
    case _ => None
  }

  /** The values of the pushes that answered true, in order. */
  ghost function AllPushed<T>(steps: seq<Step<T>>, answers: seq<Answer<T>>): seq<T>
    requires |steps| == |answers|
  {
    if steps == [] then []
    else
      var n := |steps| - 1;
      AllPushed(steps[..n], answers[..n])
      + (if answers[n].Pushed? && Offered(steps).Some? then [Offered(steps).value] else [])
  }

  /** What the pops that answered true took, in order. */
  ghost function AllPopped<T>(answers: seq<Answer<T>>): seq<T> {
    if answers == [] then []
    else
      var n := |answers| - 1;
      AllPopped(answers[..n]) + (if answers[n].Popped? then answers[n].taken else [])
  }

  /** A thread in Push is to push the value it was called with. */
  ghost predicate Remembers<T>(s: State<T>, steps: seq<Step<T>>) {
    forall t :: t in s.threads && s.threads[t].Pushing? ==> LatestPush(steps, t) == Some(s.threads[t].value)
  }

  lemma StepRemembers<T>(s: State<T>, steps: seq<Step<T>>, step: Step<T>, ans: Answer<T>, s': State<T>)
    requires Remembers(s, steps) && Next(s, step, ans, s')
    ensures Remembers(s', steps + [step])
  {
    assert (steps + [step])[..|steps|] == steps;
    forall t | t in s'.threads && s'.threads[t].Pushing?
      ensures LatestPush(steps + [step], t) == Some(s'.threads[t].value)
    {
      if !(step.Push? && step.t == t) {
        assert t in s.threads && s.threads[t].Pushing? && s.threads[t].value == s'.threads[t].value;
      }
    }
  }

  lemma StepAnswers<T>(s: State<T>, steps: seq<Step<T>>, step: Step<T>, ans: Answer<T>, s': State<T>)
    requires Remembers(s, steps) && Next(s, step, ans, s')
    ensures ans.Pushed? ==> Offered(steps + [step]).Some?
    ensures s'.accepted == s.accepted + (if ans.Pushed? then [Offered(steps + [step]).value] else [])
  {
    assert (steps + [step])[..|steps|] == steps;
  }

  /** In every run, harmless or not, what was accepted are the values of the pushes that answered true, in the order of
      the answers, and what was delivered is what the pops took that answered true. */
  lemma {:induction false} RunAnswers<T>(states: seq<State<T>>, steps: seq<Step<T>>, answers: seq<Answer<T>>)
    requires |states| == |steps| + 1 && |answers| == |steps| && Init(states[0])
    requires forall i :: 0 <= i < |steps| ==> Next(states[i], steps[i], answers[i], states[i + 1])
    ensures var s := states[|steps|];
            Remembers(s, steps) && s.accepted == AllPushed(steps, answers) && s.delivered == AllPopped(answers)
    decreases |steps|
  {
    if steps != [] {
      var n := |steps| - 1;
      RunAnswers(states[..n + 1], steps[..n], answers[..n]);
      assert Next(states[n], steps[n], answers[n], states[n + 1]);
      AnswersAreTrue(states[n], steps[n], answers[n], states[n + 1]);
      StepAnswers(states[n], steps[..n], steps[n], answers[n], states[n + 1]);
      StepRemembers(states[n], steps[..n], steps[n], answers[n], states[n + 1]);
      assert steps == steps[..n] + [steps[n]];
    }
  }

  // ----- taking all

  /** With nobody asleep, a deque that still holds an earlier element leaves it in the queue, where nobody pushed it. */
  lemma PopAllInjects()
    returns (states: seq<State<int>>, steps: seq<Step<int>>, answers: seq<Answer<int>>, s': State<int>)
    ensures IsRun(states, steps, answers) && Next(states[|steps|], TryPop(0, All([5]), Nobody), Popped([7]), s')
    ensures PushersIn(states[|steps|].threads, Asleep) == {} && s'.items == [5] && 5 !in s'.accepted
  {
    var ths: map<Tid, Thread<int>> := map[0 := Idle];
    var a := State(2, [], ths, [], []);
    var b := a.(items := [7], accepted := [7]);
    states, steps, answers := [a, b], [Push(0, 7, Nobody)], [Pushed];
    s' := b.(items := [5], delivered := [7]);
    NobodyPops(ths);
    assert ths[0 := Idle] == ths && PushersIn(ths, Asleep) == {};
    assert Init(a) && Next(a, steps[0], answers[0], b);
  }

  /** A full queue of two on which producers 1 and 2 sleep. */
  ghost function FullWithSleepers(): State<int> {
    State(2, [7, 8], map[0 := Idle, 1 := Pushing(10, Asleep), 2 := Pushing(20, Asleep)], [7, 8], [])
  }

  lemma FullWithSleepersReached()
    returns (states: seq<State<int>>, steps: seq<Step<int>>, answers: seq<Answer<int>>)
    ensures IsRun(states, steps, answers) && states[|steps|] == FullWithSleepers()
  {
    var ths: map<Tid, Thread<int>> := map[0 := Idle, 1 := Idle, 2 := Idle];
    steps := [Push(0, 7, Nobody), Push(0, 8, Nobody), Push(1, 10, Nobody), Push(2, 20, Nobody)];
    answers := [Pushed, Pushed, Waits, Waits];
    var a := State(2, [], ths, [], []);
    var b := a.(items := [7], accepted := [7]);
    var c := a.(items := [7, 8], accepted := [7, 8]);
    var d := c.(threads := ths[1 := Pushing(10, Asleep)]);
    states := [a, b, c, d, FullWithSleepers()];
    NobodyPops(ths);
    assert ths[0 := Idle] == ths;
    assert d.threads[2 := Pushing(20, Asleep)] == FullWithSleepers().threads;
    assert Init(a) && Next(a, steps[0], Pushed, b);
    assert Next(b, steps[1], Pushed, c);
    assert Next(c, steps[2], Waits, d) && Next(d, steps[3], Waits, FullWithSleepers());
  }

  /** A wake-up lost through tryPopAll: both slots are freed, one producer is notified and pushes;
      the other sleeps on although a slot is free and nothing will wake it. */
  lemma PopAllLosesWakeUp() returns (s1: State<int>, s2: State<int>)
    ensures Next(FullWithSleepers(), TryPop(0, All([]), Wakes(1)), Popped([7, 8]), s1)
    ensures Next(s1, PushAgain(1, Nobody), Pushed, s2)
    ensures 2 in PushersIn(s2.threads, Asleep) && |s2.items| < s2.capacity
    ensures PushersIn(s2.threads, Notified) == {} && PoppersIn(s2.threads, Notified) == {}
  {
    var s0 := FullWithSleepers();
    s1 := s0.(items := [], delivered := [7, 8], threads := s0.threads[1 := Pushing(10, Notified)]);
    s2 := s1.(items := [10], accepted := [7, 8, 10], threads := s1.threads[1 := Idle]);
    NobodyPops(s2.threads);
    assert 1 in PushersIn(s0.threads, Asleep);
  }

  lemma NobodyPops<T>(ths: map<Tid, Thread<T>>)
    requires forall t :: t in ths ==> !ths[t].Popping?
    ensures CanNotifyPopper(ths, Nobody) && PoppersIn(ths, Notified) == {}
  {
  }
}
