/** The load-balancing broker: clients and workers that keep REQ lockstep, and a reactor between two ROUTER sockets that
    reads its frontend only while some worker is ready. A message is a sequence of frames; a ROUTER puts the sender's
    identity in front and routes by it, a REQ socket adds and strips the empty delimiter. */
module Brokers {
  import opened Basics

  type Frame = seq<Byte>

  type Message = seq<Frame>

  const READY: Frame := [1]
  const HELLO: Frame := [72, 69, 76, 76, 79]
  const OK: Frame := [79, 75]

  /** The broker's own state: the ready workers, longest waiting first, and how often its loop has the frontend
      registered. */
  datatype Desk = Desk(ready: seq<Frame>, readers: nat)

  predicate LooksReady(f: Frame) {
    f != [] && f[0] == 1
  }

  function AcceptRequest(d: Desk, m: Message): (Desk, Message)
    requires d.ready != []
  {
    var rest := d.ready[1..];
    (Desk(rest, if rest == [] then 0 else d.readers), [d.ready[0], []] + m)
  }

  function AcceptReply(d: Desk, m: Message): (Desk, Option<Message>)
    requires |m| >= 3 && m[2] != []
  {
    var ready := d.ready + [m[0]];
    (Desk(ready, if |ready| == 1 then d.readers + 1 else d.readers), if LooksReady(m[2]) then None else Some(m[2..]))
  }

  class Broker {
    var ready: seq<Frame>
    var readers: nat

    ghost function Value(): Desk
      reads this
    {
      Desk(ready, readers)
    }

    /** lbbroker3 before its loop starts */
    constructor ()
      ensures Value() == Desk([], 0)
    {
      ready, readers := [], 0;
    }

    /** s_handle_frontend; the result is what goes to the backend. */
    method HandleFrontend(received: Option<Message>) returns (sent: Option<Message>)
      requires received.Some? ==> ready != []
      modifies this
      ensures received.None? ==> Value() == old(Value()) && sent.None?
      ensures received.Some? ==> sent.Some? && (Value(), sent.value) == AcceptRequest(old(Value()), received.value)
      ensures received.Some? ==> sent == Some([old(ready)[0], []] + received.value) && ready == old(ready)[1..]
    {
      if received.None? {
        return None;
      }
      var msg := [[]] + received.value;
      msg := [ready[0]] + msg;
      assert msg == [ready[0], []] + received.value;
      ready := ready[1..];
      if |ready| == 0 {
        readers := 0;
      }
      return Some(msg);
    }

    /** s_handle_backend; the result is what goes to the frontend. */
    method HandleBackend(received: Option<Message>) returns (sent: Option<Message>)
      requires received.Some? ==> |received.value| >= 3 && received.value[2] != []
      modifies this
      ensures received.None? ==> Value() == old(Value()) && sent.None?
      ensures received.Some? ==> (Value(), sent) == AcceptReply(old(Value()), received.value)
      ensures received.Some? ==> ready == old(ready) + [received.value[0]]
    {
      if received.None? {
        return None;
      }
      var msg := received.value;
      var identity := msg[0];
      msg := msg[1..];
      msg := msg[1..];
      ready := ready + [identity];
      if |ready| == 1 {
        readers := readers + 1;
      }
      var frame := msg[0];
      if frame[0] == READY[0] {
        return None;
      }
      assert msg == received.value[2..];
      return Some(msg);
    }
  }

  // The whole system

  /** Messages in flight wait, in no particular order, at the socket they were sent to: in front of the broker, at the
      workers, behind the broker, and at the clients. `destroyed` remembers what the broker threw away. */
  datatype System = System(
    idle: set<Frame>, newcomers: set<Frame>, desk: Desk,
    frontend: seq<Message>, toWorkers: seq<Message>, backend: seq<Message>, toClients: seq<Message>,
    destroyed: seq<Message>)

  datatype Step =
    | Ask(client: Frame)        // a client sends HELLO
    | Announce(worker: Frame)   // a worker sends READY
    | Frontend(i: nat)          // the broker's loop calls the frontend handler
    | Work(i: nat)              // a worker answers the request it received
    | Backend(i: nat)           // the broker's loop calls the backend handler
    | Receive(i: nat)           // a client receives its reply

  predicate Enabled(s: System, step: Step) {
    match step
    case Ask(c) => c in s.idle
    case Announce(w) => w in s.newcomers
    case Frontend(i) => s.desk.readers > 0 && i < |s.frontend|
    case Work(i) => i < |s.toWorkers|
    case Backend(i) => i < |s.backend|
    case Receive(i) => i < |s.toClients|
  }

  function Without(ms: seq<Message>, i: nat): seq<Message>
    requires i < |ms|
  {
    ms[..i] + ms[i + 1..]
  }

  /** A worker's answer: the message it received, with the last frame replaced, behind its identity and the
      delimiter. */
  function Answered(m: Message): Message
    requires |m| >= 3
  {
    var body := m[2..];
    [m[0], []] + body[|body| - 1 := OK]
  }

  /** What the step does not have to rule out because no run reaches it. */
  predicate Safe(s: System, step: Step)
    requires Enabled(s, step)
  {
    match step
    case Frontend(i) => s.desk.ready != []
    case Work(i) => |s.toWorkers[i]| >= 3
    case Backend(i) => |s.backend[i]| >= 3 && s.backend[i][2] != []
    case Receive(i) => s.toClients[i] != []
    case _ => true
  }

  function Next(s: System, step: Step): System
    requires Enabled(s, step) && Safe(s, step)
  {
    match step
    case Ask(c) =>
      s.(idle := s.idle - {c}, frontend := s.frontend + [[c, [], HELLO]])
    case Announce(w) =>
      s.(newcomers := s.newcomers - {w}, backend := s.backend + [[w, [], READY]])
    case Frontend(i) =>
      var (desk, out) := AcceptRequest(s.desk, s.frontend[i]);
      s.(desk := desk, frontend := Without(s.frontend, i), toWorkers := s.toWorkers + [out])
    case Work(i) =>
      s.(toWorkers := Without(s.toWorkers, i), backend := s.backend + [Answered(s.toWorkers[i])])
    case Backend(i) =>
      var (desk, out) := AcceptReply(s.desk, s.backend[i]);
      s.(desk := desk, backend := Without(s.backend, i),
         toClients := if out.Some? then s.toClients + [out.value] else s.toClients,
         destroyed := if out.Some? then s.destroyed else s.destroyed + [s.backend[i][2..]])
    case Receive(i) =>
      s.(toClients := Without(s.toClients, i), idle := s.idle + {s.toClients[i][0]})
  }

  function Init(clients: set<Frame>, workers: set<Frame>): System {
    System(clients, workers, Desk([], 0), [], [], [], [], [])
  }

  // Where everybody is

  function Hit(m: Message, len: nat, k: nat, f: Frame): nat
    requires k < len
  {
    if |m| == len && m[k] == f then 1 else 0
  }

  /** How many of the messages have len frames, the k-th of them f. */
  function Count(ms: seq<Message>, len: nat, k: nat, f: Frame): nat
    requires k < len
  {
    if ms == [] then 0 else Count(ms[..|ms| - 1], len, k, f) + Hit(ms[|ms| - 1], len, k, f)
  }

  lemma CountAppend(ms: seq<Message>, m: Message, len: nat, k: nat, f: Frame)
    requires k < len
    ensures Count(ms + [m], len, k, f) == Count(ms, len, k, f) + Hit(m, len, k, f)
  {
    assert (ms + [m])[..|ms|] == ms;
  }

  lemma {:induction false} CountWithout(ms: seq<Message>, i: nat, len: nat, k: nat, f: Frame)
    requires i < |ms| && k < len
    ensures Count(ms, len, k, f) == Count(Without(ms, i), len, k, f) + Hit(ms[i], len, k, f)
  {
    var n := |ms| - 1;
    if i < n {
      CountWithout(ms[..n], i, len, k, f);
      assert Without(ms, i) == Without(ms[..n], i) + [ms[n]];
      CountAppend(Without(ms[..n], i), ms[n], len, k, f);
    } else {
      assert Without(ms, i) == ms[..n];
    }
  }

  function Occurs(fs: seq<Frame>, f: Frame): nat {
    if fs == [] then 0 else (if fs[0] == f then 1 else 0) + Occurs(fs[1..], f)
  }

  lemma {:induction false} OccursAppend(fs: seq<Frame>, g: Frame, f: Frame)
    ensures Occurs(fs + [g], f) == Occurs(fs, f) + (if g == f then 1 else 0)
  {
    if fs == [] {
      assert [g][1..] == [];
    } else {
      OccursAppend(fs[1..], g, f);
      assert (fs + [g])[1..] == fs[1..] + [g];
    }
  }

  function Member(fs: set<Frame>, f: Frame): nat {
    if f in fs then 1 else 0
  }

  /** The messages that travel, by what they are. */
  datatype Kind = Request | Task | Report | Reply | Waste

  predicate Fits(kind: Kind, m: Message) {
    match kind
    case Request => |m| == 3 && m[0] != [] && m[1] == [] && m[2] == HELLO
    case Task => |m| == 5 && m[1] == [] && m[2] != [] && m[3] == [] && m[4] == HELLO
    case Report =>
      || m == [if m == [] then [] else m[0], [], READY]
      || (|m| == 5 && m[1] == [] && m[2] != [] && m[3] == [] && m[4] == OK)
    case Reply => |m| == 3 && m[0] != [] && m[1] == [] && m[2] == OK && !LooksReady(m[0])
    case Waste => m == [READY] || (|m| == 3 && LooksReady(m[0]) && m[1] == [] && m[2] == OK)
  }

  predicate AllFit(kind: Kind, ms: seq<Message>) {
    forall i :: 0 <= i < |ms| ==> Fits(kind, ms[i])
  }

  lemma FitAppend(kind: Kind, ms: seq<Message>, m: Message)
    requires AllFit(kind, ms) && Fits(kind, m)
    ensures AllFit(kind, ms + [m])
  {
  }

  lemma FitWithout(kind: Kind, ms: seq<Message>, i: nat)
    requires AllFit(kind, ms) && i < |ms|
    ensures AllFit(kind, Without(ms, i))
  {
  }

  predicate Shapes(s: System) {
    && AllFit(Request, s.frontend) && AllFit(Task, s.toWorkers) && AllFit(Report, s.backend)
    && AllFit(Reply, s.toClients) && AllFit(Waste, s.destroyed)
  }

  /** How often the broker threw away a reply to this client. */
  function Lost(s: System, c: Frame): nat {
    Count(s.destroyed, 3, 0, c)
  }

  /** At how many places the client is: idle, asking, with a request at a worker or on its way back, or without hope. */
  function ClientPlaces(s: System, c: Frame): nat {
    Member(s.idle, c) + Count(s.frontend, 3, 0, c) + Count(s.toWorkers, 5, 2, c) + Count(s.backend, 5, 2, c)
    + Count(s.toClients, 3, 0, c) + Lost(s, c)
  }

  /** At how many places the worker is: not yet heard of, ready, busy with a request, announcing itself or answering. */
  function WorkerPlaces(s: System, w: Frame): nat {
    Member(s.newcomers, w) + Occurs(s.desk.ready, w) + Count(s.toWorkers, 5, 0, w)
    + Count(s.backend, 3, 0, w) + Count(s.backend, 5, 0, w)
  }

  predicate SamePlaces(s: System, t: System, f: Frame) {
    ClientPlaces(t, f) == ClientPlaces(s, f) && WorkerPlaces(t, f) == WorkerPlaces(s, f)
  }

  predicate ReaderMatches(d: Desk) {
    d.readers == (if d.ready == [] then 0 else 1)
  }

  ghost predicate Inv(s: System, clients: set<Frame>, workers: set<Frame>) {
    && ReaderMatches(s.desk) && Shapes(s)
    && (forall c {:trigger ClientPlaces(s, c)} :: ClientPlaces(s, c) == Member(clients, c))
    && (forall w {:trigger WorkerPlaces(s, w)} :: WorkerPlaces(s, w) == Member(workers, w))
  }

  /** No reachable step pops an empty ready list or reads a frame that is not there. */
  lemma StepIsSafe(s: System, step: Step)
    requires ReaderMatches(s.desk) && Shapes(s) && Enabled(s, step)
    ensures Safe(s, step)
  {
    match step
    case Work(i) => assert Fits(Task, s.toWorkers[i]);
    case Backend(i) => assert Fits(Report, s.backend[i]);
    case Receive(i) => assert Fits(Reply, s.toClients[i]);
    case _ =>
  }

  lemma FrontendMoves(s: System, i: nat, f: Frame)
    requires ReaderMatches(s.desk) && Shapes(s) && Enabled(s, Frontend(i))
    ensures ReaderMatches(Next(s, Frontend(i)).desk) && Shapes(Next(s, Frontend(i)))
    ensures SamePlaces(s, Next(s, Frontend(i)), f)
  {
    var m := s.frontend[i];
    assert Fits(Request, m);
    var w := s.desk.ready[0];
    var out := [w, [], m[0], [], HELLO];
    assert AcceptRequest(s.desk, m).1 == out;
    FitWithout(Request, s.frontend, i);
    FitAppend(Task, s.toWorkers, out);
    CountWithout(s.frontend, i, 3, 0, f);
    CountAppend(s.toWorkers, out, 5, 0, f);
    CountAppend(s.toWorkers, out, 5, 2, f);
  }

  lemma WorkMoves(s: System, i: nat, f: Frame)
    requires Shapes(s) && Enabled(s, Work(i))
    ensures Safe(s, Work(i))
    ensures Shapes(Next(s, Work(i))) && SamePlaces(s, Next(s, Work(i)), f)
  {
    var m := s.toWorkers[i];
    assert Fits(Task, m);
    var out := [m[0], [], m[2], [], OK];
    assert Answered(m) == out;
    FitWithout(Task, s.toWorkers, i);
    FitAppend(Report, s.backend, out);
    CountWithout(s.toWorkers, i, 5, 0, f);
    CountWithout(s.toWorkers, i, 5, 2, f);
    CountAppend(s.backend, out, 3, 0, f);
    CountAppend(s.backend, out, 5, 0, f);
    CountAppend(s.backend, out, 5, 2, f);
  }

  /** What taking a message out of the backend changes: its worker is ready, its client is not on the way back. */
  lemma BackendTaken(s: System, i: nat, f: Frame)
    requires Shapes(s) && i < |s.backend|
    ensures Fits(Report, s.backend[i]) && AllFit(Report, Without(s.backend, i))
    ensures Count(s.backend, 5, 2, f) == Count(Without(s.backend, i), 5, 2, f) + Hit(s.backend[i], 5, 2, f)
    ensures var rest := Without(s.backend, i);
            Occurs(s.desk.ready + [s.backend[i][0]], f) + Count(rest, 3, 0, f) + Count(rest, 5, 0, f)
            == Occurs(s.desk.ready, f) + Count(s.backend, 3, 0, f) + Count(s.backend, 5, 0, f)
  {
    assert Fits(Report, s.backend[i]);
    FitWithout(Report, s.backend, i);
    CountWithout(s.backend, i, 3, 0, f);
    CountWithout(s.backend, i, 5, 0, f);
    CountWithout(s.backend, i, 5, 2, f);
    OccursAppend(s.desk.ready, s.backend[i][0], f);
  }

  lemma ReportOpened(m: Message, f: Frame)
    requires Fits(Report, m)
    ensures |m| >= 3 && m[2] != [] && Hit(m[2..], 3, 0, f) == Hit(m, 5, 2, f)
    ensures Fits(if LooksReady(m[2]) then Waste else Reply, m[2..])
  {
    assert if |m| == 5 then m[2..] == [m[2], [], OK] else m[2..] == [READY];
  }

  /** The two outcomes of the backend handler, as relations between the systems before and after. */
  predicate Forwarded(s: System, t: System, i: nat)
    requires i < |s.backend| && |s.backend[i]| >= 3
  {
    t == s.(desk := t.desk, backend := Without(s.backend, i), toClients := s.toClients + [s.backend[i][2..]])
  }

  predicate Discarded(s: System, t: System, i: nat)
    requires i < |s.backend| && |s.backend[i]| >= 3
  {
    t == s.(desk := t.desk, backend := Without(s.backend, i), destroyed := s.destroyed + [s.backend[i][2..]])
  }

  lemma ReportMoves(s: System, t: System, i: nat, f: Frame)
    requires Shapes(s) && i < |s.backend| && |s.backend[i]| >= 3 && t.desk.ready == s.desk.ready + [s.backend[i][0]]
    requires if LooksReady(s.backend[i][2]) then Discarded(s, t, i) else Forwarded(s, t, i)
    ensures Shapes(t) && SamePlaces(s, t, f)
  {
    BackendTaken(s, i, f);
    ReportOpened(s.backend[i], f);
    var rest := s.backend[i][2..];
    if Discarded(s, t, i) && LooksReady(s.backend[i][2]) {
      FitAppend(Waste, s.destroyed, rest);
      CountAppend(s.destroyed, rest, 3, 0, f);
    } else {
      FitAppend(Reply, s.toClients, rest);
      CountAppend(s.toClients, rest, 3, 0, f);
    }
  }

  lemma BackendMoves(s: System, i: nat, f: Frame)
    requires ReaderMatches(s.desk) && Shapes(s) && Enabled(s, Backend(i))
    ensures Safe(s, Backend(i))
    ensures ReaderMatches(Next(s, Backend(i)).desk) && Shapes(Next(s, Backend(i)))
    ensures SamePlaces(s, Next(s, Backend(i)), f)
  {
    assert Fits(Report, s.backend[i]);
    ReportOpened(s.backend[i], f);
    ReportMoves(s, Next(s, Backend(i)), i, f);
  }

  lemma AskMoves(s: System, c: Frame, f: Frame)
    requires Shapes(s) && c in s.idle && c != []
    ensures Shapes(Next(s, Ask(c))) && SamePlaces(s, Next(s, Ask(c)), f)
  {
    FitAppend(Request, s.frontend, [c, [], HELLO]);
    CountAppend(s.frontend, [c, [], HELLO], 3, 0, f);
  }

  lemma AnnounceMoves(s: System, w: Frame, f: Frame)
    requires Shapes(s) && w in s.newcomers
    ensures Shapes(Next(s, Announce(w))) && SamePlaces(s, Next(s, Announce(w)), f)
  {
    var m := [w, [], READY];
    FitAppend(Report, s.backend, m);
    CountAppend(s.backend, m, 3, 0, f);
    CountAppend(s.backend, m, 5, 0, f);
    CountAppend(s.backend, m, 5, 2, f);
  }

  lemma ReceiveMoves(s: System, i: nat, f: Frame)
    requires Shapes(s) && Enabled(s, Receive(i)) && (s.toClients[i] != [] ==> s.toClients[i][0] !in s.idle)
    ensures Safe(s, Receive(i))
    ensures Shapes(Next(s, Receive(i))) && SamePlaces(s, Next(s, Receive(i)), f)
  {
    assert Fits(Reply, s.toClients[i]);
    FitWithout(Reply, s.toClients, i);
    CountWithout(s.toClients, i, 3, 0, f);
  }

  /** A reply goes to a client that waits for it. */
  lemma ReplyIsAwaited(s: System, clients: set<Frame>, workers: set<Frame>, i: nat)
    requires Inv(s, clients, workers) && i < |s.toClients|
    ensures |s.toClients[i]| == 3 && s.toClients[i][0] in clients && s.toClients[i][0] !in s.idle
  {
    assert Fits(Reply, s.toClients[i]);
    var c := s.toClients[i][0];
    CountWithout(s.toClients, i, 3, 0, c);
    assert ClientPlaces(s, c) == Member(clients, c);
  }

  lemma NextMoves(s: System, clients: set<Frame>, workers: set<Frame>, step: Step, f: Frame)
    requires Inv(s, clients, workers) && [] !in clients && Enabled(s, step)
    ensures Safe(s, step)
    ensures ReaderMatches(Next(s, step).desk) && Shapes(Next(s, step)) && SamePlaces(s, Next(s, step), f)
  {
    StepIsSafe(s, step);
    match step
    case Ask(c) =>
      assert ClientPlaces(s, c) == Member(clients, c);
      AskMoves(s, c, f);
    case Announce(w) => AnnounceMoves(s, w, f);
    case Frontend(i) => FrontendMoves(s, i, f);
    case Work(i) => WorkMoves(s, i, f);
    case Backend(i) => BackendMoves(s, i, f);
    case Receive(i) =>
      ReplyIsAwaited(s, clients, workers, i);
      ReceiveMoves(s, i, f);
  }

  lemma NextKeepsInv(s: System, clients: set<Frame>, workers: set<Frame>, step: Step)
    requires Inv(s, clients, workers) && [] !in clients && Enabled(s, step)
    ensures Safe(s, step) && Inv(Next(s, step), clients, workers)
  {
    NextMoves(s, clients, workers, step, []);
    forall f
      ensures ClientPlaces(Next(s, step), f) == Member(clients, f)
      ensures WorkerPlaces(Next(s, step), f) == Member(workers, f)
    {
      NextMoves(s, clients, workers, step, f);
      assert ClientPlaces(s, f) == Member(clients, f) && WorkerPlaces(s, f) == Member(workers, f);
    }
  }

  // Runs

  /** The steps can be taken one after the other, each of them enabled when its turn comes. */
  ghost predicate CanRun(s: System, steps: seq<Step>)
    decreases |steps|
  {
    steps == [] || (Enabled(s, steps[0]) && Safe(s, steps[0]) && CanRun(Next(s, steps[0]), steps[1..]))
  }

  ghost function After(s: System, steps: seq<Step>): System
    requires CanRun(s, steps)
    decreases |steps|
  {
    if steps == [] then s else After(Next(s, steps[0]), steps[1..])
  }

  function Asks(s: System, step: Step, c: Frame): nat
    requires Enabled(s, step) && Safe(s, step)
  {
    if step == Ask(c) then 1 else 0
  }

  function Receives(s: System, step: Step, c: Frame): nat
    requires Enabled(s, step) && Safe(s, step)
  {
    if step.Receive? && s.toClients[step.i][0] == c then 1 else 0
  }

  /** How many requests the client has sent in a run. */
  ghost function Asked(s: System, steps: seq<Step>, c: Frame): nat
    requires CanRun(s, steps)
    decreases |steps|
  {
    if steps == [] then 0 else Asks(s, steps[0], c) + Asked(Next(s, steps[0]), steps[1..], c)
  }

  /** How many replies have been delivered to the client in a run. */
  ghost function Replied(s: System, steps: seq<Step>, c: Frame): nat
    requires CanRun(s, steps)
    decreases |steps|
  {
    if steps == [] then 0 else Receives(s, steps[0], c) + Replied(Next(s, steps[0]), steps[1..], c)
  }

  /** A client that is not idle has exactly one request under way. */
  function Waiting(s: System, c: Frame): int {
    if c in s.idle then 0 else 1
  }

  lemma OneStepCounts(s: System, clients: set<Frame>, workers: set<Frame>, step: Step, c: Frame)
    requires Inv(s, clients, workers) && Enabled(s, step) && Safe(s, step)
    ensures Asks(s, step, c) - Receives(s, step, c) == Waiting(Next(s, step), c) - Waiting(s, c)
  {
    if step.Receive? {
      ReplyIsAwaited(s, clients, workers, step.i);
    }
  }

  /** In every run the loop has the frontend registered exactly when a worker is ready, every worker and every client is
      at exactly one place, and a client has one request more than replies exactly while it waits. */
  lemma {:induction false} RunKeepsInv(s: System, clients: set<Frame>, workers: set<Frame>, steps: seq<Step>)
    requires Inv(s, clients, workers) && [] !in clients && CanRun(s, steps)
    ensures Inv(After(s, steps), clients, workers)
    ensures forall c {:trigger Asked(s, steps, c)} :: c in clients ==>
              Asked(s, steps, c) - Replied(s, steps, c) == Waiting(After(s, steps), c) - Waiting(s, c)
    decreases |steps|
  {
    if steps != [] {
      var t := Next(s, steps[0]);
      NextKeepsInv(s, clients, workers, steps[0]);
      RunKeepsInv(t, clients, workers, steps[1..]);
      forall c | c in clients
        ensures Asked(s, steps, c) - Replied(s, steps, c) == Waiting(After(s, steps), c) - Waiting(s, c)
      {
        OneStepCounts(s, clients, workers, steps[0], c);
        assert Asked(t, steps[1..], c) - Replied(t, steps[1..], c) == Waiting(After(s, steps), c) - Waiting(t, c);
      }
    }
  }

  lemma InitInv(clients: set<Frame>, workers: set<Frame>)
    ensures Inv(Init(clients, workers), clients, workers)
  {
  }

  /** In particular no step ever gets stuck half way: an enabled step can always be taken. */
  lemma RunExtends(clients: set<Frame>, workers: set<Frame>, steps: seq<Step>, step: Step)
    requires [] !in clients && CanRun(Init(clients, workers), steps)
    requires Enabled(After(Init(clients, workers), steps), step)
    ensures CanRun(Init(clients, workers), steps + [step])
  {
    InitInv(clients, workers);
    RunKeepsInv(Init(clients, workers), clients, workers, steps);
    StepIsSafe(After(Init(clients, workers), steps), step);
    CanRunFurther(Init(clients, workers), steps, step);
  }

  lemma {:induction false} CanRunFurther(s: System, steps: seq<Step>, step: Step)
    requires CanRun(s, steps) && Enabled(After(s, steps), step) && Safe(After(s, steps), step)
    ensures CanRun(s, steps + [step])
    decreases |steps|
  {
    if steps == [] {
      assert [step][1..] == [];
    } else {
      CanRunFurther(Next(s, steps[0]), steps[1..], step);
      assert (steps + [step])[1..] == steps[1..] + [step];
    }
  }

  // Workers take turns

  /** The worker that a step routes a request to: the identity in front of the message it leaves for the workers. */
  function SentTo(s: System, step: Step): seq<Frame>
    requires Enabled(s, step) && Safe(s, step)
  {
    if step.Frontend? && Next(s, step).toWorkers != [] && Next(s, step).toWorkers[|Next(s, step).toWorkers| - 1] != []
    then [Next(s, step).toWorkers[|Next(s, step).toWorkers| - 1][0]] else []
  }

  /** The worker whose message a step takes in. */
  function HeardFrom(s: System, step: Step): seq<Frame>
    requires Enabled(s, step) && Safe(s, step)
  {
    if step.Backend? then [s.backend[step.i][0]] else []
  }

  ghost function AllSentTo(s: System, steps: seq<Step>): seq<Frame>
    requires CanRun(s, steps)
    decreases |steps|
  {
    if steps == [] then [] else SentTo(s, steps[0]) + AllSentTo(Next(s, steps[0]), steps[1..])
  }

  ghost function AllHeardFrom(s: System, steps: seq<Step>): seq<Frame>
    requires CanRun(s, steps)
    decreases |steps|
  {
    if steps == [] then [] else HeardFrom(s, steps[0]) + AllHeardFrom(Next(s, steps[0]), steps[1..])
  }

  function Requests(steps: seq<Step>): nat {
    if steps == [] then 0 else (if steps[0].Frontend? then 1 else 0) + Requests(steps[1..])
  }

  lemma OneTurn(s: System, step: Step)
    requires Enabled(s, step) && Safe(s, step)
    ensures s.desk.ready + HeardFrom(s, step) == SentTo(s, step) + Next(s, step).desk.ready
    ensures |SentTo(s, step)| == if step.Frontend? then 1 else 0
  {
    if step.Frontend? {
      var out := AcceptRequest(s.desk, s.frontend[step.i]).1;
      assert Next(s, step).toWorkers == s.toWorkers + [out] && out[0] == s.desk.ready[0];
    }
  }

  /** In every run the workers that were ready, followed by those heard from, in order, are those that were sent a
      request, in order, followed by those that are ready now; every request goes to one worker. */
  lemma {:induction false} WorkersTakeTurns(s: System, steps: seq<Step>)
    requires CanRun(s, steps)
    ensures s.desk.ready + AllHeardFrom(s, steps) == AllSentTo(s, steps) + After(s, steps).desk.ready
    ensures |AllSentTo(s, steps)| == Requests(steps)
    decreases |steps|
  {
    if steps != [] {
      var t := Next(s, steps[0]);
      OneTurn(s, steps[0]);
      WorkersTakeTurns(t, steps[1..]);
      Regroup(s.desk.ready, HeardFrom(s, steps[0]), AllHeardFrom(t, steps[1..]));
      Regroup(SentTo(s, steps[0]), t.desk.ready, AllHeardFrom(t, steps[1..]));
      Regroup(SentTo(s, steps[0]), AllSentTo(t, steps[1..]), After(s, steps).desk.ready);
    }
  }

  /** A ready worker gets the request that comes after as many as there are workers before it. */
  lemma ReadyWorkerIsServed(s: System, steps: seq<Step>, k: nat)
    requires CanRun(s, steps) && k < |s.desk.ready| && Requests(steps) > k
    ensures |AllSentTo(s, steps)| > k && AllSentTo(s, steps)[k] == s.desk.ready[k]
  {
    WorkersTakeTurns(s, steps);
    assert (s.desk.ready + AllHeardFrom(s, steps))[k] == s.desk.ready[k];
  }

  // Everybody is served

  /** How many steps are left to do, other than those that send new requests. */
  function Potential(s: System): nat {
    3 * |s.newcomers| + 4 * |s.frontend| + 3 * |s.toWorkers| + 2 * |s.backend| + |s.toClients|
  }

  lemma StepCosts(s: System, step: Step)
    requires Enabled(s, step) && Safe(s, step) && !step.Ask?
    ensures Potential(Next(s, step)) < Potential(s)
  {
    if step.Announce? {
      assert s.newcomers == (s.newcomers - {step.worker}) + {step.worker};
    }
  }

  /** When nothing can happen but new requests, every client is idle except those whose identity looks like READY. */
  lemma QuietMeansServed(s: System, clients: set<Frame>, workers: set<Frame>, c: Frame)
    requires Inv(s, clients, workers) && workers != {} && c in clients
    requires forall step :: Enabled(s, step) ==> step.Ask?
    ensures c in s.idle || (Lost(s, c) == 1 && LooksReady(c))
  {
    assert !Enabled(s, Work(0)) && !Enabled(s, Backend(0)) && !Enabled(s, Receive(0)) && !Enabled(s, Frontend(0));
    var w :| w in workers;
    assert !Enabled(s, Announce(w));
    assert WorkerPlaces(s, w) == 1;
    assert ClientPlaces(s, c) == 1;
    if Lost(s, c) > 0 {
      LostLooksReady(s.destroyed, c);
    }
  }

  lemma {:induction false} LostLooksReady(ms: seq<Message>, c: Frame)
    requires AllFit(Waste, ms) && Count(ms, 3, 0, c) > 0
    ensures LooksReady(c)
  {
    var n := |ms| - 1;
    assert Fits(Waste, ms[n]);
    if Hit(ms[n], 3, 0, c) == 0 {
      LostLooksReady(ms[..n], c);
    }
  }

  /** From any reachable state, leaving the clients silent, at most Potential many steps follow. */
  lemma {:induction false} SilentRunEnds(s: System, steps: seq<Step>)
    requires CanRun(s, steps) && forall step :: step in steps ==> !step.Ask?
    ensures |steps| + Potential(After(s, steps)) <= Potential(s)
    decreases |steps|
  {
    if steps != [] {
      assert steps[0] in steps;
      StepCosts(s, steps[0]);
      SilentRunEnds(Next(s, steps[0]), steps[1..]);
    }
  }

  /** A client whose identity begins like READY is never answered ... */
  lemma {:induction false} NeverAnswered(s: System, clients: set<Frame>, workers: set<Frame>, steps: seq<Step>,
                                         c: Frame)
    requires Inv(s, clients, workers) && [] !in clients && CanRun(s, steps) && LooksReady(c)
    ensures Replied(s, steps, c) == 0
    decreases |steps|
  {
    if steps != [] {
      NextKeepsInv(s, clients, workers, steps[0]);
      NeverAnswered(Next(s, steps[0]), clients, workers, steps[1..], c);
      if steps[0].Receive? {
        assert Fits(Reply, s.toClients[steps[0].i]);
      }
    }
  }

  /** The shortest run that serves a client. */
  function Service(c: Frame, w: Frame): seq<Step> {
    [Announce(w), Backend(0), Ask(c), Frontend(0), Work(0), Backend(0), Receive(0)]
  }

  /** ... and any other client can be: the broker delivers a reply to a client exactly when its identity does not begin
      with the READY byte. */
  lemma AnsweredExactlyWhen(clients: set<Frame>, workers: set<Frame>, c: Frame)
    requires [] !in clients && c in clients && workers != {}
    ensures !LooksReady(c) <==>
            exists steps :: CanRun(Init(clients, workers), steps) && Replied(Init(clients, workers), steps, c) > 0
  {
    InitInv(clients, workers);
    if LooksReady(c) {
      forall steps | CanRun(Init(clients, workers), steps)
        ensures Replied(Init(clients, workers), steps, c) == 0
      {
        NeverAnswered(Init(clients, workers), clients, workers, steps, c);
      }
    } else {
      var w :| w in workers;
      ServiceRuns(clients, workers, c, w);
      assert Replied(Init(clients, workers), Service(c, w), c) > 0;
    }
  }

  /** The worker's announcement reaches the broker. */
  lemma Announced(s: System, w: Frame)
    requires w in s.newcomers && s.backend == [] && s.desk == Desk([], 0)
    ensures Next(Next(s, Announce(w)), Backend(0))
            == s.(newcomers := s.newcomers - {w}, desk := Desk([w], 1), destroyed := s.destroyed + [[READY]])
  {
    var m := [w, [], READY];
    assert m[2..] == [READY] && Without([m], 0) == [];
  }

  /** A request goes to the only ready worker. */
  lemma Dispatched(s: System, c: Frame, w: Frame)
    requires c in s.idle && s.frontend == [] && s.desk == Desk([w], 1) && s.toWorkers == []
    ensures Next(Next(s, Ask(c)), Frontend(0))
            == s.(idle := s.idle - {c}, desk := Desk([], 0), toWorkers := [[w, [], c, [], HELLO]])
  {
    var m := [c, [], HELLO];
    assert [w, []] + m == [w, [], c, [], HELLO] && Without([m], 0) == [];
  }

  /** The worker's answer goes back to the client. */
  lemma Returned(s: System, c: Frame, w: Frame)
    requires s.toWorkers == [[w, [], c, [], HELLO]] && s.backend == [] && s.toClients == [] && s.desk == Desk([], 0)
    requires c != [] && !LooksReady(c)
    ensures Next(s, Work(0)).backend == [[w, [], c, [], OK]]
    ensures Next(Next(s, Work(0)), Backend(0)) == s.(desk := Desk([w], 1), toWorkers := [], toClients := [[c, [], OK]])
  {
    var m := s.toWorkers[0];
    assert m[2..][2 := OK] == [c, [], OK];
    var out := [w, [], c, [], OK];
    assert Answered(m) == out;
    assert out[2..] == [c, [], OK] && Without([m], 0) == [] && Without([out], 0) == [];
  }

  lemma DeliveryRuns(s: System, c: Frame, w: Frame)
    requires s.toWorkers == [[w, [], c, [], HELLO]] && s.backend == [] && s.toClients == [] && s.desk == Desk([], 0)
    requires c != [] && !LooksReady(c)
    ensures CanRun(s, Service(c, w)[4..]) && Replied(s, Service(c, w)[4..], c) == 1
  {
    var run := Service(c, w)[4..];
    Returned(s, c, w);
    var t := Next(Next(s, Work(0)), Backend(0));
    assert run[2..] == [Receive(0)] && run[2..][1..] == [];
    assert CanRun(t, run[2..]) && Replied(t, run[2..], c) == 1;
    RunTwo(s, run, c);
  }

  lemma RequestRuns(s: System, c: Frame, w: Frame)
    requires c in s.idle && s.frontend == [] && s.desk == Desk([w], 1)
    requires s.toWorkers == [] && s.backend == [] && s.toClients == []
    requires c != [] && !LooksReady(c)
    ensures CanRun(s, Service(c, w)[2..]) && Replied(s, Service(c, w)[2..], c) == 1
  {
    var run := Service(c, w)[2..];
    Dispatched(s, c, w);
    DeliveryRuns(Next(Next(s, Ask(c)), Frontend(0)), c, w);
    assert run[2..] == Service(c, w)[4..];
    RunTwo(s, run, c);
  }

  lemma ServiceRuns(clients: set<Frame>, workers: set<Frame>, c: Frame, w: Frame)
    requires c in clients && c != [] && w in workers && !LooksReady(c)
    ensures CanRun(Init(clients, workers), Service(c, w))
    ensures Replied(Init(clients, workers), Service(c, w), c) == 1
  {
    var s := Init(clients, workers);
    Announced(s, w);
    RequestRuns(Next(Next(s, Announce(w)), Backend(0)), c, w);
    RunTwo(s, Service(c, w), c);
  }

  lemma RunTwo(s: System, steps: seq<Step>, c: Frame)
    requires |steps| >= 2 && Enabled(s, steps[0]) && Safe(s, steps[0]) && !steps[0].Receive?
    requires Enabled(Next(s, steps[0]), steps[1]) && Safe(Next(s, steps[0]), steps[1]) && !steps[1].Receive?
    requires CanRun(Next(Next(s, steps[0]), steps[1]), steps[2..])
    ensures CanRun(s, steps)
    ensures Replied(s, steps, c) == Replied(Next(Next(s, steps[0]), steps[1]), steps[2..], c)
  {
    assert steps[1..][1..] == steps[2..];
    assert CanRun(Next(s, steps[0]), steps[1..]);
  }
}
