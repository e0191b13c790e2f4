/** Fence retirement as a protocol: any number of holders pushing, one worker delivering, any
    number of threads draining the deferred queue. Each lock region is one step; so is each thing
    a thread does between two of them that another can see. */
module FenceProtocol {
  import opened Bytes

  type Holder = nat
  type Drainer = nat

  datatype Fence =
    | Context(ctx: nat, ring: nat, id: nat)
    | Global(client: nat)
    | Present(cookie: nat)

  /** A job names its fence by the place of its push among all pushes. */
  datatype Job = Retire(n: nat) | Stop

  /** `Asleep(false)` waits on the condition variable; `Asleep(true)` has been notified and has
      still to take the lock. */
  datatype Worker = Awake | Asleep(signalled: bool) | Holding(job: Job) | Exited

  /** How far the drop of the shared queue has got. */
  datatype Teardown = Held | LetGo | Joining | Returned

  datatype Thread = RetirementThread | Draining(d: Drainer)

  datatype Call = Call(on: Thread, n: nat)

  datatype State = State(
    deferring: bool,
    pushed: seq<Fence>,
    holders: set<Holder>,
    jobs: seq<Job>,
    stopped: bool,
    worker: Worker,
    teardown: Teardown,
    deferred: seq<nat>,
    hands: map<Drainer, nat>,
    seen: seq<Call>,
    faulted: bool)

  function Start(deferring: bool): State {
    State(deferring, [], {0}, [], false, Awake, Held, [], map[], [], false)
  }

  datatype Step =
    | Clone(from: Holder, to: Holder)
    | Push(h: Holder, fence: Fence)
    | Release(h: Holder)
    | QueueStop
    | Join
    | Take
    | Sleep
    | Wake
    | Deliver
    | DrainPop(d: Drainer)
    | HandOver(d: Drainer)

  predicate Enabled(s: State, step: Step) {
    match step
    case Clone(from, to) => from in s.holders && to !in s.holders
    case Push(h, _) => h in s.holders
    case Release(h) => h in s.holders
    case QueueStop => s.teardown.LetGo?
    case Join => s.teardown.Joining? && s.worker.Exited?
    case Take => s.worker.Awake? && s.jobs != []
    case Sleep => s.worker.Awake? && s.jobs == []
    case Wake => s.worker.Asleep?
    case Deliver => s.worker.Holding?
    case DrainPop(d) => s.deferring && d !in s.hands && s.deferred != []
    case HandOver(d) => d in s.hands
  }

  /** Queue a job and notify, under the lock. A fence queued after the stop is the fault. */
  function Enqueue(s: State, job: Job): State {
    if s.stopped then s.(faulted := s.faulted || job != Stop)
    else s.(jobs := s.jobs + [job], worker := if s.worker.Asleep? then Asleep(true) else s.worker)
  }

  function Apply(s: State, step: Step): State
    requires Enabled(s, step)
  {
    match step
    case Clone(_, to) => s.(holders := s.holders + {to})
    case Push(_, f) => Enqueue(s, Retire(|s.pushed|)).(pushed := s.pushed + [f])
    case Release(h) =>
      var left := s.holders - {h};
      s.(holders := left, teardown := if left == {} then LetGo else s.teardown)
    case QueueStop => Enqueue(s, Stop).(teardown := Joining)
    case Join => s.(teardown := Returned)
    case Take => s.(worker := Holding(s.jobs[0]), jobs := s.jobs[1..])
    case Sleep => s.(worker := Asleep(false))
    case Wake => s.(worker := Awake)
    case Deliver => (
      match s.worker.job
      case Stop => s.(stopped := true, worker := Exited)
      case Retire(n) =>
        if s.deferring then s.(deferred := s.deferred + [n], worker := Awake)
        else s.(seen := s.seen + [Call(RetirementThread, n)], worker := Awake))
    case DrainPop(d) => s.(hands := s.hands[d := s.deferred[0]], deferred := s.deferred[1..])
    case HandOver(d) => s.(seen := s.seen + [Call(Draining(d), s.hands[d])], hands := s.hands - {d})
  }

  ghost predicate Legal(deferring: bool, run: seq<Step>)
    decreases |run|, 0
  {
    run == [] ||
    var before := run[..|run| - 1];
    Legal(deferring, before) && Enabled(After(deferring, before), run[|run| - 1])
  }

  ghost function After(deferring: bool, run: seq<Step>): State
    requires Legal(deferring, run)
    decreases |run|, 1
  {
    if run == [] then Start(deferring)
    else Apply(After(deferring, run[..|run| - 1]), run[|run| - 1])
  }

  // ------------------------------------------------------------------ where a fence is

  function Serials(jobs: seq<Job>): seq<nat> {
    if jobs == [] then []
    else (if jobs[0].Retire? then [jobs[0].n] else []) + Serials(jobs[1..])
  }

  lemma {:induction false} SerialsAppend(jobs: seq<Job>, j: Job)
    ensures Serials(jobs + [j]) == Serials(jobs) + (if j.Retire? then [j.n] else [])
  {
    if jobs == [] {
      assert jobs + [j] == [j];
    } else {
      assert (jobs + [j])[0] == jobs[0] && (jobs + [j])[1..] == jobs[1..] + [j];
      SerialsAppend(jobs[1..], j);
      Regroup(if jobs[0].Retire? then [jobs[0].n] else [], Serials(jobs[1..]), [], if j.Retire? then [j.n] else []);
    }
  }

  lemma {:induction false} SerialsMember(jobs: seq<Job>, n: nat)
    ensures Retire(n) in jobs <==> n in Serials(jobs)
  {
    if jobs != [] {
      SerialsMember(jobs[1..], n);
      assert jobs == [jobs[0]] + jobs[1..];
    }
  }

  function InHand(w: Worker): seq<nat> {
    if w.Holding? && w.job.Retire? then [w.job.n] else []
  }

  /** Fences the VMM's side has not taken up yet, oldest first. */
  function Flight(s: State): seq<nat> {
    s.deferred + InHand(s.worker) + Serials(s.jobs)
  }

  /** How many fences a drainer has taken, or the VMM has been told of. */
  function Taken(s: State): int { |s.pushed| - |Flight(s)| }

  ghost predicate Consecutive(ns: seq<nat>, from: int) {
    forall i :: 0 <= i < |ns| ==> ns[i] == from + i
  }

  ghost predicate Told(s: State, n: nat) {
    exists i :: 0 <= i < |s.seen| && s.seen[i].n == n
  }

  ghost predicate Placed(s: State) {
    && Taken(s) >= 0
    && Consecutive(Flight(s), Taken(s))
    && (forall d :: d in s.hands ==> s.hands[d] < Taken(s) && !Told(s, s.hands[d]))
    && (forall d, e :: d in s.hands && e in s.hands && s.hands[d] == s.hands[e] ==> d == e)
    && (forall i :: 0 <= i < |s.seen| ==> s.seen[i].n < Taken(s))
    && (forall i, j :: 0 <= i < j < |s.seen| ==> s.seen[i].n != s.seen[j].n)
    && (forall n :: 0 <= n < Taken(s) ==> n in s.hands.Values || Told(s, n))
  }

  ghost predicate OnAgreedThreads(s: State) {
    && (forall i :: 0 <= i < |s.seen| ==> s.seen[i].on.Draining? == s.deferring)
    && (!s.deferring ==> s.deferred == [] && s.hands == map[])
  }

  ghost predicate NoStop(s: State) {
    && (forall i :: 0 <= i < |s.jobs| ==> s.jobs[i].Retire?)
    && s.worker != Holding(Stop)
    && s.worker != Exited && !s.stopped
  }

  /** The stop is queued once, when no holder is left, and nothing is queued behind it. */
  ghost predicate StopIsLast(s: State) {
    && (s.teardown.Held? <==> s.holders != {})
    && (forall i :: 0 <= i < |s.jobs| - 1 ==> s.jobs[i].Retire?)
    && match s.teardown
       case Held => NoStop(s)
       case LetGo => NoStop(s)
       case Joining =>
         || (!s.stopped && s.jobs != [] && s.jobs[|s.jobs| - 1] == Stop
             && s.worker != Holding(Stop) && s.worker != Exited)
         || (!s.stopped && s.jobs == [] && s.worker == Holding(Stop))
         || (s.stopped && s.jobs == [] && s.worker == Exited)
       case Returned => s.stopped && s.jobs == [] && s.worker == Exited
  }

  ghost predicate NoLostWake(s: State) {
    s.worker == Asleep(false) ==> s.jobs == []
  }

  ghost predicate Inv(s: State) {
    Placed(s) && OnAgreedThreads(s) && StopIsLast(s) && NoLostWake(s) && !s.faulted
  }

  // ------------------------------------------------------------------ each step keeps it

  lemma StepKeepsStopLast(s: State, step: Step)
    requires StopIsLast(s) && Enabled(s, step)
    ensures StopIsLast(Apply(s, step))
  {
    match step {
      case Release(h) =>
      case Push(_, f) =>
      case QueueStop =>
      case Take =>
      case Deliver =>
      case Join =>
      case _ =>
    }
  }

  lemma StepKeepsWake(s: State, step: Step)
    requires StopIsLast(s) && NoLostWake(s) && OnAgreedThreads(s) && !s.faulted && Enabled(s, step)
    ensures var t := Apply(s, step); NoLostWake(t) && OnAgreedThreads(t) && !t.faulted
  {
    match step {
      case Push(_, f) => assert s.teardown.Held?;
      case QueueStop =>
      case Deliver =>
      case HandOver(d) =>
      case _ =>
    }
  }

  lemma Regroup<T>(a: seq<T>, b: seq<T>, c: seq<T>, x: seq<T>)
    ensures a + b + (c + x) == (a + b + c) + x
    ensures a + x + [] + c == a + x + c
    ensures x + a + b + c == x + (a + b + c)
  {
  }

  /** How a step changes the flight. */
  lemma FlightStep(s: State, step: Step)
    requires Enabled(s, step)
    requires step.Push? || step.QueueStop? ==> !s.stopped
    requires !s.deferring ==> s.deferred == []
    ensures var (f, g) := (Flight(s), Flight(Apply(s, step)));
            match step
            case Push(_, _) => g == f + [|s.pushed|]
            case DrainPop(_) => f == [s.deferred[0]] + g
            case Deliver => if s.worker.job.Stop? || s.deferring then g == f else f == [s.worker.job.n] + g
            case _ => g == f
  {
    var (a, b, c) := (s.deferred, InHand(s.worker), Serials(s.jobs));
    match step {
      case Push(_, f) =>
        SerialsAppend(s.jobs, Retire(|s.pushed|));
        Regroup(a, b, c, [|s.pushed|]);
      case QueueStop =>
        SerialsAppend(s.jobs, Stop);
        Regroup(a, b, c, []);
      case Take => FlightTake(s);
      case Deliver => FlightDeliver(s);
      case DrainPop(d) =>
        Regroup(a[1..], b, c, [a[0]]);
        assert a == [a[0]] + a[1..];
      case _ =>
        assert InHand(Apply(s, step).worker) == b;
    }
  }

  lemma FlightTake(s: State)
    requires Enabled(s, Take)
    ensures Flight(Apply(s, Take)) == Flight(s)
  {
    var x := if s.jobs[0].Retire? then [s.jobs[0].n] else [];
    assert InHand(Apply(s, Take).worker) == x && InHand(s.worker) == [];
    assert Serials(s.jobs) == x + Serials(s.jobs[1..]);
  }

  lemma FlightDeliver(s: State)
    requires Enabled(s, Deliver) && (!s.deferring ==> s.deferred == [])
    ensures var (f, g) := (Flight(s), Flight(Apply(s, Deliver)));
            if s.worker.job.Stop? || s.deferring then g == f else f == [s.worker.job.n] + g
  {
    hide Serials;
    var (a, c) := (s.deferred, Serials(s.jobs));
    if s.worker.job.Retire? {
      var x := [s.worker.job.n];
      assert Flight(s) == a + x + c;
      if s.deferring {
        Regroup(a, [], c, x);
        assert Flight(Apply(s, Deliver)) == a + x + [] + c;
      } else {
        assert Flight(Apply(s, Deliver)) == [] + [] + c;
      }
    }
  }

  lemma StepKeepsPlaces(s: State, step: Step)
    requires Inv(s) && Enabled(s, step)
    ensures Placed(Apply(s, step))
  {
    var t := Apply(s, step);
    FlightStep(s, step);
    hide Flight, Placed, OnAgreedThreads, NoLostWake, StopIsLast;
    match step {
      case Deliver =>
        if s.worker.job.Retire? && !s.deferring {
          TellingKeepsPlaces(s, t, s.worker.job.n);
        } else {
          SameSide(s, t);
        }
      case DrainPop(d) => PoppingKeepsPlaces(s, t, d);
      case HandOver(d) => HandingKeepsPlaces(s, t, d);
      case _ => SameSide(s, t);
    }
  }

  /** A step that only moves fences within the flight, or adds one at its end. */
  lemma SameSide(s: State, t: State)
    requires Placed(s) && t.hands == s.hands && t.seen == s.seen
    requires (Flight(t) == Flight(s) && t.pushed == s.pushed)
          || (Flight(t) == Flight(s) + [|s.pushed|] && |t.pushed| == |s.pushed| + 1)
    ensures Placed(t)
  {
    hide Flight;
    assert forall n :: Told(s, n) == Told(t, n);
  }

  lemma PoppingKeepsPlaces(s: State, t: State, d: Drainer)
    requires Placed(s) && d !in s.hands && t.pushed == s.pushed && t.seen == s.seen
    requires Flight(s) != [] && Flight(s) == [Flight(s)[0]] + Flight(t)
    requires t.hands == s.hands[d := Flight(s)[0]]
    ensures Placed(t)
  {
    hide Flight;
    var k := Flight(s)[0];
    assert k == Taken(s);
    forall i | 0 <= i < |Flight(t)| ensures Flight(t)[i] == Taken(t) + i {
      assert Flight(s)[i + 1] == Flight(t)[i];
    }
    assert forall n :: Told(s, n) == Told(t, n);
    assert t.hands[d] == k;
    forall n | 0 <= n < Taken(t) ensures n in t.hands.Values || Told(t, n) {
      if n != k && n in s.hands.Values {
        var e :| e in s.hands && s.hands[e] == n;
        assert t.hands[e] == n;
      }
    }
  }

  lemma TellingKeepsPlaces(s: State, t: State, n: nat)
    requires Placed(s) && t.pushed == s.pushed && t.hands == s.hands
    requires Flight(s) == [n] + Flight(t)
    requires |t.seen| == |s.seen| + 1 && t.seen[..|s.seen|] == s.seen && t.seen[|s.seen|].n == n
    ensures Placed(t)
  {
    hide Flight;
    assert Flight(s)[0] == n == Taken(s);
    forall i | 0 <= i < |Flight(t)| ensures Flight(t)[i] == Taken(t) + i {
      assert Flight(s)[i + 1] == Flight(t)[i];
    }
    SeenGrows(s, t, n);
  }

  lemma SeenGrows(s: State, t: State, n: nat)
    requires |t.seen| == |s.seen| + 1 && t.seen[..|s.seen|] == s.seen && t.seen[|s.seen|].n == n
    ensures forall m :: Told(t, m) <==> Told(s, m) || m == n
    ensures forall i :: 0 <= i < |s.seen| ==> t.seen[i] == s.seen[i]
  {
    assert forall i :: 0 <= i < |s.seen| ==> t.seen[..|s.seen|][i] == t.seen[i];
  }

  lemma HandingKeepsPlaces(s: State, t: State, d: Drainer)
    requires Placed(s) && d in s.hands && t.pushed == s.pushed && Flight(t) == Flight(s)
    requires t.hands == s.hands - {d} && t.seen == s.seen + [Call(Draining(d), s.hands[d])]
    ensures Placed(t)
  {
    hide Flight;
    SeenGrows(s, t, s.hands[d]);
    forall n | 0 <= n < Taken(t) ensures n in t.hands.Values || Told(t, n) {
      if n in s.hands.Values && n != s.hands[d] {
        var e :| e in s.hands && s.hands[e] == n;
        assert t.hands[e] == n;
      }
    }
  }

  /** Every reachable state, from every interleaving, is safe. */
  lemma {:induction false} Safe(deferring: bool, run: seq<Step>)
    requires Legal(deferring, run)
    ensures Inv(After(deferring, run)) && After(deferring, run).deferring == deferring
  {
    if run == [] {
      var s := Start(deferring);
      assert Flight(s) == [];
    } else {
      var before, step := run[..|run| - 1], run[|run| - 1];
      Safe(deferring, before);
      var s := After(deferring, before);
      StepKeepsStopLast(s, step);
      StepKeepsWake(s, step);
      StepKeepsPlaces(s, step);
    }
  }

  // ------------------------------------------------------------------ what safety means

  datatype Place = InQueue | InWorker | InDeferred | InHands(d: Drainer) | HandedOver(at: nat)

  /** Fence `n` is at a place. */
  ghost predicate IsAt(s: State, n: nat, p: Place) {
    match p
    case InQueue => Retire(n) in s.jobs
    case InWorker => s.worker == Holding(Retire(n))
    case InDeferred => n in s.deferred
    case InHands(d) => d in s.hands && s.hands[d] == n
    case HandedOver(at) => at < |s.seen| && s.seen[at].n == n
  }

  lemma FlightMember(s: State, n: nat)
    ensures n in Flight(s) <==>
            IsAt(s, n, InQueue) || IsAt(s, n, InWorker) || IsAt(s, n, InDeferred)
  {
    SerialsMember(s.jobs, n);
  }

  /** A fence in flight is in only one part of it. */
  lemma FlightOnce(s: State, n: nat)
    requires Placed(s)
    ensures !(IsAt(s, n, InQueue) && IsAt(s, n, InWorker))
    ensures !(IsAt(s, n, InQueue) && IsAt(s, n, InDeferred))
    ensures !(IsAt(s, n, InWorker) && IsAt(s, n, InDeferred))
  {
    hide Serials;
    SerialsMember(s.jobs, n);
    var a, b, c := s.deferred, InHand(s.worker), Serials(s.jobs);
    var f := Flight(s);
    forall i, j | 0 <= i < |a| && 0 <= j < |c| ensures a[i] != c[j] {
      assert f[i] == a[i] && f[|a| + |b| + j] == c[j];
    }
    if b != [] {
      assert f[|a|] == b[0];
      forall i | 0 <= i < |a| ensures a[i] != b[0] {
        assert f[i] == a[i];
      }
      forall j | 0 <= j < |c| ensures c[j] != b[0] {
        assert f[|a| + 1 + j] == c[j];
      }
    }
  }

  /** In every reachable state each fence pushed is in one place and only one: the queue, the
      worker's hands, the deferred queue, one drainer's hands, or handed over once. */
  lemma ExactlyOnePlace(deferring: bool, run: seq<Step>, n: nat) returns (where: Place)
    requires Legal(deferring, run) && n < |After(deferring, run).pushed|
    ensures var s := After(deferring, run);
            IsAt(s, n, where) && forall p :: IsAt(s, n, p) ==> p == where
  {
    var s := After(deferring, run);
    Safe(deferring, run);
    FlightMember(s, n);
    FlightOnce(s, n);
    hide Legal, After, StopIsLast, NoLostWake, OnAgreedThreads;
    if n >= Taken(s) {
      assert Flight(s)[n - Taken(s)] == n;
      where := if IsAt(s, n, InQueue) then InQueue else if IsAt(s, n, InWorker) then InWorker
               else InDeferred;
    } else if n in s.hands.Values {
      var d :| d in s.hands && s.hands[d] == n;
      where := InHands(d);
    } else {
      var i :| 0 <= i < |s.seen| && s.seen[i].n == n;
      where := HandedOver(i);
    }
  }

  /** Nothing is ever queued behind the stop, so the assertion in `push` cannot fail; and a worker
      asleep on a queue with something in it has a notification on its way. */
  lemma NeverQueuedAfterStop(deferring: bool, run: seq<Step>)
    requires Legal(deferring, run)
    ensures var s := After(deferring, run);
            && !s.faulted
            && (forall i :: 0 <= i < |s.jobs| && s.jobs[i] == Stop ==> i == |s.jobs| - 1)
            && (s.stopped ==> s.holders == {} && s.jobs == [])
            && (s.worker.Asleep? && s.jobs != [] ==> s.worker.signalled)
  {
    Safe(deferring, run);
  }

  /** The VMM is called on the retirement thread exactly when it agreed to be. */
  lemma CallsOnlyOnAgreedThreads(deferring: bool, run: seq<Step>)
    requires Legal(deferring, run)
    ensures forall c :: c in After(deferring, run).seen ==> (c.on == RetirementThread <==> !deferring)
  {
    Safe(deferring, run);
  }

  /** When the last holder's drop returns, everything ever pushed has reached the sink: the VMM has
      been told of it, or a drainer has it in hand, or it waits in the deferred queue. Without
      deferral it has been told; with it, what cleanup's own drain of that queue leaves is only what
      another drainer has in hand. */
  lemma DeliveredByTheLastDrop(deferring: bool, run: seq<Step>, n: nat)
    requires Legal(deferring, run)
    requires After(deferring, run).teardown.Returned? && n < |After(deferring, run).pushed|
    ensures var s := After(deferring, run);
            && (Told(s, n) || n in s.hands.Values || n in s.deferred)
            && (!deferring ==> Told(s, n))
            && (s.deferred == [] ==> Told(s, n) || n in s.hands.Values)
            && (s.deferred == [] && s.hands == map[] ==> Told(s, n))
  {
    Safe(deferring, run);
    var s := After(deferring, run);
    var where := ExactlyOnePlace(deferring, run, n);
    hide Legal, After, Placed, Flight;
    assert s.jobs == [] && s.worker == Exited;
    if where.InHands? {
      assert s.hands[where.d] == n;
    }
  }

  // ------------------------------------------------------------------ what the steps say

  /** `h` was given a handle before step `i`: it is the first holder, or step `i - 1` cloned to it. */
  ghost predicate Given(run: seq<Step>, h: Holder, i: nat) {
    if i == 0 then h == 0 else i <= |run| && run[i - 1].Clone? && run[i - 1].to == h
  }

  /** Some handle `h` was given has not been released since. */
  ghost predicate StillHolds(run: seq<Step>, h: Holder) {
    exists i :: 0 <= i <= |run| && Given(run, h, i) && forall j :: i <= j < |run| ==> run[j] != Release(h)
  }

  lemma StillHoldsNext(run: seq<Step>, step: Step, h: Holder)
    ensures StillHolds(run + [step], h)
            <==> (step.Clone? && step.to == h) || (StillHolds(run, h) && step != Release(h))
  {
    var (after, n) := (run + [step], |run|);
    assert after[n] == step && forall j :: 0 <= j < n ==> after[j] == run[j];
    if step.Clone? && step.to == h {
      assert Given(after, h, n + 1);
    }
    if i :| 0 <= i <= n && Given(run, h, i) && step != Release(h)
            && forall j :: i <= j < n ==> run[j] != Release(h)
    {
      assert Given(after, h, i);
    }
    if i :| 0 <= i <= n + 1 && Given(after, h, i) && forall j :: i <= j < n + 1 ==> after[j] != Release(h) {
      if i <= n {
        assert Given(run, h, i);
        assert after[n] != Release(h);
      }
    }
  }

  /** The fences of a run's pushes, in order. */
  function PushedBy(run: seq<Step>): seq<Fence> {
    if run == [] then []
    else PushedBy(run[..|run| - 1]) + if run[|run| - 1].Push? then [run[|run| - 1].fence] else []
  }

  lemma StepChanges(s: State, step: Step, h: Holder)
    requires Enabled(s, step)
    ensures h in Apply(s, step).holders
            <==> (step.Clone? && step.to == h) || (h in s.holders && step != Release(h))
    ensures Apply(s, step).pushed == s.pushed + if step.Push? then [step.fence] else []
  {
  }

  lemma HeldWhileHolders(s: State)
    requires StopIsLast(s)
    ensures s.teardown.Held? <==> exists g :: g in s.holders
  {
    if s.holders != {} {
      var g :| g in s.holders;
    }
  }

  lemma {:induction false} HoldersAreTheGiven(deferring: bool, run: seq<Step>, h: Holder)
    requires Legal(deferring, run)
    ensures h in After(deferring, run).holders <==> StillHolds(run, h)
  {
    hide Legal, After, StillHolds, Enabled, Apply;
    if run == [] {
      NothingSaid(deferring, h);
    } else {
      var (before, step) := (run[..|run| - 1], run[|run| - 1]);
      LastStep(deferring, run);
      HoldersAreTheGiven(deferring, before, h);
      StillHoldsNext(before, step, h);
      StepChanges(After(deferring, before), step, h);
      assert before + [step] == run;
    }
  }

  lemma {:induction false} PushedAreThePushes(deferring: bool, run: seq<Step>)
    requires Legal(deferring, run)
    ensures After(deferring, run).pushed == PushedBy(run)
  {
    hide Legal, After, Enabled, Apply;
    if run == [] {
      NothingSaid(deferring, 0);
    } else {
      LastStep(deferring, run);
      PushedAreThePushes(deferring, run[..|run| - 1]);
      StepChanges(After(deferring, run[..|run| - 1]), run[|run| - 1], 0);
    }
  }

  /** On every legal run, the holders are those given a handle and not released since, the shared
      queue is kept exactly while there is one, and what was pushed is what the pushes pushed. */
  lemma StateIsWhatTheStepsSay(deferring: bool, run: seq<Step>, h: Holder)
    requires Legal(deferring, run)
    ensures var s := After(deferring, run);
            && (h in s.holders <==> StillHolds(run, h))
            && (s.teardown.Held? <==> exists g :: g in s.holders)
            && s.pushed == PushedBy(run)
  {
    Safe(deferring, run);
    StopIsLastThen(After(deferring, run));
    HeldWhileHolders(After(deferring, run));
    HoldersAreTheGiven(deferring, run, h);
    PushedAreThePushes(deferring, run);
  }

  lemma StopIsLastThen(s: State)
    requires Inv(s)
    ensures StopIsLast(s)
  {
  }

  lemma NothingSaid(deferring: bool, h: Holder)
    ensures Legal(deferring, []) && After(deferring, []) == Start(deferring)
    ensures StillHolds([], h) <==> h == 0
  {
    assert Given([], 0, 0);
  }

  lemma LastStep(deferring: bool, run: seq<Step>)
    requires Legal(deferring, run) && run != []
    ensures var (before, step) := (run[..|run| - 1], run[|run| - 1]);
            && Legal(deferring, before) && Enabled(After(deferring, before), step)
            && After(deferring, run) == Apply(After(deferring, before), step)
  {
  }

  /** So a stop is queued, and the queue torn down, only when nobody who was given a handle still
      has it. */
  lemma TornDownOnlyByTheLast(deferring: bool, run: seq<Step>)
    requires Legal(deferring, run)
    ensures After(deferring, run).teardown.Held? <==> exists h :: StillHolds(run, h)
  {
    forall h: Holder ensures h in After(deferring, run).holders <==> StillHolds(run, h) {
      StateIsWhatTheStepsSay(deferring, run, h);
    }
    StateIsWhatTheStepsSay(deferring, run, 0);
  }

  /** Any holder can push at any time, and a push wakes a sleeping worker. */
  lemma HoldersCanPush(deferring: bool, run: seq<Step>, h: Holder, fence: Fence)
    requires Legal(deferring, run) && StillHolds(run, h)
    ensures Legal(deferring, run + [Push(h, fence)])
    ensures var (s, t) := (After(deferring, run), After(deferring, run + [Push(h, fence)]));
            && t.pushed == s.pushed + [fence] && t.jobs == s.jobs + [Retire(|s.pushed|)]
            && t.worker == if s.worker.Asleep? then Asleep(true) else s.worker
  {
    StateIsWhatTheStepsSay(deferring, run, h);
    Safe(deferring, run);
    var r, t := Go(deferring, run, After(deferring, run), Push(h, fence));
  }

  /** Any holder can hand a handle to anyone without one, and can let go of its own. */
  lemma HoldersCanShareAndLetGo(deferring: bool, run: seq<Step>, h: Holder, g: Holder)
    requires Legal(deferring, run) && StillHolds(run, h) && !StillHolds(run, g)
    ensures Legal(deferring, run + [Clone(h, g)]) && StillHolds(run + [Clone(h, g)], g)
    ensures Legal(deferring, run + [Release(h)]) && !StillHolds(run + [Release(h)], h)
  {
    HoldersAreTheGiven(deferring, run, h);
    HoldersAreTheGiven(deferring, run, g);
    var r, t := Go(deferring, run, After(deferring, run), Clone(h, g));
    r, t := Go(deferring, run, After(deferring, run), Release(h));
    StillHoldsNext(run, Clone(h, g), g);
    StillHoldsNext(run, Release(h), h);
  }

  /** The worker can always move until it exits, and an idle one waits on the condition variable. */
  lemma WorkerCanMove(deferring: bool, run: seq<Step>)
    requires Legal(deferring, run) && !After(deferring, run).worker.Exited?
    ensures exists step :: ByWorker(step) && Legal(deferring, run + [step])
    ensures var s := After(deferring, run);
            s.worker.Awake? && s.jobs == [] ==>
              Legal(deferring, run + [Sleep]) && After(deferring, run + [Sleep]).worker == Asleep(false)
  {
    var s := After(deferring, run);
    var step := if s.worker.Asleep? then Wake else if s.worker.Holding? then Deliver
                else if s.jobs == [] then Sleep else Take;
    var r, t := Go(deferring, run, s, step);
  }

  // ------------------------------------------------------------------ every run can finish

  /** A legal run with more steps after it. */
  ghost predicate Extends(deferring: bool, run: seq<Step>, more: seq<Step>) {
    Legal(deferring, run) && Legal(deferring, run + more)
  }

  lemma OneMore(deferring: bool, run: seq<Step>, more: seq<Step>, step: Step) returns (longer: seq<Step>)
    requires Extends(deferring, run, more) && Enabled(After(deferring, run + more), step)
    ensures longer == more + [step] && Extends(deferring, run, longer)
    ensures After(deferring, run + longer) == Apply(After(deferring, run + more), step)
  {
    longer := more + [step];
    Grouped(run, more, [step]);
    var r, t := Go(deferring, run + more, After(deferring, run + more), step);
  }

  /** Let every holder go. */
  lemma {:induction false} CanRelease(deferring: bool, run: seq<Step>, more: seq<Step>) returns (end: seq<Step>)
    requires Extends(deferring, run, more)
    ensures Extends(deferring, run, end) && !After(deferring, run + end).teardown.Held?
    ensures After(deferring, run + end).pushed == After(deferring, run + more).pushed
    decreases |After(deferring, run + more).holders|
  {
    Safe(deferring, run + more);
    hide Legal, After, Extends, Placed;
    var s := After(deferring, run + more);
    if s.holders == {} {
      end := more;
    } else {
      var h :| h in s.holders;
      var longer := OneMore(deferring, run, more, Release(h));
      end := CanRelease(deferring, run, longer);
    }
  }

  /** Let the worker come to the stop. */
  lemma {:induction false} CanExit(deferring: bool, run: seq<Step>, more: seq<Step>) returns (end: seq<Step>)
    requires Extends(deferring, run, more) && After(deferring, run + more).teardown.Joining?
    ensures Extends(deferring, run, end) && After(deferring, run + end).teardown.Returned?
    ensures After(deferring, run + end).pushed == After(deferring, run + more).pushed
    decreases Measure(After(deferring, run + more))
  {
    Safe(deferring, run + more);
    hide Legal, After, Extends, Placed, OnAgreedThreads, NoLostWake;
    var s := After(deferring, run + more);
    if s.worker.Exited? {
      end := OneMore(deferring, run, more, Join);
    } else {
      var step := if s.worker.Asleep? then Wake else if s.worker.Holding? then Deliver else Take;
      var longer := OneMore(deferring, run, more, step);
      end := CanExit(deferring, run, longer);
    }
  }

  /** Hand over what hands hold and what waits. */
  lemma {:induction false} CanDrain(deferring: bool, run: seq<Step>, more: seq<Step>) returns (end: seq<Step>)
    requires Extends(deferring, run, more) && After(deferring, run + more).teardown.Returned?
    ensures Extends(deferring, run, end) && After(deferring, run + end).teardown.Returned?
    ensures After(deferring, run + end).deferred == [] && After(deferring, run + end).hands == map[]
    ensures After(deferring, run + end).pushed == After(deferring, run + more).pushed
    decreases 2 * |After(deferring, run + more).deferred| + |After(deferring, run + more).hands|
  {
    Safe(deferring, run + more);
    hide Legal, After, Extends, Placed, StopIsLast, NoLostWake;
    var s := After(deferring, run + more);
    if s.hands != map[] {
      var d :| d in s.hands;
      var longer := OneMore(deferring, run, more, HandOver(d));
      end := CanDrain(deferring, run, longer);
    } else if s.deferred != [] {
      var longer := OneMore(deferring, run, more, DrainPop(0));
      assert After(deferring, run + longer).hands == map[0 := s.deferred[0]];
      end := CanDrain(deferring, run, longer);
    } else {
      end := more;
    }
  }

  /** Every legal run can go on to where the last drop has returned and the VMM has been told of
      every fence pushed, with nothing more pushed on the way. */
  lemma EveryRunCanFinish(deferring: bool, run: seq<Step>) returns (more: seq<Step>)
    requires Legal(deferring, run)
    ensures Legal(deferring, run + more)
    ensures var (s, t) := (After(deferring, run), After(deferring, run + more));
            && t.teardown.Returned? && t.pushed == s.pushed
            && forall n :: 0 <= n < |s.pushed| ==> Told(t, n)
  {
    assert run + [] == run;
    more := [];
    if After(deferring, run).teardown.Held? {
      more := CanRelease(deferring, run, []);
    }
    if After(deferring, run + more).teardown.LetGo? {
      more := OneMore(deferring, run, more, QueueStop);
    }
    if After(deferring, run + more).teardown.Joining? {
      more := CanExit(deferring, run, more);
    }
    more := CanDrain(deferring, run, more);
    forall n | 0 <= n < |After(deferring, run).pushed| ensures Told(After(deferring, run + more), n) {
      DeliveredByTheLastDrop(deferring, run + more, n);
    }
  }

  // ------------------------------------------------------------------ order

  /** Each fence is taken from the deferred queue only when every earlier one has been handed
      over, as when all draining is on one thread: a callback that drains again does so after the
      fence it is called with has been handed over. */
  ghost predicate OneAtATime(deferring: bool, run: seq<Step>)
    requires Legal(deferring, run)
  {
    forall i :: 0 <= i < |run| && run[i].DrainPop? ==>
      Legal(deferring, run[..i]) && After(deferring, run[..i]).hands == map[]
  }

  lemma OneDrainerStep(s: State, step: Step, d: Drainer)
    requires s.hands.Keys <= {d} && Enabled(s, step) && (step.DrainPop? ==> step.d == d)
    ensures Apply(s, step).hands.Keys <= {d} && (step.DrainPop? ==> s.hands == map[])
  {
    if step.DrainPop? {
      assert s.hands.Keys == {};
    }
  }

  /** All draining on one thread is one at a time. */
  lemma {:induction false} OneDrainerIsOneAtATime(deferring: bool, run: seq<Step>, d: Drainer)
    requires Legal(deferring, run)
    requires forall i :: 0 <= i < |run| && run[i].DrainPop? ==> run[i].d == d
    ensures OneAtATime(deferring, run) && After(deferring, run).hands.Keys <= {d}
  {
    hide Enabled, Apply;
    if run != [] {
      var n := |run| - 1;
      OneDrainerIsOneAtATime(deferring, run[..n], d);
      OneDrainerStep(After(deferring, run[..n]), run[n], d);
      OneMoreAtATime(deferring, run);
    }
  }

  lemma OneMoreAtATime(deferring: bool, run: seq<Step>)
    requires Legal(deferring, run) && run != []
    requires Legal(deferring, run[..|run| - 1]) && OneAtATime(deferring, run[..|run| - 1])
    requires run[|run| - 1].DrainPop? ==> After(deferring, run[..|run| - 1]).hands == map[]
    ensures OneAtATime(deferring, run)
  {
    hide Legal, After, Enabled, Apply;
    var before := run[..|run| - 1];
    forall i | 0 <= i < |run| && run[i].DrainPop?
      ensures Legal(deferring, run[..i]) && After(deferring, run[..i]).hands == map[]
    {
      if i < |before| {
        assert run[..i] == before[..i] && before[i].DrainPop?;
      }
    }
  }

  ghost predicate InOrder(s: State) {
    && (forall i :: 0 <= i < |s.seen| ==> s.seen[i].n == i)
    && (forall d, e :: d in s.hands && e in s.hands ==> d == e)
    && (forall d :: d in s.hands ==> s.hands[d] == |s.seen| && Taken(s) == |s.seen| + 1)
    && (s.hands == map[] ==> Taken(s) == |s.seen|)
  }

  lemma StepKeepsOrder(s: State, step: Step)
    requires Placed(s) && OnAgreedThreads(s) && InOrder(s) && Enabled(s, step)
    requires step.Push? || step.QueueStop? ==> !s.stopped
    requires step.DrainPop? ==> s.hands == map[]
    ensures InOrder(Apply(s, step))
  {
    hide Flight, Placed, NoLostWake, StopIsLast, Serials;
    FlightStep(s, step);
    FlightFront(s);
    match step {
      case Deliver =>
      case DrainPop(d) =>
      case HandOver(d) =>
      case _ =>
    }
  }

  lemma FlightFront(s: State)
    requires Placed(s)
    ensures Flight(s) != [] ==> Flight(s)[0] == Taken(s)
  {
  }

  /** With draining one at a time, deferred or not, the VMM has been told of exactly the first
      fences pushed, in the order they were pushed -- so of each ring's in that ring's order. */
  lemma {:induction false} ToldInPushOrder(deferring: bool, run: seq<Step>)
    requires Legal(deferring, run) && OneAtATime(deferring, run)
    ensures InOrder(After(deferring, run))
  {
    if run == [] {
      assert Flight(Start(deferring)) == [];
    } else {
      var before, step := run[..|run| - 1], run[|run| - 1];
      forall i | 0 <= i < |before| && before[i].DrainPop?
        ensures Legal(deferring, before[..i]) && After(deferring, before[..i]).hands == map[]
      {
        assert run[..i] == before[..i] && run[i] == before[i];
      }
      ToldInPushOrder(deferring, before);
      Safe(deferring, before);
      StepKeepsOrder(After(deferring, before), step);
    }
  }

  /** The fences the VMM has been told of on one ring, and those pushed on it. */
  function OnRing(fences: seq<Fence>, ctx: nat, ring: nat): seq<nat> {
    if fences == [] then []
    else
      var (before, last) := (OnRing(fences[..|fences| - 1], ctx, ring), fences[|fences| - 1]);
      if last.Context? && last.ctx == ctx && last.ring == ring then before + [last.id] else before
  }

  ghost function ToldFences(s: State): seq<Fence>
    requires forall i :: 0 <= i < |s.seen| ==> s.seen[i].n < |s.pushed|
  {
    seq(|s.seen|, i requires 0 <= i < |s.seen| => s.pushed[s.seen[i].n])
  }

  lemma {:induction false} OnRingPrefix(fences: seq<Fence>, n: nat, ctx: nat, ring: nat)
    requires n <= |fences|
    ensures OnRing(fences[..n], ctx, ring) <= OnRing(fences, ctx, ring)
  {
    if n < |fences| {
      var before := fences[..|fences| - 1];
      assert before[..n] == fences[..n];
      OnRingPrefix(before, n, ctx, ring);
    } else {
      assert fences[..n] == fences;
    }
  }

  /** A guest reading one ring's fences sees them in the order it made them. */
  lemma EachRingInOrder(deferring: bool, run: seq<Step>, ctx: nat, ring: nat)
    requires Legal(deferring, run) && OneAtATime(deferring, run)
    ensures var s := After(deferring, run);
            && (forall i :: 0 <= i < |s.seen| ==> s.seen[i].n < |s.pushed|)
            && OnRing(ToldFences(s), ctx, ring) <= OnRing(s.pushed, ctx, ring)
  {
    ToldInPushOrder(deferring, run);
    Safe(deferring, run);
    var s := After(deferring, run);
    assert ToldFences(s) == s.pushed[..|s.seen|];
    OnRingPrefix(s.pushed, |s.seen|, ctx, ring);
  }

  /** Only the threads in `ds` drain. */
  ghost predicate DrainedBy(run: seq<Step>, ds: set<Drainer>) {
    forall i :: 0 <= i < |run| && run[i].DrainPop? ==> run[i].d in ds
  }

  /** However a deferring run goes, as long as only the threads in `ds` drain, the VMM is told of
      fences in the order they were pushed. */
  ghost predicate AlwaysInPushOrder(ds: set<Drainer>) {
    forall run :: Legal(true, run) && DrainedBy(run, ds) ==>
      forall i :: 0 <= i < |After(true, run).seen| ==> After(true, run).seen[i].n == i
  }

  /** What the VMM was told on one ring is what was pushed on it, in that order, so far. */
  ghost predicate RingInOrder(s: State, ctx: nat, ring: nat) {
    && (forall i :: 0 <= i < |s.seen| ==> s.seen[i].n < |s.pushed|)
    && OnRing(ToldFences(s), ctx, ring) <= OnRing(s.pushed, ctx, ring)
  }

  ghost predicate RingsAlwaysInOrder(ds: set<Drainer>) {
    forall run, ctx, ring :: Legal(true, run) && DrainedBy(run, ds) ==> RingInOrder(After(true, run), ctx, ring)
  }

  /** Order is kept, over all fences or on every ring, exactly when no two threads drain. */
  lemma InOrderExactlyWithOneDrainer(ds: set<Drainer>)
    ensures AlwaysInPushOrder(ds) <==> forall d, e :: d in ds && e in ds ==> d == e
    ensures RingsAlwaysInOrder(ds) <==> forall d, e :: d in ds && e in ds ==> d == e
  {
    hide Legal, After, RingInOrder;
    if d, e :| d in ds && e in ds && d != e {
      var run := TwoDrainersCanReorder(d, e);
      assert DrainedBy(run, ds) && After(true, run).seen[0].n == 1;
    } else {
      forall run, ctx, ring | Legal(true, run) && DrainedBy(run, ds)
        ensures RingInOrder(After(true, run), ctx, ring)
      {
        OneDrainerKeepsOrder(ds, run, ctx, ring);
      }
      forall run | Legal(true, run) && DrainedBy(run, ds)
        ensures forall i :: 0 <= i < |After(true, run).seen| ==> After(true, run).seen[i].n == i
      {
        OneDrainerKeepsOrder(ds, run, 0, 0);
      }
    }
  }

  lemma OneDrainerKeepsOrder(ds: set<Drainer>, run: seq<Step>, ctx: nat, ring: nat)
    requires Legal(true, run) && DrainedBy(run, ds) && forall d, e :: d in ds && e in ds ==> d == e
    ensures forall i :: 0 <= i < |After(true, run).seen| ==> After(true, run).seen[i].n == i
    ensures RingInOrder(After(true, run), ctx, ring)
  {
    hide Legal, After, OneAtATime;
    var d: Drainer := if ds == {} then 0 else var e :| e in ds; e;
    OneDrainerIsOneAtATime(true, run, d);
    ToldInPushOrder(true, run);
    EachRingInOrder(true, run, ctx, ring);
  }

  /** With any two threads draining, a ring can be seen out of order: the second to take a fence may
      hand it over first. */
  lemma TwoDrainersCanReorder(d: Drainer, e: Drainer) returns (run: seq<Step>)
    requires d != e
    ensures Legal(true, run) && DrainedBy(run, {d, e})
    ensures After(true, run).pushed == [Context(1, 1, 10), Context(1, 1, 11)]
    ensures After(true, run).seen == [Call(Draining(e), 1), Call(Draining(d), 0)]
    ensures !RingInOrder(After(true, run), 1, 1)
  {
    hide Legal, After;
    var s;
    run, s := TwoDeferred();
    run, s := Go(true, run, s, DrainPop(d));
    run, s := Go(true, run, s, DrainPop(e));
    run, s := Go(true, run, s, HandOver(e));
    run, s := Go(true, run, s, HandOver(d));
    SwappedIsOutOfOrder(s, Context(1, 1, 10), Context(1, 1, 11));
  }

  /** One ring's two fences told the other way round. */
  lemma SwappedIsOutOfOrder(s: State, first: Fence, second: Fence)
    requires s.pushed == [first, second] && |s.seen| == 2 && s.seen[0].n == 1 && s.seen[1].n == 0
    requires first.Context? && second.Context? && first.id != second.id
    requires first.ctx == second.ctx && first.ring == second.ring
    ensures !RingInOrder(s, first.ctx, first.ring)
  {
    TwoOnRing(first, second);
    TwoOnRing(second, first);
    assert ToldFences(s) == [second, first];
    assert [second.id, first.id][0] != [first.id, second.id][0];
  }

  lemma TwoOnRing(first: Fence, second: Fence)
    requires first.Context? && second.Context? && first.ctx == second.ctx && first.ring == second.ring
    ensures OnRing([first, second], first.ctx, first.ring) == [first.id, second.id]
  {
    assert [first][..0] == [] && OnRing([first], first.ctx, first.ring) == [] + [first.id];
    assert [first, second][..1] == [first];
  }

  /** Two fences pushed on one ring and deferred, nobody draining yet. */
  lemma TwoDeferred() returns (run: seq<Step>, s: State)
    ensures Legal(true, run) && After(true, run) == s && DrainedBy(run, {})
    ensures s == State(true, [Context(1, 1, 10), Context(1, 1, 11)], {0}, [], false, Awake, Held,
                       [0, 1], map[], [], false)
  {
    hide Legal, After;
    StartIsLegal(true);
    s := Start(true);
    run := [];
    run, s := Go(true, run, s, Push(0, Context(1, 1, 10)));
    run, s := Go(true, run, s, Push(0, Context(1, 1, 11)));
    run, s := Go(true, run, s, Take);
    run, s := Go(true, run, s, Deliver);
    run, s := Go(true, run, s, Take);
    run, s := Go(true, run, s, Deliver);
  }

  lemma StartIsLegal(deferring: bool)
    ensures Legal(deferring, []) && After(deferring, []) == Start(deferring)
  {
  }

  lemma Go(deferring: bool, run: seq<Step>, s: State, step: Step) returns (r: seq<Step>, t: State)
    requires Legal(deferring, run) && After(deferring, run) == s && Enabled(s, step)
    ensures r == run + [step] && t == Apply(s, step)
    ensures Legal(deferring, r) && After(deferring, r) == t
  {
    r, t := run + [step], Apply(s, step);
    assert r[..|run|] == run;
  }

  // ------------------------------------------------------------------ cleanup drains

  function Pops(run: seq<Step>): nat {
    if run == [] then 0 else Pops(run[..|run| - 1]) + if run[|run| - 1].DrainPop? then 1 else 0
  }

  lemma ReturnedStep(s: State, step: Step)
    requires Inv(s) && s.teardown.Returned? && Enabled(s, step)
    ensures var t := Apply(s, step);
            && t.teardown.Returned? && t.pushed == s.pushed
            && |t.deferred| + (if step.DrainPop? then 1 else 0) == |s.deferred|
  {
    hide Placed, OnAgreedThreads;
  }

  /** Once the last drop has returned nothing more is pushed or deferred: the queue only drains. */
  lemma {:induction false} OnlyDrainsAfterReturn(deferring: bool, run: seq<Step>, more: seq<Step>)
    requires Legal(deferring, run) && Legal(deferring, run + more) && After(deferring, run).teardown.Returned?
    ensures var (s, t) := (After(deferring, run), After(deferring, run + more));
            && t.teardown.Returned? && t.pushed == s.pushed
            && |t.deferred| + Pops(more) == |s.deferred|
  {
    if more == [] {
      assert run + more == run;
    } else {
      hide Enabled, Apply, Inv;
      var n := |more| - 1;
      assert (run + more)[..|run + more| - 1] == run + more[..n];
      OnlyDrainsAfterReturn(deferring, run, more[..n]);
      Safe(deferring, run + more[..n]);
      ReturnedStep(After(deferring, run + more[..n]), more[n]);
    }
  }

  /** Cleanup's drain, after the drop: while the queue holds a fence any thread with free hands can
      take one, it can be taken from only as often as it held fences, and when it has been and no
      hand holds one, the VMM has been told of every fence ever pushed. */
  lemma CleanupTellsEverything(deferring: bool, run: seq<Step>, more: seq<Step>, n: nat)
    requires Legal(deferring, run) && Legal(deferring, run + more) && After(deferring, run).teardown.Returned?
    requires n < |After(deferring, run + more).pushed|
    ensures var (owed, t) := (|After(deferring, run).deferred|, After(deferring, run + more));
            && n < |After(deferring, run).pushed| && Pops(more) <= owed
            && (Pops(more) < owed ==> forall d :: d !in t.hands ==> Enabled(t, DrainPop(d)))
            && (Pops(more) == owed && t.hands == map[] ==> Told(t, n))
  {
    OnlyDrainsAfterReturn(deferring, run, more);
    DeliveredByTheLastDrop(deferring, run + more, n);
    Safe(deferring, run + more);
    hide Legal, After, Placed;
  }

  // ------------------------------------------------------------------ the last drop returns

  function Measure(s: State): nat {
    2 * |s.jobs| + (if s.worker.Holding? || s.worker.Asleep? then 1 else 0)
  }

  predicate ByWorker(step: Step) {
    step.Take? || step.Sleep? || step.Wake? || step.Deliver?
  }

  /** From the stop on, the worker can always move until it has exited, every move of its own
      brings the exit nearer, and nobody else's moves it away. */
  lemma JoinStep(s: State, step: Step)
    requires Inv(s) && Stopping(s) && Enabled(s, step)
    ensures Stopping(Apply(s, step))
    ensures Measure(Apply(s, step)) + (if ByWorker(step) then 1 else 0) <= Measure(s)
  {
    hide Placed;
    match step {
      case Push(_, _) =>
      case QueueStop =>
      case Take =>
      case Deliver =>
      case _ =>
    }
  }

  /** The stop has been queued. */
  predicate Stopping(s: State) { s.teardown.Joining? || s.teardown.Returned? }

  function WorkerMoves(run: seq<Step>): nat {
    if run == [] then 0
    else WorkerMoves(run[..|run| - 1]) + if ByWorker(run[|run| - 1]) then 1 else 0
  }

  lemma {:induction false} MovesUseUpTheMeasure(deferring: bool, run: seq<Step>, more: seq<Step>)
    requires Legal(deferring, run) && Legal(deferring, run + more) && Stopping(After(deferring, run))
    ensures Stopping(After(deferring, run + more))
    ensures WorkerMoves(more) + Measure(After(deferring, run + more)) <= Measure(After(deferring, run))
  {
    if more == [] {
      assert run + more == run;
    } else {
      hide Measure, Enabled, Apply, Inv;
      var n := |more| - 1;
      assert (run + more)[..|run + more| - 1] == run + more[..n];
      MovesUseUpTheMeasure(deferring, run, more[..n]);
      Safe(deferring, run + more[..n]);
      JoinStep(After(deferring, run + more[..n]), more[n]);
    }
  }

  /** However a run goes on from the stop, the worker makes at most so many moves, and has exited
      once it has made them; until then it has a move to make, and from then on the join returns. */
  lemma JoinReturns(deferring: bool, run: seq<Step>, more: seq<Step>)
    requires Legal(deferring, run) && Legal(deferring, run + more) && After(deferring, run).teardown.Joining?
    ensures var (s, bound) := (After(deferring, run + more), Measure(After(deferring, run)));
            && WorkerMoves(more) <= bound
            && (WorkerMoves(more) == bound ==> s.worker.Exited?)
            && (!s.worker.Exited? ==> Enabled(s, Take) || Enabled(s, Wake) || Enabled(s, Deliver))
            && (s.worker.Exited? ==> Enabled(s, Join) || s.teardown.Returned?)
  {
    MovesUseUpTheMeasure(deferring, run, more);
    Safe(deferring, run + more);
    hide Legal, After, Placed, OnAgreedThreads;
  }
}
