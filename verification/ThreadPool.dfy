/**
 * The thread pool over the bounded queue: every interleaving of submitters, workers and one shutdown.
 * A thread that waits on a condition variable sleeps until it is notified, or wakes for no reason.
 */
module ThreadPool {
  import opened Wrappers
  import opened BoundedQueue

  type Task = nat

  datatype Worker = Ready | Sleeping | Woken | Running(task: Task) | Exited
  datatype Producer = Away | Pushing(task: Task) | Asleep(task: Task) | Roused(task: Task)

  /** How far the winning call of `shutdown` has come; `queue_.shutdown` sets its flag and notifies in two more steps. */
  datatype Closing = Open | Stopped | Flagged | EmptyNotified | FullNotified | Joined

  datatype Pool = Pool(
    queue: Queue<Task>,
    workers: seq<Worker>,
    producers: seq<Producer>,
    closing: Closing,
    pushed: seq<Task>,      // tasks whose submit returned true, in order
    dequeued: seq<Task>,
    ran: seq<Task>)         // tasks that have been run to their end

  function Start(workers: nat, capacity: nat, producers: nat): Pool {
    var count := if workers == 0 then 1 else workers;
    Pool(Queue(Capacity(capacity), [], false), seq(count, i => Ready), seq(producers, i => Away), Open, [], [], [])
  }

  datatype Action =
    | Submit(thread: nat, task: Task)         // `submit` found the pool open
    | Push(thread: nat, wake: Option<nat>)    // `push` takes the mutex, first or again
    | Pop(thread: nat, wake: Option<nat>)
    | Finish(thread: nat)
    | WakeWorker(thread: nat)                 // spuriously
    | WakeProducer(thread: nat)
    | Close
    | SetFlag
    | NotifyEmpty
    | NotifyFull
    | Join

  /** `notify_one`: some sleeper is woken if there is any. */
  ghost predicate WakesWorker(ws: seq<Worker>, wake: Option<nat>) {
    if wake.Some? then wake.value < |ws| && ws[wake.value].Sleeping? else forall i :: 0 <= i < |ws| ==> !ws[i].Sleeping?
  }

  ghost predicate WakesProducer(ps: seq<Producer>, wake: Option<nat>) {
    if wake.Some? then wake.value < |ps| && ps[wake.value].Asleep? else forall i :: 0 <= i < |ps| ==> !ps[i].Asleep?
  }

  ghost predicate Enabled(s: Pool, a: Action) {
    match a
    case Submit(p, _) => p < |s.producers| && s.producers[p].Away? && s.closing.Open?
    case Push(p, wake) =>
      && p < |s.producers| && (s.producers[p].Pushing? || s.producers[p].Roused?)
      && (PushSection(s.queue, s.producers[p].task).1.Pushed? ==> WakesWorker(s.workers, wake))
    case Pop(w, wake) =>
      && w < |s.workers| && (s.workers[w].Ready? || s.workers[w].Woken?)
      && (PopSection(s.queue).1.Popped? ==> WakesProducer(s.producers, wake))
    case Finish(w) => w < |s.workers| && s.workers[w].Running?
    case WakeWorker(w) => w < |s.workers| && s.workers[w].Sleeping?
    case WakeProducer(p) => p < |s.producers| && s.producers[p].Asleep?
    case Close => s.closing.Open?
    case SetFlag => s.closing.Stopped?
    case NotifyEmpty => s.closing.Flagged?
    case NotifyFull => s.closing.EmptyNotified?
    case Join => s.closing.FullNotified? && forall w :: 0 <= w < |s.workers| ==> s.workers[w].Exited?
  }

  function RouseWorker(w: Worker): Worker {
    if w.Sleeping? then Woken else w
  }

  function RouseProducer(p: Producer): Producer {
    if p.Asleep? then Roused(p.task) else p
  }

  function WokenOne(ws: seq<Worker>, wake: Option<nat>): (r: seq<Worker>)
    ensures |r| == |ws|
  {
    if wake.Some? && wake.value < |ws| then ws[wake.value := RouseWorker(ws[wake.value])] else ws
  }

  function RousedOne(ps: seq<Producer>, wake: Option<nat>): (r: seq<Producer>)
    ensures |r| == |ps|
  {
    if wake.Some? && wake.value < |ps| then ps[wake.value := RouseProducer(ps[wake.value])] else ps
  }

  function Pushes(s: Pool, p: nat, wake: Option<nat>): Pool
    requires p < |s.producers| && (s.producers[p].Pushing? || s.producers[p].Roused?)
  {
    var task := s.producers[p].task;
    var (queue, outcome) := PushSection(s.queue, task);
    match outcome
    case Pushed =>
      s.(queue := queue, producers := s.producers[p := Away], workers := WokenOne(s.workers, wake), pushed := s.pushed + [task])
    case Refused => s.(producers := s.producers[p := Away])
    case MustWait => s.(producers := s.producers[p := Asleep(task)])
  }

  function Pops(s: Pool, w: nat, wake: Option<nat>): Pool
    requires w < |s.workers|
  {
    var (queue, outcome) := PopSection(s.queue);
    match outcome
    case Popped(task) =>
      s.(queue := queue, workers := s.workers[w := Running(task)], producers := RousedOne(s.producers, wake),
         dequeued := s.dequeued + [task])
    case Drained => s.(workers := s.workers[w := Exited])
    case MustWait => s.(workers := s.workers[w := Sleeping])
  }

  function AllWoken(ws: seq<Worker>): seq<Worker> {
    seq(|ws|, i requires 0 <= i < |ws| => RouseWorker(ws[i]))
  }

  function AllRoused(ps: seq<Producer>): seq<Producer> {
    seq(|ps|, i requires 0 <= i < |ps| => RouseProducer(ps[i]))
  }

  ghost function Apply(s: Pool, a: Action): Pool
    requires Enabled(s, a)
  {
    match a
    case Submit(p, task) => s.(producers := s.producers[p := Pushing(task)])
    case Push(p, wake) => Pushes(s, p, wake)
    case Pop(w, wake) => Pops(s, w, wake)
    case Finish(w) => s.(workers := s.workers[w := Ready], ran := s.ran + [s.workers[w].task])
    case WakeWorker(w) => s.(workers := s.workers[w := Woken])
    case WakeProducer(p) => s.(producers := s.producers[p := Roused(s.producers[p].task)])
    case Close => s.(closing := Stopped)
    case SetFlag => s.(closing := Flagged, queue := s.queue.(down := true))
    case NotifyEmpty => s.(closing := EmptyNotified, workers := AllWoken(s.workers))
    case NotifyFull => s.(closing := FullNotified, producers := AllRoused(s.producers))
    case Join => s.(closing := Joined)
  }

  ghost predicate Step(s: Pool, t: Pool) {
    exists a :: Enabled(s, a) && t == Apply(s, a)
  }

  ghost predicate StepAt(run: seq<Pool>, i: nat)
    requires i < |run| - 1
  {
    Step(run[i], run[i + 1])
  }

  ghost predicate IsRun(run: seq<Pool>, workers: nat, capacity: nat, producers: nat) {
    run != [] && run[0] == Start(workers, capacity, producers) && forall i :: 0 <= i < |run| - 1 ==> StepAt(run, i)
  }

  // Counting threads.

  function CountWoken(ws: seq<Worker>): nat {
    if ws == [] then 0 else (if ws[0].Woken? then 1 else 0) + CountWoken(ws[1..])
  }

  function CountRoused(ps: seq<Producer>): nat {
    if ps == [] then 0 else (if ps[0].Roused? then 1 else 0) + CountRoused(ps[1..])
  }

  function Held(w: Worker): multiset<Task> {
    if w.Running? then multiset{w.task} else multiset{}
  }

  /** The tasks being run. */
  function InHand(ws: seq<Worker>): multiset<Task> {
    if ws == [] then multiset{} else Held(ws[0]) + InHand(ws[1..])
  }

  lemma {:induction false} CountWokenUpdate(ws: seq<Worker>, i: nat, w: Worker)
    requires i < |ws|
    ensures CountWoken(ws[i := w]) + (if ws[i].Woken? then 1 else 0) == CountWoken(ws) + (if w.Woken? then 1 else 0)
  {
    if i > 0 {
      CountWokenUpdate(ws[1..], i - 1, w);
      assert ws[i := w][1..] == ws[1..][i - 1 := w];
    } else {
      assert ws[0 := w][1..] == ws[1..];
    }
  }

  lemma {:induction false} CountRousedUpdate(ps: seq<Producer>, i: nat, p: Producer)
    requires i < |ps|
    ensures CountRoused(ps[i := p]) + (if ps[i].Roused? then 1 else 0) == CountRoused(ps) + (if p.Roused? then 1 else 0)
  {
    if i > 0 {
      CountRousedUpdate(ps[1..], i - 1, p);
      assert ps[i := p][1..] == ps[1..][i - 1 := p];
    } else {
      assert ps[0 := p][1..] == ps[1..];
    }
  }

  lemma {:induction false} InHandUpdate(ws: seq<Worker>, i: nat, w: Worker)
    requires i < |ws|
    ensures InHand(ws[i := w]) + Held(ws[i]) == InHand(ws) + Held(w)
  {
    hide Held;
    if i > 0 {
      InHandUpdate(ws[1..], i - 1, w);
      assert ws[i := w][1..] == ws[1..][i - 1 := w];
      AddBoth(Held(ws[0]), InHand(ws[1..][i - 1 := w]), Held(ws[i]), InHand(ws[1..]), Held(w));
    } else {
      assert ws[0 := w][1..] == ws[1..];
    }
  }

  lemma AddBoth(h: multiset<Task>, a: multiset<Task>, x: multiset<Task>, b: multiset<Task>, y: multiset<Task>)
    requires a + x == b + y
    ensures h + a + x == h + b + y
  {
    assert h + a + x == h + (a + x) && h + b + y == h + (b + y);
  }

  lemma TaskTaken(all: multiset<Task>, ran: multiset<Task>, hand: multiset<Task>, now: multiset<Task>, task: Task)
    requires all == ran + hand && now == hand + multiset{task}
    ensures all + multiset{task} == ran + now
  {
  }

  lemma TaskDone(all: multiset<Task>, ran: multiset<Task>, hand: multiset<Task>, now: multiset<Task>, task: Task)
    requires all == ran + hand && now + multiset{task} == hand
    ensures all == ran + multiset{task} + now
  {
  }

  lemma {:induction false} SameInHand(ws: seq<Worker>, vs: seq<Worker>)
    requires |ws| == |vs| && forall i :: 0 <= i < |ws| ==> Held(ws[i]) == Held(vs[i])
    ensures InHand(ws) == InHand(vs)
  {
    if ws != [] {
      SameInHand(ws[1..], vs[1..]);
      assert Held(ws[0]) == Held(vs[0]);
    }
  }

  lemma {:induction false} NothingInHand(ws: seq<Worker>)
    requires forall i :: 0 <= i < |ws| ==> !ws[i].Running?
    ensures InHand(ws) == multiset{}
  {
    if ws != [] {
      NothingInHand(ws[1..]);
    }
  }

  // The invariant.

  ghost predicate SomeSleeping(ws: seq<Worker>) {
    exists i :: 0 <= i < |ws| && ws[i].Sleeping?
  }

  ghost predicate SomeAsleep(ps: seq<Producer>) {
    exists i :: 0 <= i < |ps| && ps[i].Asleep?
  }

  ghost predicate SomeExited(ws: seq<Worker>) {
    exists i :: 0 <= i < |ws| && ws[i].Exited?
  }

  /** No item waits while a worker sleeps, unless a woken worker is on its way to it. */
  ghost predicate ItemsAttended(s: Pool) {
    SomeSleeping(s.workers) ==> |s.queue.items| <= CountWoken(s.workers)
  }

  /** No slot is free while a producer sleeps, unless a woken producer is on its way to it. */
  ghost predicate SlotsAttended(s: Pool) {
    SomeAsleep(s.producers) ==> s.queue.capacity - |s.queue.items| <= CountRoused(s.producers)
  }

  ghost predicate Inv(s: Pool) {
    && s.workers != [] && 1 <= s.queue.capacity && |s.queue.items| <= s.queue.capacity
    && s.pushed == s.dequeued + s.queue.items
    && multiset(s.dequeued) == multiset(s.ran) + InHand(s.workers)
    && (s.queue.down <==> s.closing.Flagged? || s.closing.EmptyNotified? || s.closing.FullNotified? || s.closing.Joined?)
    && ItemsAttended(s)
    && (!s.queue.down ==> SlotsAttended(s))
    && (s.queue.down && SomeSleeping(s.workers) ==> s.closing.Flagged?)
    && (s.queue.down && SomeAsleep(s.producers) ==> s.closing.Flagged? || s.closing.EmptyNotified?)
    && (SomeExited(s.workers) ==> s.queue.down && s.queue.items == [])
    && (s.closing.Joined? ==> forall w :: 0 <= w < |s.workers| ==> s.workers[w].Exited?)
  }

  lemma StartInv(workers: nat, capacity: nat, producers: nat)
    ensures Inv(Start(workers, capacity, producers))
  {
    NothingInHand(Start(workers, capacity, producers).workers);
  }

  lemma SubmitKeeps(s: Pool, p: nat, task: Task)
    requires Inv(s) && p < |s.producers| && s.producers[p].Away?
    ensures Inv(s.(producers := s.producers[p := Pushing(task)]))
  {
    hide InHand, CountWoken, CountRoused;
    CountRousedUpdate(s.producers, p, Pushing(task));
  }

  lemma PushedKeeps(s: Pool, p: nat, wake: Option<nat>)
    requires Inv(s) && Enabled(s, Push(p, wake)) && PushSection(s.queue, s.producers[p].task).1.Pushed?
    ensures Inv(Pushes(s, p, wake))
  {
    hide InHand, CountWoken, CountRoused;
    var t := Pushes(s, p, wake);
    CountRousedUpdate(s.producers, p, Away);
    if wake.Some? {
      CountWokenUpdate(s.workers, wake.value, Woken);
      SameInHand(s.workers, t.workers);
    }
    assert s.dequeued + s.queue.items + [s.producers[p].task] == s.dequeued + (s.queue.items + [s.producers[p].task]);
  }

  lemma NotPushedKeeps(s: Pool, p: nat, wake: Option<nat>)
    requires Inv(s) && Enabled(s, Push(p, wake)) && !PushSection(s.queue, s.producers[p].task).1.Pushed?
    ensures Inv(Pushes(s, p, wake))
  {
    hide InHand, CountWoken, CountRoused;
    CountRousedUpdate(s.producers, p, Pushes(s, p, wake).producers[p]);
  }

  lemma PoppedKeeps(s: Pool, w: nat, wake: Option<nat>)
    requires Inv(s) && Enabled(s, Pop(w, wake)) && PopSection(s.queue).1.Popped?
    ensures Inv(Pops(s, w, wake))
  {
    hide InHand, CountWoken, CountRoused;
    var task, t := s.queue.items[0], Pops(s, w, wake);
    CountWokenUpdate(s.workers, w, Running(task));
    InHandUpdate(s.workers, w, Running(task));
    if wake.Some? {
      CountRousedUpdate(s.producers, wake.value, Roused(s.producers[wake.value].task));
    }
    assert s.dequeued + s.queue.items == s.dequeued + [task] + s.queue.items[1..];
    assert multiset(s.dequeued + [task]) == multiset(s.dequeued) + multiset{task};
    assert InHand(t.workers) + multiset{} == InHand(t.workers);
    TaskTaken(multiset(s.dequeued), multiset(s.ran), InHand(s.workers), InHand(t.workers), task);
  }

  lemma NotPoppedKeeps(s: Pool, w: nat, wake: Option<nat>)
    requires Inv(s) && Enabled(s, Pop(w, wake)) && !PopSection(s.queue).1.Popped?
    ensures Inv(Pops(s, w, wake))
  {
    hide InHand, CountWoken, CountRoused;
    var t := Pops(s, w, wake);
    CountWokenUpdate(s.workers, w, t.workers[w]);
    SameInHand(s.workers, t.workers);
  }

  lemma FinishKeeps(s: Pool, w: nat)
    requires Inv(s) && Enabled(s, Finish(w))
    ensures Inv(Apply(s, Finish(w)))
  {
    hide InHand, CountWoken, CountRoused;
    var task := s.workers[w].task;
    CountWokenUpdate(s.workers, w, Ready);
    InHandUpdate(s.workers, w, Ready);
    assert multiset(s.ran + [task]) == multiset(s.ran) + multiset{task};
    assert InHand(s.workers) + multiset{} == InHand(s.workers);
    TaskDone(multiset(s.dequeued), multiset(s.ran), InHand(s.workers), InHand(s.workers[w := Ready]), task);
  }

  lemma SpuriousKeeps(s: Pool, a: Action)
    requires Inv(s) && Enabled(s, a) && (a.WakeWorker? || a.WakeProducer?)
    ensures Inv(Apply(s, a))
  {
    hide InHand, CountWoken, CountRoused;
    if a.WakeWorker? {
      CountWokenUpdate(s.workers, a.thread, Woken);
      SameInHand(s.workers, Apply(s, a).workers);
    } else {
      CountRousedUpdate(s.producers, a.thread, Roused(s.producers[a.thread].task));
    }
  }

  lemma ClosingKeeps(s: Pool, a: Action)
    requires Inv(s) && Enabled(s, a) && (a.Close? || a.SetFlag? || a.NotifyEmpty? || a.NotifyFull? || a.Join?)
    ensures Inv(Apply(s, a))
  {
    hide InHand, CountWoken, CountRoused;
    if a.NotifyEmpty? {
      SameInHand(s.workers, AllWoken(s.workers));
    }
  }

  lemma StepKeeps(s: Pool, a: Action)
    requires Inv(s) && Enabled(s, a)
    ensures Inv(Apply(s, a))
  {
    hide Inv;
    match a
    case Submit(p, task) => SubmitKeeps(s, p, task);
    case Push(p, wake) =>
      if PushSection(s.queue, s.producers[p].task).1.Pushed? {
        PushedKeeps(s, p, wake);
      } else {
        NotPushedKeeps(s, p, wake);
      }
    case Pop(w, wake) =>
      if PopSection(s.queue).1.Popped? {
        PoppedKeeps(s, w, wake);
      } else {
        NotPoppedKeeps(s, w, wake);
      }
    case Finish(w) => FinishKeeps(s, w);
    case WakeWorker(_) => SpuriousKeeps(s, a);
    case WakeProducer(_) => SpuriousKeeps(s, a);
    case _ => ClosingKeeps(s, a);
  }

  // The pool object. A thread's work between two waits is one method, and each method is one step.

  class ThreadPool {
    const queue: BoundedQueue<Task>
    var workers: seq<Worker>
    var producers: seq<Producer>
    var closing: Closing
    ghost var pushed: seq<Task>
    ghost var dequeued: seq<Task>
    ghost var ran: seq<Task>

    ghost function State(): Pool
      reads this, queue
    {
      Pool(queue.Contents(), workers, producers, closing, pushed, dequeued, ran)
    }

    ghost predicate Valid()
      reads this, queue
    {
      queue.Valid() && Inv(State())
    }

    constructor (workers: nat, capacity: nat, producers: nat)
      ensures Valid() && fresh(queue) && State() == Start(workers, capacity, producers)
    {
      var count := if workers == 0 then 1 else workers;
      this.queue := new BoundedQueue<Task>(capacity);
      this.workers := seq(count, i => Ready);
      this.producers := seq(producers, i => Away);
      this.closing := Open;
      pushed, dequeued, ran := [], [], [];
      new;
      StartInv(workers, capacity, producers);
    }

    /** `notify_one` on `not_empty_`. */
    method NotifyWorker() returns (wake: Option<nat>)
      modifies this`workers
      ensures WakesWorker(old(workers), wake) && workers == WokenOne(old(workers), wake)
    {
      if w: nat :| w < |workers| && workers[w].Sleeping? {
        workers := workers[w := Woken];
        return Some(w);
      }
      return None;
    }

    /** `notify_one` on `not_full_`. */
    method NotifyProducer() returns (wake: Option<nat>)
      modifies this`producers
      ensures WakesProducer(old(producers), wake) && producers == RousedOne(old(producers), wake)
    {
      if p: nat :| p < |producers| && producers[p].Asleep? {
        producers := producers[p := Roused(producers[p].task)];
        return Some(p);
      }
      return None;
    }

    /** `submit`, as far as the check of `stopped_`. */
    method Submit(p: nat, task: Task) returns (open: bool)
      requires Valid() && p < |producers| && producers[p].Away?
      modifies this`producers
      ensures Valid() && open == old(closing).Open?
      ensures State() == if open then Apply(old(State()), Action.Submit(p, task)) else old(State())
    {
      hide Inv;
      if !closing.Open? {
        return false;
      }
      StepKeeps(State(), Action.Submit(p, task));
      producers := producers[p := Pushing(task)];
      return true;
    }

    /** `push`, each time it holds the mutex. */
    method PushOnce(p: nat) returns (outcome: PushOutcome, wake: Option<nat>)
      requires Valid() && p < |producers| && (producers[p].Pushing? || producers[p].Roused?)
      modifies this, queue
      ensures Valid() && outcome == PushSection(old(queue.Contents()), old(producers[p].task)).1
      ensures Enabled(old(State()), Push(p, wake)) && State() == Apply(old(State()), Push(p, wake))
    {
      hide Inv, WokenOne, WakesWorker;
      ghost var before := State();
      var task := producers[p].task;
      wake := None;
      QueueValid(before);
      outcome := queue.PushLocked(task);
      match outcome {
        case Pushed =>
          producers := producers[p := Away];
          pushed := pushed + [task];
          wake := NotifyWorker();
        case Refused => producers := producers[p := Away];
        case MustWait => producers := producers[p := Asleep(task)];
      }
      StepKeeps(before, Push(p, wake));
    }

    /** `pop` in the worker loop, each time it holds the mutex. */
    method PopOnce(w: nat) returns (outcome: PopOutcome<Task>, wake: Option<nat>)
      requires Valid() && w < |workers| && (workers[w].Ready? || workers[w].Woken?)
      modifies this, queue
      ensures Valid() && outcome == PopSection(old(queue.Contents())).1
      ensures Enabled(old(State()), Pop(w, wake)) && State() == Apply(old(State()), Pop(w, wake))
    {
      hide Inv, RousedOne, WakesProducer;
      ghost var before := State();
      wake := None;
      QueueValid(before);
      outcome := queue.PopLocked();
      match outcome {
        case Popped(task) =>
          workers := workers[w := Running(task)];
          dequeued := dequeued + [task];
          wake := NotifyProducer();
        case Drained => workers := workers[w := Exited];
        case MustWait => workers := workers[w := Sleeping];
      }
      StepKeeps(before, Pop(w, wake));
    }

    /** The worker's task returns, and the loop goes on. */
    method TaskDone(w: nat)
      requires Valid() && w < |workers| && workers[w].Running?
      modifies this
      ensures Valid() && State() == Apply(old(State()), Finish(w))
    {
      hide Inv;
      StepKeeps(State(), Finish(w));
      ran := ran + [workers[w].task];
      workers := workers[w := Ready];
    }

    /** The exchange of `stopped_`: only the first call of `shutdown` goes on. */
    method BeginShutdown() returns (won: bool)
      requires Valid()
      modifies this`closing
      ensures Valid() && won == old(closing).Open?
      ensures State() == if won then Apply(old(State()), Close) else old(State())
    {
      hide Inv;
      if !closing.Open? {
        return false;
      }
      StepKeeps(State(), Close);
      closing := Stopped;
      return true;
    }

    method SetQueueFlag()
      requires Valid() && closing.Stopped?
      modifies this`closing, queue
      ensures Valid() && State() == Apply(old(State()), SetFlag)
    {
      hide Inv;
      ghost var before := State();
      StepKeeps(before, SetFlag);
      QueueValid(before);
      queue.SetShutdown();
      closing := Flagged;
    }

    /** `notify_all`, first on `not_empty_`, then on `not_full_`. */
    method NotifyAll()
      requires Valid() && (closing.Flagged? || closing.EmptyNotified?)
      modifies this
      ensures Valid() && State() == Apply(old(State()), if old(closing).Flagged? then NotifyEmpty else NotifyFull)
    {
      hide Inv;
      StepKeeps(State(), if closing.Flagged? then NotifyEmpty else NotifyFull);
      if closing.Flagged? {
        workers := AllWoken(workers);
        closing := EmptyNotified;
      } else {
        producers := AllRoused(producers);
        closing := FullNotified;
      }
    }

    /** `join` on one worker after the other returns once all of them have left their loops. */
    method JoinWorkers() returns (joined: bool)
      requires Valid() && closing.FullNotified?
      modifies this`closing
      ensures Valid() && (joined <==> forall w :: 0 <= w < |workers| ==> workers[w].Exited?)
      ensures State() == if joined then Apply(old(State()), Join) else old(State())
    {
      hide Inv;
      for w := 0 to |workers|
        invariant forall i :: 0 <= i < w ==> workers[i].Exited?
      {
        if !workers[w].Exited? {
          return false;
        }
      }
      StepKeeps(State(), Join);
      closing := Joined;
      return true;
    }

    lemma QueueValid(s: Pool)
      requires Inv(s) && s.queue == queue.Contents()
      ensures queue.Valid()
    {
    }
  }

  // What holds in every run.

  lemma {:induction false} RunKeeps(run: seq<Pool>, workers: nat, capacity: nat, producers: nat, i: nat)
    requires IsRun(run, workers, capacity, producers) && i < |run|
    ensures Inv(run[i])
  {
    hide Inv, Enabled, Apply;
    if i == 0 {
      StartInv(workers, capacity, producers);
    } else {
      RunKeeps(run, workers, capacity, producers, i - 1);
      assert StepAt(run, i - 1);
      var a :| Enabled(run[i - 1], a) && run[i] == Apply(run[i - 1], a);
      StepKeeps(run[i - 1], a);
    }
  }

  /** No wake-up is lost, and the queue never holds more than it may. */
  lemma NoLostWakeups(run: seq<Pool>, workers: nat, capacity: nat, producers: nat, i: nat)
    requires IsRun(run, workers, capacity, producers) && i < |run|
    ensures |run[i].queue.items| <= run[i].queue.capacity
    ensures ItemsAttended(run[i]) && (!run[i].queue.down ==> SlotsAttended(run[i]))
    ensures run[i].queue.down && SomeSleeping(run[i].workers) ==> run[i].closing.Flagged?
    ensures run[i].queue.down && SomeAsleep(run[i].producers) ==> run[i].closing.Flagged? || run[i].closing.EmptyNotified?
  {
    hide IsRun, ItemsAttended, SlotsAttended;
    RunKeeps(run, workers, capacity, producers, i);
  }

  /** Tasks are handed out in the order in which they were accepted. */
  lemma FirstInFirstOut(run: seq<Pool>, workers: nat, capacity: nat, producers: nat, i: nat)
    requires IsRun(run, workers, capacity, producers) && i < |run|
    ensures run[i].dequeued <= run[i].pushed && run[i].pushed == run[i].dequeued + run[i].queue.items
  {
    hide IsRun;
    RunKeeps(run, workers, capacity, producers, i);
  }

  /** When `shutdown` has joined the workers, every accepted task has been run exactly once. */
  lemma EveryTaskRunOnce(run: seq<Pool>, workers: nat, capacity: nat, producers: nat, i: nat)
    requires IsRun(run, workers, capacity, producers) && i < |run| && run[i].closing.Joined?
    ensures multiset(run[i].ran) == multiset(run[i].pushed) && run[i].dequeued == run[i].pushed
  {
    hide IsRun, ItemsAttended, SlotsAttended;
    RunKeeps(run, workers, capacity, producers, i);
    var s := run[i];
    assert s.workers[0].Exited?;
    NothingInHand(s.workers);
    assert s.dequeued + [] == s.dequeued;
  }

  lemma StepAfterShutdown(s: Pool, a: Action)
    requires Enabled(s, a) && s.queue.down
    ensures Apply(s, a).pushed == s.pushed && Apply(s, a).queue.down
  {
  }

  /** Once the flag is set, no push succeeds any more. */
  lemma {:induction false} NoPushAfterShutdown(run: seq<Pool>, workers: nat, capacity: nat, producers: nat, i: nat, j: nat)
    requires IsRun(run, workers, capacity, producers) && i <= j < |run| && run[i].queue.down
    ensures run[j].queue.down && run[j].pushed == run[i].pushed
    decreases j
  {
    hide Enabled, Apply;
    if i < j {
      NoPushAfterShutdown(run, workers, capacity, producers, i, j - 1);
      assert StepAt(run, j - 1);
      var a :| Enabled(run[j - 1], a) && run[j] == Apply(run[j - 1], a);
      StepAfterShutdown(run[j - 1], a);
    }
  }

  // Shutdown comes to an end.

  function WorkerRank(w: Worker): nat {
    match w
    case Exited => 0
    case Ready => 1
    case Woken => 1
    case _ => 2
  }

  function ProducerRank(p: Producer): nat {
    match p
    case Away => 0
    case Asleep(_) => 2
    case _ => 1
  }

  function WorkerRanks(ws: seq<Worker>): nat {
    if ws == [] then 0 else WorkerRank(ws[0]) + WorkerRanks(ws[1..])
  }

  function ProducerRanks(ps: seq<Producer>): nat {
    if ps == [] then 0 else ProducerRank(ps[0]) + ProducerRanks(ps[1..])
  }

  function ClosingRank(c: Closing): nat {
    match c
    case Open => 5
    case Stopped => 4
    case Flagged => 3
    case EmptyNotified => 2
    case FullNotified => 1
    case Joined => 0
  }

  /** What is left to do once the pool is shutting down. */
  function Measure(s: Pool): nat {
    2 * |s.queue.items| + WorkerRanks(s.workers) + ProducerRanks(s.producers) + ClosingRank(s.closing)
  }

  lemma {:induction false} WorkerRanksUpdate(ws: seq<Worker>, i: nat, w: Worker)
    requires i < |ws|
    ensures WorkerRanks(ws[i := w]) + WorkerRank(ws[i]) == WorkerRanks(ws) + WorkerRank(w)
  {
    if i > 0 {
      WorkerRanksUpdate(ws[1..], i - 1, w);
      assert ws[i := w][1..] == ws[1..][i - 1 := w];
    } else {
      assert ws[0 := w][1..] == ws[1..];
    }
  }

  lemma {:induction false} ProducerRanksUpdate(ps: seq<Producer>, i: nat, p: Producer)
    requires i < |ps|
    ensures ProducerRanks(ps[i := p]) + ProducerRank(ps[i]) == ProducerRanks(ps) + ProducerRank(p)
  {
    if i > 0 {
      ProducerRanksUpdate(ps[1..], i - 1, p);
      assert ps[i := p][1..] == ps[1..][i - 1 := p];
    } else {
      assert ps[0 := p][1..] == ps[1..];
    }
  }

  lemma {:induction false} AllWokenRanks(ws: seq<Worker>)
    ensures WorkerRanks(AllWoken(ws)) <= WorkerRanks(ws)
  {
    if ws != [] {
      AllWokenRanks(ws[1..]);
      assert AllWoken(ws)[1..] == AllWoken(ws[1..]);
    }
  }

  lemma {:induction false} AllRousedRanks(ps: seq<Producer>)
    ensures ProducerRanks(AllRoused(ps)) <= ProducerRanks(ps)
  {
    if ps != [] {
      AllRousedRanks(ps[1..]);
      assert AllRoused(ps)[1..] == AllRoused(ps[1..]);
    }
  }

  /** Under shutdown every step of any thread, spurious ones too, leaves less to do. */
  lemma StepDrains(s: Pool, a: Action)
    requires Inv(s) && Enabled(s, a) && s.queue.down
    ensures Measure(Apply(s, a)) < Measure(s)
  {
    hide WorkerRanks, ProducerRanks, CountWoken, CountRoused, InHand;
    var t := Apply(s, a);
    match a
    case Submit(_, _) =>
    case Push(p, _) => ProducerRanksUpdate(s.producers, p, Away);
    case Pop(w, wake) =>
      WorkerRanksUpdate(s.workers, w, t.workers[w]);
      if wake.Some? && wake.value < |s.producers| {
        ProducerRanksUpdate(s.producers, wake.value, RouseProducer(s.producers[wake.value]));
      }
    case Finish(w) => WorkerRanksUpdate(s.workers, w, Ready);
    case WakeWorker(w) => WorkerRanksUpdate(s.workers, w, Woken);
    case WakeProducer(p) => ProducerRanksUpdate(s.producers, p, Roused(s.producers[p].task));
    case NotifyEmpty => AllWokenRanks(s.workers);
    case NotifyFull => AllRousedRanks(s.producers);
    case _ =>
  }

  /** Under shutdown some thread can always take a step, until the join is done. */
  lemma NeverStuck(s: Pool)
    requires Inv(s) && s.queue.down && !s.closing.Joined?
    ensures exists a :: Enabled(s, a)
  {
    hide CountWoken, CountRoused, InHand;
    if s.closing.Flagged? {
      assert Enabled(s, NotifyEmpty);
    } else if s.closing.EmptyNotified? {
      assert Enabled(s, NotifyFull);
    } else if w: nat :| w < |s.workers| && !s.workers[w].Exited? {
      if s.workers[w].Running? {
        assert Enabled(s, Finish(w));
      } else {
        assert Enabled(s, Pop(w, None));
      }
    } else {
      assert Enabled(s, Join);
    }
  }

  /**
   * So shutdown drains: after the flag is set a run has only a bounded number of steps left, and where it
   * cannot go on, the workers are joined.
   */
  lemma {:induction false} ShutdownDrains(run: seq<Pool>, workers: nat, capacity: nat, producers: nat, i: nat, j: nat)
    requires IsRun(run, workers, capacity, producers) && i <= j < |run| && run[i].queue.down
    ensures j - i + Measure(run[j]) <= Measure(run[i])
    ensures (forall a :: !Enabled(run[j], a)) ==> run[j].closing.Joined?
    decreases j
  {
    hide Enabled, Apply, Inv, Measure;
    NoPushAfterShutdown(run, workers, capacity, producers, i, j);
    RunKeeps(run, workers, capacity, producers, j);
    if !run[j].closing.Joined? {
      NeverStuck(run[j]);
    }
    if i < j {
      ShutdownDrains(run, workers, capacity, producers, i, j - 1);
      NoPushAfterShutdown(run, workers, capacity, producers, i, j - 1);
      RunKeeps(run, workers, capacity, producers, j - 1);
      assert StepAt(run, j - 1);
      var a :| Enabled(run[j - 1], a) && run[j] == Apply(run[j - 1], a);
      StepDrains(run[j - 1], a);
    }
  }

  // Where a free slot goes unattended.

  ghost predicate Reaches(s: Pool, workers: nat, capacity: nat, producers: nat) {
    exists run :: RunTo(run, s, workers, capacity, producers)
  }

  ghost predicate RunTo(run: seq<Pool>, s: Pool, workers: nat, capacity: nat, producers: nat) {
    IsRun(run, workers, capacity, producers) && run[|run| - 1] == s
  }

  lemma Go(s: Pool, a: Action, workers: nat, capacity: nat, producers: nat)
    requires Reaches(s, workers, capacity, producers) && Enabled(s, a)
    ensures Reaches(Apply(s, a), workers, capacity, producers)
  {
    hide Enabled, Apply;
    var run :| RunTo(run, s, workers, capacity, producers);
    var longer := run + [Apply(s, a)];
    forall i | 0 <= i < |longer| - 1
      ensures StepAt(longer, i)
    {
      if i < |run| - 1 {
        assert StepAt(run, i);
      } else {
        assert Step(s, Apply(s, a));
      }
    }
    assert RunTo(longer, Apply(s, a), workers, capacity, producers);
  }

  /** In this stage of a shutdown, free slots are always attended to. */
  ghost predicate SlotsAttendedIn(c: Closing) {
    forall s, workers: nat, capacity: nat, producers: nat ::
      Reaches(s, workers, capacity, producers) && s.closing == c ==> SlotsAttended(s)
  }

  /** One item in a queue of one, and two producers asleep in front of it. */
  const CROWDED: Pool := Pool(Queue(1, [10], false), [Ready], [Away, Asleep(11), Asleep(12)], Open, [10], [], [])

  lemma Crowd()
    ensures Reaches(CROWDED, 1, 1, 3)
  {
    hide Reaches;
    var s0 := Pool(Queue(1, [], false), [Ready], [Away, Away, Away], Open, [], [], []);
    assert s0 == Start(1, 1, 3);
    StartReached(1, 1, 3);
    var s1 := s0.(producers := [Pushing(10), Away, Away]);
    assert s1 == Apply(s0, Submit(0, 10));
    Go(s0, Submit(0, 10), 1, 1, 3);
    var s2 := Pool(Queue(1, [10], false), [Ready], [Away, Away, Away], Open, [10], [], []);
    assert s2 == Apply(s1, Push(0, None));
    Go(s1, Push(0, None), 1, 1, 3);
    var s3 := s2.(producers := [Away, Pushing(11), Away]);
    assert s3 == Apply(s2, Submit(1, 11));
    Go(s2, Submit(1, 11), 1, 1, 3);
    var s4 := s2.(producers := [Away, Asleep(11), Away]);
    assert s4 == Apply(s3, Push(1, None));
    Go(s3, Push(1, None), 1, 1, 3);
    var s5 := s2.(producers := [Away, Asleep(11), Pushing(12)]);
    assert s5 == Apply(s4, Submit(2, 12));
    Go(s4, Submit(2, 12), 1, 1, 3);
    assert CROWDED == Apply(s5, Push(2, None));
    Go(s5, Push(2, None), 1, 1, 3);
  }

  lemma StartReached(workers: nat, capacity: nat, producers: nat)
    ensures Reaches(Start(workers, capacity, producers), workers, capacity, producers)
  {
    hide Start;
    assert RunTo([Start(workers, capacity, producers)], Start(workers, capacity, producers), workers, capacity, producers);
  }

  /** The one woken for the slot found the flag set and went away. */
  const LEFT: Pool := Pool(Queue(1, [], true), [Running(10)], [Away, Away, Asleep(12)], Flagged, [10], [10], [])

  /** Two sleepers, one of them woken for a slot: it finds the flag set, and leaves the slot to nobody. */
  lemma SlotLeftBehind()
    ensures Reaches(LEFT, 1, 1, 3) && !SlotsAttended(LEFT)
    ensures Reaches(LEFT.(closing := EmptyNotified), 1, 1, 3) && !SlotsAttended(LEFT.(closing := EmptyNotified))
  {
    hide Reaches;
    Crowd();
    var s1 := Pool(Queue(1, [], false), [Running(10)], [Away, Roused(11), Asleep(12)], Open, [10], [10], []);
    assert s1 == Apply(CROWDED, Pop(0, Some(1)));
    Go(CROWDED, Pop(0, Some(1)), 1, 1, 3);
    var s2 := s1.(closing := Stopped);
    assert s2 == Apply(s1, Close);
    Go(s1, Close, 1, 1, 3);
    var s3 := s1.(closing := Flagged, queue := Queue(1, [], true));
    assert s3 == Apply(s2, SetFlag);
    Go(s2, SetFlag, 1, 1, 3);
    assert LEFT == Apply(s3, Push(1, None));
    Go(s3, Push(1, None), 1, 1, 3);
    assert LEFT.(closing := EmptyNotified) == Apply(LEFT, NotifyEmpty);
    Go(LEFT, NotifyEmpty, 1, 1, 3);
    NobodyRoused();
  }

  lemma NobodyRoused()
    ensures CountRoused(LEFT.producers) == 0 && SomeAsleep(LEFT.producers)
  {
    var ps := LEFT.producers;
    assert ps[1..] == [Away, Asleep(12)];
    assert CountRoused(ps) == CountRoused([Away, Asleep(12)]);
    assert [Away, Asleep(12)][1..] == [Asleep(12)];
    assert [Asleep(12)][1..] == [];
    assert ps[2].Asleep?;
  }

  /** A free slot can be left unattended exactly between setting the flag and the second notification. */
  lemma SlotsAttendedExactly(c: Closing)
    ensures SlotsAttendedIn(c) <==> !(c.Flagged? || c.EmptyNotified?)
  {
    hide Reaches, SlotsAttended;
    if c.Flagged? || c.EmptyNotified? {
      SlotLeftBehind();
    } else {
      forall s, workers: nat, capacity: nat, producers: nat | Reaches(s, workers, capacity, producers) && s.closing == c
        ensures SlotsAttended(s)
      {
        ReachedInv(s, workers, capacity, producers);
        NobodyAsleep(s);
      }
    }
  }

  lemma ReachedInv(s: Pool, workers: nat, capacity: nat, producers: nat)
    requires Reaches(s, workers, capacity, producers)
    ensures Inv(s)
  {
    hide Inv;
    var run :| RunTo(run, s, workers, capacity, producers);
    RunKeeps(run, workers, capacity, producers, |run| - 1);
  }

  lemma NobodyAsleep(s: Pool)
    requires Inv(s) && !(s.closing.Flagged? || s.closing.EmptyNotified?)
    ensures SlotsAttended(s)
  {
    hide CountRoused, CountWoken, InHand;
  }

  // The numbers the pool was made with.

  lemma StepKeepsSizes(s: Pool, a: Action)
    requires Enabled(s, a)
    ensures var t := Apply(s, a);
      t.queue.capacity == s.queue.capacity && |t.workers| == |s.workers| && |t.producers| == |s.producers|
  {
  }

  lemma {:induction false} RunKeepsSizes(run: seq<Pool>, workers: nat, capacity: nat, producers: nat, i: nat)
    requires IsRun(run, workers, capacity, producers) && i < |run|
    ensures run[i].queue.capacity == (if capacity == 0 then 1 else capacity)
    ensures |run[i].workers| == (if workers == 0 then 1 else workers) && |run[i].producers| == producers
  {
    hide Enabled, Apply;
    if i > 0 {
      RunKeepsSizes(run, workers, capacity, producers, i - 1);
      assert StepAt(run, i - 1);
      var a :| Enabled(run[i - 1], a) && run[i] == Apply(run[i - 1], a);
      StepKeepsSizes(run[i - 1], a);
    }
  }

  /**
   * In every run there are as many workers as asked for, but at least one; and a push that looks at the queue
   * is accepted exactly while the queue is open and holds fewer items than asked for, again at least one.
   */
  lemma AcceptedWhileBelowCapacity(
      run: seq<Pool>, workers: nat, capacity: nat, producers: nat, i: nat, p: nat, wake: Option<nat>)
    requires IsRun(run, workers, capacity, producers) && i < |run| && Enabled(run[i], Push(p, wake))
    ensures |run[i].workers| == (if workers == 0 then 1 else workers)
    ensures var s, t := run[i], Apply(run[i], Push(p, wake));
      var limit := if capacity == 0 then 1 else capacity;
      && |s.queue.items| <= limit
      && (t.pushed == s.pushed + [s.producers[p].task] <==> !s.queue.down && |s.queue.items| < limit)
      && (t.producers[p].Asleep? <==> !s.queue.down && |s.queue.items| == limit)
      && (t.pushed != s.pushed ==> t.queue.items == s.queue.items + [s.producers[p].task])
  {
    hide IsRun, ItemsAttended, SlotsAttended;
    RunKeeps(run, workers, capacity, producers, i);
    RunKeepsSizes(run, workers, capacity, producers, i);
  }

  /** `items` accepted before any worker has looked at the queue. */
  function Filled(workers: nat, capacity: nat, producers: nat, items: seq<Task>): Pool {
    Start(workers, capacity, producers).(queue := Queue(if capacity == 0 then 1 else capacity, items, false), pushed := items)
  }

  /** And as many items can be waiting in the queue at once. */
  lemma {:induction false} QueueFills(workers: nat, capacity: nat, producers: nat, items: seq<Task>)
    requires producers > 0 && |items| <= if capacity == 0 then 1 else capacity
    ensures Reaches(Filled(workers, capacity, producers, items), workers, capacity, producers)
  {
    hide Reaches;
    if items == [] {
      StartReached(workers, capacity, producers);
    } else {
      var fewer, task := items[..|items| - 1], items[|items| - 1];
      QueueFills(workers, capacity, producers, fewer);
      var s := Filled(workers, capacity, producers, fewer);
      Go(s, Submit(0, task), workers, capacity, producers);
      var t := Apply(s, Submit(0, task));
      Go(t, Push(0, None), workers, capacity, producers);
      assert fewer + [task] == items;
      assert t.producers[0 := Away] == s.producers;
      assert Apply(t, Push(0, None)) == Filled(workers, capacity, producers, items);
    }
  }
}
