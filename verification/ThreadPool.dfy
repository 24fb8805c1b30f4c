/**
 The thread pool as a transition system.

 Every `Step` is one action that no other thread can interleave with: a short critical
 section on the semaphore's own mutex, a critical section on `thcount_lock` that only bumps
 the counter, or one access to a shared word made while holding a longer lock.
 `rwmutex` is held across several steps by a producer or a worker; `thcount_lock` is held
 across several steps by a waiter. Both condition variables may wake a thread spuriously.

 `added`, `pulled`, `ran` and the `began`/`seen` marks of a waiter are history: no step
 reads them to decide what to do. A job's ticket is its position in `added`.
 */
module ThreadPool {
  import opened Wrappers

  datatype Job = Job(func: nat, arg: nat)

  /** A job in a worker's hands. */
  datatype Held = Held(ticket: nat, job: Job)

  datatype Owner = Free | ByWorker(worker: nat) | ByProducer(producer: nat)

  datatype WorkerPc =
    | AtSem                        // about to enter bsem_wait
    | SemBlocked                   // inside pthread_cond_wait of bsem_wait
    | SemWoken                     // woken there, has not looked at v again
    | HasToken                     // v was taken, not yet counted as working
    | Counted                      // num_threads_working was raised, queue not locked yet
    | Pulling                      // holds rwmutex, jobqueue_pull has not read len
    | Reposting(held: Held)        // len is updated, bsem_post for the rest is pending
    | Pulled(got: Option<Held>)    // still holds rwmutex
    | Running(held: Held)
    | Finishing                    // about to lower num_threads_working

  datatype ProducerPc =
    | Away
    | Pushing(job: Job)            // holds rwmutex, queue not touched
    | Posting                      // len is updated, bsem_post is pending
    | Posted                       // still holds rwmutex

  datatype WaiterPc =
    | Outside
    | Entering                     // thpool_wait was called, lock not held
    | AtLen                        // holds thcount_lock, about to read len
    | AtWorking                    // read len == 0, about to read num_threads_working
    | Deciding                     // one of the two reads was non-zero
    | Blocked
    | Woken
    | Leaving                      // both reads were zero

  /** `began`: how many jobs had been added when the wait began; `seen`: when len read 0. */
  datatype Waiter = Waiter(pc: WaiterPc, began: nat, seen: nat)

  datatype State = State(
    workers: map<nat, WorkerPc>,
    producers: map<nat, ProducerPc>,
    waiters: map<nat, Waiter>,
    queue: seq<Job>,
    sem: nat,
    working: int,
    rwmutex: Owner,
    thcount: Option<nat>,
    added: seq<Job>,
    pulled: nat,
    ran: seq<Held>)

  datatype Step =
    | SemCheck(w: nat)
    | SemSpurious(w: nat)
    | CountIn(w: nat)
    | LockQueue(w: nat)
    | Pull(w: nat)
    | Repost(w: nat, wake: Option<nat>)
    | UnlockQueue(w: nat)
    | Run(w: nat)
    | CountOut(w: nat, wake: Option<nat>)
    | LockAdd(p: nat, job: Job)
    | Push(p: nat)
    | Post(p: nat, wake: Option<nat>)
    | UnlockAdd(p: nat)
    | CallWait(u: nat)
    | LockWait(u: nat)
    | ReadLen(u: nat)
    | ReadWorking(u: nat)
    | Block(u: nat)
    | WaitSpurious(u: nat)
    | ReturnWait(u: nat)

  // ---------------------------------------------------------------- transitions

  function SetWorker(s: State, w: nat, pc: WorkerPc): State {
    s.(workers := s.workers[w := pc])
  }

  function SetProducer(s: State, p: nat, pc: ProducerPc): State {
    s.(producers := s.producers[p := pc])
  }

  function SetWaiter(s: State, u: nat, pc: WaiterPc): State
    requires u in s.waiters
  {
    s.(waiters := s.waiters[u := s.waiters[u].(pc := pc)])
  }

  /** `wake` is a thread pthread_cond_signal may pick: a blocked one if there is any. */
  predicate MayWakeWorker(s: State, wake: Option<nat>) {
    match wake
    case Some(w) => w in s.workers && s.workers[w].SemBlocked?
    case None => forall w <- s.workers :: !s.workers[w].SemBlocked?
  }

  predicate MayWakeWaiter(s: State, wake: Option<nat>) {
    match wake
    case Some(u) => u in s.waiters && s.waiters[u].pc.Blocked?
    case None => forall u <- s.waiters :: !s.waiters[u].pc.Blocked?
  }

  /** bsem_post: the flag is set whether or not it was set already. */
  function SemPost(s: State, wake: Option<nat>): State
    requires MayWakeWorker(s, wake)
  {
    var s1 := s.(sem := 1);
    if wake.Some? then SetWorker(s1, wake.value, SemWoken) else s1
  }

  /** The critical section of bsem_wait: take the token or fall asleep. */
  function SemTake(s: State, w: nat): State {
    if s.sem == 1 then SetWorker(s.(sem := 0), w, HasToken)
    else SetWorker(s, w, SemBlocked)
  }

  /** jobqueue_pull up to the point where another post may be needed. */
  function PullJob(s: State, w: nat): State {
    if s.queue == [] then SetWorker(s, w, Pulled(None))
    else
      var held := Held(s.pulled, s.queue[0]);
      var s1 := s.(queue := s.queue[1..], pulled := s.pulled + 1);
      SetWorker(s1, w, if |s.queue| == 1 then Pulled(Some(held)) else Reposting(held))
  }

  function Leave(s: State, w: nat, wake: Option<nat>): State
    requires MayWakeWaiter(s, wake)
  {
    var s1 := SetWorker(s, w, AtSem).(working := s.working - 1);
    if s1.working == 0 && wake.Some? then SetWaiter(s1, wake.value, Woken) else s1
  }

  function WorkerNext(s: State, w: nat, step: Step): Option<State>
    requires w in s.workers
  {
    var pc := s.workers[w];
    match step
    case SemCheck(_) => if pc.AtSem? || pc.SemWoken? then Some(SemTake(s, w)) else None
    case SemSpurious(_) => if pc.SemBlocked? then Some(SetWorker(s, w, SemWoken)) else None
    case CountIn(_) =>
      if pc.HasToken? && s.thcount.None? then
        Some(SetWorker(s, w, Counted).(working := s.working + 1))
      else None
    case LockQueue(_) =>
      if pc.Counted? && s.rwmutex.Free? then
        Some(SetWorker(s, w, Pulling).(rwmutex := ByWorker(w)))
      else None
    case Pull(_) => if pc.Pulling? then Some(PullJob(s, w)) else None
    case Repost(_, wake) =>
      if pc.Reposting? && MayWakeWorker(s, wake) then
        Some(SetWorker(SemPost(s, wake), w, Pulled(Some(pc.held))))
      else None
    case UnlockQueue(_) =>
      if pc.Pulled? then
        Some(SetWorker(s, w, if pc.got.Some? then Running(pc.got.value) else Finishing)
             .(rwmutex := Free))
      else None
    case Run(_) =>
      if pc.Running? then Some(SetWorker(s, w, Finishing).(ran := s.ran + [pc.held])) else None
    case CountOut(_, wake) =>
      if pc.Finishing? && s.thcount.None? && MayWakeWaiter(s, wake) then Some(Leave(s, w, wake))
      else None
    case _ => None
  }

  function ProducerNext(s: State, p: nat, step: Step): Option<State>
    requires p in s.producers
  {
    var pc := s.producers[p];
    match step
    case LockAdd(_, job) =>
      if pc.Away? && s.rwmutex.Free? then
        Some(SetProducer(s, p, Pushing(job)).(rwmutex := ByProducer(p)))
      else None
    case Push(_) =>
      if pc.Pushing? then
        Some(SetProducer(s, p, Posting).(queue := s.queue + [pc.job], added := s.added + [pc.job]))
      else None
    case Post(_, wake) =>
      if pc.Posting? && MayWakeWorker(s, wake) then
        Some(SetProducer(SemPost(s, wake), p, Posted))
      else None
    case UnlockAdd(_) =>
      if pc.Posted? then Some(SetProducer(s, p, Away).(rwmutex := Free)) else None
    case _ => None
  }

  function WaiterNext(s: State, u: nat, step: Step): Option<State>
    requires u in s.waiters
  {
    var pc := s.waiters[u].pc;
    match step
    case CallWait(_) =>
      if pc.Outside? then
        Some(s.(waiters := s.waiters[u := Waiter(Entering, |s.added|, 0)]))
      else None
    case LockWait(_) =>
      if (pc.Entering? || pc.Woken?) && s.thcount.None? then
        Some(SetWaiter(s, u, AtLen).(thcount := Some(u)))
      else None
    case ReadLen(_) =>
      if !pc.AtLen? then None
      else if |s.queue| != 0 then Some(SetWaiter(s, u, Deciding))
      else Some(s.(waiters := s.waiters[u := Waiter(AtWorking, s.waiters[u].began, |s.added|)]))
    case ReadWorking(_) =>
      if pc.AtWorking? then Some(SetWaiter(s, u, if s.working != 0 then Deciding else Leaving))
      else None
    case Block(_) =>
      if pc.Deciding? then Some(SetWaiter(s, u, Blocked).(thcount := None)) else None
    case WaitSpurious(_) => if pc.Blocked? then Some(SetWaiter(s, u, Woken)) else None
    case ReturnWait(_) =>
      if pc.Leaving? then Some(SetWaiter(s, u, Outside).(thcount := None)) else None
    case _ => None
  }

  predicate IsWorkerStep(step: Step) {
    step.SemCheck? || step.SemSpurious? || step.CountIn? || step.LockQueue? || step.Pull? ||
    step.Repost? || step.UnlockQueue? || step.Run? || step.CountOut?
  }

  predicate IsProducerStep(step: Step) {
    step.LockAdd? || step.Push? || step.Post? || step.UnlockAdd?
  }

  /** One step of the pool; None when the step is not enabled. */
  function Next(s: State, step: Step): Option<State> {
    if IsWorkerStep(step) then
      if step.w in s.workers then WorkerNext(s, step.w, step) else None
    else if IsProducerStep(step) then
      if step.p in s.producers then ProducerNext(s, step.p, step) else None
    else
      if step.u in s.waiters then WaiterNext(s, step.u, step) else None
  }

  function Init(workers: set<nat>, producers: set<nat>, waiters: set<nat>): State {
    State(map w | w in workers :: AtSem, map p | p in producers :: Away,
          map u | u in waiters :: Waiter(Outside, 0, 0),
          [], 0, 0, Free, None, [], 0, [])
  }

  /** The state after a run, None when some step of it was not enabled. */
  function Exec(s: State, run: seq<Step>): Option<State> {
    if run == [] then Some(s)
    else
      var before := Exec(s, run[..|run| - 1]);
      if before.None? then None else Next(before.value, run[|run| - 1])
  }

  ghost predicate Reachable(workers: set<nat>, producers: set<nat>, waiters: set<nat>, s: State) {
    exists run: seq<Step> :: Exec(Init(workers, producers, waiters), run) == Some(s)
  }

  // ---------------------------------------------------------------- the invariant

  predicate InCount(pc: WorkerPc) {
    pc.Counted? || pc.Pulling? || pc.Reposting? || pc.Pulled? || pc.Running? || pc.Finishing?
  }

  function HandOf(pc: WorkerPc): Option<Held> {
    match pc
    case Reposting(held) => Some(held)
    case Pulled(got) => got
    case Running(held) => Some(held)
    case _ => None
  }

  function WorkingSet(workers: map<nat, WorkerPc>): set<nat> {
    set w | w in workers && InCount(workers[w])
  }

  /** num_threads_working counts exactly the workers between the two counter updates. */
  ghost predicate CountExact(s: State) {
    s.working == |WorkingSet(s.workers)|
  }

  /** Pull order is push order. */
  ghost predicate QueueIsRest(s: State) {
    s.pulled <= |s.added| && s.queue == s.added[s.pulled..]
  }

  /** What was pulled, with the function and argument that were pushed. */
  ghost predicate Genuine(s: State, h: Held) {
    h.ticket < s.pulled && h.ticket < |s.added| && h.job == s.added[h.ticket]
  }

  ghost predicate HasRun(s: State, t: nat) {
    exists i :: 0 <= i < |s.ran| && s.ran[i].ticket == t
  }

  /** The workers with a job in hand. */
  function Hands(workers: map<nat, WorkerPc>): set<nat> {
    set w | w in workers && HandOf(workers[w]).Some?
  }

  ghost predicate Conserved(s: State) {
    |s.added| == |s.queue| + |Hands(s.workers)| + |s.ran|
  }

  predicate HoldsTicket(pc: WorkerPc, t: nat) {
    HandOf(pc).Some? && HandOf(pc).value.ticket == t
  }

  ghost predicate InHand(s: State, t: nat) {
    exists w :: w in s.workers && HoldsTicket(s.workers[w], t)
  }

  ghost predicate HandsGenuine(s: State) {
    && (forall w | w in s.workers && HandOf(s.workers[w]).Some? ::
          Genuine(s, HandOf(s.workers[w]).value))
    && (forall i | 0 <= i < |s.ran| :: Genuine(s, s.ran[i]))
  }

  /** No ticket is in two places. */
  ghost predicate NoDuplicates(s: State) {
    && (forall w, v, t | w in s.workers && v in s.workers &&
          HoldsTicket(s.workers[w], t) && HoldsTicket(s.workers[v], t) :: w == v)
    && (forall i, j | 0 <= i < j < |s.ran| :: s.ran[i].ticket != s.ran[j].ticket)
    && (forall i, w | 0 <= i < |s.ran| && w in s.workers ::
          !HoldsTicket(s.workers[w], s.ran[i].ticket))
  }

  /** No ticket is lost. */
  ghost predicate NoLoss(s: State) {
    forall t | 0 <= t < s.pulled :: HasRun(s, t) || InHand(s, t)
  }

  ghost predicate QueueLockExact(s: State) {
    && (forall w | w in s.workers ::
          (s.workers[w].Pulling? || s.workers[w].Reposting? || s.workers[w].Pulled?) <==>
          s.rwmutex == ByWorker(w))
    && (forall p | p in s.producers :: !s.producers[p].Away? <==> s.rwmutex == ByProducer(p))
    && (s.rwmutex.ByWorker? ==> s.rwmutex.worker in s.workers)
    && (s.rwmutex.ByProducer? ==> s.rwmutex.producer in s.producers)
  }

  ghost predicate CountLockExact(s: State) {
    && (forall u | u in s.waiters ::
          (var pc := s.waiters[u].pc; pc.AtLen? || pc.AtWorking? || pc.Deciding? || pc.Leaving?)
          <==> s.thcount == Some(u))
    && (s.thcount.Some? ==> s.thcount.value in s.waiters)
  }

  /** A worker took the token and has not pulled yet. */
  ghost predicate TokenHeld(s: State) {
    exists w :: w in s.workers &&
      (s.workers[w].HasToken? || s.workers[w].Counted? || s.workers[w].Pulling?)
  }

  /** A bsem_post is due from a thread that holds rwmutex. */
  ghost predicate PostDue(s: State) {
    || (exists w :: w in s.workers && s.workers[w].Reposting?)
    || (exists p :: p in s.producers && s.producers[p].Posting?)
  }

  ghost predicate TokenCovered(s: State) {
    s.sem <= 1 && (s.queue != [] ==> s.sem == 1 || TokenHeld(s) || PostDue(s))
  }

  /** No worker sleeps on a token that nobody is on the way to. */
  ghost predicate SleepersCovered(s: State) {
    s.sem == 1 && (exists w :: w in s.workers && s.workers[w].SemBlocked?) ==>
      exists w :: w in s.workers && s.workers[w].SemWoken?
  }

  /** What a waiter has learned by the time it stands at each point of thpool_wait. */
  ghost predicate WaiterKnows(s: State, x: Waiter) {
    && x.began <= |s.added|
    && (x.pc.AtWorking? ==> x.began <= x.seen <= s.pulled)
    && (x.pc.Leaving? ==> x.began <= x.seen && forall t | 0 <= t < x.seen :: HasRun(s, t))
  }

  ghost predicate WaitersKnow(s: State) {
    forall u | u in s.waiters :: WaiterKnows(s, s.waiters[u])
  }

  ghost predicate Inv(s: State) {
    CountExact(s) && Conserved(s) && QueueIsRest(s) && HandsGenuine(s) && NoDuplicates(s) && NoLoss(s) &&
    QueueLockExact(s) && CountLockExact(s) && TokenCovered(s) && SleepersCovered(s) &&
    WaitersKnow(s)
  }

  // ---------------------------------------------------------------- preservation

  lemma CountUpdate(m: map<nat, WorkerPc>, w: nat, pc: WorkerPc)
    requires w in m
    ensures InCount(m[w]) == InCount(pc) ==> |WorkingSet(m[w := pc])| == |WorkingSet(m)|
    ensures !InCount(m[w]) && InCount(pc) ==> |WorkingSet(m[w := pc])| == |WorkingSet(m)| + 1
    ensures InCount(m[w]) && !InCount(pc) ==> |WorkingSet(m[w := pc])| == |WorkingSet(m)| - 1
  {
    var after := WorkingSet(m[w := pc]);
    if InCount(pc) {
      assert after == WorkingSet(m) + {w};
    } else {
      assert after == WorkingSet(m) - {w};
    }
  }

  lemma WakeKeepsCount(s: State, wake: Option<nat>)
    requires MayWakeWorker(s, wake)
    ensures |WorkingSet(SemPost(s, wake).workers)| == |WorkingSet(s.workers)|
  {
    if wake.Some? { CountUpdate(s.workers, wake.value, SemWoken); }
  }

  lemma CountExactStep(s: State, step: Step)
    requires CountExact(s) && Next(s, step).Some?
    ensures CountExact(Next(s, step).value)
  {
    var s' := Next(s, step).value;
    if IsWorkerStep(step) {
      var w := step.w;
      if step.Repost? {
        WakeKeepsCount(s, step.wake);
        CountUpdate(SemPost(s, step.wake).workers, w, s'.workers[w]);
      } else {
        CountUpdate(s.workers, w, s'.workers[w]);
      }
    } else if step.Post? {
      WakeKeepsCount(s, step.wake);
    }
  }

  lemma QueueStep(s: State, step: Step)
    requires QueueIsRest(s) && Next(s, step).Some?
    ensures QueueIsRest(Next(s, step).value)
  {
  }

  /** How a step moves jobs: one pull, one run, or nothing; other hands keep theirs. */
  ghost predicate JobsMove(s: State, step: Step, s': State) {
    && s'.workers.Keys == s.workers.Keys
    && s.added <= s'.added
    && (forall v | v in s.workers && !(step.Pull? && step.w == v) && !(step.Run? && step.w == v) ::
          HandOf(s'.workers[v]) == HandOf(s.workers[v]))
    && (step.Pull? ==> step.w in s.workers && HandOf(s.workers[step.w]).None? && s'.ran == s.ran)
    && (step.Pull? && s.queue == [] ==>
          HandOf(s'.workers[step.w]).None? && s'.pulled == s.pulled)
    && (step.Pull? && s.queue != [] ==>
          HandOf(s'.workers[step.w]) == Some(Held(s.pulled, s.queue[0])) &&
          s'.pulled == s.pulled + 1)
    && (step.Run? ==>
          step.w in s.workers && HandOf(s.workers[step.w]).Some? &&
          HandOf(s'.workers[step.w]).None? &&
          s'.ran == s.ran + [HandOf(s.workers[step.w]).value])
    && (!step.Pull? ==> s'.pulled == s.pulled)
    && (!step.Run? ==> s'.ran == s.ran)
  }

  lemma WorkerJobsMove(s: State, step: Step)
    requires Next(s, step).Some? && IsWorkerStep(step)
    ensures JobsMove(s, step, Next(s, step).value)
  {
    hide Next, JobsMove;
    if step.Repost? {
      RepostJobsMove(s, step);
    } else if step.Pull? {
      PullJobsMove(s, step);
    } else {
      HandKeptMove(s, step);
    }
  }

  lemma PullJobsMove(s: State, step: Step)
    requires Next(s, step).Some? && step.Pull?
    ensures JobsMove(s, step, Next(s, step).value)
  {
    assert Next(s, step).value == PullJob(s, step.w);
  }

  lemma HandKeptMove(s: State, step: Step)
    requires Next(s, step).Some? && IsWorkerStep(step) && !step.Repost? && !step.Pull?
    ensures JobsMove(s, step, Next(s, step).value)
  {
  }

  lemma RepostJobsMove(s: State, step: Step)
    requires Next(s, step).Some? && step.Repost?
    ensures JobsMove(s, step, Next(s, step).value)
  {
  }

  lemma OtherJobsMove(s: State, step: Step)
    requires Next(s, step).Some? && !IsWorkerStep(step)
    ensures JobsMove(s, step, Next(s, step).value)
  {
  }

  lemma GenuineStep(s: State, step: Step, s': State)
    requires QueueIsRest(s) && HandsGenuine(s) && JobsMove(s, step, s')
    ensures HandsGenuine(s')
  {
  }

  /** A ticket in a hand was there before the step, or it was just pulled. */
  lemma HandBefore(s: State, step: Step, s': State, w: nat, t: nat)
    requires JobsMove(s, step, s') && w in s'.workers && HoldsTicket(s'.workers[w], t)
    ensures HoldsTicket(s.workers[w], t) || (step == Pull(w) && t == s.pulled)
    ensures step != Run(w)
  {
  }

  lemma NoDuplicatesStep(s: State, step: Step, s': State)
    requires HandsGenuine(s) && NoDuplicates(s) && JobsMove(s, step, s')
    ensures NoDuplicates(s')
  {
    forall w, v, t | w in s'.workers && v in s'.workers &&
      HoldsTicket(s'.workers[w], t) && HoldsTicket(s'.workers[v], t)
      ensures w == v
    {
      HandBefore(s, step, s', w, t);
      HandBefore(s, step, s', v, t);
    }
    forall i, w | 0 <= i < |s'.ran| && w in s'.workers
      ensures !HoldsTicket(s'.workers[w], s'.ran[i].ticket)
    {
      if HoldsTicket(s'.workers[w], s'.ran[i].ticket) {
        HandBefore(s, step, s', w, s'.ran[i].ticket);
        assert i == |s.ran| ==> HoldsTicket(s.workers[step.w], s'.ran[i].ticket);
      }
    }
    RunsDistinct(s, step, s');
  }

  lemma RunsDistinct(s: State, step: Step, s': State)
    requires HandsGenuine(s) && NoDuplicates(s) && JobsMove(s, step, s')
    ensures forall i, j | 0 <= i < j < |s'.ran| :: s'.ran[i].ticket != s'.ran[j].ticket
  {
    if step.Run? {
      var h := HandOf(s.workers[step.w]).value;
      assert HoldsTicket(s.workers[step.w], h.ticket);
      forall i | 0 <= i < |s.ran| ensures s.ran[i].ticket != h.ticket {
      }
    }
  }

  lemma NoLossStep(s: State, step: Step, s': State)
    requires NoLoss(s) && JobsMove(s, step, s')
    ensures NoLoss(s')
  {
    forall t | 0 <= t < s'.pulled
      ensures HasRun(s', t) || InHand(s', t)
    {
      if t == s.pulled {
        assert HoldsTicket(s'.workers[step.w], t);
      } else if HasRun(s, t) {
        RunsKept(s, step, s', t);
      } else {
        var w :| w in s.workers && HoldsTicket(s.workers[w], t);
        if step == Run(w) {
          assert s'.ran[|s.ran|].ticket == t;
        } else {
          assert HoldsTicket(s'.workers[w], t);
        }
      }
    }
  }

  lemma RunsKept(s: State, step: Step, s': State, t: nat)
    requires HasRun(s, t) && JobsMove(s, step, s')
    ensures HasRun(s', t)
  {
    var i :| 0 <= i < |s.ran| && s.ran[i].ticket == t;
    assert s'.ran[i].ticket == t;
  }

  lemma HandsUpdate(m: map<nat, WorkerPc>, m': map<nat, WorkerPc>, w: nat)
    requires m.Keys == m'.Keys && w in m
    requires forall v | v in m && v != w :: HandOf(m'[v]) == HandOf(m[v])
    ensures HandOf(m[w]).Some? == HandOf(m'[w]).Some? ==> |Hands(m')| == |Hands(m)|
    ensures HandOf(m[w]).None? && HandOf(m'[w]).Some? ==> |Hands(m')| == |Hands(m)| + 1
    ensures HandOf(m[w]).Some? && HandOf(m'[w]).None? ==> |Hands(m')| == |Hands(m)| - 1
  {
    if HandOf(m'[w]).Some? {
      assert Hands(m') == Hands(m) + {w};
    } else {
      assert Hands(m') == Hands(m) - {w};
    }
  }

  lemma ConservedStep(s: State, step: Step, s': State)
    requires Conserved(s) && QueueIsRest(s) && QueueIsRest(s') && JobsMove(s, step, s')
    requires step.Pull? || step.Run? ==> s'.added == s.added
    ensures Conserved(s')
  {
    if step.Pull? || step.Run? {
      HandsUpdate(s.workers, s'.workers, step.w);
    } else {
      assert Hands(s'.workers) == Hands(s.workers);
    }
  }

  lemma QueueLockStep(s: State, step: Step)
    requires QueueLockExact(s) && Next(s, step).Some?
    ensures QueueLockExact(Next(s, step).value)
  {
    if IsWorkerStep(step) { QueueLockWorkerStep(s, step); }
  }

  lemma QueueLockWorkerStep(s: State, step: Step)
    requires QueueLockExact(s) && Next(s, step).Some? && IsWorkerStep(step)
    ensures QueueLockExact(Next(s, step).value)
  {
    if step.Repost? || step.CountOut? || step.Pull? {
      assert Next(s, step).value.rwmutex == s.rwmutex;
    }
  }

  lemma CountLockStep(s: State, step: Step)
    requires CountLockExact(s) && Next(s, step).Some?
    ensures CountLockExact(Next(s, step).value)
  {
    hide Next, CountLockExact;
    if IsWorkerStep(step) {
      CountLockWorkerStep(s, step);
    } else if IsProducerStep(step) {
      CountLockProducerStep(s, step);
    } else {
      CountLockWaiterStep(s, step);
    }
  }

  lemma CountLockWorkerStep(s: State, step: Step)
    requires CountLockExact(s) && Next(s, step).Some? && IsWorkerStep(step)
    ensures CountLockExact(Next(s, step).value)
  {
  }

  lemma CountLockProducerStep(s: State, step: Step)
    requires CountLockExact(s) && Next(s, step).Some? && IsProducerStep(step)
    ensures CountLockExact(Next(s, step).value)
  {
  }

  lemma CountLockWaiterStep(s: State, step: Step)
    requires CountLockExact(s) && Next(s, step).Some? && !IsWorkerStep(step) && !IsProducerStep(step)
    ensures CountLockExact(Next(s, step).value)
  {
  }

  predicate WantsToPull(pc: WorkerPc) {
    pc.HasToken? || pc.Counted? || pc.Pulling?
  }

  lemma TokenKept(s: State, step: Step, v: nat)
    requires Next(s, step).Some? && v in s.workers && WantsToPull(s.workers[v]) && step != Pull(v)
    ensures var s' := Next(s, step).value; v in s'.workers && WantsToPull(s'.workers[v])
  {
  }

  lemma RepostKept(s: State, step: Step, v: nat)
    requires Next(s, step).Some? && v in s.workers && s.workers[v].Reposting?
    ensures var s' := Next(s, step).value;
            v in s'.workers && (s'.workers[v].Reposting? || s'.sem == 1)
  {
  }

  lemma PostKept(s: State, step: Step, p: nat)
    requires Next(s, step).Some? && p in s.producers && s.producers[p].Posting?
    ensures var s' := Next(s, step).value;
            p in s'.producers && (s'.producers[p].Posting? || s'.sem == 1)
  {
  }

  lemma TokenCoveredStep(s: State, step: Step)
    requires TokenCovered(s) && Next(s, step).Some?
    ensures TokenCovered(Next(s, step).value)
  {
    var s' := Next(s, step).value;
    if step.Pull? {
      assert s'.queue != [] ==> s'.workers[step.w].Reposting?;
    } else if step.Push? {
      assert s'.producers[step.p].Posting?;
    } else if s.queue != [] {
      TokenCoveredKept(s, step);
    }
  }

  lemma TokenCoveredKept(s: State, step: Step)
    requires TokenCovered(s) && s.queue != [] && Next(s, step).Some? && !step.Pull?
    ensures var s' := Next(s, step).value;
            s'.sem <= 1 && (s'.sem == 1 || TokenHeld(s') || PostDue(s'))
  {
    var s' := Next(s, step).value;
    if s.sem == 1 {
      assert s'.sem == 1 || s'.workers[step.w].HasToken?;
    } else if TokenHeld(s) {
      var v :| v in s.workers && WantsToPull(s.workers[v]);
      TokenKept(s, step, v);
    } else if v :| v in s.workers && s.workers[v].Reposting? {
      RepostKept(s, step, v);
    } else {
      var p :| p in s.producers && s.producers[p].Posting?;
      PostKept(s, step, p);
    }
  }

  lemma SleepersStep(s: State, step: Step)
    requires TokenCovered(s) && SleepersCovered(s) && Next(s, step).Some?
    ensures SleepersCovered(Next(s, step).value)
  {
    var s' := Next(s, step).value;
    if w :| w in s'.workers && s'.workers[w].SemBlocked? && s'.sem == 1 {
      if step.Repost? || step.Post? {
        PostWakes(s, step, w);
      } else {
        assert step.SemCheck? ==> s'.sem == 0;
        SleeperBefore(s, step, w);
        var v :| v in s.workers && s.workers[v].SemWoken?;
        WokenKept(s, step, v);
      }
    }
  }

  lemma SleeperBefore(s: State, step: Step, w: nat)
    requires Next(s, step).Some? && !step.SemCheck?
    requires w in Next(s, step).value.workers && Next(s, step).value.workers[w].SemBlocked?
    ensures w in s.workers && s.workers[w].SemBlocked?
  {
  }

  lemma WokenKept(s: State, step: Step, v: nat)
    requires Next(s, step).Some? && !step.SemCheck? && v in s.workers && s.workers[v].SemWoken?
    ensures var s' := Next(s, step).value; v in s'.workers && s'.workers[v].SemWoken?
  {
  }

  lemma PostWakes(s: State, step: Step, w: nat)
    requires Next(s, step).Some? && (step.Repost? || step.Post?)
    requires w in Next(s, step).value.workers && Next(s, step).value.workers[w].SemBlocked?
    ensures var s' := Next(s, step).value;
            step.wake.Some? && step.wake.value in s'.workers && s'.workers[step.wake.value].SemWoken?
  {
    SleeperBefore(s, step, w);
  }

  // ---------------------------------------------------------------- waiters

  lemma AllRunWhenIdle(s: State, t: nat)
    requires CountExact(s) && NoLoss(s) && s.working == 0 && t < s.pulled
    ensures HasRun(s, t)
  {
    assert WorkingSet(s.workers) == {};
    assert forall w | w in s.workers :: w !in WorkingSet(s.workers);
  }

  /** A waiter's own step keeps what it has to know at the next point. */
  lemma OwnWaitStep(s: State, step: Step)
    requires Inv(s) && Next(s, step).Some? && !IsWorkerStep(step) && !IsProducerStep(step)
    ensures var s' := Next(s, step).value;
            step.u in s'.waiters && WaiterKnows(s', s'.waiters[step.u])
  {
    assert WaiterKnows(s, s.waiters[step.u]);
    if step.ReadWorking? && s.working == 0 {
      forall t | 0 <= t < s.waiters[step.u].seen ensures HasRun(Next(s, step).value, t) {
        AllRunWhenIdle(s, t);
        var i :| 0 <= i < |s.ran| && s.ran[i].ticket == t;
        assert Next(s, step).value.ran[i].ticket == t;
      }
    } else {
      OtherJobsMove(s, step);
      forall t | HasRun(s, t) ensures HasRun(Next(s, step).value, t) {
        RunsKept(s, step, Next(s, step).value, t);
      }
    }
  }

  /** Steps of other threads change at most whether a waiter sleeps. */
  lemma WaiterAfterOthers(s: State, step: Step, u: nat)
    requires Next(s, step).Some? && u in s.waiters
    requires IsWorkerStep(step) || IsProducerStep(step) || step.u != u
    ensures var s' := Next(s, step).value;
            u in s'.waiters &&
            (s'.waiters[u] == s.waiters[u] ||
             (s.waiters[u].pc.Blocked? && s'.waiters[u] == s.waiters[u].(pc := Woken)))
  {
  }

  lemma KnowledgeKept(s: State, step: Step, x: Waiter)
    requires Next(s, step).Some? && JobsMove(s, step, Next(s, step).value) && WaiterKnows(s, x)
    ensures WaiterKnows(Next(s, step).value, x)
  {
    var s' := Next(s, step).value;
    if x.pc.Leaving? {
      forall t | 0 <= t < x.seen ensures HasRun(s', t) {
        RunsKept(s, step, s', t);
      }
    }
  }

  lemma WaitersStep(s: State, step: Step)
    requires Inv(s) && Next(s, step).Some? && JobsMove(s, step, Next(s, step).value)
    ensures WaitersKnow(Next(s, step).value)
  {
    var s' := Next(s, step).value;
    WaitersSame(s, step);
    forall u | u in s'.waiters ensures WaiterKnows(s', s'.waiters[u]) {
      if !IsWorkerStep(step) && !IsProducerStep(step) && step.u == u {
        OwnWaitStep(s, step);
      } else {
        WaiterAfterOthers(s, step, u);
        KnowledgeKept(s, step, s.waiters[u]);
      }
    }
  }

  lemma WaitersSame(s: State, step: Step)
    requires Next(s, step).Some?
    ensures Next(s, step).value.waiters.Keys == s.waiters.Keys
    ensures Next(s, step).value.workers.Keys == s.workers.Keys
    ensures Next(s, step).value.producers.Keys == s.producers.Keys
  {
    if IsWorkerStep(step) {
      WorkerStepSame(s, step);
    }
  }

  lemma WorkerStepSame(s: State, step: Step)
    requires Next(s, step).Some? && IsWorkerStep(step)
    ensures Next(s, step).value.waiters.Keys == s.waiters.Keys
    ensures Next(s, step).value.workers.Keys == s.workers.Keys
    ensures Next(s, step).value.producers == s.producers
  {
  }

  lemma InvStep(s: State, step: Step)
    requires Inv(s) && Next(s, step).Some?
    ensures Inv(Next(s, step).value)
  {
    var s' := Next(s, step).value;
    if IsWorkerStep(step) { WorkerJobsMove(s, step); } else { OtherJobsMove(s, step); }
    CountExactStep(s, step);
    QueueStep(s, step);
    ConservedStep(s, step, s');
    GenuineStep(s, step, s');
    NoDuplicatesStep(s, step, s');
    NoLossStep(s, step, s');
    QueueLockStep(s, step);
    CountLockStep(s, step);
    TokenCoveredStep(s, step);
    SleepersStep(s, step);
    WaitersStep(s, step);
  }

  lemma {:induction false} InvRun(workers: set<nat>, producers: set<nat>, waiters: set<nat>,
                                  run: seq<Step>)
    ensures var r := Exec(Init(workers, producers, waiters), run);
            r.Some? ==> Inv(r.value)
  {
    var s0 := Init(workers, producers, waiters);
    if run == [] {
      assert WorkingSet(s0.workers) == {} && Hands(s0.workers) == {};
    } else {
      InvRun(workers, producers, waiters, run[..|run| - 1]);
      var before := Exec(s0, run[..|run| - 1]);
      if before.Some? && Next(before.value, run[|run| - 1]).Some? {
        InvStep(before.value, run[|run| - 1]);
      }
    }
  }

  lemma ReachableInv(workers: set<nat>, producers: set<nat>, waiters: set<nat>, s: State)
    requires Reachable(workers, producers, waiters, s)
    ensures Inv(s)
    ensures s.workers.Keys == workers && s.producers.Keys == producers && s.waiters.Keys == waiters
  {
    var run: seq<Step> :| Exec(Init(workers, producers, waiters), run) == Some(s);
    InvRun(workers, producers, waiters, run);
    SameThreads(workers, producers, waiters, run);
  }

  lemma {:induction false} SameThreads(workers: set<nat>, producers: set<nat>, waiters: set<nat>,
                                       run: seq<Step>)
    ensures var r := Exec(Init(workers, producers, waiters), run);
            r.Some? ==> r.value.workers.Keys == workers && r.value.producers.Keys == producers &&
                        r.value.waiters.Keys == waiters
  {
    if run != [] {
      SameThreads(workers, producers, waiters, run[..|run| - 1]);
      var before := Exec(Init(workers, producers, waiters), run[..|run| - 1]);
      if before.Some? && Next(before.value, run[|run| - 1]).Some? {
        WaitersSame(before.value, run[|run| - 1]);
      }
    }
  }

  // ---------------------------------------------------------------- main results

  /** Every added job is queued, in one hand, or has run once, and is the job that was pushed. */
  lemma NothingLostOrRunTwice(workers: set<nat>, producers: set<nat>, waiters: set<nat>, s: State)
    requires Reachable(workers, producers, waiters, s)
    ensures |s.added| == |s.queue| + |Hands(s.workers)| + |s.ran|
    ensures s.pulled <= |s.added| && s.queue == s.added[s.pulled..]
    ensures forall t | 0 <= t < s.pulled :: HasRun(s, t) != InHand(s, t)
    ensures forall t | s.pulled <= t < |s.added| :: !HasRun(s, t) && !InHand(s, t)
    ensures forall i, j | 0 <= i < j < |s.ran| :: s.ran[i].ticket != s.ran[j].ticket
    ensures forall i | 0 <= i < |s.ran| ::
              s.ran[i].ticket < |s.added| && s.ran[i].job == s.added[s.ran[i].ticket]
    ensures forall w, v, t | w in s.workers && v in s.workers &&
              HoldsTicket(s.workers[w], t) && HoldsTicket(s.workers[v], t) :: w == v
  {
    ReachableInv(workers, producers, waiters, s);
    forall t | 0 <= t < s.pulled && HasRun(s, t) ensures !InHand(s, t) {
      var i :| 0 <= i < |s.ran| && s.ran[i].ticket == t;
    }
    forall t | s.pulled <= t < |s.added| ensures !HasRun(s, t) && !InHand(s, t) {
      assert forall w | w in s.workers && HandOf(s.workers[w]).Some? ::
          Genuine(s, HandOf(s.workers[w]).value);
    }
  }

  /** With the queue unlocked, waiting jobs are covered by the flag or by a worker on its way. */
  lemma QueuedJobsAreCovered(workers: set<nat>, producers: set<nat>, waiters: set<nat>, s: State)
    requires Reachable(workers, producers, waiters, s)
    requires s.rwmutex.Free? && s.queue != []
    ensures s.sem == 1 || exists w :: w in s.workers && (s.workers[w].HasToken? || s.workers[w].Counted?)
  {
    ReachableInv(workers, producers, waiters, s);
    if s.sem != 1 {
      var w :| w in s.workers && WantsToPull(s.workers[w]);
      assert s.workers[w].Pulling? ==> s.rwmutex == ByWorker(w);
    }
  }

  lemma {:induction false} ExecAppend(s: State, a: seq<Step>, b: seq<Step>)
    ensures Exec(s, a + b) == (var m := Exec(s, a); if m.None? then None else Exec(m.value, b))
  {
    if b == [] {
      assert a + b == a;
    } else {
      ExecAppend(s, a, b[..|b| - 1]);
      assert (a + b)[..|a + b| - 1] == a + b[..|b| - 1];
    }
  }

  /** Until thpool_wait is called again, a waiter remembers when it began. */
  lemma {:induction false} BeganFixed(s: State, u: nat, run: seq<Step>)
    requires u in s.waiters && Exec(s, run).Some? && CallWait(u) !in run
    ensures var e := Exec(s, run).value; u in e.waiters && e.waiters[u].began == s.waiters[u].began
  {
    if run != [] {
      var front, last := run[..|run| - 1], run[|run| - 1];
      BeganFixed(s, u, front);
      var m := Exec(s, front).value;
      if IsWorkerStep(last) || IsProducerStep(last) || last.u != u {
        WaiterAfterOthers(m, last, u);
      } else {
        assert last != CallWait(u);
      }
    }
  }

  /**
   thpool_wait keeps its promise: take any run in which thread `u` calls it and later returns.
   Every job added before the call has been run by the time of the return.
   */
  lemma WaitReturnsWhenDone(workers: set<nat>, producers: set<nat>, waiters: set<nat>, u: nat,
                            before: seq<Step>, during: seq<Step>, called: State, returned: State)
    requires CallWait(u) !in during
    requires Exec(Init(workers, producers, waiters), before) == Some(called)
    requires Exec(Init(workers, producers, waiters),
                  before + [CallWait(u)] + during + [ReturnWait(u)]) == Some(returned)
    ensures forall t | 0 <= t < |called.added| :: HasRun(returned, t)
  {
    var s0 := Init(workers, producers, waiters);
    var run := before + [CallWait(u)] + during;
    ExecAppend(s0, run, [ReturnWait(u)]);
    ExecAppend(s0, before + [CallWait(u)], during);
    ExecAppend(s0, before, [CallWait(u)]);
    SingleStep(called, CallWait(u));
    var leaving := Exec(s0, run).value;
    SingleStep(leaving, ReturnWait(u));
    InvRun(workers, producers, waiters, run);
    BeganFixed(Next(called, CallWait(u)).value, u, during);
    LeavingKnows(leaving, u, returned);
  }

  lemma LeavingKnows(leaving: State, u: nat, returned: State)
    requires WaitersKnow(leaving) && Next(leaving, ReturnWait(u)) == Some(returned)
    ensures u in leaving.waiters
    ensures forall t | 0 <= t < leaving.waiters[u].began :: HasRun(returned, t)
  {
    assert WaiterKnows(leaving, leaving.waiters[u]);
    forall t | 0 <= t < leaving.waiters[u].began ensures HasRun(returned, t) {
      OtherJobsMove(leaving, ReturnWait(u));
      RunsKept(leaving, ReturnWait(u), returned, t);
    }
  }

  lemma SingleStep(s: State, step: Step)
    ensures Exec(s, [step]) == Next(s, step)
  {
    assert [step][..0] == [];
  }

  /** A step that moves a thread along: no spurious wakeup, no new wait, no new job. */
  predicate MakesProgress(step: Step) {
    !step.SemSpurious? && !step.WaitSpurious? && !step.CallWait? && !step.LockAdd?
  }

  ghost predicate CanProgress(s: State) {
    exists step :: MakesProgress(step) && Next(s, step).Some?
  }

  lemma WaiterAtLockMoves(s: State, u: nat)
    requires CountLockExact(s) && s.thcount == Some(u) && u in s.waiters
    ensures CanProgress(s)
  {
    var step := match s.waiters[u].pc
      case AtLen => ReadLen(u)
      case AtWorking => ReadWorking(u)
      case Deciding => Block(u)
      case _ => ReturnWait(u);
    assert Next(s, step).Some?;
  }

  lemma ProducerAtLockMoves(s: State, p: nat)
    requires p in s.producers && !s.producers[p].Away?
    ensures CanProgress(s)
  {
    var wake := WakeChoice(s);
    var step := match s.producers[p]
      case Pushing(_) => Push(p)
      case Posting => Post(p, wake)
      case _ => UnlockAdd(p);
    assert Next(s, step).Some?;
  }

  ghost function WakeChoice(s: State): (wake: Option<nat>)
    ensures MayWakeWorker(s, wake)
  {
    if w :| w in s.workers && s.workers[w].SemBlocked? then Some(w) else None
  }

  ghost function WaiterChoice(s: State): (wake: Option<nat>)
    ensures MayWakeWaiter(s, wake)
  {
    if u :| u in s.waiters && s.waiters[u].pc.Blocked? then Some(u) else None
  }

  lemma AwakeWorkerMoves(s: State, w: nat)
    requires w in s.workers && !s.workers[w].SemBlocked?
    requires s.thcount.None?
    requires s.workers[w].Counted? ==> s.rwmutex.Free?
    ensures CanProgress(s)
  {
    var step := match s.workers[w]
      case AtSem => SemCheck(w)
      case SemWoken => SemCheck(w)
      case HasToken => CountIn(w)
      case Counted => LockQueue(w)
      case Pulling => Pull(w)
      case Reposting(_) => Repost(w, WakeChoice(s))
      case Pulled(_) => UnlockQueue(w)
      case Running(_) => Run(w)
      case _ => CountOut(w, WaiterChoice(s));
    assert Next(s, step).Some?;
  }

  /** While a job is queued or in hand, the pool is never stuck, whatever the schedule was. */
  lemma PoolNeverStuck(workers: set<nat>, producers: set<nat>, waiters: set<nat>, s: State)
    requires Reachable(workers, producers, waiters, s) && workers != {}
    requires s.queue != [] || Hands(s.workers) != {}
    ensures CanProgress(s)
  {
    ReachableInv(workers, producers, waiters, s);
    if s.thcount.Some? {
      WaiterAtLockMoves(s, s.thcount.value);
    } else if s.rwmutex.ByProducer? {
      ProducerAtLockMoves(s, s.rwmutex.producer);
    } else if s.rwmutex.ByWorker? {
      AwakeWorkerMoves(s, s.rwmutex.worker);
    } else {
      var w := SomeoneAwake(s);
      AwakeWorkerMoves(s, w);
    }
  }

  lemma SomeoneAwake(s: State) returns (w: nat)
    requires Inv(s) && s.rwmutex.Free? && s.workers.Keys != {}
    requires s.queue != [] || Hands(s.workers) != {}
    ensures w in s.workers && !s.workers[w].SemBlocked?
  {
    if Hands(s.workers) != {} {
      w :| w in Hands(s.workers);
      assert HandOf(s.workers[w]).Some?;
    } else if s.sem == 1 {
      w :| w in s.workers.Keys;
      if s.workers[w].SemBlocked? {
        w :| w in s.workers && s.workers[w].SemWoken?;
      }
    } else {
      assert TokenHeld(s);
      w :| w in s.workers && (s.workers[w].HasToken? || s.workers[w].Counted? || s.workers[w].Pulling?);
    }
  }

  // ---------------------------------------------------------------- every run comes to an end

  ghost function Sum(m: map<nat, nat>): nat
    decreases |m|
  {
    if m == map[] then 0
    else
      var k :| k in m;
      m[k] + Sum(m - {k})
  }

  lemma {:induction false} SumOf(m: map<nat, nat>, k: nat)
    requires k in m
    ensures Sum(m) == m[k] + Sum(m - {k})
    decreases |m|
  {
    var c :| c in m && Sum(m) == m[c] + Sum(m - {c});
    if c != k {
      SumOf(m - {c}, k);
      SumOf(m - {k}, c);
      assert m - {c} - {k} == m - {k} - {c};
    }
  }

  lemma SumUpdate(m: map<nat, nat>, k: nat, n: nat)
    requires k in m
    ensures Sum(m[k := n]) + m[k] == Sum(m) + n
  {
    SumOf(m, k);
    SumOf(m[k := n], k);
    assert m[k := n] - {k} == m - {k};
  }

  /** How much a worker may still do before it sleeps; a token is worth 11, a queued job 13. */
  function WorkerWeight(pc: WorkerPc): nat {
    match pc
    case SemBlocked => 0
    case AtSem => 1
    case SemWoken => 1
    case Finishing => 6
    case Running(_) => 7
    case Pulled(got) => if got.Some? then 8 else 7
    case Pulling => 9
    case Counted => 10
    case HasToken => 11
    case Reposting(_) => 21
  }

  function ProducerWeight(pc: ProducerPc): nat {
    match pc
    case Away => 0
    case Posted => 1
    case Posting => 14
    case Pushing(_) => 28
  }

  function WaiterWeight(pc: WaiterPc): nat {
    match pc
    case Outside => 0
    case Blocked => 0
    case Deciding => 1
    case Leaving => 1
    case AtWorking => 2
    case AtLen => 3
    case Entering => 4
    case Woken => 4
  }

  function WorkerWeights(m: map<nat, WorkerPc>): map<nat, nat> {
    map w | w in m :: WorkerWeight(m[w])
  }

  function ProducerWeights(m: map<nat, ProducerPc>): map<nat, nat> {
    map p | p in m :: ProducerWeight(m[p])
  }

  function WaiterWeights(m: map<nat, Waiter>): map<nat, nat> {
    map u | u in m :: WaiterWeight(m[u].pc)
  }

  /** What is left to do, if no job and no wait is added and nobody wakes up without a signal. */
  ghost function Measure(s: State): nat {
    Sum(WorkerWeights(s.workers)) + Sum(ProducerWeights(s.producers)) + Sum(WaiterWeights(s.waiters))
    + 13 * |s.queue| + 11 * s.sem
  }

  lemma WorkerMoves(m: map<nat, WorkerPc>, w: nat, pc: WorkerPc)
    requires w in m
    ensures Sum(WorkerWeights(m[w := pc])) + WorkerWeight(m[w]) == Sum(WorkerWeights(m)) + WorkerWeight(pc)
  {
    SumUpdate(WorkerWeights(m), w, WorkerWeight(pc));
    assert WorkerWeights(m[w := pc]) == WorkerWeights(m)[w := WorkerWeight(pc)];
  }

  lemma ProducerMoves(m: map<nat, ProducerPc>, p: nat, pc: ProducerPc)
    requires p in m
    ensures Sum(ProducerWeights(m[p := pc])) + ProducerWeight(m[p]) == Sum(ProducerWeights(m)) + ProducerWeight(pc)
  {
    SumUpdate(ProducerWeights(m), p, ProducerWeight(pc));
    assert ProducerWeights(m[p := pc]) == ProducerWeights(m)[p := ProducerWeight(pc)];
  }

  lemma WaiterMoves(m: map<nat, Waiter>, u: nat, x: Waiter)
    requires u in m
    ensures Sum(WaiterWeights(m[u := x])) + WaiterWeight(m[u].pc) == Sum(WaiterWeights(m)) + WaiterWeight(x.pc)
  {
    SumUpdate(WaiterWeights(m), u, WaiterWeight(x.pc));
    assert WaiterWeights(m[u := x]) == WaiterWeights(m)[u := WaiterWeight(x.pc)];
  }

  /** A post adds a token and may wake a sleeper. */
  lemma PostCosts(s: State, wake: Option<nat>)
    requires MayWakeWorker(s, wake) && s.sem <= 1
    ensures Sum(WorkerWeights(SemPost(s, wake).workers)) <= Sum(WorkerWeights(s.workers)) + 1
  {
    hide Sum, WorkerWeights;
    if wake.Some? {
      WorkerMoves(s.workers, wake.value, SemWoken);
    }
  }

  lemma WorkerStepFalls(s: State, step: Step)
    requires s.sem <= 1 && IsWorkerStep(step) && MakesProgress(step) && Next(s, step).Some?
    ensures Measure(Next(s, step).value) < Measure(s)
  {
    hide Sum, WorkerWeights, ProducerWeights, WaiterWeights;
    var s' := Next(s, step).value;
    if step.Repost? {
      PostCosts(s, step.wake);
      WorkerMoves(SemPost(s, step.wake).workers, step.w, s'.workers[step.w]);
    } else {
      WorkerMoves(s.workers, step.w, s'.workers[step.w]);
    }
    if step.CountOut? && step.wake.Some? {
      WaiterMoves(s.waiters, step.wake.value, s'.waiters[step.wake.value]);
    }
  }

  lemma ProducerStepFalls(s: State, step: Step)
    requires s.sem <= 1 && IsProducerStep(step) && MakesProgress(step) && Next(s, step).Some?
    ensures Measure(Next(s, step).value) < Measure(s)
  {
    hide Sum, WorkerWeights, ProducerWeights, WaiterWeights;
    var s' := Next(s, step).value;
    ProducerMoves(s.producers, step.p, s'.producers[step.p]);
    if step.Post? {
      PostCosts(s, step.wake);
    }
  }

  /** Every step that is no new job, no new wait and no spurious wakeup leaves less to do. */
  lemma ProgressFalls(s: State, step: Step)
    requires s.sem <= 1 && MakesProgress(step) && Next(s, step).Some?
    ensures Measure(Next(s, step).value) < Measure(s)
  {
    hide Sum, WorkerWeights, ProducerWeights, WaiterWeights, Measure;
    if IsWorkerStep(step) {
      WorkerStepFalls(s, step);
    } else if IsProducerStep(step) {
      ProducerStepFalls(s, step);
    } else {
      WaiterStepFalls(s, step);
    }
  }

  lemma WaiterStepFalls(s: State, step: Step)
    requires !IsWorkerStep(step) && !IsProducerStep(step) && MakesProgress(step) && Next(s, step).Some?
    ensures Measure(Next(s, step).value) < Measure(s)
  {
    hide Sum, WorkerWeights, ProducerWeights, WaiterWeights;
    WaiterMoves(s.waiters, step.u, Next(s, step).value.waiters[step.u]);
  }

  lemma {:induction false} ProgressRun(s: State, run: seq<Step>)
    requires Inv(s) && (forall i | 0 <= i < |run| :: MakesProgress(run[i])) && Exec(s, run).Some?
    ensures Inv(Exec(s, run).value) && |run| + Measure(Exec(s, run).value) <= Measure(s)
  {
    hide Inv, Measure, Next;
    if run != [] {
      var front := run[..|run| - 1];
      ProgressRun(s, front);
      var before := Exec(s, front).value;
      assert before.sem <= 1 by { SemIsBinary(before); }
      InvStep(before, run[|run| - 1]);
      ProgressFalls(before, run[|run| - 1]);
    }
  }

  lemma SemIsBinary(s: State)
    requires Inv(s)
    ensures s.sem <= 1
  {
  }

  /** What may come from outside at any time: sleepers wake without a signal, waits begin. */
  lemma OutsideSteps(s: State)
    ensures forall w | w in s.workers && s.workers[w].SemBlocked? ::
              Next(s, SemSpurious(w)) == Some(s.(workers := s.workers[w := SemWoken]))
    ensures forall u | u in s.waiters && s.waiters[u].pc.Blocked? ::
              Next(s, WaitSpurious(u)).Some? && Next(s, WaitSpurious(u)).value.waiters[u].pc.Woken?
    ensures forall u | u in s.waiters && s.waiters[u].pc.Outside? ::
              Next(s, CallWait(u)).Some? && Next(s, CallWait(u)).value.waiters[u] == Waiter(Entering, |s.added|, 0)
  {
  }

  /** Any job may be added whenever the queue is unlocked, and it is that job that goes to the end of the queue. */
  lemma AnyJobIsAdded(s: State, p: nat, job: Job)
    requires p in s.producers && s.producers[p].Away? && s.rwmutex.Free?
    ensures var r := Exec(s, [LockAdd(p, job), Push(p)]);
            r.Some? && r.value.queue == s.queue + [job] && r.value.added == s.added + [job]
  {
    SingleStep(s, LockAdd(p, job));
    assert [LockAdd(p, job), Push(p)][..1] == [LockAdd(p, job)];
  }

  lemma WaiterMovesOn(s: State, u: nat)
    requires CountLockExact(s) && u in s.waiters && s.thcount.None?
    requires !s.waiters[u].pc.Outside? && !s.waiters[u].pc.Blocked?
    ensures CanProgress(s)
  {
    assert Next(s, LockWait(u)).Some?;
  }

  /** Everybody is at rest: the adding threads away, the workers asleep, the waiting threads returned or asleep. */
  ghost predicate AtRest(s: State) {
    && s.rwmutex.Free? && s.thcount.None?
    && (forall p | p in s.producers :: s.producers[p].Away?)
    && (forall w | w in s.workers :: s.workers[w].SemBlocked?)
    && (forall u | u in s.waiters :: s.waiters[u].pc.Outside? || s.waiters[u].pc.Blocked?)
  }

  /** Where no thread can go on without outside help, every thread is at rest. */
  lemma StuckIsRest(s: State)
    requires Inv(s) && !CanProgress(s)
    ensures AtRest(s)
  {
    if s.thcount.Some? { WaiterAtLockMoves(s, s.thcount.value); }
    forall p | p in s.producers ensures s.producers[p].Away? {
      if !s.producers[p].Away? { ProducerAtLockMoves(s, p); }
    }
    if s.rwmutex.ByWorker? { AwakeWorkerMoves(s, s.rwmutex.worker); }
    forall w | w in s.workers ensures s.workers[w].SemBlocked? {
      if !s.workers[w].SemBlocked? { AwakeWorkerMoves(s, w); }
    }
    forall u | u in s.waiters ensures s.waiters[u].pc.Outside? || s.waiters[u].pc.Blocked? {
      if !s.waiters[u].pc.Outside? && !s.waiters[u].pc.Blocked? { WaiterMovesOn(s, u); }
    }
  }

  lemma RestIsIdle(s: State)
    requires Inv(s) && AtRest(s)
    ensures s.working == 0 && Hands(s.workers) == {}
  {
    assert WorkingSet(s.workers) == {};
  }

  /** With one waiting thread at most, nobody sleeps in thpool_wait once everybody is at rest. */
  lemma SoloReturned(s: State)
    requires AtRest(s) && SoloAwake(s) && s.queue == [] && s.working == 0
    ensures forall u | u in s.waiters :: s.waiters[u].pc.Outside?
  {
  }

  /**
   Without new jobs, new waits and spurious wakeups every run is finite. When no more step is possible, every job
   that was added has run, everybody is at rest, and, if there is one waiting thread at most, every thpool_wait has
   returned.
   */
  lemma EveryRunEnds(workers: set<nat>, producers: set<nat>, waiters: set<nat>, s: State, run: seq<Step>)
    requires Reachable(workers, producers, waiters, s) && workers != {}
    requires (forall i | 0 <= i < |run| :: MakesProgress(run[i])) && Exec(s, run).Some?
    ensures |run| <= Measure(s)
    ensures var r := Exec(s, run).value;
            (exists step: Step :: !step.SemSpurious? && !step.WaitSpurious? && !step.CallWait? && !step.LockAdd? &&
                                  Next(r, step).Some?) ||
            (r.queue == [] && (forall t | 0 <= t < |r.added| :: HasRun(r, t)) && AtRest(r) &&
             (|waiters| <= 1 ==> forall u | u in r.waiters :: r.waiters[u].pc.Outside?))
  {
    hide Inv, Measure, Exec, Next, AtRest;
    ReachableInv(workers, producers, waiters, s);
    ProgressRun(s, run);
    var r := Exec(s, run).value;
    var init := Init(workers, producers, waiters);
    var before: seq<Step> :| Exec(init, before) == Some(s);
    ExecAppend(init, before, run);
    assert Reachable(workers, producers, waiters, r);
    if !CanProgress(r) {
      StuckIsRest(r);
      RestIsIdle(r);
      if r.queue != [] {
        PoolNeverStuck(workers, producers, waiters, r);
      }
      AllDone(r);
      if |waiters| <= 1 {
        SoloRun(workers, producers, waiters, before + run);
        SoloReturned(r);
      }
    }
  }

  /** With nothing queued and nothing in hand everything has run. */
  lemma AllDone(s: State)
    requires Inv(s) && s.queue == [] && Hands(s.workers) == {}
    ensures forall t | 0 <= t < |s.added| :: HasRun(s, t)
  {
    assert s.pulled == |s.added|;
    forall t | 0 <= t < s.pulled ensures HasRun(s, t) {
      EmptyHands(s, t);
    }
  }

  lemma EmptyHands(s: State, t: nat)
    requires Hands(s.workers) == {}
    ensures !InHand(s, t)
  {
    forall w | w in s.workers ensures !HoldsTicket(s.workers[w], t) {
      assert HandOf(s.workers[w]).Some? ==> w in Hands(s.workers);
    }
  }

  // ---------------------------------------------------------------- lost wakeups

  /** A waiter sleeps, nobody has woken it, and there is nothing left to wait for. */
  ghost predicate Stranded(s: State) {
    s.queue == [] && s.working == 0 && exists u :: u in s.waiters && s.waiters[u].pc.Blocked?
  }

  ghost predicate SoloAwake(s: State) {
    forall u | u in s.waiters && (s.waiters[u].pc.Blocked? || s.waiters[u].pc.Deciding?) ::
      s.queue != [] || s.working != 0
  }

  lemma CountedKeepsWorking(s: State, w: nat)
    requires CountExact(s) && w in s.workers && InCount(s.workers[w])
    ensures s.working > 0
  {
    assert w in WorkingSet(s.workers);
  }

  lemma SoloWorkerStep(s: State, step: Step)
    requires Inv(s) && SoloAwake(s) && Next(s, step).Some? && IsWorkerStep(step)
    requires forall u, v | u in s.waiters && v in s.waiters :: u == v
    ensures SoloAwake(Next(s, step).value)
  {
    if step.Pull? { CountedKeepsWorking(s, step.w); }
    if step.CountIn? { assert s.working >= 0; }
  }

  lemma SoloStep(s: State, step: Step)
    requires Inv(s) && SoloAwake(s) && Next(s, step).Some?
    requires forall u, v | u in s.waiters && v in s.waiters :: u == v
    ensures SoloAwake(Next(s, step).value)
  {
    if IsWorkerStep(step) { SoloWorkerStep(s, step); }
  }

  lemma {:induction false} SoloRun(workers: set<nat>, producers: set<nat>, waiters: set<nat>,
                                   run: seq<Step>)
    requires |waiters| <= 1
    ensures var r := Exec(Init(workers, producers, waiters), run);
            r.Some? ==> SoloAwake(r.value)
  {
    if run != [] {
      var front := run[..|run| - 1];
      SoloRun(workers, producers, waiters, front);
      InvRun(workers, producers, waiters, front);
      SameThreads(workers, producers, waiters, front);
      AtMostOne(waiters);
      var before := Exec(Init(workers, producers, waiters), front);
      if before.Some? && Next(before.value, run[|run| - 1]).Some? {
        SoloStep(before.value, run[|run| - 1]);
      }
    }
  }

  lemma AtMostOne(s: set<nat>)
    requires |s| <= 1
    ensures forall u, v | u in s && v in s :: u == v
  {
    forall u, v | u in s && v in s ensures u == v {
      if u != v {
        assert |{u, v}| == 2;
        SubsetSize({u, v}, s);
      }
    }
  }

  lemma SubsetSize(a: set<nat>, b: set<nat>)
    requires a <= b
    ensures |a| <= |b|
  {
    assert b == a + (b - a);
  }

  /** Without workers nothing is ever pulled; a waiter sleeps only on a queue that stays. */
  ghost predicate NoWorkersYet(s: State) {
    s.workers.Keys == {} && SoloAwake(s) && s.working == 0
  }

  lemma {:induction false} NoWorkersRun(producers: set<nat>, waiters: set<nat>, run: seq<Step>)
    ensures var r := Exec(Init({}, producers, waiters), run); r.Some? ==> NoWorkersYet(r.value)
  {
    if run != [] {
      NoWorkersRun(producers, waiters, run[..|run| - 1]);
      var before := Exec(Init({}, producers, waiters), run[..|run| - 1]);
      if before.Some? && Next(before.value, run[|run| - 1]).Some? {
        NoWorkersStep(before.value, run[|run| - 1]);
      }
    }
  }

  lemma NoWorkersStep(s: State, step: Step)
    requires NoWorkersYet(s) && Next(s, step).Some?
    ensures NoWorkersYet(Next(s, step).value)
  {
  }

  /** Without producers the flag is never set, so no worker counts and no waiter sleeps. */
  ghost predicate NothingEver(s: State) {
    && s.producers.Keys == {} && s.queue == [] && s.sem == 0 && s.working == 0
    && (forall w | w in s.workers :: s.workers[w].AtSem? || s.workers[w].SemBlocked? || s.workers[w].SemWoken?)
    && (forall u | u in s.waiters :: !s.waiters[u].pc.Blocked? && !s.waiters[u].pc.Deciding?)
  }

  lemma NothingStep(s: State, step: Step)
    requires NothingEver(s) && Next(s, step).Some?
    ensures NothingEver(Next(s, step).value)
  {
  }

  lemma {:induction false} NothingRun(workers: set<nat>, waiters: set<nat>, run: seq<Step>)
    ensures var r := Exec(Init(workers, {}, waiters), run); r.Some? ==> NothingEver(r.value)
  {
    if run != [] {
      NothingRun(workers, waiters, run[..|run| - 1]);
      var before := Exec(Init(workers, {}, waiters), run[..|run| - 1]);
      if before.Some? && Next(before.value, run[|run| - 1]).Some? {
        NothingStep(before.value, run[|run| - 1]);
      }
    }
  }

  function AddRun(p: nat): seq<Step> {
    [LockAdd(p, Job(0, 0)), Push(p), Post(p, None), UnlockAdd(p)]
  }

  function SleepRun(u: nat): seq<Step> {
    [CallWait(u), LockWait(u), ReadLen(u), Block(u)]
  }

  function TakeRun(w: nat): seq<Step> {
    [SemCheck(w), CountIn(w), LockQueue(w), Pull(w)]
  }

  function FinishRun(w: nat, u: nat): seq<Step> {
    [UnlockQueue(w), Run(w), CountOut(w, Some(u))]
  }

  /** The steps that strand `v`: both wait on one job, and the signal goes to `u`. */
  function StrandingRun(w: nat, p: nat, u: nat, v: nat): seq<Step> {
    AddRun(p) + SleepRun(u) + SleepRun(v) + TakeRun(w) + FinishRun(w, u)
  }

  lemma ExecCons(s: State, step: Step, rest: seq<Step>)
    requires Next(s, step).Some?
    ensures Exec(s, [step] + rest) == Exec(Next(s, step).value, rest)
  {
    ExecAppend(s, [step], rest);
    SingleStep(s, step);
  }

  lemma ExecChain(s0: State, s1: State, s2: State, s3: State, s4: State,
                  a: Step, b: Step, c: Step, d: Step)
    requires Next(s0, a) == Some(s1) && Next(s1, b) == Some(s2)
    requires Next(s2, c) == Some(s3) && Next(s3, d) == Some(s4)
    ensures Exec(s0, [a, b, c, d]) == Some(s4)
  {
    ExecCons(s0, a, [b, c, d]);
    ExecCons(s1, b, [c, d]);
    ExecCons(s2, c, [d]);
    SingleStep(s3, d);
    assert [a] + [b, c, d] == [a, b, c, d] && [b] + [c, d] == [b, c, d] && [c] + [d] == [c, d];
  }

  function AfterAdd(s: State, job: Job): State {
    s.(queue := s.queue + [job], added := s.added + [job], sem := 1)
  }

  function MidAdd(s: State, p: nat, job: Job): State {
    s.(producers := s.producers[p := Posting], rwmutex := ByProducer(p),
       queue := s.queue + [job], added := s.added + [job])
  }

  lemma AddSteps(s: State, p: nat, job: Job)
    requires p in s.producers && s.producers[p].Away? && s.rwmutex.Free?
    ensures var s1 := SetProducer(s, p, Pushing(job)).(rwmutex := ByProducer(p));
            Next(s, LockAdd(p, job)) == Some(s1) && Next(s1, Push(p)) == Some(MidAdd(s, p, job))
  {
    assert s.producers[p := Pushing(job)][p := Posting] == s.producers[p := Posting];
  }

  lemma PostSteps(s: State, p: nat, job: Job)
    requires p in s.producers && s.producers[p].Away? && s.rwmutex.Free?
    requires forall w | w in s.workers :: s.workers[w].AtSem?
    ensures var s2 := MidAdd(s, p, job);
            var s3 := SetProducer(s2, p, Posted).(sem := 1);
            Next(s2, Post(p, None)) == Some(s3) && Next(s3, UnlockAdd(p)) == Some(AfterAdd(s, job))
  {
    assert s.producers[p := Posting][p := Posted][p := Away] == s.producers;
  }

  lemma AddPhase(s: State, p: nat)
    requires p in s.producers && s.producers[p].Away? && s.rwmutex.Free?
    requires forall w | w in s.workers :: s.workers[w].AtSem?
    ensures Exec(s, AddRun(p)) == Some(AfterAdd(s, Job(0, 0)))
  {
    var job := Job(0, 0);
    AddSteps(s, p, job);
    PostSteps(s, p, job);
    ExecChain(s, SetProducer(s, p, Pushing(job)).(rwmutex := ByProducer(p)), MidAdd(s, p, job),
              SetProducer(MidAdd(s, p, job), p, Posted).(sem := 1), AfterAdd(s, job),
              LockAdd(p, job), Push(p), Post(p, None), UnlockAdd(p));
  }

  function WithWaiter(s: State, u: nat, x: Waiter): State {
    s.(waiters := s.waiters[u := x])
  }

  lemma WithWaiterTwice(s: State, u: nat, x: Waiter, y: Waiter)
    ensures WithWaiter(WithWaiter(s, u, x), u, y) == WithWaiter(s, u, y)
  {
    assert s.waiters[u := x][u := y] == s.waiters[u := y];
  }

  lemma EnterSteps(s: State, u: nat, x: Waiter)
    requires u in s.waiters && s.waiters[u].pc.Outside? && s.thcount.None?
    requires x == Waiter(Entering, |s.added|, 0)
    ensures Next(s, CallWait(u)) == Some(WithWaiter(s, u, x))
    ensures Next(WithWaiter(s, u, x), LockWait(u)) ==
            Some(WithWaiter(s, u, x.(pc := AtLen)).(thcount := Some(u)))
  {
    WithWaiterTwice(s, u, x, x.(pc := AtLen));
  }

  lemma SleepSteps(s: State, u: nat, x: Waiter)
    requires s.queue != [] && s.thcount.None?
    ensures Next(WithWaiter(s, u, x.(pc := AtLen)).(thcount := Some(u)), ReadLen(u)) ==
            Some(WithWaiter(s, u, x.(pc := Deciding)).(thcount := Some(u)))
    ensures Next(WithWaiter(s, u, x.(pc := Deciding)).(thcount := Some(u)), Block(u)) ==
            Some(WithWaiter(s, u, x.(pc := Blocked)))
  {
    WithWaiterTwice(s, u, x.(pc := AtLen), x.(pc := Deciding));
    WithWaiterTwice(s, u, x.(pc := Deciding), x.(pc := Blocked));
  }

  lemma SleepPhase(s: State, u: nat)
    requires u in s.waiters && s.waiters[u].pc.Outside? && s.thcount.None? && s.queue != []
    ensures Exec(s, SleepRun(u)) == Some(WithWaiter(s, u, Waiter(Blocked, |s.added|, 0)))
  {
    var x := Waiter(Entering, |s.added|, 0);
    EnterSteps(s, u, x);
    SleepSteps(s, u, x);
    ExecChain(s, WithWaiter(s, u, x),
              WithWaiter(s, u, x.(pc := AtLen)).(thcount := Some(u)),
              WithWaiter(s, u, x.(pc := Deciding)).(thcount := Some(u)),
              WithWaiter(s, u, x.(pc := Blocked)),
              CallWait(u), LockWait(u), ReadLen(u), Block(u));
  }

  function AfterTake(s: State, w: nat): State
    requires s.queue != []
  {
    s.(sem := 0, working := s.working + 1, rwmutex := ByWorker(w), queue := [],
       pulled := s.pulled + 1,
       workers := s.workers[w := Pulled(Some(Held(s.pulled, s.queue[0])))])
  }

  lemma TakePhase(s: State, w: nat)
    requires w in s.workers && s.workers[w].AtSem? && s.sem == 1 && s.thcount.None?
    requires s.rwmutex.Free? && |s.queue| == 1
    ensures Exec(s, TakeRun(w)) == Some(AfterTake(s, w))
  {
    var s1 := SetWorker(s.(sem := 0), w, HasToken);
    var s2 := SetWorker(s1, w, Counted).(working := s.working + 1);
    var s3 := SetWorker(s2, w, Pulling).(rwmutex := ByWorker(w));
    TokenTaken(s, w);
    WorkerLocks(s1, w);
    LastPulled(s, s3, w);
    hide Next, AfterTake;
    ExecChain(s, s1, s2, s3, AfterTake(s, w), SemCheck(w), CountIn(w), LockQueue(w), Pull(w));
  }

  lemma TokenTaken(s: State, w: nat)
    requires w in s.workers && s.workers[w].AtSem? && s.sem == 1
    ensures Next(s, SemCheck(w)) == Some(SetWorker(s.(sem := 0), w, HasToken))
  {
  }

  lemma WorkerLocks(s: State, w: nat)
    requires w in s.workers && s.workers[w].HasToken? && s.thcount.None? && s.rwmutex.Free?
    ensures var s2 := SetWorker(s, w, Counted).(working := s.working + 1);
            && Next(s, CountIn(w)) == Some(s2)
            && Next(s2, LockQueue(w)) == Some(SetWorker(s2, w, Pulling).(rwmutex := ByWorker(w)))
  {
  }

  /** The worker that went through the counter and the lock pulls the one job. */
  lemma LastPulled(s: State, s3: State, w: nat)
    requires w in s.workers && |s.queue| == 1 && s3.workers == s.workers[w := HasToken][w := Counted][w := Pulling]
    requires s3 == s.(sem := 0, working := s.working + 1, rwmutex := ByWorker(w), workers := s3.workers)
    ensures Next(s3, Pull(w)) == Some(AfterTake(s, w))
  {
    assert s3.workers[w := Pulled(Some(Held(s.pulled, s.queue[0])))] == AfterTake(s, w).workers;
    assert s.queue[1..] == [];
  }

  function AfterFinish(s: State, w: nat, held: Held, u: nat): State
    requires u in s.waiters
  {
    s.(working := 0, rwmutex := Free, ran := s.ran + [held], workers := s.workers[w := AtSem],
       waiters := s.waiters[u := s.waiters[u].(pc := Woken)])
  }

  lemma FinishPhase(s: State, w: nat, held: Held, u: nat)
    requires w in s.workers && s.workers[w] == Pulled(Some(held)) && s.thcount.None?
    requires s.working == 1 && u in s.waiters && s.waiters[u].pc.Blocked?
    ensures Exec(s, FinishRun(w, u)) == Some(AfterFinish(s, w, held, u))
  {
    var a, b, c := UnlockQueue(w), Run(w), CountOut(w, Some(u));
    var s1 := SetWorker(s, w, Running(held)).(rwmutex := Free);
    var s2 := SetWorker(s1, w, Finishing).(ran := s.ran + [held]);
    assert AfterFinish(s, w, held, u).workers == s2.workers[w := AtSem];
    ExecCons(s, a, [b, c]);
    ExecCons(s1, b, [c]);
    SingleStep(s2, c);
    assert [a] + [b, c] == [a, b, c] && [b] + [c] == [b, c];
  }

  lemma Compose(s0: State, s1: State, s2: State, a: seq<Step>, b: seq<Step>)
    requires Exec(s0, a) == Some(s1) && Exec(s1, b) == Some(s2)
    ensures Exec(s0, a + b) == Some(s2)
  {
    ExecAppend(s0, a, b);
  }

  lemma Compose5(s0: State, s1: State, s2: State, s3: State, s4: State, s5: State,
                 a: seq<Step>, b: seq<Step>, c: seq<Step>, d: seq<Step>, e: seq<Step>)
    requires Exec(s0, a) == Some(s1) && Exec(s1, b) == Some(s2) && Exec(s2, c) == Some(s3)
    requires Exec(s3, d) == Some(s4) && Exec(s4, e) == Some(s5)
    ensures Exec(s0, a + b + c + d + e) == Some(s5)
  {
    Compose(s0, s1, s2, a, b);
    Compose(s0, s2, s3, a + b, c);
    Compose(s0, s3, s4, a + b + c, d);
    Compose(s0, s4, s5, a + b + c + d, e);
  }

  lemma TwoWaitersStrand(workers: set<nat>, producers: set<nat>, waiters: set<nat>,
                         w: nat, p: nat, u: nat, v: nat)
    requires w in workers && p in producers && u in waiters && v in waiters && u != v
    ensures var r := Exec(Init(workers, producers, waiters), StrandingRun(w, p, u, v));
            r.Some? && Stranded(r.value)
  {
    var s0 := Init(workers, producers, waiters);
    var job, x := Job(0, 0), Waiter(Blocked, 1, 0);
    var s1 := AfterAdd(s0, job);
    var s2 := WithWaiter(s1, u, x);
    var s3 := WithWaiter(s2, v, x);
    var s4 := AfterTake(s3, w);
    var s5 := AfterFinish(s4, w, Held(0, job), u);
    AddPhase(s0, p);
    SleepPhase(s1, u);
    SleepPhase(s2, v);
    TakePhase(s3, w);
    FinishPhase(s4, w, Held(0, job), u);
    Compose5(s0, s1, s2, s3, s4, s5, AddRun(p), SleepRun(u), SleepRun(v), TakeRun(w), FinishRun(w, u));
    assert s5.waiters[v].pc.Blocked?;
  }

  /**
   pthread_cond_signal wakes one waiter and the woken one never signals again. So no wakeup
   is lost exactly for pools with at most one waiting thread (or with nobody to add or to run).
   */
  lemma WakeupsLostExactlyWhen(workers: set<nat>, producers: set<nat>, waiters: set<nat>)
    ensures (forall s | Reachable(workers, producers, waiters, s) :: !Stranded(s)) <==>
            (|waiters| <= 1 || workers == {} || producers == {})
  {
    if |waiters| <= 1 || workers == {} || producers == {} {
      forall s | Reachable(workers, producers, waiters, s) ensures !Stranded(s) {
        var run: seq<Step> :| Exec(Init(workers, producers, waiters), run) == Some(s);
        if |waiters| <= 1 { SoloRun(workers, producers, waiters, run); }
        else if workers == {} { NoWorkersRun(producers, waiters, run); }
        else { NothingRun(workers, waiters, run); }
      }
    } else {
      var w :| w in workers;
      var p :| p in producers;
      var u :| u in waiters;
      assert waiters != {u};
      var v :| v in waiters && v != u;
      TwoWaitersStrand(workers, producers, waiters, w, p, u, v);
      assert Reachable(workers, producers, waiters,
                       Exec(Init(workers, producers, waiters), StrandingRun(w, p, u, v)).value);
    }
  }
}
