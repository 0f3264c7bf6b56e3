/** The DNS server's worker pool, as steps of any number of concurrent workers. */
module WorkerPool {
  const MAX_WORKERS := 10000

  type Worker = nat
  type Response = nat

  /** Where a worker stands. */
  datatype Pc =
    | Spawned(w: Response)      // started with a response, not yet serving it
    | First(w: Response)        // serving the response it was started with
    | Checking                  // about to load the counter
    | Loaded(count: nat)        // about to compare and swap
    | Idle(inUse: bool)         // in the pool, waiting at the queue
    | Serving(w: Response)      // in the pool, serving a response from the queue
    | Leaving                   // out of the loop, the decrement still to come
    | Gone

  /** taken counts how often a response was taken up for serving. */
  datatype State = State(count: int, workers: map<Worker, Pc>, taken: map<Response, nat>, closed: bool)

  /** Between its compare-and-swap and its decrement. */
  predicate Counted(pc: Pc) {
    pc.Idle? || pc.Serving? || pc.Leaving?
  }

  /** In charge of a response. */
  predicate Busy(pc: Pc) {
    pc.Spawned? || pc.First? || pc.Serving?
  }

  // ----- Steps -----------------------------------------------------------------------------------

  function Goto(s: State, t: Worker, pc: Pc): State {
    s.(workers := s.workers[t := pc])
  }

  function Take(s: State, w: Response): State
    requires w in s.taken
  {
    s.(taken := s.taken[w := s.taken[w] + 1])
  }

  /** spawnWorker finds no waiting worker and starts a new one. */
  predicate CanSpawn(s: State, t: Worker, w: Response) {
    !s.closed && t !in s.workers && w !in s.taken
  }

  function DoSpawn(s: State, t: Worker, w: Response): State {
    Goto(s, t, Spawned(w)).(taken := s.taken[w := 0])
  }

  /** spawnWorker hands the response to a waiting worker. */
  predicate CanHandOff(s: State, t: Worker, w: Response) {
    !s.closed && t in s.workers && s.workers[t].Idle? && w !in s.taken
  }

  function DoHandOff(s: State, t: Worker, w: Response): State {
    Goto(s, t, Serving(w)).(taken := s.taken[w := 1])
  }

  /** What a worker does by itself, in program order. */
  ghost predicate Moves(s: State, t: Worker, n: State) {
    t in s.workers &&
    match s.workers[t]
    case Spawned(w) => w in s.taken && n == Take(Goto(s, t, First(w)), w)
    case First(_) => n == Goto(s, t, Checking)
    case Checking => s.count >= 0 && n == Goto(s, t, if s.count > MAX_WORKERS then Gone else Loaded(s.count))
    case Loaded(c) => n == if s.count == c then Goto(s, t, Idle(false)).(count := c + 1) else Goto(s, t, Checking)
    case Idle(inUse) => n == Goto(s, t, if inUse then Idle(false) else Leaving)
      || (s.closed && n == Goto(s, t, Leaving))
    case Serving(_) => n == Goto(s, t, Idle(true))
    case Leaving => n == Goto(s, t, Gone).(count := s.count - 1)
    case Gone => false
  }

  ghost predicate Next(s: State, n: State) {
    || (exists t: Worker, w: Response :: CanSpawn(s, t, w) && n == DoSpawn(s, t, w))
    || (exists t: Worker, w: Response :: CanHandOff(s, t, w) && n == DoHandOff(s, t, w))
    || (exists t: Worker :: Moves(s, t, n))
    || n == s.(closed := true)
  }

  function Initial(): State {
    State(0, map[], map[], false)
  }

  // ----- The invariant ---------------------------------------------------------------------------

  ghost function Pool(s: State): set<Worker> {
    set t | t in s.workers && Counted(s.workers[t])
  }

  ghost predicate WorkerOk(s: State, t: Worker)
    requires t in s.workers
  {
    var pc := s.workers[t];
    && (pc.Spawned? ==> pc.w in s.taken && s.taken[pc.w] == 0)
    && (pc.First? || pc.Serving? ==> pc.w in s.taken && s.taken[pc.w] == 1)
    && (pc.Loaded? ==> pc.count <= MAX_WORKERS)
  }

  /** Whether a response waits in the goroutine started for it. */
  ghost predicate Waits(s: State, w: Response) {
    exists t :: t in s.workers && s.workers[t] == Spawned(w)
  }

  /** The counter counts the pool, and stays at most one above its limit. */
  ghost predicate CountOk(s: State) {
    s.count == |Pool(s)| <= MAX_WORKERS + 1
  }

  ghost predicate WorkersOk(s: State) {
    && (forall t :: t in s.workers ==> WorkerOk(s, t))
    && (forall t, u ::
          (t in s.workers && u in s.workers && Busy(s.workers[t]) && Busy(s.workers[u])
           && s.workers[t].w == s.workers[u].w) ==> t == u)
  }

  ghost predicate ResponseOk(s: State, w: Response)
    requires w in s.taken
  {
    s.taken[w] == if Waits(s, w) then 0 else 1
  }

  ghost predicate Inv(s: State) {
    CountOk(s) && WorkersOk(s) && forall w :: w in s.taken ==> ResponseOk(s, w)
  }

  lemma PoolGoto(s: State, t: Worker, pc: Pc)
    ensures Pool(Goto(s, t, pc)) == if Counted(pc) then Pool(s) + {t} else Pool(s) - {t}
  {
  }

  /** A step of t on other business leaves a response waiting or not. */
  lemma SameWaits(s: State, n: State, t: Worker, w: Response)
    requires t in n.workers && n.workers == s.workers[t := n.workers[t]] && n.workers[t] != Spawned(w)
    requires t in s.workers ==> s.workers[t] != Spawned(w)
    ensures Waits(n, w) <==> Waits(s, w)
  {
    if Waits(s, w) {
      var u :| u in s.workers && s.workers[u] == Spawned(w);
      assert n.workers[u] == Spawned(w);
    }
    if Waits(n, w) {
      var u :| u in n.workers && n.workers[u] == Spawned(w);
      assert s.workers[u] == Spawned(w);
    }
  }

  /** A step by t that moves the counter as it moves t in or out of the pool. */
  lemma KeepCount(s: State, n: State, t: Worker)
    requires CountOk(s) && t in n.workers && n.workers == s.workers[t := n.workers[t]] && n.count <= MAX_WORKERS + 1
    requires n.count - s.count ==
             (if Counted(n.workers[t]) then 1 else 0) - (if t in s.workers && Counted(s.workers[t]) then 1 else 0)
    ensures CountOk(n)
  {
    PoolGoto(s, t, n.workers[t]);
    assert Pool(n) == Pool(Goto(s, t, n.workers[t]));
  }

  /** A step by t that takes up w, or nothing. */
  lemma KeepWorkers(s: State, n: State, t: Worker)
    requires WorkersOk(s) && t in n.workers && n.workers == s.workers[t := n.workers[t]] && WorkerOk(n, t)
    requires forall u :: u in s.workers && u != t && Busy(s.workers[u]) ==>
               s.workers[u].w in n.taken && n.taken[s.workers[u].w] == s.taken[s.workers[u].w]
    requires Busy(n.workers[t]) ==>
               n.workers[t].w !in s.taken || (t in s.workers && Busy(s.workers[t]) && s.workers[t].w == n.workers[t].w)
    ensures WorkersOk(n)
  {
    forall u | u in n.workers
      ensures WorkerOk(n, u)
        && (u != t && Busy(n.workers[t]) && Busy(n.workers[u]) ==> n.workers[u].w != n.workers[t].w)
    {
      assert u != t ==> WorkerOk(s, u);
    }
  }

  lemma KeepSpawn(s: State, t: Worker, w: Response)
    requires Inv(s) && CanSpawn(s, t, w)
    ensures Inv(DoSpawn(s, t, w))
  {
    var n := DoSpawn(s, t, w);
    KeepCount(s, n, t);
    hide CountOk, ResponseOk;
    Unmoved(s, t, w);
    KeepWorkers(s, n, t);
    assert Waits(n, w) && ResponseOk(n, w) by { NewWaits(s, t, w); }
    hide WorkersOk;
    OtherResponses(s, n, t, w);
  }

  lemma NewWaits(s: State, t: Worker, w: Response)
    ensures Waits(DoSpawn(s, t, w), w) && ResponseOk(DoSpawn(s, t, w), w)
  {
    assert DoSpawn(s, t, w).workers[t] == Spawned(w);
  }

  /** Only t deals with a response that is new, or that t was started with. */
  lemma Unmoved(s: State, t: Worker, w: Response)
    requires WorkersOk(s) && (w !in s.taken || (t in s.workers && s.workers[t] == Spawned(w)))
    ensures forall u :: u in s.workers && u != t && Busy(s.workers[u]) ==>
              s.workers[u].w in s.taken && s.workers[u].w != w
  {
    forall u | u in s.workers && u != t && Busy(s.workers[u])
      ensures s.workers[u].w in s.taken && s.workers[u].w != w
    {
      assert WorkerOk(s, u) && (t in s.workers ==> WorkerOk(s, t));
    }
  }

  lemma OtherResponses(s: State, n: State, t: Worker, w: Response)
    requires forall v :: v in s.taken ==> ResponseOk(s, v)
    requires w in n.taken && n.taken == s.taken[w := n.taken[w]] && ResponseOk(n, w)
    requires t in n.workers && n.workers == s.workers[t := n.workers[t]]
    requires n.workers[t].Spawned? ==> n.workers[t].w == w
    requires t in s.workers && s.workers[t].Spawned? ==> s.workers[t].w == w
    ensures forall v :: v in n.taken ==> ResponseOk(n, v)
  {
    forall v | v in n.taken && v != w ensures ResponseOk(n, v) {
      assert ResponseOk(s, v);
      SameWaits(s, n, t, v);
    }
  }

  lemma KeepHandOff(s: State, t: Worker, w: Response)
    requires Inv(s) && CanHandOff(s, t, w)
    ensures Inv(DoHandOff(s, t, w))
  {
    var n := DoHandOff(s, t, w);
    KeepCount(s, n, t);
    hide CountOk;
    Unmoved(s, t, w);
    KeepWorkers(s, n, t);
    hide WorkersOk;
    assert !Waits(n, w);
    hide ResponseOk;
    OtherResponses(s, n, t, w);
  }

  lemma KeepStart(s: State, t: Worker, n: State)
    requires Inv(s) && Moves(s, t, n) && s.workers[t].Spawned?
    ensures Inv(n)
  {
    var w := s.workers[t].w;
    assert WorkerOk(s, t);
    KeepCount(s, n, t);
    hide CountOk;
    Unmoved(s, t, w);
    KeepWorkers(s, n, t);
    assert !Waits(n, w);
    hide WorkersOk, ResponseOk;
    OtherResponses(s, n, t, w);
  }

  lemma KeepMove(s: State, t: Worker, n: State)
    requires Inv(s) && Moves(s, t, n) && !s.workers[t].Spawned?
    ensures Inv(n)
  {
    MoveShape(s, t, n);
    hide Moves;
    KeepCount(s, n, t);
    hide CountOk;
    KeepWorkers(s, n, t);
    hide WorkersOk;
    forall v | v in n.taken ensures ResponseOk(n, v) {
      assert ResponseOk(s, v);
      SameWaits(s, n, t, v);
    }
  }

  lemma MoveShape(s: State, t: Worker, n: State)
    requires CountOk(s) && WorkersOk(s) && Moves(s, t, n) && !s.workers[t].Spawned?
    ensures t in n.workers && n.workers == s.workers[t := n.workers[t]] && n.taken == s.taken && !n.workers[t].Spawned?
    ensures n.count - s.count == (if Counted(n.workers[t]) then 1 else 0) - (if Counted(s.workers[t]) then 1 else 0)
    ensures n.count <= MAX_WORKERS + 1 && WorkerOk(n, t)
    ensures forall u :: u in s.workers && u != t && Busy(s.workers[u]) ==>
              s.workers[u].w in s.taken
  {
    assert WorkerOk(s, t);
    forall u | u in s.workers && u != t && Busy(s.workers[u])
      ensures s.workers[u].w in s.taken
    {
      assert WorkerOk(s, u);
    }
  }

  lemma NextInv(s: State, n: State)
    requires Inv(s) && Next(s, n)
    ensures Inv(n)
  {
    if t: Worker, w: Response :| CanSpawn(s, t, w) && n == DoSpawn(s, t, w) {
      KeepSpawn(s, t, w);
    } else if t: Worker, w: Response :| CanHandOff(s, t, w) && n == DoHandOff(s, t, w) {
      KeepHandOff(s, t, w);
    } else if t: Worker :| Moves(s, t, n) {
      if s.workers[t].Spawned? {
        KeepStart(s, t, n);
      } else {
        KeepMove(s, t, n);
      }
    } else {
      KeepClose(s);
    }
  }

  lemma KeepClose(s: State)
    requires Inv(s)
    ensures Inv(s.(closed := true))
  {
    var n := s.(closed := true);
    assert Pool(n) == Pool(s);
    forall t | t in n.workers ensures WorkerOk(n, t) {
      assert WorkerOk(s, t);
    }
    forall w | w in n.taken ensures ResponseOk(n, w) {
      assert ResponseOk(s, w) && (Waits(n, w) <==> Waits(s, w));
    }
  }

  // ----- Every run ---------------------------------------------------------------------------------

  ghost predicate Run(states: seq<State>) {
    && |states| > 0 && states[0] == Initial()
    && forall i, j :: 0 <= i && j == i + 1 && j < |states| ==> Next(states[i], states[j])
  }

  lemma {:induction false} RunInv(states: seq<State>, i: nat)
    requires Run(states) && i < |states|
    ensures Inv(states[i])
  {
    if i == 0 {
      assert Pool(Initial()) == {};
    } else {
      RunInv(states, i - 1);
      NextInv(states[i - 1], states[i]);
    }
  }

  /** In every run the counter is the number of workers in the pool, and never passes 10001. */
  lemma Counts(states: seq<State>, i: nat)
    requires Run(states) && i < |states|
    ensures states[i].count == |Pool(states[i])| <= 10001
  {
    RunInv(states, i);
  }

  /** In every run a response given to spawnWorker is taken up exactly once, unless it is still waiting in the
      goroutine started for it, which can take it up at any time. */
  lemma TakenOnce(states: seq<State>, i: nat, w: Response)
    requires Run(states) && i < |states| && w in states[i].taken
    ensures states[i].taken[w] == if Waits(states[i], w) then 0 else 1
    ensures Waits(states[i], w) ==> exists n :: Next(states[i], n) && w in n.taken && n.taken[w] == 1
  {
    RunInv(states, i);
    var s := states[i];
    assert ResponseOk(s, w);
    if Waits(s, w) {
      var t :| t in s.workers && s.workers[t] == Spawned(w);
      var n := Take(Goto(s, t, First(w)), w);
      assert Moves(s, t, n);
      assert Next(s, n);
    }
  }

  /** In every run no two workers are in charge of the same response. */
  lemma OneWorker(states: seq<State>, i: nat, t: Worker, u: Worker)
    requires Run(states) && i < |states| && t in states[i].workers && u in states[i].workers
    requires Busy(states[i].workers[t]) && Busy(states[i].workers[u])
             && states[i].workers[t].w == states[i].workers[u].w
    ensures t == u
  {
    RunInv(states, i);
  }

  /** A run and one more step. */
  lemma Extend(states: seq<State>, n: State) returns (states': seq<State>)
    requires |states| > 0 && Run(states) && Next(states[|states| - 1], n)
    ensures |states'| > 0 && Run(states') && states'[|states'| - 1] == n
  {
    states' := states + [n];
    forall i, j | 0 <= i && j == i + 1 && j < |states'| ensures Next(states'[i], states'[j]) {
      assert j < |states| ==> Next(states[i], states[j]);
    }
  }

  lemma MoveOn(states: seq<State>, t: Worker, n: State) returns (states': seq<State>)
    requires |states| > 0 && Run(states) && Moves(states[|states| - 1], t, n)
    ensures |states'| > 0 && Run(states') && states'[|states'| - 1] == n
  {
    assert Next(states[|states| - 1], n);
    states' := Extend(states, n);
  }

  /** One more worker joins a pool that is not above its limit, and the counter goes up by one. */
  lemma Join(states: seq<State>, t: Worker) returns (states': seq<State>)
    requires |states| > 0 && Run(states)
    requires var s := states[|states| - 1]; 0 <= s.count <= MAX_WORKERS && CanSpawn(s, t, t)
    ensures |states'| > 0 && Run(states')
    ensures var s, n := states[|states| - 1], states'[|states'| - 1];
            n.count == s.count + 1 && !n.closed && n.workers.Keys == s.workers.Keys + {t}
              && n.taken.Keys == s.taken.Keys + {t}
  {
    hide Run, Next;
    var s := states[|states| - 1];
    var s1 := DoSpawn(s, t, t);
    assert Next(s, s1) by { SpawnNext(s, t); }
    states' := Extend(states, s1);
    var s2 := Take(Goto(s1, t, First(t)), t);
    states' := MoveOn(states', t, s2);
    var s3 := Goto(s2, t, Checking);
    states' := MoveOn(states', t, s3);
    var s4 := Goto(s3, t, Loaded(s.count));
    states' := MoveOn(states', t, s4);
    states' := MoveOn(states', t, Goto(s4, t, Idle(false)).(count := s.count + 1));
  }

  lemma SpawnNext(s: State, t: Worker)
    requires CanSpawn(s, t, t)
    ensures Next(s, DoSpawn(s, t, t))
  {}

  /** The bound is exact: every number of workers up to 10001, one above the limit, is reached by a run. */
  lemma {:induction false} EveryCountReached(k: nat) returns (states: seq<State>)
    requires k <= 10001
    ensures |states| > 0 && Run(states)
    ensures var s := states[|states| - 1];
            s.count == k && !s.closed && (forall t :: t in s.workers ==> t < k) && (forall w :: w in s.taken ==> w < k)
  {
    if k == 0 {
      states := [Initial()];
    } else {
      states := EveryCountReached(k - 1);
      hide Run;
      states := Join(states, k - 1);
    }
  }
}
