/** Duplicate suppression of queries in flight, as steps of any number of concurrent callers. */
module Singleflight {
  type Caller = nat
  type CallId = nat
  type Obj = nat

  datatype Maybe<T> = None | Some(value: T)

  /** What fn returns: a message object or nil, the round trip time, and the error. */
  datatype Result = Result(msg: Maybe<Obj>, rtt: int, err: int)

  /** How far the caller that leads a call has come. */
  datatype Phase = Executing | Stored | Signalled | Removed

  /** A call record; leader and phase are bookkeeping, and the wait group is released from Signalled on. */
  datatype Call = Call(key: string, leader: Caller, phase: Phase, result: Result, dups: nat)

  /** A message object with its content, and who it was made for. */
  datatype Owner = FetchedBy(call: CallId) | CopiedFor(caller: Caller)
  datatype Object = Object(content: int, owner: Owner)

  /** Where a caller of Exchange stands. */
  datatype Pc =
    | Enter(key: string)
    | Inside(key: string)
    | JoinLocked(call: CallId)
    | Waiting(call: CallId)
    | LeadLocked(call: CallId)
    | Running(call: CallId)
    | Storing(call: CallId)
    | Cleaning(call: CallId)
    | Deleting(call: CallId)
    | Deleted(call: CallId)
    | Leaving(call: CallId)
    | Returned(call: CallId, result: Result, shared: bool)
    | Handed(call: CallId, result: Result)

  datatype State = State(
    lock: Maybe<Caller>,
    m: map<string, CallId>,
    calls: map<CallId, Call>,
    objects: map<Obj, Object>,
    asked: map<Caller, string>,
    pcs: map<Caller, Pc>)

  // ----- Steps -----------------------------------------------------------------------------------

  /** A caller moves on; nothing else changes. */
  function Goto(s: State, t: Caller, pc: Pc): State {
    s.(pcs := s.pcs[t := pc])
  }

  function DoArrive(s: State, t: Caller, key: string): State {
    Goto(s, t, Enter(key)).(asked := s.asked[t := key])
  }

  predicate CanLock(s: State, t: Caller) {
    t in s.pcs && s.lock.None? && (s.pcs[t].Enter? || s.pcs[t].Cleaning?)
  }

  function DoLock(s: State, t: Caller): State
    requires CanLock(s, t)
  {
    Goto(s, t, if s.pcs[t].Enter? then Inside(s.pcs[t].key) else Deleting(s.pcs[t].call)).(lock := Some(t))
  }

  predicate CanUnlock(s: State, t: Caller) {
    t in s.pcs && (s.pcs[t].JoinLocked? || s.pcs[t].LeadLocked? || s.pcs[t].Deleted?)
  }

  function DoUnlock(s: State, t: Caller): State
    requires CanUnlock(s, t)
  {
    var pc := s.pcs[t];
    var next :=
      if pc.JoinLocked? then Waiting(pc.call) else if pc.LeadLocked? then Running(pc.call) else Leaving(pc.call);
    Goto(s, t, next).(lock := None)
  }

  /** The key is in flight: count the duplicate. */
  predicate CanJoin(s: State, t: Caller) {
    t in s.pcs && s.pcs[t].Inside? && s.pcs[t].key in s.m && s.m[s.pcs[t].key] in s.calls
  }

  function DoJoin(s: State, t: Caller): State
    requires CanJoin(s, t)
  {
    var c := s.m[s.pcs[t].key];
    Goto(s, t, JoinLocked(c)).(calls := s.calls[c := s.calls[c].(dups := s.calls[c].dups + 1)])
  }

  /** It is not: register a new call. */
  predicate CanLead(s: State, t: Caller, id: CallId) {
    t in s.pcs && s.pcs[t].Inside? && s.pcs[t].key !in s.m && id !in s.calls
  }

  function DoLead(s: State, t: Caller, id: CallId): State
    requires CanLead(s, t, id)
  {
    var key := s.pcs[t].key;
    Goto(s, t, LeadLocked(id)).(m := s.m[key := id],
      calls := s.calls[id := Call(key, t, Executing, Result(None, 0, 0), 0)])
  }

  predicate At(s: State, t: Caller) {
    t in s.pcs && !s.pcs[t].Enter? && !s.pcs[t].Inside? && s.pcs[t].call in s.calls
  }

  /** The record of the call t takes part in. */
  function CallOf(s: State, t: Caller): Call
    requires At(s, t)
  {
    s.calls[s.pcs[t].call]
  }

  function SetCall(s: State, t: Caller, c: Call, pc: Pc): State
    requires At(s, t)
  {
    Goto(s, t, pc).(calls := s.calls[s.pcs[t].call := c])
  }

  /** fn runs and its results are stored. */
  predicate CanExecute(s: State, t: Caller, o: Maybe<Obj>) {
    At(s, t) && s.pcs[t].Running? && (o.Some? ==> o.value !in s.objects)
  }

  function DoExecute(s: State, t: Caller, o: Maybe<Obj>, content: int, rtt: int, err: int): State
    requires CanExecute(s, t, o)
  {
    var id := s.pcs[t].call;
    SetCall(s, t, CallOf(s, t).(phase := Stored, result := Result(o, rtt, err)), Storing(id)).(
      objects := if o.Some? then s.objects[o.value := Object(content, FetchedBy(id))] else s.objects)
  }

  predicate CanSignal(s: State, t: Caller) {
    At(s, t) && s.pcs[t].Storing?
  }

  function DoSignal(s: State, t: Caller): State
    requires CanSignal(s, t)
  {
    SetCall(s, t, CallOf(s, t).(phase := Signalled), Cleaning(s.pcs[t].call))
  }

  predicate CanDelete(s: State, t: Caller) {
    At(s, t) && s.pcs[t].Deleting?
  }

  function DoDelete(s: State, t: Caller): State
    requires CanDelete(s, t)
  {
    SetCall(s, t, CallOf(s, t).(phase := Removed), Deleted(s.pcs[t].call)).(m := s.m - {CallOf(s, t).key})
  }

  predicate Settled(phase: Phase) {
    phase.Signalled? || phase.Removed?
  }

  /** Do returns: a duplicate once the wait group is released, the leader with its own count of duplicates. */
  predicate CanReturn(s: State, t: Caller) {
    At(s, t) && (s.pcs[t].Leaving? || (s.pcs[t].Waiting? && Settled(CallOf(s, t).phase)))
  }

  function DoReturn(s: State, t: Caller): State
    requires CanReturn(s, t)
  {
    Goto(s, t, Returned(s.pcs[t].call, CallOf(s, t).result, s.pcs[t].Waiting? || CallOf(s, t).dups > 0))
  }

  /** Exchange hands the message over, copied when it is shared. */
  predicate CanHand(s: State, t: Caller, copy: Obj) {
    && t in s.pcs && s.pcs[t].Returned? && copy !in s.objects
    && (s.pcs[t].result.msg.Some? ==> s.pcs[t].result.msg.value in s.objects)
  }

  function DoHand(s: State, t: Caller, copy: Obj): State
    requires CanHand(s, t, copy)
  {
    var pc := s.pcs[t];
    if pc.result.msg.Some? && pc.shared then
      Goto(s, t, Handed(pc.call, pc.result.(msg := Some(copy)))).(
        objects := s.objects[copy := Object(s.objects[pc.result.msg.value].content, CopiedFor(t))])
    else Goto(s, t, Handed(pc.call, pc.result))
  }

  /** One step of one caller. */
  ghost predicate Next(s: State, n: State) {
    exists t: Caller :: StepBy(s, t, n)
  }

  ghost predicate StepBy(s: State, t: Caller, n: State) {
    || (t !in s.pcs && exists key :: n == DoArrive(s, t, key))
    || (CanLock(s, t) && n == DoLock(s, t))
    || (CanUnlock(s, t) && n == DoUnlock(s, t))
    || (CanJoin(s, t) && n == DoJoin(s, t))
    || (exists id: CallId :: CanLead(s, t, id) && n == DoLead(s, t, id))
    || (exists o: Maybe<Obj>, content: int, rtt: int, err: int ::
          CanExecute(s, t, o) && n == DoExecute(s, t, o, content, rtt, err))
    || (CanSignal(s, t) && n == DoSignal(s, t))
    || (CanDelete(s, t) && n == DoDelete(s, t))
    || (CanReturn(s, t) && n == DoReturn(s, t))
    || (exists copy: Obj :: CanHand(s, t, copy) && n == DoHand(s, t, copy))
  }

  // ----- The invariant ---------------------------------------------------------------------------

  predicate Locked(pc: Pc) {
    pc.Inside? || pc.JoinLocked? || pc.LeadLocked? || pc.Deleting? || pc.Deleted?
  }

  /** The call a caller takes part in. */
  predicate In(pc: Pc, c: CallId) {
    !pc.Enter? && !pc.Inside? && pc.call == c
  }

  /** The points a leader passes in each phase. */
  predicate LeadsAt(pc: Pc, phase: Phase) {
    match phase
    case Executing => pc.LeadLocked? || pc.Running?
    case Stored => pc.Storing?
    case Signalled => pc.Cleaning? || pc.Deleting?
    case Removed => pc.Deleted? || pc.Leaving? || pc.Returned? || pc.Handed?
  }

  /** The callers that joined call c. */
  ghost function Joiners(s: State, c: CallId): set<Caller> {
    set t | t in s.pcs && In(s.pcs[t], c) && c in s.calls && s.calls[c].leader != t
  }

  ghost predicate CallerOk(s: State, t: Caller)
    requires t in s.pcs
  {
    var pc := s.pcs[t];
    && (s.lock == Some(t) <==> Locked(pc))
    && t in s.asked && (pc.Enter? || pc.Inside? ==> pc.key == s.asked[t])
    && (!pc.Enter? && !pc.Inside? ==>
          && pc.call in s.calls
          && var c := s.calls[pc.call];
          && c.key == s.asked[t]
          && (c.leader == t ==> LeadsAt(pc, c.phase))
          && (c.leader != t ==> pc.JoinLocked? || pc.Waiting? || pc.Returned? || pc.Handed?)
          && (pc.Returned? || pc.Handed? ==> c.phase.Signalled? || c.phase.Removed?)
          && (pc.Returned? ==> pc.result == c.result && pc.shared == (c.leader != t || c.dups > 0))
          && (pc.Handed? ==> HandedOk(s, t, pc.result, pc.call)))
  }

  /** The caller has the call's result, in an object of its own. */
  ghost predicate HandedOk(s: State, t: Caller, r: Result, id: CallId)
    requires id in s.calls
  {
    var c := s.calls[id];
    && r.rtt == c.result.rtt && r.err == c.result.err && (r.msg.Some? <==> c.result.msg.Some?)
    && (r.msg.Some? ==>
          && r.msg.value in s.objects && c.result.msg.value in s.objects
          && s.objects[r.msg.value].content == s.objects[c.result.msg.value].content
          && (s.objects[r.msg.value].owner == CopiedFor(t)
              || (s.objects[r.msg.value].owner == FetchedBy(id) && c.leader == t && c.dups == 0)))
  }

  ghost predicate CallOk(s: State, id: CallId)
    requires id in s.calls
  {
    var c := s.calls[id];
    && c.leader in s.pcs && In(s.pcs[c.leader], id)
    && (!c.phase.Removed? <==> c.key in s.m && s.m[c.key] == id)
    && (!c.phase.Executing? && c.result.msg.Some? ==>
          c.result.msg.value in s.objects && s.objects[c.result.msg.value].owner == FetchedBy(id))
    && c.dups == |Joiners(s, id)|
  }

  ghost predicate Inv(s: State) {
    && (s.lock.Some? ==> s.lock.value in s.pcs)
    && (forall k :: k in s.m ==> s.m[k] in s.calls && s.calls[s.m[k]].key == k)
    && (forall t :: t in s.pcs ==> CallerOk(s, t))
    && (forall c :: c in s.calls ==> CallOk(s, c))
  }

  function Initial(): State {
    State(None, map[], map[], map[], map[], map[])
  }

  lemma InitialInv()
    ensures Inv(Initial())
  {
  }

  // ----- Every step keeps the invariant ----------------------------------------------------------------

  /** Callers that join no new call leave the number of joiners alone. */
  lemma SameJoiners(s: State, n: State, c: CallId)
    requires c in s.calls && c in n.calls && s.calls[c].leader == n.calls[c].leader
    requires forall t :: (t in s.pcs && In(s.pcs[t], c)) <==> (t in n.pcs && In(n.pcs[t], c))
    ensures Joiners(n, c) == Joiners(s, c)
  {
  }

  /** A step by t changes only t's own place and the calls t leads, except that a call still in the map may
      gain a duplicate; results, once signalled, and objects stay. */
  ghost predicate Moves(s: State, n: State, t: Caller) {
    && (forall u :: u != t ==> (u in s.pcs <==> u in n.pcs) && (u in s.pcs ==> s.pcs[u] == n.pcs[u]))
    && (forall u :: u != t ==> (s.lock == Some(u) <==> n.lock == Some(u)))
    && (forall u :: u != t && u in s.asked ==> u in n.asked && n.asked[u] == s.asked[u])
    && (forall c :: c in s.calls ==> c in n.calls && Grows(s.calls[c], n.calls[c], t))
    && (forall o :: o in s.objects ==> o in n.objects && n.objects[o] == s.objects[o])
  }

  predicate Grows(a: Call, b: Call, t: Caller) {
    && a.leader == b.leader && a.key == b.key
    && (a.leader != t ==> a.phase == b.phase && a.result == b.result)
    && (Settled(a.phase) ==> Settled(b.phase) && a.result == b.result)
    && (a.phase.Removed? ==> a == b)
  }

  lemma Bystander(s: State, n: State, t: Caller, u: Caller)
    requires Moves(s, n, t) && u != t && u in s.pcs && CallerOk(s, u)
    ensures CallerOk(n, u)
  {
  }

  /** What a step by t must show: t itself in order, the map, and every call. */
  lemma Kept(s: State, n: State, t: Caller)
    requires Inv(s) && Moves(s, n, t) && t in n.pcs && CallerOk(n, t)
    requires n.lock.Some? ==> n.lock.value in n.pcs
    requires forall k :: k in n.m ==> n.m[k] in n.calls && n.calls[n.m[k]].key == k
    requires forall c :: c in n.calls ==> CallOk(n, c)
    ensures Inv(n)
  {
    hide CallerOk, CallOk;
    forall u | u in n.pcs ensures CallerOk(n, u) {
      if u != t {
        Bystander(s, n, t, u);
      }
    }
  }

  /** A call whose record, members and place in the map are as before. */
  lemma CallKept(s: State, n: State, t: Caller, c: CallId)
    requires Inv(s) && Moves(s, n, t) && c in s.calls
             && (t in s.pcs && In(s.pcs[t], c) <==> t in n.pcs && In(n.pcs[t], c))
    requires n.calls[c] == s.calls[c]
    requires s.calls[c].key in s.m && s.m[s.calls[c].key] == c <==>
               n.calls[c].key in n.m && n.m[n.calls[c].key] == c
    ensures CallOk(n, c)
  {
    assert CallOk(s, c);
    SameJoiners(s, n, c);
  }

  lemma Holds(s: State, t: Caller)
    requires Inv(s) && CanUnlock(s, t)
    ensures s.lock == Some(t)
  {
    assert CallerOk(s, t);
  }

  /** A caller between registering a call and removing it leads that call, and the map shows it. */
  lemma Leads(s: State, t: Caller)
    requires Inv(s) && At(s, t) && (s.pcs[t].Running? || s.pcs[t].Storing? || s.pcs[t].Deleting?)
    ensures var c := CallOf(s, t);
            && c.leader == t && LeadsAt(s.pcs[t], c.phase) && c.key in s.m && s.m[c.key] == s.pcs[t].call
            && (!c.phase.Executing? && c.result.msg.Some? ==>
                  c.result.msg.value in s.objects && s.objects[c.result.msg.value].owner == FetchedBy(s.pcs[t].call))
  {
    assert CallerOk(s, t) && CallOk(s, s.pcs[t].call);
  }

  lemma InMap(s: State, key: string)
    requires Inv(s) && key in s.m
    ensures s.m[key] in s.calls && !s.calls[s.m[key]].phase.Removed? && s.calls[s.m[key]].key == key
  {
    assert CallOk(s, s.m[key]);
  }

  /** The call that t leads moves on and keeps its joiners. */
  lemma LedCall(s: State, n: State, t: Caller, id: CallId)
    requires Inv(s) && Moves(s, n, t) && t in s.pcs && In(s.pcs[t], id) && t in n.pcs && In(n.pcs[t], id)
    requires id in s.calls && id in n.calls && s.calls[id].leader == t && n.calls[id].dups == s.calls[id].dups
    requires !n.calls[id].phase.Removed? <==> n.calls[id].key in n.m && n.m[n.calls[id].key] == id
    requires !n.calls[id].phase.Executing? && n.calls[id].result.msg.Some? ==>
               var o := n.calls[id].result.msg.value; o in n.objects && n.objects[o].owner == FetchedBy(id)
    ensures CallOk(n, id)
  {
    assert CallOk(s, id);
    SameJoiners(s, n, id);
  }

  /** The calls besides id stay as they are. */
  lemma OtherCalls(s: State, n: State, t: Caller, id: CallId)
    requires Inv(s) && Moves(s, n, t) && id in n.calls && n.calls == s.calls[id := n.calls[id]]
    requires t in s.pcs && t in n.pcs && forall c :: c != id ==> (In(s.pcs[t], c) <==> In(n.pcs[t], c))
    requires forall k :: k != n.calls[id].key ==> (k in s.m <==> k in n.m) && (k in s.m ==> s.m[k] == n.m[k])
    requires var k := n.calls[id].key; (k in s.m ==> s.m[k] == id) && (k in n.m ==> n.m[k] == id)
    ensures forall c :: c in n.calls && c != id ==> CallOk(n, c)
  {
    hide CallerOk, CallOk, Moves;
    forall c | c in n.calls && c != id ensures CallOk(n, c) {
      CallKept(s, n, t, c);
    }
  }

  lemma JoinedCall(s: State, t: Caller)
    requires Inv(s) && CanJoin(s, t)
    ensures CallOk(DoJoin(s, t), s.m[s.pcs[t].key])
  {
    var n, id := DoJoin(s, t), s.m[s.pcs[t].key];
    assert CallOk(s, id);
    hide Inv;
    OneMoreJoiner(s, n, t, id);
  }

  lemma OneMoreJoiner(s: State, n: State, t: Caller, id: CallId)
    requires id in s.calls && id in n.calls && s.calls[id].leader == n.calls[id].leader != t
    requires t in s.pcs && !In(s.pcs[t], id) && In(JoinLocked(id), id) && n.pcs == s.pcs[t := JoinLocked(id)]
    ensures |Joiners(n, id)| == |Joiners(s, id)| + 1
  {
    assert Joiners(n, id) == Joiners(s, id) + {t} && t !in Joiners(s, id);
  }

  lemma NewCall(s: State, t: Caller, id: CallId)
    requires Inv(s) && CanLead(s, t, id)
    ensures CallOk(DoLead(s, t, id), id)
  {
    NoMembers(s, id);
    assert Joiners(DoLead(s, t, id), id) == {};
  }

  lemma ArriveMoves(s: State, t: Caller, key: string)
    requires t !in s.pcs
    ensures Moves(s, DoArrive(s, t, key), t)
  {
  }

  lemma ArriveCaller(s: State, t: Caller, key: string)
    requires Inv(s) && t !in s.pcs
    ensures CallerOk(DoArrive(s, t, key), t)
  {
  }

  lemma KeepArrive(s: State, t: Caller, key: string)
    requires Inv(s) && t !in s.pcs
    ensures Inv(DoArrive(s, t, key))
  {
    hide CallerOk, CallOk, Moves;
    var n := DoArrive(s, t, key);
    ArriveMoves(s, t, key);
    ArriveCaller(s, t, key);
    forall c | c in n.calls ensures CallOk(n, c) {
      CallKept(s, n, t, c);
    }
    Kept(s, n, t);
  }

  lemma LockMoves(s: State, t: Caller)
    requires CanLock(s, t)
    ensures Moves(s, DoLock(s, t), t)
  {
  }

  lemma LockCaller(s: State, t: Caller)
    requires Inv(s) && CanLock(s, t)
    ensures CallerOk(DoLock(s, t), t)
  {
    assert CallerOk(s, t);
  }

  lemma KeepLock(s: State, t: Caller)
    requires Inv(s) && CanLock(s, t)
    ensures Inv(DoLock(s, t))
  {
    hide CallerOk, CallOk, Moves;
    var n := DoLock(s, t);
    LockMoves(s, t);
    LockCaller(s, t);
    forall c | c in n.calls ensures CallOk(n, c) {
      CallKept(s, n, t, c);
    }
    Kept(s, n, t);
  }

  lemma UnlockMoves(s: State, t: Caller)
    requires CanUnlock(s, t) && s.lock == Some(t)
    ensures Moves(s, DoUnlock(s, t), t)
  {
  }

  lemma UnlockCaller(s: State, t: Caller)
    requires Inv(s) && CanUnlock(s, t)
    ensures CallerOk(DoUnlock(s, t), t)
  {
    assert CallerOk(s, t);
  }

  lemma KeepUnlock(s: State, t: Caller)
    requires Inv(s) && CanUnlock(s, t)
    ensures Inv(DoUnlock(s, t))
  {
    hide CallerOk, CallOk, Moves;
    var n := DoUnlock(s, t);
    Holds(s, t);
    UnlockMoves(s, t);
    UnlockCaller(s, t);
    forall c | c in n.calls ensures CallOk(n, c) {
      CallKept(s, n, t, c);
    }
    Kept(s, n, t);
  }

  lemma ReturnMoves(s: State, t: Caller)
    requires CanReturn(s, t)
    ensures Moves(s, DoReturn(s, t), t)
  {
  }

  lemma ReturnCaller(s: State, t: Caller)
    requires Inv(s) && CanReturn(s, t)
    ensures CallerOk(DoReturn(s, t), t)
  {
    assert CallerOk(s, t);
  }

  lemma KeepReturn(s: State, t: Caller)
    requires Inv(s) && CanReturn(s, t)
    ensures Inv(DoReturn(s, t))
  {
    hide CallerOk, CallOk, Moves;
    var n := DoReturn(s, t);
    ReturnMoves(s, t);
    ReturnCaller(s, t);
    forall c | c in n.calls ensures CallOk(n, c) {
      CallKept(s, n, t, c);
    }
    Kept(s, n, t);
  }

  lemma HandMoves(s: State, t: Caller, copy: Obj)
    requires CanHand(s, t, copy)
    ensures Moves(s, DoHand(s, t, copy), t)
  {
  }

  lemma HandCaller(s: State, t: Caller, copy: Obj)
    requires Inv(s) && CanHand(s, t, copy)
    ensures CallerOk(DoHand(s, t, copy), t)
  {
    assert CallerOk(s, t);
  }

  lemma KeepHand(s: State, t: Caller, copy: Obj)
    requires Inv(s) && CanHand(s, t, copy)
    ensures Inv(DoHand(s, t, copy))
  {
    hide CallerOk, CallOk, Moves;
    var n := DoHand(s, t, copy);
    HandMoves(s, t, copy);
    HandCaller(s, t, copy);
    forall c | c in n.calls ensures CallOk(n, c) {
      CallKept(s, n, t, c);
    }
    Kept(s, n, t);
  }

  lemma ExecuteMoves(s: State, t: Caller, o: Maybe<Obj>, content: int, rtt: int, err: int)
    requires CanExecute(s, t, o) && CallOf(s, t).leader == t && CallOf(s, t).phase.Executing?
    ensures Moves(s, DoExecute(s, t, o, content, rtt, err), t)
  {
  }

  lemma ExecuteCaller(s: State, t: Caller, o: Maybe<Obj>, content: int, rtt: int, err: int)
    requires Inv(s) && CanExecute(s, t, o)
    ensures CallerOk(DoExecute(s, t, o, content, rtt, err), t)
  {
    assert CallerOk(s, t);
  }

  lemma KeepExecute(s: State, t: Caller, o: Maybe<Obj>, content: int, rtt: int, err: int)
    requires Inv(s) && CanExecute(s, t, o)
    ensures Inv(DoExecute(s, t, o, content, rtt, err))
  {
    hide CallerOk, CallOk, Moves;
    var n, id := DoExecute(s, t, o, content, rtt, err), s.pcs[t].call;
    Leads(s, t);
    ExecuteMoves(s, t, o, content, rtt, err);
    ExecuteCaller(s, t, o, content, rtt, err);
    LedCall(s, n, t, id);
    OtherCalls(s, n, t, id);
    Kept(s, n, t);
  }

  lemma SignalMoves(s: State, t: Caller)
    requires CanSignal(s, t) && CallOf(s, t).leader == t && !CallOf(s, t).phase.Removed?
    ensures Moves(s, DoSignal(s, t), t)
  {
  }

  lemma SignalCaller(s: State, t: Caller)
    requires Inv(s) && CanSignal(s, t)
    ensures CallerOk(DoSignal(s, t), t)
  {
    assert CallerOk(s, t);
  }

  lemma KeepSignal(s: State, t: Caller)
    requires Inv(s) && CanSignal(s, t)
    ensures Inv(DoSignal(s, t))
  {
    hide CallerOk, CallOk, Moves;
    var n, id := DoSignal(s, t), s.pcs[t].call;
    Leads(s, t);
    SignalMoves(s, t);
    SignalCaller(s, t);
    LedCall(s, n, t, id);
    OtherCalls(s, n, t, id);
    Kept(s, n, t);
  }

  lemma DeleteMoves(s: State, t: Caller)
    requires CanDelete(s, t) && CallOf(s, t).leader == t && !CallOf(s, t).phase.Removed?
    ensures Moves(s, DoDelete(s, t), t)
  {
  }

  lemma DeleteCaller(s: State, t: Caller)
    requires Inv(s) && CanDelete(s, t)
    ensures CallerOk(DoDelete(s, t), t)
  {
    assert CallerOk(s, t);
  }

  lemma KeepDelete(s: State, t: Caller)
    requires Inv(s) && CanDelete(s, t)
    ensures Inv(DoDelete(s, t))
  {
    hide CallerOk, CallOk, Moves;
    var n, id := DoDelete(s, t), s.pcs[t].call;
    Leads(s, t);
    DeleteMoves(s, t);
    DeleteCaller(s, t);
    LedCall(s, n, t, id);
    OtherCalls(s, n, t, id);
    Kept(s, n, t);
  }

  lemma JoinMoves(s: State, t: Caller)
    requires CanJoin(s, t) && !s.calls[s.m[s.pcs[t].key]].phase.Removed?
    ensures Moves(s, DoJoin(s, t), t)
  {
  }

  lemma JoinCaller(s: State, t: Caller)
    requires Inv(s) && CanJoin(s, t)
    ensures CallerOk(DoJoin(s, t), t)
  {
    assert CallerOk(s, t);
  }

  lemma KeepJoin(s: State, t: Caller)
    requires Inv(s) && CanJoin(s, t)
    ensures Inv(DoJoin(s, t))
  {
    hide CallerOk, CallOk, Moves;
    var n, id := DoJoin(s, t), s.m[s.pcs[t].key];
    InMap(s, s.pcs[t].key);
    JoinMoves(s, t);
    JoinCaller(s, t);
    JoinedCall(s, t);
    OtherCalls(s, n, t, id);
    Kept(s, n, t);
  }

  lemma NoMembers(s: State, id: CallId)
    requires Inv(s) && id !in s.calls
    ensures forall u :: u in s.pcs ==> !In(s.pcs[u], id)
  {
    forall u | u in s.pcs ensures !In(s.pcs[u], id) {
      assert CallerOk(s, u);
    }
  }

  lemma LeadMoves(s: State, t: Caller, id: CallId)
    requires CanLead(s, t, id)
    ensures Moves(s, DoLead(s, t, id), t)
  {
  }

  lemma LeadCaller(s: State, t: Caller, id: CallId)
    requires Inv(s) && CanLead(s, t, id)
    ensures CallerOk(DoLead(s, t, id), t)
  {
    assert CallerOk(s, t);
  }

  lemma KeepLead(s: State, t: Caller, id: CallId)
    requires Inv(s) && CanLead(s, t, id)
    ensures Inv(DoLead(s, t, id))
  {
    hide CallerOk, CallOk, Moves;
    var n := DoLead(s, t, id);
    LeadMoves(s, t, id);
    LeadCaller(s, t, id);
    NewCall(s, t, id);
    OtherCalls(s, n, t, id);
    Kept(s, n, t);
  }

  // ----- Every run ---------------------------------------------------------------------------------

  lemma NextInv(s: State, n: State)
    requires Inv(s) && Next(s, n)
    ensures Inv(n)
  {
    var t: Caller :| StepBy(s, t, n);
    StepInv(s, t, n);
  }

  lemma StepInv(s: State, t: Caller, n: State)
    requires Inv(s) && StepBy(s, t, n)
    ensures Inv(n)
  {
    hide Inv, DoArrive, DoLock, DoUnlock, DoJoin, DoLead, DoExecute, DoSignal, DoDelete, DoReturn, DoHand;
    if CanLock(s, t) && n == DoLock(s, t) {
      KeepLock(s, t);
    } else if CanUnlock(s, t) && n == DoUnlock(s, t) {
      KeepUnlock(s, t);
    } else if CanJoin(s, t) && n == DoJoin(s, t) {
      KeepJoin(s, t);
    } else if CanSignal(s, t) && n == DoSignal(s, t) {
      KeepSignal(s, t);
    } else if CanDelete(s, t) && n == DoDelete(s, t) {
      KeepDelete(s, t);
    } else if CanReturn(s, t) && n == DoReturn(s, t) {
      KeepReturn(s, t);
    } else if t !in s.pcs {
      var key :| n == DoArrive(s, t, key);
      KeepArrive(s, t, key);
    } else if id: CallId :| CanLead(s, t, id) && n == DoLead(s, t, id) {
      KeepLead(s, t, id);
    } else if copy: Obj :| CanHand(s, t, copy) && n == DoHand(s, t, copy) {
      KeepHand(s, t, copy);
    } else {
      var o: Maybe<Obj>, content: int, rtt: int, err: int :| CanExecute(s, t, o)
        && n == DoExecute(s, t, o, content, rtt, err);
      KeepExecute(s, t, o, content, rtt, err);
    }
  }

  /** A run from the start, one step at a time. */
  ghost predicate Run(states: seq<State>) {
    && |states| > 0 && states[0] == Initial()
    && forall i, j :: 0 <= i && j == i + 1 && j < |states| ==> Next(states[i], states[j])
  }

  lemma {:induction false} RunInv(states: seq<State>, i: nat)
    requires Run(states) && i < |states|
    ensures Inv(states[i])
  {
    if i == 0 {
      InitialInv();
    } else {
      RunInv(states, i - 1);
      NextInv(states[i - 1], states[i]);
    }
  }

  /** In every run at most one execution of fn is in flight for a key. */
  lemma OneInFlight(states: seq<State>, i: nat, t: Caller, u: Caller)
    requires Run(states) && i < |states| && t in states[i].pcs && u in states[i].pcs
    requires states[i].pcs[t].Running? && states[i].pcs[u].Running?
    requires t in states[i].asked && u in states[i].asked && states[i].asked[t] == states[i].asked[u]
    ensures t == u
  {
    RunInv(states, i);
    var s := states[i];
    assert CallerOk(s, t) && CallerOk(s, u);
    Leads(s, t);
    Leads(s, u);
  }

  /** In every run, Do returns the stored result of a call for the caller's own key, and shared says exactly
      whether anyone else took part: for a duplicate always, for the leader when there were duplicates. */
  lemma ReturnsCall(states: seq<State>, i: nat, t: Caller)
    requires Run(states) && i < |states| && t in states[i].pcs && states[i].pcs[t].Returned?
    ensures var s := states[i];
            var pc := s.pcs[t];
            && At(s, t) && t in s.asked && CallOf(s, t).key == s.asked[t]
            && Settled(CallOf(s, t).phase) && pc.result == CallOf(s, t).result
            && (pc.shared <==> CallOf(s, t).leader != t || Joiners(s, pc.call) != {})
  {
    RunInv(states, i);
    var s := states[i];
    assert CallerOk(s, t);
    assert CallOk(s, s.pcs[t].call);
  }

  /** In every run, Exchange hands each caller the call's result, and no two callers the same message object. */
  lemma HandsOwnObject(states: seq<State>, i: nat, t: Caller, u: Caller)
    requires Run(states) && i < |states| && t in states[i].pcs && u in states[i].pcs && t != u
    requires states[i].pcs[t].Handed? && states[i].pcs[u].Handed? && states[i].pcs[t].result.msg.Some?
    ensures states[i].pcs[t].result.msg != states[i].pcs[u].result.msg
    ensures var s, r := states[i], states[i].pcs[t].result;
            && At(s, t) && CallOf(s, t).result.msg.Some? && r.rtt == CallOf(s, t).result.rtt
            && r.err == CallOf(s, t).result.err
            && r.msg.value in s.objects && CallOf(s, t).result.msg.value in s.objects
            && s.objects[r.msg.value].content == s.objects[CallOf(s, t).result.msg.value].content
  {
    RunInv(states, i);
    assert CallerOk(states[i], t) && CallerOk(states[i], u);
  }

  /** No deadlock: while some caller has not been handed its result, some caller that has arrived can move. */
  lemma Progress(states: seq<State>, i: nat, t: Caller)
    requires Run(states) && i < |states| && t in states[i].pcs && !states[i].pcs[t].Handed?
    ensures exists u: Caller, n :: u in states[i].pcs && StepBy(states[i], u, n)
  {
    RunInv(states, i);
    var s := states[i];
    if s.lock.Some? {
      MoveLocked(s, s.lock.value);
    } else {
      var u := if s.pcs[t].Waiting? then Awaited(s, t) else t;
      MoveFree(s, u);
    }
  }

  lemma MoveLocked(s: State, t: Caller)
    requires Inv(s) && s.lock == Some(t)
    ensures exists n :: StepBy(s, t, n)
  {
    assert CallerOk(s, t);
    hide Inv;
    if s.pcs[t].Inside? {
      if s.pcs[t].key in s.m {
        assert StepBy(s, t, DoJoin(s, t));
      } else {
        var id := Fresh(s.calls.Keys);
        assert StepBy(s, t, DoLead(s, t, id));
      }
    } else if s.pcs[t].Deleting? {
      assert StepBy(s, t, DoDelete(s, t));
    } else {
      assert StepBy(s, t, DoUnlock(s, t));
    }
  }

  lemma Fresh(ids: set<nat>) returns (id: nat)
    ensures id !in ids
  {
    id := Above(ids);
  }

  lemma Above(ids: set<nat>) returns (id: nat)
    ensures forall x :: x in ids ==> x < id
  {
    id := 0;
    if ids != {} {
      var x :| x in ids;
      var y := Above(ids - {x});
      id := if x < y then y else x + 1;
      forall z | z in ids ensures z < id {
        assert z == x || z in ids - {x};
      }
    }
  }

  /** Who a waiting caller waits for: itself when the result is there, else the leader. */
  ghost function Awaited(s: State, t: Caller): Caller
    requires t in s.pcs && s.pcs[t].Waiting?
  {
    if At(s, t) && !Settled(CallOf(s, t).phase) then CallOf(s, t).leader else t
  }

  lemma MoveFree(s: State, t: Caller)
    requires Inv(s) && s.lock.None? && t in s.pcs && !s.pcs[t].Handed?
    requires s.pcs[t].Waiting? ==> At(s, t) && Settled(CallOf(s, t).phase)
    ensures exists n :: StepBy(s, t, n)
  {
    assert CallerOk(s, t);
    if !s.pcs[t].Enter? {
      assert CallOk(s, s.pcs[t].call);
    }
    hide Inv;
    var pc := s.pcs[t];
    if pc.Enter? || pc.Cleaning? {
      assert StepBy(s, t, DoLock(s, t));
    } else if pc.Running? {
      assert CanExecute(s, t, None);
      assert StepBy(s, t, DoExecute(s, t, None, 0, 0, 0));
    } else if pc.Storing? {
      assert StepBy(s, t, DoSignal(s, t));
    } else if pc.Returned? {
      var copy := Fresh(s.objects.Keys);
      assert StepBy(s, t, DoHand(s, t, copy));
    } else {
      assert StepBy(s, t, DoReturn(s, t));
    }
  }
}
