/** The controller's lock protocol: calls to SetVPN, ticks of the circuit breaker, and a network that changes
    under them. */
module Controller {
  type Caller = nat
  type Link = int

  datatype Maybe<T> = None | Some(value: T)

  datatype Holder = Free | HeldBy(caller: Caller) | HeldByBreaker

  /** Where a call to SetVPN stands. */
  datatype Pc =
    | Calling                       // before the lock
    | Disabling                     // about to switch forwarding off
    | Killing                       // about to end the old VPN process
    | Clearing                      // waiting for the old interface to disappear
    | Preparing                     // about to write the credentials
    | Starting                      // about to start the new process
    | Finding                       // waiting for the new interface
    | Binding                       // about to look the interface up
    | Addressing                    // about to read its address
    | Routing                       // waiting for the route to point at it
    | Enabling(link: Link)          // the last lookup named this link, the interface's own
    | Finished(failed: bool)        // returned
    | Panicked                      // unwound, the deferred unlock done

  /** Where the breaker goroutine stands. */
  datatype Breaker = Sleeping | Ticked | Locked | Tripping | Crashed

  /** vpnProc: nil, a command whose start failed, which has no process, or one that was started. */
  datatype Process = Absent | Unstarted | Started

  datatype State = State(
    forwarding: bool,
    lock: Holder,
    process: Process,               // vpnProc
    iface: Maybe<Link>,             // vpnInterface
    tripped: bool,
    calls: map<Caller, Pc>,
    breaker: Breaker)

  function Initial(forwarding: bool): State {
    State(forwarding, Free, Absent, None, false, map[], Sleeping)
  }

  // ----- Steps of a call ----------------------------------------------------------------------------

  function Goto(s: State, t: Caller, pc: Pc): State {
    s.(calls := s.calls[t := pc])
  }

  /** Switching forwarding off: read the setting, write it when it is on; either may fail. */
  function SwitchOff(forwarding: bool, readable: bool, writable: bool): bool {
    forwarding && !(readable && writable)
  }

  /** What the system answers a step: whether the operation succeeds, which link is named, whether the
      forwarding setting can be read and written. */
  datatype Answers = Answers(ok: bool, link: Link, readable: bool, writable: bool)

  predicate Works(a: Answers) {
    a.readable && a.writable
  }

  predicate CanCall(s: State, t: Caller) {
    t in s.calls && match s.calls[t]
      case Calling => s.lock == Free
      case Finished(_) => false
      case Panicked => false
      case _ => s.lock == HeldBy(t)
  }

  /** The points where a call holds the lock; it is given up by the deferred unlock, on errors too. */
  predicate Inside(pc: Pc) {
    !pc.Calling? && !pc.Finished? && !pc.Panicked?
  }

  /** Where SetVPN goes from each point. */
  function NextPc(s: State, pc: Pc, a: Answers): Pc {
    match pc
    case Calling => Disabling
    case Disabling => if s.process.Absent? then Preparing else Killing
    case Killing => if s.process.Unstarted? then Panicked else if a.ok then Clearing else Finished(true)
    case Clearing => if a.ok then Preparing else Finished(true)
    case Preparing => if a.ok then Starting else Finished(true)
    case Starting => if a.ok then Finding else Finished(true)
    case Finding => if a.ok then Binding else Finished(true)
    case Binding => if a.ok then Addressing else Finished(true)
    case Addressing => if a.ok then Routing else Finished(true)
    case Routing => if !a.ok then Finished(true) else if s.iface == Some(a.link) then Enabling(a.link) else Routing
    case Enabling(_) => Finished(!a.writable)
    case Finished(_) => pc
    case Panicked => pc
  }

  /** What it does to the process: forgotten once killed, set before it is known to start. */
  function NextProcess(s: State, pc: Pc, a: Answers): Process {
    if pc.Killing? && !s.process.Unstarted? && a.ok then Absent
    else if pc.Starting? then (if a.ok then Started else Unstarted)
    else s.process
  }

  /** What it does to the interface on the way: cleared with the old process, set by the lookup. */
  function NextInterface(s: State, pc: Pc, a: Answers): Maybe<Link> {
    if pc.Killing? && !s.process.Unstarted? && a.ok then None
    else if pc.Binding? then (if a.ok then Some(a.link) else None)
    else s.iface
  }

  /** And to the forwarding setting: off first, on last. */
  function NextForwarding(s: State, pc: Pc, a: Answers): bool {
    if pc.Disabling? then SwitchOff(s.forwarding, a.readable, a.writable)
    else s.forwarding || (pc.Enabling? && a.writable)
  }

  /** One step of SetVPN. */
  function Advance(s: State, t: Caller, a: Answers): State
    requires CanCall(s, t)
  {
    var pc := s.calls[t];
    Goto(s, t, NextPc(s, pc, a)).(
      lock := if Inside(NextPc(s, pc, a)) then HeldBy(t) else Free,
      forwarding := NextForwarding(s, pc, a),
      process := NextProcess(s, pc, a),
      iface := NextInterface(s, pc, a))
  }

  // ----- Steps of the breaker -------------------------------------------------------------------------

  predicate CanTick(s: State) {
    match s.breaker
    case Sleeping => true
    case Ticked => s.lock == Free
    case Locked => s.lock == HeldByBreaker
    case Tripping => s.lock == HeldByBreaker
    case Crashed => false
  }

  /** One step of the breaker: the guard is read before the lock is taken. */
  function Tick(s: State, a: Answers): State
    requires CanTick(s)
  {
    match s.breaker
    case Sleeping => if s.iface.Some? && !s.tripped then s.(breaker := Ticked) else s
    case Ticked => s.(breaker := Locked, lock := HeldByBreaker)
    case Locked =>
      if !a.ok then s.(breaker := Sleeping, lock := Free)
      else if s.iface.None? then s.(breaker := Crashed)
      else if s.iface.value != a.link then s.(breaker := Tripping, tripped := true)
      else s.(breaker := Sleeping, lock := Free)
    case Tripping =>
      s.(breaker := Sleeping, lock := Free, forwarding := SwitchOff(s.forwarding, a.readable, a.writable))
    case Crashed => s
  }

  // ----- Runs -----------------------------------------------------------------------------------------

  datatype Event = Arrive(t: Caller) | Call(t: Caller, a: Answers) | Break(a: Answers)

  predicate Enabled(s: State, e: Event) {
    match e
    case Arrive(t) => t !in s.calls
    case Call(t, _) => CanCall(s, t)
    case Break(_) => CanTick(s)
  }

  function Step(s: State, e: Event): State
    requires Enabled(s, e)
  {
    match e
    case Arrive(t) => Goto(s, t, Calling)
    case Call(t, a) => Advance(s, t, a)
    case Break(a) => Tick(s, a)
  }

  ghost predicate Follows(s: State, e: Event, n: State) {
    Enabled(s, e) && n == Step(s, e)
  }

  /** A run: the states and the events between them. */
  ghost predicate Run(states: seq<State>, events: seq<Event>) {
    && |states| == |events| + 1 && states[0] == Initial(states[0].forwarding)
    && forall i, j :: 0 <= i < |events| && j == i + 1 ==> Follows(states[i], events[i], states[j])
  }

  // ----- The invariant ------------------------------------------------------------------------------------

  ghost predicate Inv(s: State) {
    && (forall t :: t in s.calls ==> (Inside(s.calls[t]) <==> s.lock == HeldBy(t)))
    && (s.lock.HeldBy? ==> s.lock.caller in s.calls)
    && (s.lock == HeldByBreaker <==> s.breaker.Locked? || s.breaker.Tripping? || s.breaker.Crashed?)
    && (forall t :: t in s.calls && s.calls[t].Enabling? ==> s.iface == Some(s.calls[t].link))
    && (forall t :: t in s.calls && Inside(s.calls[t]) && s.process.Unstarted? ==> Early(s.calls[t]))
  }

  /** Before the old process is ended. */
  predicate Early(pc: Pc) {
    pc.Calling? || pc.Disabling? || pc.Killing?
  }

  lemma AdvanceInv(s: State, t: Caller, a: Answers)
    requires Inv(s) && CanCall(s, t)
    ensures Inv(Advance(s, t, a))
  {
  }

  lemma StepInv(s: State, e: Event, n: State)
    requires Inv(s) && Follows(s, e, n)
    ensures Inv(n)
  {
    if e.Call? {
      AdvanceInv(s, e.t, e.a);
      hide Advance, Inv;
    }
  }

  lemma {:induction false} RunInv(states: seq<State>, events: seq<Event>, i: nat)
    requires Run(states, events) && i < |states|
    ensures Inv(states[i])
  {
    if i > 0 {
      RunInv(states, events, i - 1);
      StepInv(states[i - 1], events[i - 1], states[i]);
    }
  }

  // ----- Switching forwarding on ------------------------------------------------------------------------

  /** The last step of a SetVPN whose latest route lookup named the VPN's link, under the lock. */
  ghost predicate LastStep(s: State, e: Event) {
    && e.Call? && e.t in s.calls && s.calls[e.t].Enabling? && s.lock == HeldBy(e.t)
    && s.iface == Some(s.calls[e.t].link) && e.a.writable
  }

  /** In every run, forwarding comes on only as the last step of such a call. */
  lemma OnlyEnabledLast(states: seq<State>, events: seq<Event>, i: nat)
    requires Run(states, events) && i < |events|
    requires !states[i].forwarding && states[i + 1].forwarding
    ensures LastStep(states[i], events[i])
  {
    RunInv(states, events, i);
    var s, e := states[i], events[i];
    assert Follows(s, e, states[i + 1]);
  }

  /** In every run, forwarding once off stays off until a SetVPN takes its last step. */
  lemma {:induction false} OffUntilLast(states: seq<State>, events: seq<Event>, i: nat, j: nat)
    requires Run(states, events) && i <= j < |states| && !states[i].forwarding && states[j].forwarding
    ensures exists k :: i <= k < j && LastStep(states[k], events[k])
    decreases j
  {
    if states[j - 1].forwarding {
      OffUntilLast(states, events, i, j - 1);
    } else {
      OnlyEnabledLast(states, events, j - 1);
    }
  }

  // ----- With a working forwarding setting --------------------------------------------------------------

  /** The forwarding setting can be read and written throughout. */
  ghost predicate Working(events: seq<Event>) {
    forall i :: 0 <= i < |events| && !events[i].Arrive? ==> Works(events[i].a)
  }

  /** A call that has begun its work holds forwarding off. */
  predicate Guarding(pc: Pc) {
    Inside(pc) && !pc.Disabling?
  }

  ghost predicate Quiet(s: State) {
    forall t :: t in s.calls && Guarding(s.calls[t]) ==> !s.forwarding
  }

  lemma StepQuiet(s: State, e: Event, n: State)
    requires Inv(s) && Quiet(s) && Follows(s, e, n) && (e.Arrive? || Works(e.a))
    ensures Quiet(n)
  {
  }

  lemma {:induction false} RunQuiet(states: seq<State>, events: seq<Event>, i: nat)
    requires Run(states, events) && Working(events) && i < |states|
    ensures Quiet(states[i])
  {
    if i > 0 {
      RunQuiet(states, events, i - 1);
      RunInv(states, events, i - 1);
      StepQuiet(states[i - 1], events[i - 1], states[i]);
    }
  }

  /** In every run, a SetVPN that returns an error, or panics, leaves forwarding off. */
  lemma ErrorLeavesOff(states: seq<State>, events: seq<Event>, i: nat)
    requires Run(states, events) && Working(events) && i < |events| && events[i].Call?
    requires states[i + 1].calls[events[i].t] in {Finished(true), Panicked}
    ensures !states[i + 1].forwarding
  {
    RunInv(states, events, i);
    RunQuiet(states, events, i);
    assert Follows(states[i], events[i], states[i + 1]);
  }

  /** In every run, a tick that trips leaves forwarding off, and so it stays until a SetVPN takes its last step. */
  lemma TripLeavesOff(states: seq<State>, events: seq<Event>, i: nat, j: nat)
    requires Run(states, events) && Working(events) && i < |events| && i < j < |states|
    requires events[i].Break? && states[i].breaker.Tripping?
    ensures !states[i + 1].forwarding
    ensures states[j].forwarding ==> exists k :: i < k < j && LastStep(states[k], events[k])
  {
    assert Follows(states[i], events[i], states[i + 1]);
    if states[j].forwarding {
      OffUntilLast(states, events, i + 1, j);
    }
  }

  // ----- When a tick protects --------------------------------------------------------------------------

  /** One whole tick with nothing in between: guard, lock, lookup, and the switch. */
  function WholeTick(s: State, a: Answers): State
    requires s.breaker.Sleeping? && s.lock.Free?
  {
    var g := Tick(s, a);
    if g.breaker.Sleeping? then g
    else
      var l := Tick(Tick(g, a), a);
      if l.breaker.Tripping? then Tick(l, a) else l
  }

  /** With traffic routed past the VPN, a tick ends with forwarding off exactly when it was off already, or the
      breaker has never tripped before, an interface is set, and lookup and setting work. */
  lemma TickProtects(s: State, a: Answers)
    requires s.breaker.Sleeping? && s.lock.Free? && s.iface != Some(a.link)
    ensures !WholeTick(s, a).forwarding <==> !s.forwarding || (!s.tripped && s.iface.Some? && a.ok && Works(a))
  {
  }

  /** A breaker that has tripped once never acts again, whatever SetVPN does later. */
  lemma {:induction false} TrippedForever(states: seq<State>, events: seq<Event>, i: nat, j: nat)
    requires Run(states, events) && i <= j < |states| && states[i].tripped && states[i].breaker.Sleeping?
    ensures states[j].tripped && states[j].breaker.Sleeping?
    decreases j
  {
    if i < j {
      TrippedForever(states, events, i, j - 1);
      assert Follows(states[j - 1], events[j - 1], states[j]);
    }
  }

  // ----- A run the breaker does not protect --------------------------------------------------------------

  ghost predicate Possible(s: State, events: seq<Event>)
    decreases |events|
  {
    events == [] || (Enabled(s, events[0]) && Possible(Step(s, events[0]), events[1..]))
  }

  ghost function After(s: State, events: seq<Event>): State
    requires Possible(s, events)
    decreases |events|
  {
    if events == [] then s else After(Step(s, events[0]), events[1..])
  }

  lemma {:induction false} PossibleConcat(s: State, a: seq<Event>, b: seq<Event>)
    requires Possible(s, a) && Possible(After(s, a), b)
    ensures Possible(s, a + b) && After(s, a + b) == After(After(s, a), b)
    decreases |a|
  {
    if a == [] {
      assert a + b == b;
    } else {
      PossibleConcat(Step(s, a[0]), a[1..], b);
      assert (a + b)[1..] == a[1..] + b;
    }
  }

  /** The states on the way. */
  lemma {:induction false} Trace(s: State, events: seq<Event>) returns (states: seq<State>)
    requires Possible(s, events)
    ensures |states| == |events| + 1 && states[0] == s && states[|events|] == After(s, events)
    ensures forall i, j :: 0 <= i < |events| && j == i + 1 ==> Follows(states[i], events[i], states[j])
    decreases |events|
  {
    states := [s];
    if events != [] {
      var rest := Trace(Step(s, events[0]), events[1..]);
      states := [s] + rest;
      forall i, j | 0 <= i < |events| && j == i + 1 ensures Follows(states[i], events[i], states[j]) {
        if i > 0 {
          assert Follows(rest[i - 1], events[1..][i - 1], rest[i]);
        }
      }
    }
  }

  lemma First(s: State, e: Event, rest: seq<Event>)
    requires Enabled(s, e) && Possible(Step(s, e), rest)
    ensures Possible(s, [e] + rest) && After(s, [e] + rest) == After(Step(s, e), rest)
  {
    assert ([e] + rest)[1..] == rest;
  }

  /** A run and one more step. */
  lemma Extend(states: seq<State>, events: seq<Event>, e: Event) returns (states': seq<State>, events': seq<Event>)
    requires |states| == |events| + 1 && Run(states, events) && Enabled(states[|events|], e)
    ensures |states'| == |events'| + 1 && Run(states', events') && states'[|events'|] == Step(states[|events|], e)
  {
    states', events' := states + [Step(states[|events|], e)], events + [e];
    forall i, j | 0 <= i < |events'| && j == i + 1 ensures Follows(states'[i], events'[i], states'[j]) {
      assert i < |events| ==> Follows(states[i], events[i], states[j]);
    }
  }

  function Left(pc: Pc): nat {
    match pc
    case Calling => 11
    case Disabling => 10
    case Killing => 9
    case Clearing => 8
    case Preparing => 7
    case Starting => 6
    case Finding => 5
    case Binding => 4
    case Addressing => 3
    case Routing => 2
    case Enabling(_) => 1
    case Finished(_) => 0
    case Panicked => 0
  }

  // ----- After a start that failed ------------------------------------------------------------------------

  /** In every run, once a start has failed there is never again a VPN process, forwarding never comes on, and
      every call that gets as far as ending the old process panics. */
  lemma {:induction false} UnstartedForever(states: seq<State>, events: seq<Event>, i: nat, j: nat)
    requires Run(states, events) && i <= j < |states| && states[i].process.Unstarted?
    ensures states[j].process.Unstarted? && (states[j].forwarding ==> states[i].forwarding)
    ensures i < j && events[j - 1].Call? && states[j - 1].calls[events[j - 1].t].Killing? ==>
              states[j].calls[events[j - 1].t].Panicked?
    decreases j
  {
    if i < j {
      UnstartedForever(states, events, i, j - 1);
      RunInv(states, events, j - 1);
      assert Follows(states[j - 1], events[j - 1], states[j]);
    }
  }

  /** A step of SetVPN that fails to start the process. */
  ghost predicate StartFails(s: State, e: Event) {
    e.Call? && e.t in s.calls && s.calls[e.t].Starting? && !e.a.ok
  }

  /** Some start has failed before state i of the run. */
  ghost predicate StartFailed(states: seq<State>, events: seq<Event>, i: nat)
    requires i <= |states| && i <= |events|
  {
    exists k :: 0 <= k < i && StartFails(states[k], events[k])
  }

  /** In every run, the process is there without having been started exactly when a start has failed before. */
  lemma {:induction false} UnstartedExactly(states: seq<State>, events: seq<Event>, i: nat)
    requires Run(states, events) && i < |states|
    ensures states[i].process.Unstarted? <==> StartFailed(states, events, i)
  {
    if i > 0 {
      UnstartedExactly(states, events, i - 1);
      RunInv(states, events, i - 1);
      assert Follows(states[i - 1], events[i - 1], states[i]);
      if states[i].process.Unstarted? && !states[i - 1].process.Unstarted? {
        assert StartFails(states[i - 1], events[i - 1]);
      }
    }
  }

  /** In every run, a step of SetVPN panics exactly when it is about to end the old process and a start has failed
      before. */
  lemma PanicsExactly(states: seq<State>, events: seq<Event>, i: nat)
    requires Run(states, events) && i < |events| && events[i].Call?
    ensures states[i + 1].calls[events[i].t].Panicked? <==>
            states[i].calls[events[i].t].Killing? && StartFailed(states, events, i)
  {
    UnstartedExactly(states, events, i);
    assert Follows(states[i], events[i], states[i + 1]);
  }

  // ----- Calls that succeed ---------------------------------------------------------------------------------

  /** When everything it asks for succeeds, a call to SetVPN can run to its end and switch forwarding on. */
  lemma {:induction false} Complete(s: State, t: Caller, link: Link) returns (events: seq<Event>)
    requires CanCall(s, t) && (Left(s.calls[t]) < 4 ==> s.iface == Some(link))
    requires s.process.Unstarted? ==> !Early(s.calls[t])
    ensures Possible(s, events) && t in After(s, events).calls && After(s, events).calls[t] == Finished(false)
    ensures var n := After(s, events);
            n.forwarding && n.iface == Some(link) && n.lock == Free && n.tripped == s.tripped && n.breaker == s.breaker
            && n.calls.Keys == s.calls.Keys && (Left(s.calls[t]) >= 6 || s.process.Started? ==> n.process.Started?)
    decreases Left(s.calls[t])
  {
    var e := Call(t, Answers(true, link, true, true));
    var n := Step(s, e);
    if n.calls[t].Finished? {
      events := [];
    } else {
      events := Complete(n, t, link);
    }
    First(s, e, events);
    events := [e] + events;
  }

  lemma ArriveAndComplete(s: State, t: Caller, link: Link) returns (events: seq<Event>)
    requires t !in s.calls && s.lock == Free && !s.process.Unstarted?
    ensures Possible(s, events)
    ensures var n := After(s, events);
            n.forwarding && n.iface == Some(link) && n.lock == Free && n.tripped == s.tripped && n.breaker == s.breaker
            && n.calls.Keys == s.calls.Keys + {t} && n.calls[t] == Finished(false) && n.process.Started?
  {
    var e := Arrive(t);
    var rest := Complete(Step(s, e), t, link);
    First(s, e, rest);
    events := [e] + rest;
  }

  ghost predicate Succeeds(s: State, t: Caller, events: seq<Event>) {
    Possible(s, events) && t in After(s, events).calls && After(s, events).calls[t] == Finished(false)
  }

  lemma StepUnstarted(s: State, e: Event, n: State, t: Caller)
    requires Inv(s) && s.process.Unstarted? && Follows(s, e, n) && (t in s.calls ==> s.calls[t] != Finished(false))
    ensures n.process.Unstarted? && (t in n.calls ==> n.calls[t] != Finished(false))
  {}

  lemma {:induction false} NeverSucceeds(s: State, t: Caller, events: seq<Event>)
    requires Inv(s) && s.process.Unstarted? && Possible(s, events) && (t in s.calls ==> s.calls[t] != Finished(false))
    ensures !Succeeds(s, t, events)
    decreases |events|
  {
    hide Inv, Step, Enabled;
    if events != [] {
      assert Follows(s, events[0], Step(s, events[0]));
      StepInv(s, events[0], Step(s, events[0]));
      StepUnstarted(s, events[0], Step(s, events[0]), t);
      NeverSucceeds(Step(s, events[0]), t, events[1..]);
    }
  }

  /** After every run that leaves the lock free, a new call can still succeed exactly when no start has failed. */
  lemma SucceedsExactly(states: seq<State>, events: seq<Event>, t: Caller)
    requires Run(states, events) && states[|events|].lock == Free && t !in states[|events|].calls
    ensures (exists more :: Succeeds(states[|events|], t, more)) <==> !StartFailed(states, events, |events|)
  {
    var s := states[|events|];
    RunInv(states, events, |events|);
    UnstartedExactly(states, events, |events|);
    if s.process.Unstarted? {
      forall more | Possible(s, more) ensures !Succeeds(s, t, more) {
        NeverSucceeds(s, t, more);
      }
    } else {
      var more := ArriveAndComplete(s, t, 7);
      assert Succeeds(s, t, more);
    }
  }

  lemma Trip(s: State, link: Link) returns (events: seq<Event>)
    requires s.lock == Free && s.breaker.Sleeping? && s.iface.Some? && s.iface.value != link && !s.tripped
    ensures Possible(s, events) && After(s, events) == s.(tripped := true, forwarding := false)
  {
    var e := Break(Answers(true, link, true, true));
    var s1 := Step(s, e);
    var s2 := Step(s1, e);
    var s3 := Step(s2, e);
    First(s3, e, []);
    First(s2, e, [e]);
    First(s1, e, [e] + [e]);
    First(s, e, [e] + ([e] + [e]));
    events := [e] + ([e] + ([e] + [e]));
  }

  /** The promise that traffic which stops going through the VPN is not forwarded for more than a second fails:
      SetVPN, a trip, SetVPN again, and from then on no tick does anything wherever the route leads. */
  lemma SecondFailureUnnoticed() returns (states: seq<State>, events: seq<Event>)
    ensures Run(states, events)
    ensures var s := states[|events|];
            && s.forwarding && s.iface == Some(7) && s.breaker.Sleeping? && s.lock.Free?
            && forall a :: WholeTick(s, a) == s
  {
    var s0 := Initial(false);
    var a := ArriveAndComplete(s0, 0, 7);
    var s1 := After(s0, a);
    var b := Trip(s1, 3);
    var s2 := After(s1, b);
    var c := ArriveAndComplete(s2, 1, 7);
    PossibleConcat(s0, a, b);
    PossibleConcat(s0, a + b, c);
    events := a + b + c;
    states := Trace(s0, events);
  }

  // ----- The interface cleared under a tick ----------------------------------------------------------------

  /** The breaker's guard sees an interface, before the lock is taken. */
  ghost predicate GuardRead(s: State, e: Event) {
    e.Break? && s.breaker.Sleeping? && s.iface.Some? && !s.tripped
  }

  /** A step of SetVPN takes the interface away. */
  ghost predicate Clears(s: State, e: Event, n: State) {
    e.Call? && s.iface.Some? && n.iface.None?
  }

  /** The breaker is past its guard and has not looked at the interface yet. */
  predicate Between(s: State) {
    s.breaker.Ticked? || s.breaker.Locked?
  }

  /** Since the guard of the tick under way at i was read, a call has taken the interface away for good. */
  ghost predicate ClearedAt(states: seq<State>, events: seq<Event>, i: nat, k: nat, l: nat)
    requires |states| == |events| + 1 && i < |states|
  {
    && k < l < i && GuardRead(states[k], events[k]) && (forall m :: k < m <= i ==> Between(states[m]))
    && Clears(states[l], events[l], states[l + 1]) && (forall m :: l < m <= i ==> states[m].iface.None?)
  }

  ghost predicate ClearedSince(states: seq<State>, events: seq<Event>, i: nat)
    requires |states| == |events| + 1 && i < |states|
  {
    exists k: nat, l: nat :: ClearedAt(states, events, i, k, l)
  }

  lemma {:induction false} GuardBefore(states: seq<State>, events: seq<Event>, i: nat) returns (k: nat)
    requires Run(states, events) && i < |states| && Between(states[i])
    ensures k < i && GuardRead(states[k], events[k]) && states[k + 1].iface.Some?
    ensures forall m :: k < m <= i ==> Between(states[m])
  {
    assert i > 0;
    assert Follows(states[i - 1], events[i - 1], states[i]);
    if Between(states[i - 1]) {
      k := GuardBefore(states, events, i - 1);
    } else {
      k := i - 1;
    }
  }

  /** In every run, a breaker past its guard finds no interface exactly when a call has taken it away since. */
  lemma {:induction false} GoneSinceGuard(states: seq<State>, events: seq<Event>, i: nat)
    requires Run(states, events) && i < |states| && Between(states[i])
    ensures states[i].iface.None? <==> ClearedSince(states, events, i)
  {
    if states[i].iface.None? {
      var k := GuardBefore(states, events, i);
      assert Follows(states[i - 1], events[i - 1], states[i]);
      if states[i - 1].iface.None? {
        assert k + 1 < i && Between(states[i - 1]);
        GoneSinceGuard(states, events, i - 1);
        var k', l: nat :| ClearedAt(states, events, i - 1, k', l);
        assert ClearedAt(states, events, i, k', l);
      } else {
        assert ClearedAt(states, events, i, k, i - 1);
      }
    }
  }

  /** In every run, a step of the breaker fails on a missing interface exactly when it is the look at the route
      under the lock, the lookup works, and a call has taken the interface away since the guard was read. */
  lemma CrashExactly(states: seq<State>, events: seq<Event>, i: nat)
    requires Run(states, events) && i < |events| && events[i].Break?
    ensures states[i + 1].breaker.Crashed? <==>
            states[i].breaker.Locked? && events[i].a.ok && ClearedSince(states, events, i)
  {
    assert Follows(states[i], events[i], states[i + 1]);
    if Between(states[i]) {
      GoneSinceGuard(states, events, i);
    }
  }

  lemma OneCall() returns (states: seq<State>, events: seq<Event>)
    ensures |states| == |events| + 1 && Run(states, events)
    ensures var s := states[|events|];
            && s.iface == Some(7) && s.lock == Free && !s.tripped && s.breaker.Sleeping?
            && s.calls.Keys == {0} && s.process.Started?
  {
    events := ArriveAndComplete(Initial(false), 0, 7);
    states := Trace(Initial(false), events);
  }

  lemma Start() returns (states: seq<State>, events: seq<Event>)
    ensures |states| == |events| + 1 && Run(states, events) && states[|events|] == Initial(false)
  {
    states, events := [Initial(false)], [];
  }

  const GOOD := Answers(true, 0, true, true)
  const BAD := Answers(false, 0, true, true)

  /** A tick whose guard has seen the interface, which a SetVPN has taken away since. */
  lemma Overtaken() returns (states: seq<State>, events: seq<Event>)
    ensures |states| == |events| + 1 && Run(states, events)
    ensures var s := states[|events|];
            s.breaker.Ticked? && s.iface.None? && s.lock == HeldBy(1) && 1 in s.calls && s.calls[1].Clearing?
  {
    hide Run;
    states, events := OneCall();
    states, events := Extend(states, events, Break(GOOD));
    states, events := Extend(states, events, Arrive(1));
    states, events := Extend(states, events, Call(1, GOOD));
    states, events := Extend(states, events, Call(1, GOOD));
    states, events := Extend(states, events, Call(1, GOOD));
  }

  /** It happens: a run from the start whose last tick saw the interface, which a SetVPN then took away and gave
      up, and which fails on finding it gone. */
  lemma ClearedUnderTick() returns (states: seq<State>, events: seq<Event>)
    ensures |states| == |events| + 1 && Run(states, events) && states[|events|].breaker.Crashed?
  {
    hide Run;
    states, events := Overtaken();
    states, events := Extend(states, events, Call(1, BAD));
    states, events := Extend(states, events, Break(GOOD));
    states, events := Extend(states, events, Break(GOOD));
  }

  lemma FailedStart() returns (states: seq<State>, events: seq<Event>)
    ensures |states| == |events| + 1 && Run(states, events)
    ensures var s := states[|events|]; s.process.Unstarted? && s.lock == Free && s.calls.Keys == {0}
  {
    hide Run;
    states, events := Start();
    states, events := Extend(states, events, Arrive(0));
    states, events := Extend(states, events, Call(0, GOOD));
    states, events := Extend(states, events, Call(0, GOOD));
    states, events := Extend(states, events, Call(0, GOOD));
    states, events := Extend(states, events, Call(0, BAD));
  }

  /** That happens too: a run from the start in which a start fails and the next call panics. */
  lemma PanicAfterFailedStart() returns (states: seq<State>, events: seq<Event>)
    ensures |states| == |events| + 1 && Run(states, events)
    ensures var s := states[|events|]; s.process.Unstarted? && 1 in s.calls && s.calls[1].Panicked?
  {
    hide Run;
    states, events := FailedStart();
    states, events := Extend(states, events, Arrive(1));
    states, events := Extend(states, events, Call(1, GOOD));
    states, events := Extend(states, events, Call(1, GOOD));
    states, events := Extend(states, events, Call(1, GOOD));
  }
}
