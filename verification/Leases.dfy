/** The lease state machine of the DHCP server, and what holds over every run of it. */
module Leases {
  import opened DhcpPacket

  const ADDRESSES := 0x1_0000_0000
  const DISCOVER: byte := 1
  const OFFER: byte := 2
  const REQUEST: byte := 3
  const ACK: byte := 5
  const NAK: byte := 6
  const INFORM: byte := 8

  // ----- Addresses -------------------------------------------------------------------------------

  function Address(b: Bytes): (n: nat)
    requires |b| == 4
    ensures n < ADDRESSES
  {
    ((b[0] as int * 256 + b[1]) * 256 + b[2]) * 256 + b[3]
  }

  lemma AddressOctets(b: Bytes)
    requires |b| == 4
    ensures Be32(Address(b)) == b
  {
    var n := Address(b);
    var high := b[0] as int * 256 + b[1];
    var mid := high * 256 + b[2];
    assert n / 0x100 == mid && mid / 0x100 == high && high / 0x100 == b[0];
    assert n / 0x1_0000 == high && n / 0x100_0000 == b[0];
  }

  lemma OctetsAddress(n: nat)
    requires n < ADDRESSES
    ensures Address(Be32(n)) == n
  {
    var a, b, c := n / 0x100, n / 0x1_0000, n / 0x100_0000;
    assert n == 0x100 * a + n % 0x100;
    assert a == 0x100 * b + a % 0x100;
    assert b == 0x100 * c + b % 0x100;
    assert c % 0x100 == c;
  }

  /** Addresses are equal exactly when their octets are. */
  lemma AddressInjective(a: Bytes, b: Bytes)
    requires |a| == 4 && |b| == 4
    ensures Address(a) == Address(b) <==> a == b
  {
    AddressOctets(a);
    AddressOctets(b);
  }

  // ----- One message -----------------------------------------------------------------------------

  datatype State = State(next: nat, leases: map<Bytes, nat>)

  datatype Answer = Silent | Crash | Offer(ip: nat) | Ack(ip: nat) | Nak

  datatype Outcome = Outcome(state: State, answer: Answer)

  function Get(opts: map<byte, Bytes>, code: byte): Bytes {
    if code in opts then opts[code] else []
  }

  /** A request is for this server unless it names another one. */
  predicate ForUs(base: nat, opts: map<byte, Bytes>) {
    OPTION_SERVER_ID in opts ==> To4(opts[OPTION_SERVER_ID]) == Be32(base)
  }

  /** ServeDHCP as a step of the lease state. */
  function Decide(base: nat, s: State, kind: byte, client: Bytes, opts: map<byte, Bytes>): Outcome {
    if kind == DISCOVER then
      Outcome(s, Offer(if client in s.leases then s.leases[client] else s.next))
    else if kind != REQUEST || !ForUs(base, opts) then Outcome(s, Silent)
    else if To4(Get(opts, OPTION_REQUESTED_IP)) == [] then Outcome(s, Crash)
    else Grant(s, client, Address(To4(Get(opts, OPTION_REQUESTED_IP))))
  }

  function Grant(s: State, client: Bytes, ip: nat): Outcome {
    if ip != 0 && ip == s.next then
      Outcome(State((s.next + 1) % ADDRESSES, s.leases[client := ip]), Ack(ip))
    else if client in s.leases && s.leases[client] == ip then Outcome(s, Ack(ip))
    else Outcome(s, Nak)
  }

  /** What a discover is answered with. */
  lemma Discovered(base: nat, s: State, client: Bytes, opts: map<byte, Bytes>)
    ensures Decide(base, s, 1, client, opts) ==
            Outcome(s, Offer(if client in s.leases then s.leases[client] else s.next))
  {
  }

  // ----- What every message keeps ------------------------------------------------------------------

  /** Addresses are handed out upwards from the server's own; once all are gone next is zero. */
  ghost predicate Used(base: nat, s: State, ip: nat) {
    base < ip < ADDRESSES && (s.next == 0 || ip < s.next)
  }

  ghost predicate Safe(base: nat, s: State) {
    && base < ADDRESSES && s.next < ADDRESSES && (s.next == 0 || base < s.next)
    && (forall c :: c in s.leases ==> Used(base, s, s.leases[c]))
    && (forall c, d :: c in s.leases && d in s.leases && s.leases[c] == s.leases[d] ==> c == d)
  }

  /** The state dhcpDNSRoutine starts with. */
  function Initial(base: nat): State {
    State((base + 1) % ADDRESSES, map[])
  }

  lemma InitialSafe(base: nat)
    requires base < ADDRESSES
    ensures Safe(base, Initial(base))
  {
  }

  /** Every message keeps leases injective and between the server's address and the next one. */
  lemma DecideSafe(base: nat, s: State, kind: byte, client: Bytes, opts: map<byte, Bytes>)
    requires Safe(base, s)
    ensures Safe(base, Decide(base, s, kind, client, opts).state)
  {
    var ip := s.next;
    var r := Decide(base, s, kind, client, opts).state;
    if r != s {
      assert r == State((ip + 1) % ADDRESSES, s.leases[client := ip]);
      assert (ip + 1) % ADDRESSES == if ip + 1 == ADDRESSES then 0 else ip + 1;
    }
  }

  /** An acknowledged address is the client's lease, is not the server's own, and is in use from then on. */
  lemma AckIsLease(base: nat, s: State, kind: byte, client: Bytes, opts: map<byte, Bytes>)
    requires Safe(base, s) && Decide(base, s, kind, client, opts).answer.Ack?
    ensures var r := Decide(base, s, kind, client, opts);
            client in r.state.leases && r.state.leases[client] == r.answer.ip && Used(base, r.state, r.answer.ip)
              && r.answer.ip != base
  {
    DecideSafe(base, s, kind, client, opts);
  }

  /** Asking again for one's own lease is acknowledged and changes nothing. */
  lemma Renew(base: nat, s: State, client: Bytes, opts: map<byte, Bytes>)
    requires Safe(base, s) && client in s.leases && ForUs(base, opts)
    requires To4(Get(opts, OPTION_REQUESTED_IP)) == Be32(s.leases[client])
    ensures Decide(base, s, REQUEST, client, opts) == Outcome(s, Ack(s.leases[client]))
  {
    OctetsAddress(s.leases[client]);
  }

  /** The offered address is acknowledged when the client asks for it next, unless none is left. */
  lemma OfferHonoured(base: nat, s: State, client: Bytes, opts: map<byte, Bytes>, ask: map<byte, Bytes>)
    requires Safe(base, s) && ForUs(base, ask)
    requires To4(Get(ask, OPTION_REQUESTED_IP)) == Be32(Decide(base, s, DISCOVER, client, opts).answer.ip)
    ensures var ip := Decide(base, s, DISCOVER, client, opts).answer.ip;
            Decide(base, s, REQUEST, client, ask).answer == if ip == 0 then Nak else Ack(ip)
  {
    OctetsAddress(Decide(base, s, DISCOVER, client, opts).answer.ip);
  }

  /** The server stops on a request exactly when the requested address option holds no IPv4 address. */
  lemma CrashExactly(base: nat, s: State, kind: byte, client: Bytes, opts: map<byte, Bytes>)
    ensures Decide(base, s, kind, client, opts).answer == Crash <==>
            kind == REQUEST && ForUs(base, opts) && To4(Get(opts, OPTION_REQUESTED_IP)) == []
  {
  }

  /** A client that renews as section 4.3.2 of RFC 2131 has it, with its address in ciaddr and no requested
      address option, stops the server: the fallback to ciaddr is never reached. */
  lemma RenewWithoutOption(base: nat, s: State, client: Bytes, opts: map<byte, Bytes>)
    requires OPTION_REQUESTED_IP !in opts && OPTION_SERVER_ID !in opts
    ensures Decide(base, s, REQUEST, client, opts) == Outcome(s, Crash)
  {
  }

  // ----- Whole runs ------------------------------------------------------------------------------------

  datatype Message = Message(kind: byte, client: Bytes, opts: map<byte, Bytes>)

  function Answered(base: nat, s: State, m: Message): Outcome {
    Decide(base, s, m.kind, m.client, m.opts)
  }

  /** The state after the messages. */
  function Reached(base: nat, s: State, ms: seq<Message>): State {
    if ms == [] then s else Answered(base, Reached(base, s, ms[..|ms| - 1]), ms[|ms| - 1]).state
  }

  /** The answer to message i of a run. */
  function AnswerTo(base: nat, s: State, ms: seq<Message>, i: nat): Answer
    requires i < |ms|
  {
    Answered(base, Reached(base, s, ms[..i]), ms[i]).answer
  }

  /** Who was last given each address. */
  function Holders(base: nat, s: State, ms: seq<Message>): map<nat, Bytes> {
    if ms == [] then map[]
    else
      var front := ms[..|ms| - 1];
      var last := ms[|ms| - 1];
      var a := Answered(base, Reached(base, s, front), last).answer;
      if a.Ack? then Holders(base, s, front)[a.ip := last.client] else Holders(base, s, front)
  }

  /** The history agrees with the leases, and every address in it is used up. */
  ghost predicate Consistent(base: nat, s: State, holders: map<nat, Bytes>) {
    && Safe(base, s)
    && (forall ip :: ip in holders ==> Used(base, s, ip))
    && (forall c :: c in s.leases ==> s.leases[c] in holders && holders[s.leases[c]] == c)
  }

  /** One message: an address that was ever given out goes to nobody else. */
  lemma StepConsistent(base: nat, s: State, m: Message, holders: map<nat, Bytes>)
    requires Consistent(base, s, holders)
    ensures var r := Answered(base, s, m);
            && (r.answer.Ack? && r.answer.ip in holders ==> holders[r.answer.ip] == m.client)
            && Consistent(base, r.state, if r.answer.Ack? then holders[r.answer.ip := m.client] else holders)
  {
    DecideSafe(base, s, m.kind, m.client, m.opts);
    var r := Answered(base, s, m);
    if r.state != s {
      assert r.state == State((s.next + 1) % ADDRESSES, s.leases[m.client := s.next]) && r.answer == Ack(s.next);
      assert s.next !in holders;
    }
  }

  lemma {:induction false} RunConsistent(base: nat, ms: seq<Message>)
    requires base < ADDRESSES
    ensures Consistent(base, Reached(base, Initial(base), ms), Holders(base, Initial(base), ms))
  {
    if ms == [] {
      InitialSafe(base);
    } else {
      var front := ms[..|ms| - 1];
      RunConsistent(base, front);
      StepConsistent(base, Reached(base, Initial(base), front), ms[|ms| - 1], Holders(base, Initial(base), front));
    }
  }

  /** Once given, an address stays its holder's for the rest of the run. */
  lemma {:induction false} HeldForever(base: nat, ms: seq<Message>, i: nat)
    requires base < ADDRESSES && i < |ms| && AnswerTo(base, Initial(base), ms, i).Ack?
    ensures var ip := AnswerTo(base, Initial(base), ms, i).ip;
            ip in Holders(base, Initial(base), ms) && Holders(base, Initial(base), ms)[ip] == ms[i].client
  {
    var front, s := ms[..|ms| - 1], Initial(base);
    if i < |front| {
      assert front[..i] == ms[..i];
      HeldForever(base, front, i);
      RunConsistent(base, front);
      StepConsistent(base, Reached(base, s, front), ms[|ms| - 1], Holders(base, s, front));
    }
  }

  /** No run acknowledges one address to two clients, and none acknowledges the server's own address. */
  lemma NeverShared(base: nat, ms: seq<Message>, i: nat, j: nat)
    requires base < ADDRESSES && i < |ms| && j < |ms|
    requires AnswerTo(base, Initial(base), ms, i).Ack?
    ensures AnswerTo(base, Initial(base), ms, i).ip != base
    ensures AnswerTo(base, Initial(base), ms, i) == AnswerTo(base, Initial(base), ms, j) ==>
              ms[i].client == ms[j].client
  {
    RunConsistent(base, ms[..i]);
    AckIsLease(base, Reached(base, Initial(base), ms[..i]), ms[i].kind, ms[i].client, ms[i].opts);
    HeldForever(base, ms, i);
    if AnswerTo(base, Initial(base), ms, j).Ack? {
      HeldForever(base, ms, j);
    }
  }

  // ----- What the history decides ------------------------------------------------------------------------

  lemma ReachedNext(base: nat, s: State, ms: seq<Message>, i: nat)
    requires i < |ms|
    ensures Reached(base, s, ms[..i + 1]) == Answered(base, Reached(base, s, ms[..i]), ms[i]).state
  {
    assert ms[..i + 1][..i] == ms[..i];
  }

  /** Message j of a run was the acknowledgement of an address to the client. */
  ghost predicate Given(base: nat, ms: seq<Message>, j: nat, client: Bytes) {
    j < |ms| && ms[j].client == client && AnswerTo(base, Initial(base), ms, j).Ack?
  }

  /** Before message i, the client was last given an address by message j. */
  ghost predicate LastGiven(base: nat, ms: seq<Message>, i: nat, client: Bytes, j: nat) {
    j < i && Given(base, ms, j, client) && forall k :: j < k < i ==> !Given(base, ms, k, client)
  }

  /** Before message i, the address is the one the client was last given. */
  ghost predicate Holds(base: nat, ms: seq<Message>, i: nat, client: Bytes, ip: nat) {
    exists j :: LastGiven(base, ms, i, client, j) && AnswerTo(base, Initial(base), ms, j) == Ack(ip)
  }

  ghost predicate NeverGiven(base: nat, ms: seq<Message>, i: nat, client: Bytes) {
    forall k :: 0 <= k < i ==> !Given(base, ms, k, client)
  }

  /** Before message i, somebody was given the address. */
  ghost predicate Taken(base: nat, ms: seq<Message>, i: nat, ip: nat)
    requires i <= |ms|
  {
    exists j :: 0 <= j < i && AnswerTo(base, Initial(base), ms, j) == Ack(ip)
  }

  /** The lowest address above the server's own that nobody was given yet; zero when there is none. */
  ghost predicate LowestFree(base: nat, ms: seq<Message>, i: nat, ip: nat)
    requires i <= |ms|
  {
    if ip == 0 then forall x :: base < x < 0x1_0000_0000 ==> Taken(base, ms, i, x)
    else
      base < ip < 0x1_0000_0000 && !Taken(base, ms, i, ip) && forall x :: base < x < ip ==> Taken(base, ms, i, x)
  }

  /** A message that is not an acknowledgement leaves the leases alone; an acknowledgement sets the client's. */
  lemma StepLeases(base: nat, s: State, m: Message, c: Bytes)
    ensures var r := Answered(base, s, m);
            if r.answer.Ack? && c == m.client then c in r.state.leases && r.state.leases[c] == r.answer.ip
            else (c in r.state.leases <==> c in s.leases) && (c in s.leases ==> r.state.leases[c] == s.leases[c])
  {
  }

  /** A client's lease is the address it was last given. */
  lemma {:induction false} Remembered(base: nat, ms: seq<Message>, i: nat, c: Bytes, j: nat)
    requires i <= |ms| && LastGiven(base, ms, i, c, j)
    ensures var s := Reached(base, Initial(base), ms[..i]);
            c in s.leases && s.leases[c] == AnswerTo(base, Initial(base), ms, j).ip
    decreases i
  {
    hide Decide, Reached;
    ReachedNext(base, Initial(base), ms, i - 1);
    StepLeases(base, Reached(base, Initial(base), ms[..i - 1]), ms[i - 1], c);
    if j < i - 1 {
      assert !Given(base, ms, i - 1, c);
      Remembered(base, ms, i - 1, c, j);
    }
  }

  /** A client that was given nothing has no lease. */
  lemma {:induction false} Unknown(base: nat, ms: seq<Message>, i: nat, c: Bytes)
    requires i <= |ms| && NeverGiven(base, ms, i, c)
    ensures c !in Reached(base, Initial(base), ms[..i]).leases
    decreases i
  {
    if i > 0 {
      ReachedNext(base, Initial(base), ms, i - 1);
      StepLeases(base, Reached(base, Initial(base), ms[..i - 1]), ms[i - 1], c);
      hide Decide, Reached;
      Unknown(base, ms, i - 1, c);
      assert !Given(base, ms, i - 1, c);
    }
  }

  /** Somebody who was ever given an address was last given one. */
  lemma {:induction false} LastOne(base: nat, ms: seq<Message>, i: nat, c: Bytes) returns (j: nat)
    requires i <= |ms| && !NeverGiven(base, ms, i, c)
    ensures LastGiven(base, ms, i, c, j)
    decreases i
  {
    hide Given;
    if Given(base, ms, i - 1, c) {
      j := i - 1;
    } else {
      j := LastOne(base, ms, i - 1, c);
    }
  }

  lemma StepUsed(base: nat, s: State, m: Message, x: nat)
    requires Safe(base, s)
    ensures var r := Answered(base, s, m);
            Used(base, r.state, x) <==> Used(base, s, x) || r.answer == Ack(x)
  {
    assert (s.next + 1) % ADDRESSES == if s.next + 1 == ADDRESSES then 0 else s.next + 1;
  }

  lemma TakenNext(base: nat, ms: seq<Message>, i: nat, x: nat)
    requires i < |ms|
    ensures Taken(base, ms, i + 1, x) <==> Taken(base, ms, i, x) || AnswerTo(base, Initial(base), ms, i) == Ack(x)
  {
    hide AnswerTo;
    if Taken(base, ms, i + 1, x) {
      var j :| 0 <= j < i + 1 && AnswerTo(base, Initial(base), ms, j) == Ack(x);
      assert j == i || Taken(base, ms, i, x);
    }
  }

  /** The addresses in use are exactly those that were given to somebody. */
  lemma {:induction false} UsedIsTaken(base: nat, ms: seq<Message>, i: nat, x: nat)
    requires base < ADDRESSES && i <= |ms|
    ensures Used(base, Reached(base, Initial(base), ms[..i]), x) <==> Taken(base, ms, i, x)
    decreases i
  {
    if i == 0 {
      assert ms[..0] == [];
      assert (base + 1) % ADDRESSES == if base + 1 == ADDRESSES then 0 else base + 1;
    } else {
      RunConsistent(base, ms[..i - 1]);
      ReachedNext(base, Initial(base), ms, i - 1);
      StepUsed(base, Reached(base, Initial(base), ms[..i - 1]), ms[i - 1], x);
      UsedIsTaken(base, ms, i - 1, x);
      hide Decide, Reached, Used, Taken;
      TakenNext(base, ms, i - 1, x);
    }
  }

  /** The next address is the lowest free one, and no other is. */
  lemma NextIsLowest(base: nat, ms: seq<Message>, i: nat, ip: nat)
    requires base < ADDRESSES && i <= |ms|
    ensures LowestFree(base, ms, i, ip) <==> ip == Reached(base, Initial(base), ms[..i]).next
  {
    var s := Reached(base, Initial(base), ms[..i]);
    RunConsistent(base, ms[..i]);
    hide Reached;
    forall x ensures Used(base, s, x) <==> Taken(base, ms, i, x) {
      UsedIsTaken(base, ms, i, x);
    }
    assert s.next != 0 ==> !Used(base, s, s.next);
    assert s.next != 0 && ip < s.next ==> ip == 0 || ip <= base || Used(base, s, ip);
  }

  /** In every run: a discover is answered with an offer of the address the client was last given, and for a
      client that was given none, of the lowest address nobody was given. */
  lemma OfferDecided(base: nat, ms: seq<Message>, i: nat)
    requires base < ADDRESSES && i < |ms| && ms[i].kind == 1
    ensures var a := AnswerTo(base, Initial(base), ms, i);
            && a.Offer?
            && (forall j :: LastGiven(base, ms, i, ms[i].client, j) ==>
                  AnswerTo(base, Initial(base), ms, j) == Ack(a.ip))
            && (NeverGiven(base, ms, i, ms[i].client) ==> LowestFree(base, ms, i, a.ip))
  {
    var s, c := Initial(base), ms[i].client;
    forall j | LastGiven(base, ms, i, c, j)
      ensures AnswerTo(base, s, ms, j) == Ack(AnswerTo(base, s, ms, i).ip)
    {
      Remembered(base, ms, i, c, j);
    }
    if NeverGiven(base, ms, i, c) {
      Unknown(base, ms, i, c);
      NextIsLowest(base, ms, i, AnswerTo(base, s, ms, i).ip);
    }
  }

  /** In every run: a request to this server that asks for an address is acknowledged exactly when that is the
      lowest address nobody was given, or the one this client was last given; otherwise it is refused. */
  lemma RequestDecided(base: nat, ms: seq<Message>, i: nat, ip: nat)
    requires base < ADDRESSES && i < |ms| && ms[i].kind == 3
    requires 54 !in ms[i].opts || To4(ms[i].opts[54]) == Be32(base)
    requires 50 in ms[i].opts && To4(ms[i].opts[50]) != []
    requires var o := To4(ms[i].opts[50]);
             ip == 0x100_0000 * (o[0] as int) + 0x1_0000 * (o[1] as int) + 256 * (o[2] as int) + o[3]
    ensures AnswerTo(base, Initial(base), ms, i) ==
            if ip != 0 && LowestFree(base, ms, i, ip) then Ack(ip)
            else if Holds(base, ms, i, ms[i].client, ip) then Ack(ip)
            else Nak
  {
    var s, c := Initial(base), ms[i].client;
    hide Reached;
    NextIsLowest(base, ms, i, ip);
    if NeverGiven(base, ms, i, c) {
      Unknown(base, ms, i, c);
    } else {
      var j := LastOne(base, ms, i, c);
      Remembered(base, ms, i, c, j);
      forall k | LastGiven(base, ms, i, c, k) ensures AnswerTo(base, s, ms, k).Ack? && k == j {
      }
    }
  }

  /** Everything else is passed over: other kinds of message, and requests that name another server. */
  lemma Ignored(base: nat, s: State, m: Message)
    requires m.kind != 1
    requires m.kind == 3 ==> 54 in m.opts && To4(m.opts[54]) != Be32(base)
    ensures Answered(base, s, m) == Outcome(s, Silent)
  {
  }

  /** The octets of an address, most significant first. */
  lemma AddressInOctets(n: nat)
    requires n < 0x1_0000_0000
    ensures var o := Be32(n);
            n == 0x100_0000 * (o[0] as int) + 0x1_0000 * (o[1] as int) + 256 * (o[2] as int) + o[3]
  {
    OctetsAddress(n);
  }
}
