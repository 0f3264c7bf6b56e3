/** The DHCP server in place: the receive buffer it reuses, the handler's fields, and the replies it sends. */
module DhcpServer {
  import opened DhcpPacket
  import opened Leases

  const BUFFER := 1500
  const LEASE_DURATION := 86_400 * SECOND

  // ----- The options of a reply ------------------------------------------------------------------

  /** Options a client may be sent: well-formed, and none of those that every reply carries anyway. */
  ghost predicate Extra(own: map<byte, Bytes>) {
    forall k :: k in own ==>
      Good(Opt(k, own[k])) && k != OPTION_MESSAGE_TYPE && k != OPTION_SERVER_ID && k != OPTION_LEASE_TIME
  }

  ghost predicate From(own: map<byte, Bytes>, items: seq<Item>) {
    forall i :: 0 <= i < |items| ==> items[i].Opt? && items[i].code in own && own[items[i].code] == items[i].value
  }

  /** The options asked for that the server has, in the order asked. */
  function Selected(own: map<byte, Bytes>, order: Bytes): seq<Item> {
    if order == [] then []
    else
      var c := order[|order| - 1];
      Selected(own, order[..|order| - 1]) + if c in own then [Opt(c, own[c])] else []
  }

  lemma SelectedOne(own: map<byte, Bytes>, c: byte)
    ensures Selected(own, [c]) == if c in own then [Opt(c, own[c])] else []
  {
    assert [c][..0] == [];
  }

  /** In the order asked, and each as often as asked. */
  lemma {:induction false} SelectedInOrder(own: map<byte, Bytes>, a: Bytes, b: Bytes)
    ensures Selected(own, a + b) == Selected(own, a) + Selected(own, b)
    ensures |b| == 1 ==> Selected(own, b) == if b[0] in own then [Opt(b[0], own[b[0]])] else []
    decreases |b|
  {
    if b == [] {
      assert a + b == a;
    } else {
      var front, c := b[..|b| - 1], b[|b| - 1];
      var last := if c in own then [Opt(c, own[c])] else [];
      assert (a + b)[..|a + b| - 1] == a + front && (a + b)[|a + b| - 1] == c;
      assert Selected(own, a + b) == Selected(own, a + front) + last && Selected(own, b) == Selected(own, front) + last;
      hide Selected;
      SelectedInOrder(own, a, front);
      assert Selected(own, a) + (Selected(own, front) + last) == Selected(own, a) + Selected(own, front) + last;
      SelectedOne(own, c);
      assert |b| == 1 ==> b == [c];
    }
  }

  method SelectOrder(own: map<byte, Bytes>, order: Bytes) returns (items: seq<Item>)
    ensures items == Selected(own, order) && From(own, items)
  {
    items := [];
    for i := 0 to |order|
      invariant items == Selected(own, order[..i]) && From(own, items)
    {
      assert order[..i + 1][..i] == order[..i];
      if order[i] in own {
        items := items + [Opt(order[i], own[order[i]])];
      }
    }
    assert order[..|order|] == order;
  }

  /** Every option once, in no particular order. */
  ghost predicate Everything(own: map<byte, Bytes>, items: seq<Item>) {
    && From(own, items)
    && (forall i, j :: 0 <= i < j < |items| ==> items[i] != items[j])
    && (forall k :: k in own ==> Opt(k, own[k]) in items)
  }

  method SelectAll(own: map<byte, Bytes>) returns (items: seq<Item>)
    ensures Everything(own, items)
  {
    items := [];
    var left := own.Keys;
    while left != {}
      invariant From(own, items) && left <= own.Keys
      invariant forall i :: 0 <= i < |items| ==> items[i].code !in left
      invariant forall i, j :: 0 <= i < j < |items| ==> items[i] != items[j]
      invariant forall k :: k in own && k !in left ==> Opt(k, own[k]) in items
    {
      var k :| k in left;
      items := items + [Opt(k, own[k])];
      left := left - {k};
    }
  }

  /** What a reply carries besides: everything, or what the parameter list asks for. */
  ghost predicate Offered(own: map<byte, Bytes>, opts: map<byte, Bytes>, items: seq<Item>) {
    if 55 in opts then items == Selected(own, opts[55])
    else Everything(own, items)
  }

  /** A code no item carries keeps its value. */
  lemma {:induction false} WrittenOther(items: seq<Item>, m: map<byte, Bytes>, c: byte)
    requires forall i :: 0 <= i < |items| ==> items[i].Opt? ==> items[i].code != c
    ensures c in Written(items, m) <==> c in m
    ensures c in m ==> Written(items, m)[c] == m[c]
  {
    if items != [] {
      WrittenOther(items[1..], Put(m, items[0]), c);
    }
  }

  /** The message on the wire: the request echoed, the address, and exactly the options written. */
  ghost predicate IsReply(d: Bytes, req: Bytes, mt: byte, base: nat, yi: Bytes, duration: int, items: seq<Item>)
    requires |req| >= 44
  {
    var all := ReplyItems(mt, Be32(base), duration, items);
    |d| >= MIN_SIZE && Echoes(d, req, yi) && Carries(d, all) && OptionsOf(d) == Written(all, map[])
  }

  ghost predicate Grants(d: Bytes, req: Bytes, mt: byte, base: nat, yi: Bytes, own: map<byte, Bytes>,
                         opts: map<byte, Bytes>)
    requires |req| >= 44
  {
    exists items :: Offered(own, opts, items) && IsReply(d, req, mt, base, yi, LEASE_DURATION, items)
  }

  /** The reply that goes with an answer; none goes with silence. */
  ghost predicate Sent(base: nat, own: map<byte, Bytes>, req: Bytes, opts: map<byte, Bytes>, a: Answer, d: Bytes)
    requires |req| >= 44
  {
    match a
    case Offer(ip) => Grants(d, req, OFFER, base, Be32(ip), own, opts)
    case Ack(ip) => Grants(d, req, ACK, base, Be32(ip), own, opts)
    case Nak => IsReply(d, req, NAK, base, [], 0, [])
    case _ => d == []
  }

  lemma {:induction false} SelectedFrom(own: map<byte, Bytes>, order: Bytes)
    ensures From(own, Selected(own, order))
  {
    if order != [] {
      SelectedFrom(own, order[..|order| - 1]);
    }
  }

  /** The server's own options never disturb the message type and the server identifier. */
  lemma ReplyWritten(mt: byte, base: nat, duration: int, items: seq<Item>, own: map<byte, Bytes>)
    requires Extra(own) && From(own, items)
    ensures var all := ReplyItems(mt, Be32(base), duration, items);
            && AllGood(all)
            && OPTION_MESSAGE_TYPE in Written(all, map[]) && Written(all, map[])[OPTION_MESSAGE_TYPE] == [mt]
            && OPTION_SERVER_ID in Written(all, map[]) && Written(all, map[])[OPTION_SERVER_ID] == Be32(base)
  {
    var all := ReplyItems(mt, Be32(base), duration, items);
    var m := map[OPTION_MESSAGE_TYPE := [mt], OPTION_SERVER_ID := Be32(base)];
    assert all[1..][1..] == all[2..];
    assert Written(all, map[]) == Written(all[2..], m);
    WrittenOther(all[2..], m, OPTION_MESSAGE_TYPE);
    WrittenOther(all[2..], m, OPTION_SERVER_ID);
  }

  /** A reply shows what kind it is, who sent it, to whom and which address it grants. */
  lemma SentShows(base: nat, own: map<byte, Bytes>, req: Bytes, opts: map<byte, Bytes>, a: Answer, d: Bytes)
    requires |req| >= 44 && Extra(own) && Sent(base, own, req, opts, a, d) && !a.Silent? && !a.Crash?
    ensures |d| >= 44 && CHAddr(d) == CHAddr(req) && XId(d) == XId(req)
    ensures var mt := if a.Offer? then OFFER else if a.Ack? then ACK else NAK;
            OPTION_MESSAGE_TYPE in OptionsOf(d) && OptionsOf(d)[OPTION_MESSAGE_TYPE] == [mt]
    ensures OPTION_SERVER_ID in OptionsOf(d) && OptionsOf(d)[OPTION_SERVER_ID] == Be32(base)
    ensures a.Offer? || a.Ack? ==> YIAddr(d) == Be32(a.ip)
  {
    if a.Nak? {
      ReplyWritten(NAK, base, 0, [], own);
    } else {
      var mt := if a.Offer? then OFFER else ACK;
      assert Grants(d, req, mt, base, Be32(a.ip), own, opts);
      var items :| Offered(own, opts, items) && IsReply(d, req, mt, base, Be32(a.ip), LEASE_DURATION, items);
      if OPTION_PARAMETER_LIST in opts {
        SelectedFrom(own, opts[OPTION_PARAMETER_LIST]);
      }
      ReplyWritten(mt, base, LEASE_DURATION, items, own);
    }
  }

  /** The message type and the server identifier, at the start of the options. */
  predicate TypeAndServer(w: Bytes, mt: byte, base: nat) {
    && |w| >= 9 && w[0] == 53 && w[1] == 1 && w[2] == mt && w[3] == 54 && w[4] == 4
    && base == 0x100_0000 * (w[5] as int) + 0x1_0000 * (w[6] as int) + 256 * (w[7] as int) + w[8]
  }

  lemma WireTwo(x: Item, y: Item, rest: seq<Item>)
    ensures Wire([x, y] + rest) == ItemBytes(x) + (ItemBytes(y) + Wire(rest))
  {
    hide ItemBytes;
    assert ([x, y] + rest)[1..] == [y] + rest && ([y] + rest)[1..] == rest;
  }

  lemma WireStart(mt: byte, server: Bytes, duration: int, items: seq<Item>)
    requires |server| == 4
    ensures var all := ReplyItems(mt, server, duration, items);
            Wire(all) == [53, 1, mt] + ([54, 4] + server + Wire(all[2..]))
  {
    hide Wire;
    var all := ReplyItems(mt, server, duration, items);
    assert all == [Opt(53, [mt]), Opt(54, server)] + all[2..];
    WireTwo(Opt(53, [mt]), Opt(54, server), all[2..]);
  }

  lemma WireFront(mt: byte, base: nat, duration: int, items: seq<Item>)
    requires base < ADDRESSES
    ensures var all := ReplyItems(mt, Be32(base), duration, items);
            TypeAndServer(Wire(all), mt, base) && Wire(all)[9..] == Wire(all[2..])
  {
    hide Be32, Wire, ReplyItems;
    AddressInOctets(base);
    WireStart(mt, Be32(base), duration, items);
  }

  /** One day, in seconds, follows. */
  lemma WireDay(mt: byte, base: nat, items: seq<Item>)
    ensures var all := ReplyItems(mt, Be32(base), LEASE_DURATION, items);
            [51, 4, 0, 1, 81, 128] <= Wire(all[2..])
  {
    hide Be32;
    BeDay();
    var all := ReplyItems(mt, Be32(base), LEASE_DURATION, items);
    assert Wire(all[2..]) == ItemBytes(all[2]) + Wire(all[2..][1..]);
  }

  lemma BeDay()
    ensures Be32(86_400) == [0, 1, 81, 128]
  {}

  lemma FrontOf(d: Bytes, items: seq<Item>, k: nat)
    requires Carries(d, items) && k < |Wire(items)|
    ensures d[240 + k] == Wire(items)[k]
  {
    hide Wire;
    assert d[HEADER..HEADER + |Wire(items)|][k] == d[HEADER + k];
  }

  /** What the options of a reply begin with. */
  lemma CarriesOctets(d: Bytes, mt: byte, base: nat, duration: int, items: seq<Item>)
    requires base < ADDRESSES && Carries(d, ReplyItems(mt, Be32(base), duration, items))
    ensures |d| >= 250 && d[240] == 53 && d[241] == 1 && d[242] == mt && d[243] == 54 && d[244] == 4
    ensures base == 0x100_0000 * (d[245] as int) + 0x1_0000 * (d[246] as int) + 256 * (d[247] as int) + d[248]
  {
    var all := ReplyItems(mt, Be32(base), duration, items);
    WireFront(mt, base, duration, items);
    forall k | 0 <= k < 9 ensures d[240 + k] == Wire(all)[k] {
      FrontOf(d, all, k);
    }
    hide Wire, Be32, ReplyItems;
  }

  lemma CarriesDay(d: Bytes, mt: byte, base: nat, items: seq<Item>)
    requires base < ADDRESSES && Carries(d, ReplyItems(mt, Be32(base), LEASE_DURATION, items))
    ensures |d| >= 256 && d[249..255] == [51, 4, 0, 1, 81, 128]
  {
    var all := ReplyItems(mt, Be32(base), LEASE_DURATION, items);
    WireFront(mt, base, LEASE_DURATION, items);
    WireDay(mt, base, items);
    hide Wire, Be32, ReplyItems;
    var day := [51, 4, 0, 1, 81, 128];
    forall k | 0 <= k < 6 ensures d[249 + k] == day[k] {
      FrontOf(d, all, 9 + k);
      assert Wire(all)[9..][k] == Wire(all)[9 + k];
    }
  }

  lemma CarriesNoMore(d: Bytes, mt: byte, base: nat)
    requires base < ADDRESSES && Carries(d, ReplyItems(mt, Be32(base), 0, []))
    ensures |d| >= 250 && d[249] == 255
  {
    WireFront(mt, base, 0, []);
    assert ReplyItems(mt, Be32(base), 0, [])[2..] == [];
  }

  /** A reply octet by octet: the boot reply code, the request's hardware address, transaction, flags and relay, and
      the cookie. */
  ghost predicate Addressed(d: Bytes, req: Bytes)
    requires |req| >= 44
  {
    && |d| >= 272 && d[0] == 2 && d[1] == 1 && d[2] == (if req[2] > 16 then 16 else req[2])
    && d[4..8] == req[4..8] && d[10..12] == req[10..12] && d[24..28] == req[24..28]
    && d[28..28 + d[2] as int] == req[28..28 + d[2] as int] && d[236..240] == [99, 130, 83, 99]
  }

  lemma ReplyOctets(d: Bytes, req: Bytes, mt: byte, base: nat, yi: Bytes, duration: int, items: seq<Item>)
    requires |req| >= 44 && IsReply(d, req, mt, base, yi, duration, items) && (yi == [] || |yi| == 4)
    ensures Addressed(d, req) && d[16..20] == if yi == [] then [0, 0, 0, 0] else yi
  {
    hide OptionsOf, Written, Carries, Wire, ReplyItems;
    assert Zeros(4) == [0, 0, 0, 0];
  }

  /** Behind the header come the message type, the server's address and, unless the reply refuses, a lease of one
      day; an offer and an acknowledgement name the address in octets 16 to 19. */
  lemma SentOctets(base: nat, own: map<byte, Bytes>, req: Bytes, opts: map<byte, Bytes>, a: Answer, d: Bytes)
    requires |req| >= 44 && base < 0x1_0000_0000 && Sent(base, own, req, opts, a, d) && !a.Silent? && !a.Crash?
    ensures Addressed(d, req) && d[240] == 53 && d[241] == 1 && d[243] == 54 && d[244] == 4
    ensures d[242] == if a.Offer? then 2 else if a.Ack? then 5 else 6
    ensures base == 0x100_0000 * (d[245] as int) + 0x1_0000 * (d[246] as int) + 256 * (d[247] as int) + d[248]
    ensures if a.Nak? then d[16..20] == [0, 0, 0, 0] && d[249] == 255 else d[249..255] == [51, 4, 0, 1, 81, 128]
    ensures !a.Nak? && a.ip < 0x1_0000_0000 ==>
              a.ip == 0x100_0000 * (d[16] as int) + 0x1_0000 * (d[17] as int) + 256 * (d[18] as int) + d[19]
  {
    hide OptionsOf, Written, Carries, ReplyItems, Be32, Echoes, Offered, Addressed;
    if a.Nak? {
      ReplyOctets(d, req, NAK, base, [], 0, []);
      CarriesOctets(d, NAK, base, 0, []);
      CarriesNoMore(d, NAK, base);
    } else {
      var mt := if a.Offer? then OFFER else ACK;
      assert Grants(d, req, mt, base, Be32(a.ip), own, opts);
      var items :| Offered(own, opts, items) && IsReply(d, req, mt, base, Be32(a.ip), LEASE_DURATION, items);
      ReplyOctets(d, req, mt, base, Be32(a.ip), LEASE_DURATION, items);
      CarriesOctets(d, mt, base, LEASE_DURATION, items);
      CarriesDay(d, mt, base, items);
      if a.ip < 0x1_0000_0000 {
        AddressInOctets(a.ip);
        assert d[16] == d[16..20][0] && d[17] == d[16..20][1] && d[18] == d[16..20][2] && d[19] == d[16..20][3];
      }
    }
  }

  method Reply(req: Bytes, mt: byte, base: Bytes, yi: Bytes, duration: int, items: seq<Item>,
               ghost own: map<byte, Bytes>)
    returns (d: Bytes)
    requires |req| >= 44 && |base| == 4 && Extra(own) && From(own, items)
    ensures IsReply(d, req, mt, Address(base), To4(yi), duration, items)
  {
    AddressOctets(base);
    ReplyWritten(mt, Address(base), duration, items, own);
    d := ReplyPacket(req, mt, base, yi, duration, items);
    hide *;
  }

  // ----- The handler -----------------------------------------------------------------------------------

  /** net.IP: nil, or a view of the octets lo..hi of an array that others may be using too. */
  datatype IP = Nil | Mem(a: array<byte>, lo: nat, hi: nat)

  predicate Bounded(ip: IP) {
    ip.Mem? ==> ip.lo <= ip.hi <= ip.a.Length
  }

  /** The array an address lies in. */
  ghost function Backing(ip: IP): set<array<byte>> {
    if ip.Nil? then {} else {ip.a}
  }

  function Oct(ip: IP): (b: Bytes)
    requires Bounded(ip)
    reads Backing(ip)
  {
    if ip.Nil? then [] else ip.a[ip.lo..ip.hi]
  }

  /** net.IP.To4 copies nothing: what it returns lies in the array it was given. */
  function To4View(ip: IP): (r: IP)
    requires Bounded(ip)
    reads Backing(ip)
    ensures Bounded(r) && Backing(r) <= Backing(ip) && Oct(r) == To4(Oct(ip)) && (r.Nil? <==> To4(Oct(ip)) == [])
  {
    if To4(Oct(ip)) == [] then Nil
    else if |Oct(ip)| == 4 then ip
    else Mem(ip.a, ip.hi - 4, ip.hi)
  }

  /** IPAdd returns a copy in an array of its own, or fails when the octets are no IPv4 address. */
  method IPAdd(start: IP, add: nat) returns (ok: bool, result: IP)
    requires Bounded(start)
    ensures ok <==> To4(Oct(start)) != []
    ensures ok ==> result.Mem? && fresh(result.a) && Bounded(result)
    ensures ok ==> Oct(result) == Be32((Address(To4(Oct(start))) + add) % ADDRESSES)
  {
    var v := To4View(start);
    if v.Nil? {
      return false, Nil;
    }
    var sum := Be32((Address(Oct(v)) + add) % ADDRESSES);
    var a := new byte[4];
    a[0], a[1], a[2], a[3] := sum[0], sum[1], sum[2], sum[3];
    result := Mem(a, 0, 4);
    assert Oct(result) == sum;
    ok := true;
  }

  predicate IsZero(ip: Bytes)
    requires |ip| == 4
    ensures IsZero(ip) <==> Address(ip) == 0
  {
    ip == [0, 0, 0, 0]
  }

  /** Four octets somewhere in an array. */
  predicate Held(ip: IP) {
    ip.Mem? && Bounded(ip) && ip.hi - ip.lo == 4
  }

  function Number(ip: IP): (n: nat)
    requires Held(ip)
    reads Backing(ip)
    ensures n < ADDRESSES
  {
    Address(Oct(ip))
  }

  ghost predicate AllHeld(leases: map<Bytes, IP>) {
    forall c :: c in leases ==> Held(leases[c])
  }

  ghost function Arrays(leases: map<Bytes, IP>): set<array<byte>> {
    set c | c in leases && leases[c].Mem? :: leases[c].a
  }

  ghost function Numbers(leases: map<Bytes, IP>): map<Bytes, nat>
    requires AllHeld(leases)
    reads Arrays(leases)
  {
    map c | c in leases :: Number(leases[c])
  }

  lemma Added(leases: map<Bytes, IP>, client: Bytes, ip: IP)
    requires AllHeld(leases) && Held(ip)
    ensures AllHeld(leases[client := ip]) && Arrays(leases[client := ip]) <= Arrays(leases) + Backing(ip)
    ensures Numbers(leases[client := ip]) == Numbers(leases)[client := Number(ip)]
  {
    hide Number;
  }

  /** An option value as it is handed to the handler: a view of the buffer, or octets of the server's own. */
  method AsIP(buffer: array<byte>, n: nat, s: Slice) returns (ip: IP)
    requires n <= buffer.Length
    ensures Bounded(ip) && Oct(ip) == Octets(buffer[..n], s)
    ensures s.View? && Inside(buffer[..n], s) ==> ip == Mem(buffer, s.lo, s.hi)
    ensures s.Fixed? ==> fresh(Backing(ip))
  {
    match s
    case Fixed(value) =>
      var a := new byte[|value|](i requires 0 <= i < |value| => value[i]);
      ip := Mem(a, 0, |value|);
      assert a[..] == value;
    case View(lo, hi) =>
      ip := if Inside(buffer[..n], s) then Mem(buffer, lo, hi) else Nil;
      assert ip.Mem? ==> buffer[lo..hi] == buffer[..n][lo..hi];
  }

  class BridgeServices {
    const baseIP: Bytes
    const own: map<byte, Bytes>
    var next: IP
    var leases: map<Bytes, IP>

    /** Nothing is said here about which arrays the addresses lie in: a view of the receive buffer would do. */
    ghost predicate Valid()
      reads this
    {
      |baseIP| == 4 && Extra(own) && Held(next) && AllHeld(leases)
    }

    /** The arrays the stored addresses lie in. */
    ghost function Repr(): set<array<byte>>
      reads this
    {
      Backing(next) + Arrays(leases)
    }

    /** The lease state these fields stand for. */
    ghost function Model(): State
      requires Valid()
      reads this, Repr()
    {
      State(Number(next), Numbers(leases))
    }

    lemma ReprAllocated()
      ensures forall x :: x in Repr() ==> allocated(x)
    {}

    lemma ModelAt(client: Bytes)
      requires Valid()
      ensures Model().next == Number(next) && (client in Model().leases <==> client in leases)
      ensures client in leases ==> Model().leases[client] == Number(leases[client])
    {}

    /** As dhcpDNSRoutine sets it up. */
    constructor (wlanAddr: IP, options: map<byte, Bytes>)
      requires Held(wlanAddr) && Extra(options)
      ensures Valid() && fresh(Repr()) && baseIP == Oct(wlanAddr) && own == options
      ensures Model() == Initial(Number(wlanAddr))
    {
      baseIP := Oct(wlanAddr);
      own := options;
      leases := map[];
      var n := Following(wlanAddr);
      next := n;
    }

    /** The server's own options take the place of the client's. */
    method Merge(options: map<byte, Slice>, ghost p: Bytes) returns (merged: map<byte, Slice>)
      ensures Seen(p, merged) == Seen(p, options) + own
    {
      merged := options;
      var left := own.Keys;
      while left != {}
        invariant left <= own.Keys
        invariant forall k :: k in merged <==> k in options || (k in own && k !in left)
        invariant forall k :: k in merged ==> merged[k] == if k in own && k !in left then Fixed(own[k]) else options[k]
      {
        var k :| k in left;
        merged := merged[k := Fixed(own[k])];
        left := left - {k};
      }
    }

    /** SelectOrderOrAll. */
    method Select(p: Bytes, merged: map<byte, Slice>) returns (items: seq<Item>)
      ensures Offered(own, Seen(p, merged), items) && From(own, items)
    {
      if OPTION_PARAMETER_LIST in merged {
        items := SelectOrder(own, Octets(p, merged[OPTION_PARAMETER_LIST]));
      } else {
        items := SelectAll(own);
      }
    }

    /** An offer or an acknowledgement. */
    method GrantReply(p: Bytes, mt: byte, ip: Bytes, merged: map<byte, Slice>) returns (d: Bytes)
      requires Valid() && |p| >= 44 && |ip| == 4
      ensures Grants(d, p, mt, Address(baseIP), ip, own, Seen(p, merged))
    {
      var items := Select(p, merged);
      d := Reply(p, mt, baseIP, ip, LEASE_DURATION, items, own);
    }

    /** ServeDHCP is a step of the lease state, and replies accordingly. The options are views of the buffer,
        and the buffer is reused for the next packet: no address stored afterwards lies in it. */
    method ServeDHCP(buffer: array<byte>, n: nat, kind: byte, options: map<byte, Slice>) returns (a: Answer, d: Bytes)
      requires Valid() && 44 <= n <= buffer.Length && buffer !in Repr()
      modifies this
      ensures Valid() && buffer !in Repr()
      ensures var opts := Seen(buffer[..n], options) + own;
              && Outcome(Model(), a) == Decide(Address(baseIP), old(Model()), kind, CHAddr(buffer[..n]), opts)
              && Sent(Address(baseIP), own, buffer[..n], opts, a, d)
      ensures var s, client := old(Model()), CHAddr(buffer[..n]);
              kind == 1 ==> Model() == s && a == Offer(if client in s.leases then s.leases[client] else s.next)
    {
      hide Decide, Sent, Seen, Address, Be32, CHAddr, Extra, Model;
      var p := buffer[..n];
      var merged := Merge(options, p);
      ghost var before := Model();
      var ip;
      a, ip := Choose(buffer, n, kind, merged);
      assert Outcome(Model(), a) == Decide(Address(baseIP), before, kind, CHAddr(p), Seen(p, merged));
      Discovered(Address(baseIP), before, CHAddr(p), Seen(p, merged));
      d := Respond(p, a, ip, merged);
      assert buffer[..n] == p;
    }

    method Choose(buffer: array<byte>, n: nat, kind: byte, merged: map<byte, Slice>) returns (a: Answer, ip: Bytes)
      requires Valid() && 44 <= n <= buffer.Length
      modifies this
      ensures Valid() && (buffer !in old(Repr()) ==> buffer !in Repr())
      ensures Outcome(Model(), a) == Decide(Address(baseIP), old(Model()), kind, CHAddr(buffer[..n]),
              Seen(buffer[..n], merged))
      ensures a.Offer? || a.Ack? ==> ip == Be32(a.ip)
    {
      hide Model, Address, Be32, CHAddr, Oct, To4, Seen, Octets, Grant, Arrays;
      ReprAllocated();
      var p := buffer[..n];
      if kind == DISCOVER {
        ip := Lookup(CHAddr(p));
        return Offer(Address(ip)), ip;
      }
      if kind != REQUEST {
        return Silent, [];
      }
      AddressOctets(baseIP);
      SeenAt(p, merged, OPTION_SERVER_ID);
      SeenAt(p, merged, OPTION_REQUESTED_IP);
      if OPTION_SERVER_ID in merged && To4(Octets(p, merged[OPTION_SERVER_ID])) != baseIP {
        return Silent, [];
      }
      var wanted := Nil;
      if OPTION_REQUESTED_IP in merged {
        wanted := AsIP(buffer, n, merged[OPTION_REQUESTED_IP]);
      } else {
        NoOctets();
      }
      assert Oct(wanted) == Get(Seen(p, merged), OPTION_REQUESTED_IP) && Model() == old(Model())
        && Repr() == old(Repr());
      a, ip := Request(CHAddr(p), wanted);
    }

    static lemma SeenAt(p: Bytes, merged: map<byte, Slice>, k: byte)
      ensures k in Seen(p, merged) <==> k in merged
      ensures k in merged ==> Seen(p, merged)[k] == Octets(p, merged[k])
    {}

    static lemma NoOctets()
      ensures Oct(Nil) == []
    {}

    /** The address a client would be offered. */
    method Lookup(client: Bytes) returns (ip: Bytes)
      requires Valid()
      ensures |ip| == 4 && Address(ip) == if client in Model().leases then Model().leases[client] else Model().next
      ensures ip == Be32(Address(ip))
    {
      if client in leases {
        ip := Oct(leases[client]);
      } else {
        ip := Oct(next);
      }
      AddressOctets(ip);
    }

    /** A request for this server. */
    method Request(client: Bytes, wanted: IP) returns (a: Answer, ip: Bytes)
      requires Valid() && Bounded(wanted)
      modifies this
      ensures Valid() && fresh(Repr() - old(Repr()))
      ensures Outcome(Model(), a) ==
              old(if To4(Oct(wanted)) == [] then Outcome(Model(), Crash)
                else Grant(Model(), client, Address(To4(Oct(wanted)))))
      ensures !a.Offer? && (a.Ack? ==> ip == Be32(a.ip))
    {
      hide Address, Be32, To4, Model;
      var ok, reqIP := CopyOf(wanted);
      if !ok {
        return Crash, [];
      }
      ip := Oct(reqIP);
      a := Take(client, reqIP);
    }

    /** Grants the next address, or renews the client's own. The address stored is the one handed in. */
    method Take(client: Bytes, reqIP: IP) returns (a: Answer)
      requires Valid() && Held(reqIP)
      modifies this
      ensures Valid() && fresh(Repr() - old(Repr()) - Backing(reqIP))
      ensures Outcome(Model(), a) == Grant(old(Model()), client, Number(reqIP))
    {
      hide Address, Be32, Model;
      var wanted := Oct(reqIP);
      ModelAt(client);
      AddressInjective(wanted, Oct(next));
      if !IsZero(wanted) && wanted == Oct(next) {
        Record(client, reqIP);
        return Ack(Address(wanted));
      }
      if client in leases {
        AddressInjective(wanted, Oct(leases[client]));
        if Oct(leases[client]) == wanted {
          return Ack(Address(wanted));
        }
      }
      return Nak;
    }

    static method CopyOf(ip: IP) returns (ok: bool, r: IP)
      requires Bounded(ip)
      ensures ok <==> To4(Oct(ip)) != []
      ensures ok ==> Held(r) && fresh(r.a) && Oct(r) == To4(Oct(ip)) && Oct(r) == Be32(Number(r))
    {
      hide To4, Address, Be32;
      ok, r := IPAdd(ip, 0);
      if ok {
        AddressOctets(To4(Oct(ip)));
      }
    }

    static method Following(ip: IP) returns (n: IP)
      requires Held(ip)
      ensures Held(n) && fresh(n.a) && Number(n) == (Number(ip) + 1) % ADDRESSES
    {
      hide Address, Be32;
      var ok;
      ok, n := IPAdd(ip, 1);
      OctetsAddress((Number(ip) + 1) % ADDRESSES);
    }

    /** The reply to an answer. */
    method Respond(p: Bytes, a: Answer, ip: Bytes, merged: map<byte, Slice>) returns (d: Bytes)
      requires Valid() && |p| >= 44 && (a.Offer? || a.Ack? ==> ip == Be32(a.ip))
      ensures Sent(Address(baseIP), own, p, Seen(p, merged), a, d)
    {
      match a
      case Offer(_) => d := GrantReply(p, OFFER, ip, merged);
      case Ack(_) => d := GrantReply(p, ACK, ip, merged);
      case Nak => d := Reply(p, NAK, baseIP, [], 0, [], own);
      case _ => d := [];
    }

    /** The new lease, and the address after it. */
    method Record(client: Bytes, ip: IP)
      requires Valid() && Held(ip)
      modifies this
      ensures Valid() && fresh(Repr() - old(Repr()) - Backing(ip))
      ensures Model() == State((old(Model()).next + 1) % ADDRESSES, old(Model()).leases[client := Number(ip)])
    {
      hide Number, AllHeld, Arrays, Numbers;
      ghost var before := Model();
      ReprAllocated();
      var n := Following(next);
      assert Model() == before;
      Added(leases, client, ip);
      next := n;
      leases := leases[client := ip];
    }
  }

  // ----- The receive loop --------------------------------------------------------------------------

  /** What a read of the datagram leaves in the buffer. */
  function Received(d: Bytes): (p: Bytes)
    ensures |p| <= BUFFER
  {
    if |d| <= 1500 then d else d[..1500]
  }

  /** Packets that are long enough, name a sane hardware address and carry one message type. */
  predicate Accepted(p: Bytes) {
    && |p| >= HEADER && p[2] <= 16
    && |Get(OptionsOf(p), OPTION_MESSAGE_TYPE)| == 1
    && DISCOVER <= Get(OptionsOf(p), OPTION_MESSAGE_TYPE)[0] <= INFORM
  }

  function MessageOf(own: map<byte, Bytes>, p: Bytes): Message
    requires Accepted(p)
  {
    Message(Get(OptionsOf(p), OPTION_MESSAGE_TYPE)[0], CHAddr(p), OptionsOf(p) + own)
  }

  /** The packets of a stream that reach the handler. */
  function Handled(ds: seq<Bytes>): (ps: seq<Bytes>)
    ensures forall i :: 0 <= i < |ps| ==> Accepted(ps[i])
  {
    if ds == [] then []
    else
      var p := Received(ds[|ds| - 1]);
      Handled(ds[..|ds| - 1]) + if Accepted(p) then [p] else []
  }

  datatype Exchange = Exchange(request: Bytes, answer: Answer, reply: Bytes)

  ghost predicate Requests(log: seq<Exchange>) {
    forall i :: 0 <= i < |log| ==> Accepted(log[i].request)
  }

  ghost function Messages(own: map<byte, Bytes>, log: seq<Exchange>): (ms: seq<Message>)
    requires Requests(log)
    ensures |ms| == |log| && forall i :: 0 <= i < |ms| ==> ms[i] == MessageOf(own, log[i].request)
  {
    seq(|log|, i requires 0 <= i < |log| => MessageOf(own, log[i].request))
  }

  /** The reply is the one that goes with the answer. */
  ghost predicate Replied(base: nat, own: map<byte, Bytes>, e: Exchange) {
    && Accepted(e.request)
    && Sent(base, own, e.request, MessageOf(own, e.request).opts, e.answer, e.reply)
  }

  /** One exchange is one step of the lease state, with its reply. */
  ghost predicate Step(base: nat, own: map<byte, Bytes>, s: State, e: Exchange, after: State) {
    Replied(base, own, e) && Outcome(after, e.answer) == Answered(base, s, MessageOf(own, e.request))
  }

  /** Every exchange of the log is answered as the lease state machine answers, and replied to accordingly. */
  ghost predicate Faithful(base: nat, own: map<byte, Bytes>, s: State, log: seq<Exchange>) {
    && Requests(log)
    && (forall i :: 0 <= i < |log| ==> Replied(base, own, log[i]))
    && (forall i :: 0 <= i < |log| ==> log[i].answer == AnswerTo(base, s, Messages(own, log), i))
  }

  lemma FaithfulNext(base: nat, own: map<byte, Bytes>, s: State, log: seq<Exchange>, e: Exchange, after: State)
    requires Faithful(base, own, s, log) && Accepted(e.request)
    requires Step(base, own, Reached(base, s, Messages(own, log)), e, after)
    ensures Faithful(base, own, s, log + [e]) && after == Reached(base, s, Messages(own, log + [e]))
  {
    hide Accepted, MessageOf, Replied, Answered, Messages;
    var more := log + [e];
    assert Requests(more);
    var ms, before := Messages(own, more), Messages(own, log);
    assert ms[..|log|] == before;
    forall i | 0 <= i < |more| ensures more[i].answer == AnswerTo(base, s, ms, i) {
      if i < |log| {
        assert ms[..i] == before[..i];
      }
    }
  }

  method ReadFrom(buffer: array<byte>, d: Bytes) returns (n: nat)
    requires buffer.Length == BUFFER
    modifies buffer
    ensures n <= BUFFER && buffer[..n] == Received(d)
  {
    n := if |d| <= BUFFER then |d| else BUFFER;
    for i := 0 to n
      invariant forall k :: 0 <= k < i ==> buffer[k] == d[k]
    {
      buffer[i] := d[i];
    }
  }

  /** An address kept as a view of the buffer turns into whatever the next datagram has in its place. */
  method ViewOverwritten(buffer: array<byte>, d: Bytes, ip: IP)
    requires buffer.Length == BUFFER && Held(ip) && ip.a == buffer && ip.hi <= |Received(d)|
    modifies buffer
    ensures Oct(ip) == d[ip.lo..ip.hi]
  {
    var n := ReadFrom(buffer, d);
    ghost var all := buffer[..];
    assert buffer[..n] == all[..n] && buffer[ip.lo..ip.hi] == all[ip.lo..ip.hi];
    FirstOctets(all, n, ip.lo, ip.hi);
    if |d| > BUFFER {
      FirstOctets(d, BUFFER, ip.lo, ip.hi);
    }
  }

  /** The next datagram overwrites the buffer and none of the stored addresses. */
  method Receive(h: BridgeServices, buffer: array<byte>, d: Bytes) returns (n: nat)
    requires h.Valid() && buffer !in h.Repr() && buffer.Length == BUFFER
    modifies buffer
    ensures n <= BUFFER && buffer[..n] == Received(d)
    ensures h.Valid() && buffer !in h.Repr() && h.Model() == old(h.Model())
  {
    n := ReadFrom(buffer, d);
  }

  /** One packet in the buffer: filtered out, or handled. */
  method HandlePacket(h: BridgeServices, buffer: array<byte>, n: nat) returns (accepted: bool, e: Exchange)
    requires h.Valid() && buffer !in h.Repr() && n <= buffer.Length
    modifies h
    ensures h.Valid() && buffer !in h.Repr()
    ensures (accepted <==> Accepted(buffer[..n])) && (!accepted ==> h.Model() == old(h.Model()))
    ensures accepted ==> e.request == buffer[..n] && Step(Address(h.baseIP), h.own, old(h.Model()), e, h.Model())
  {
    var p := buffer[..n];
    var kind, options;
    accepted, kind, options := Filter(buffer, n);
    if !accepted {
      return false, Exchange(p, Silent, []);
    }
    hide Sent, Decide, OptionsOf, Seen, h.Model, Accepted;
    var a, d := h.ServeDHCP(buffer, n, kind, options);
    assert buffer[..n] == p;
    return true, Exchange(p, a, d);
  }

  /** The checks before a packet reaches the handler. */
  method Filter(buffer: array<byte>, n: nat) returns (accepted: bool, kind: byte, options: map<byte, Slice>)
    requires n <= buffer.Length
    ensures accepted <==> Accepted(buffer[..n])
    ensures accepted <==>
            n >= 240 && buffer[2] <= 16 && 53 in OptionsOf(buffer[..n]) && |OptionsOf(buffer[..n])[53]| == 1
            && 1 <= OptionsOf(buffer[..n])[53][0] <= 8
    ensures accepted ==>
              n >= HEADER && kind == MessageOf(map[], buffer[..n]).kind
              && Seen(buffer[..n], options) == OptionsOf(buffer[..n])
  {
    var p := buffer[..n];
    if n < HEADER || p[2] > 16 {
      return false, 0, map[];
    }
    hide OptionsOf;
    options := ParseOptions(buffer, n);
    assert OPTION_MESSAGE_TYPE in options <==> OPTION_MESSAGE_TYPE in Seen(p, options);
    if OPTION_MESSAGE_TYPE !in options {
      return false, 0, options;
    }
    var t := Octets(p, options[OPTION_MESSAGE_TYPE]);
    assert t == Get(OptionsOf(p), OPTION_MESSAGE_TYPE);
    if |t| != 1 || t[0] < DISCOVER || t[0] > INFORM {
      return false, 0, options;
    }
    return true, t[0], options;
  }

  /** The log answers the packets, in order. */
  ghost predicate Answers(log: seq<Exchange>, ps: seq<Bytes>) {
    |log| <= |ps| && forall i :: 0 <= i < |log| ==> log[i].request == ps[i]
  }

  /** Serve, over any stream of datagrams: every packet goes through the one buffer, the log is that of the
      lease state machine, and the handler's fields end up in the state it reaches. */
  method Serve(h: BridgeServices, ds: seq<Bytes>) returns (log: seq<Exchange>, crashed: bool)
    requires h.Valid()
    modifies h
    ensures h.Valid() && Faithful(Address(h.baseIP), h.own, old(h.Model()), log)
    ensures h.Model() == Reached(Address(h.baseIP), old(h.Model()), Messages(h.own, log))
    ensures Answers(log, Handled(ds))
    ensures if crashed then |log| > 0 && log[|log| - 1].answer == Crash else |log| == |Handled(ds)|
  {
    hide Accepted, h.Model, Reached, Step, Answers, Handled;
    ghost var base, own, s := Address(h.baseIP), h.own, h.Model();
    var buffer := new byte[BUFFER](i => 0);
    log, crashed := [], false;
    StartLog(base, own, s);
    for k := 0 to |ds|
      invariant h.Valid() && buffer !in h.Repr()
      invariant Faithful(base, own, s, log) && h.Model() == Reached(base, s, Messages(own, log))
      invariant Answers(log, Handled(ds[..k])) && |log| == |Handled(ds[..k])|
    {
      hide Faithful;
      var n := Receive(h, buffer, ds[k]);
      var accepted, e := HandlePacket(h, buffer, n);
      HandledNext(ds, k, log, e, accepted);
      if accepted {
        FaithfulNext(base, own, s, log, e, h.Model());
        log := log + [e];
        if e.answer == Crash {
          HandledRest(ds, k + 1, log);
          return log, true;
        }
      }
    }
    assert ds[..|ds|] == ds;
  }

  lemma StartLog(base: nat, own: map<byte, Bytes>, s: State)
    ensures Faithful(base, own, s, []) && Reached(base, s, Messages(own, [])) == s
    ensures Answers([], Handled([])) && Handled([]) == []
  {
  }

  lemma HandledNext(ds: seq<Bytes>, k: nat, log: seq<Exchange>, e: Exchange, accepted: bool)
    requires k < |ds| && Answers(log, Handled(ds[..k])) && |log| == |Handled(ds[..k])|
    requires (accepted <==> Accepted(Received(ds[k]))) && (accepted ==> e.request == Received(ds[k]))
    ensures var more := if accepted then log + [e] else log;
            Answers(more, Handled(ds[..k + 1])) && |more| == |Handled(ds[..k + 1])|
  {
    assert ds[..k + 1][..k] == ds[..k];
    hide Accepted;
  }

  lemma {:induction false} HandledRest(ds: seq<Bytes>, k: nat, log: seq<Exchange>)
    requires k <= |ds| && Answers(log, Handled(ds[..k]))
    ensures Answers(log, Handled(ds))
    decreases |ds|
  {
    if k < |ds| {
      var front := ds[..|ds| - 1];
      assert front[..k] == ds[..k];
      HandledRest(front, k, log);
      hide Accepted;
    } else {
      assert ds[..k] == ds;
    }
  }

  // ----- What clients see ----------------------------------------------------------------------------

  lemma {:induction false} ReachedAppend(base: nat, s: State, a: seq<Message>, b: seq<Message>)
    ensures Reached(base, s, a + b) == Reached(base, Reached(base, s, a), b)
  {
    if b == [] {
      assert a + b == a;
    } else {
      var front := b[..|b| - 1];
      ReachedAppend(base, s, a, front);
      assert (a + b)[..|a + b| - 1] == a + front;
      hide Decide;
    }
  }

  /** Serving again after an error goes on where it stopped: the two logs together are one run. */
  lemma FaithfulAppend(base: nat, own: map<byte, Bytes>, s: State, a: seq<Exchange>, b: seq<Exchange>)
    requires Faithful(base, own, s, a) && Faithful(base, own, Reached(base, s, Messages(own, a)), b)
    ensures Faithful(base, own, s, a + b)
  {
    hide Accepted, MessageOf, Replied, Answered, Reached;
    var all, ma, mb := a + b, Messages(own, a), Messages(own, b);
    assert Requests(all);
    var ms := Messages(own, all);
    forall i | 0 <= i < |all| ensures all[i].answer == AnswerTo(base, s, ms, i) {
      if i < |a| {
        assert ms[..i] == ma[..i];
      } else {
        assert ms[..i] == ma + mb[..i - |a|];
        ReachedAppend(base, s, ma, mb[..i - |a|]);
      }
    }
  }

  /** An acknowledgement, as a client recognises it. */
  ghost predicate IsAck(d: Bytes) {
    |d| >= 44 && 53 in OptionsOf(d) && OptionsOf(d)[53] == [5]
  }

  ghost predicate IsOffer(d: Bytes) {
    |d| >= 44 && 53 in OptionsOf(d) && OptionsOf(d)[53] == [2]
  }

  lemma AckShows(base: nat, own: map<byte, Bytes>, e: Exchange)
    requires Extra(own) && Replied(base, own, e) && IsAck(e.reply)
    ensures e.answer.Ack? && YIAddr(e.reply) == Be32(e.answer.ip) && CHAddr(e.reply) == CHAddr(e.request)
  {
    if !e.answer.Silent? && !e.answer.Crash? {
      SentShows(base, own, e.request, MessageOf(own, e.request).opts, e.answer, e.reply);
    }
  }

  /** On the wire: in every run, acknowledgements that grant the same address are addressed to the same
      hardware address, and none grants the server's own. */
  lemma AckedOnce(base: nat, own: map<byte, Bytes>, log: seq<Exchange>, i: nat, j: nat)
    requires base < ADDRESSES && Extra(own) && Faithful(base, own, Initial(base), log)
    requires i < |log| && j < |log| && IsAck(log[i].reply) && IsAck(log[j].reply)
    ensures YIAddr(log[i].reply) != Be32(base)
    ensures YIAddr(log[i].reply) == YIAddr(log[j].reply) ==> CHAddr(log[i].reply) == CHAddr(log[j].reply)
  {
    AckShows(base, own, log[i]);
    AckShows(base, own, log[j]);
    var ms := Messages(own, log);
    hide Replied, Decide, IsAck, Extra, Reached;
    NeverShared(base, ms, i, j);
    AckBounded(base, Initial(base), ms, i);
    AckBounded(base, Initial(base), ms, j);
    OctetsAddress(log[i].answer.ip);
    OctetsAddress(log[j].answer.ip);
    OctetsAddress(base);
  }

  lemma AckBounded(base: nat, s: State, ms: seq<Message>, i: nat)
    requires i < |ms| && AnswerTo(base, s, ms, i).Ack?
    ensures AnswerTo(base, s, ms, i).ip < ADDRESSES
  {
  }

  // ----- What clients are offered ------------------------------------------------------------------

  /** The exchange acknowledged an address to the hardware address. */
  ghost predicate AckTo(e: Exchange, hw: Bytes) {
    IsAck(e.reply) && CHAddr(e.reply) == hw
  }

  /** A client can tell offers and acknowledgements from the message type, and finds its hardware address in them. */
  lemma KindShows(base: nat, own: map<byte, Bytes>, e: Exchange)
    requires Extra(own) && Replied(base, own, e)
    ensures (IsAck(e.reply) <==> e.answer.Ack?) && (IsOffer(e.reply) <==> e.answer.Offer?)
    ensures e.answer.Ack? || e.answer.Offer? ==>
              |e.reply| >= 44 && CHAddr(e.reply) == CHAddr(e.request) && e.reply[16..20] == Be32(e.answer.ip)
  {
    if !e.answer.Silent? && !e.answer.Crash? {
      SentShows(base, own, e.request, MessageOf(own, e.request).opts, e.answer, e.reply);
    }
    hide Sent, OptionsOf, Accepted, Be32, CHAddr;
  }

  /** Who was given an address shows on the wire. */
  lemma GivenShows(base: nat, own: map<byte, Bytes>, log: seq<Exchange>, k: nat, hw: Bytes)
    requires Extra(own) && Faithful(base, own, Initial(base), log) && k < |log|
    ensures Given(base, Messages(own, log), k, hw) <==> AckTo(log[k], hw)
  {
    KindShows(base, own, log[k]);
    hide Replied, Decide, IsAck, IsOffer, Extra, Reached, AnswerTo;
  }

  /** On the wire: in every run, a client that was acknowledged an address and sends a discover is offered the
      address it was last acknowledged. */
  lemma OfferedAgain(base: nat, own: map<byte, Bytes>, log: seq<Exchange>, i: nat, j: nat)
    requires base < ADDRESSES && Extra(own) && Faithful(base, own, Initial(base), log) && j < i < |log|
    requires 53 in OptionsOf(log[i].request) && OptionsOf(log[i].request)[53] == [1]
    requires AckTo(log[j], CHAddr(log[i].request))
    requires forall k :: j < k < i ==> !AckTo(log[k], CHAddr(log[i].request))
    ensures IsOffer(log[i].reply) && CHAddr(log[i].reply) == CHAddr(log[i].request)
    ensures log[i].reply[16..20] == log[j].reply[16..20]
  {
    var ms, hw := Messages(own, log), CHAddr(log[i].request);
    hide Replied, Decide, IsAck, IsOffer, Extra, Reached, OptionsOf, CHAddr, AnswerTo, AckTo, Given;
    forall k | j <= k < i ensures Given(base, ms, k, hw) <==> AckTo(log[k], hw) {
      GivenShows(base, own, log, k, hw);
    }
    assert LastGiven(base, ms, i, hw, j);
    OfferDecided(base, ms, i);
    KindShows(base, own, log[i]);
    KindShows(base, own, log[j]);
  }

  lemma OctetsDiffer(a: nat, b: nat)
    requires a < ADDRESSES && b < ADDRESSES && a != b
    ensures Be32(a) != Be32(b)
  {
    OctetsAddress(a);
    OctetsAddress(b);
  }

  lemma NoOctetsSet()
    ensures Be32(0) == [0, 0, 0, 0]
  {}

  /** A free address is the server's own and anybody's acknowledged address only when it is zero. */
  lemma FreeDiffers(base: nat, ms: seq<Message>, i: nat, ip: nat, j: nat)
    requires base < ADDRESSES && j < i <= |ms| && ip != 0 && LowestFree(base, ms, i, ip)
    requires AnswerTo(base, Initial(base), ms, j).Ack?
    ensures Be32(ip) != Be32(AnswerTo(base, Initial(base), ms, j).ip)
  {
    AckBounded(base, Initial(base), ms, j);
    hide AnswerTo, Be32;
    assert !Taken(base, ms, i, ip);
    OctetsDiffer(ip, AnswerTo(base, Initial(base), ms, j).ip);
  }

  /** On the wire: a client that was acknowledged nothing so far is offered an address that nobody was acknowledged
      and that is not the server's own, or all zeros when none is left. */
  lemma OfferedFresh(base: nat, own: map<byte, Bytes>, log: seq<Exchange>, i: nat)
    requires base < ADDRESSES && Extra(own) && Faithful(base, own, Initial(base), log) && i < |log|
    requires 53 in OptionsOf(log[i].request) && OptionsOf(log[i].request)[53] == [1]
    requires forall k :: 0 <= k < i ==> !AckTo(log[k], CHAddr(log[i].request))
    ensures IsOffer(log[i].reply) && CHAddr(log[i].reply) == CHAddr(log[i].request)
    ensures log[i].reply[16..20] != [0, 0, 0, 0] ==>
              && log[i].reply[16..20] != Be32(base)
              && forall j :: 0 <= j < i && IsAck(log[j].reply) ==> log[j].reply[16..20] != log[i].reply[16..20]
  {
    var ms, hw := Messages(own, log), CHAddr(log[i].request);
    hide Replied, Decide, IsAck, IsOffer, Extra, Reached, OptionsOf, CHAddr, AnswerTo, AckTo, Given, LowestFree, Be32;
    forall k | 0 <= k < i ensures Given(base, ms, k, hw) <==> AckTo(log[k], hw) {
      GivenShows(base, own, log, k, hw);
    }
    assert NeverGiven(base, ms, i, hw);
    OfferDecided(base, ms, i);
    KindShows(base, own, log[i]);
    var ip := log[i].answer.ip;
    NoOctetsSet();
    if ip != 0 {
      assert base < ip < ADDRESSES by { FreeRange(base, ms, i, ip); }
      OctetsDiffer(ip, base);
      forall j | 0 <= j < i && IsAck(log[j].reply) ensures log[j].reply[16..20] != log[i].reply[16..20] {
        KindShows(base, own, log[j]);
        FreeDiffers(base, ms, i, ip, j);
      }
    }
  }

  lemma FreeRange(base: nat, ms: seq<Message>, i: nat, ip: nat)
    requires i <= |ms| && ip != 0 && LowestFree(base, ms, i, ip)
    ensures base < ip < ADDRESSES
  {}
}
