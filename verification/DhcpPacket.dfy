/** DHCP packets: the fixed header, the options behind it, and the replies a server builds. */
module DhcpPacket {
  import Names

  type byte = Names.byte
  type Bytes = Names.Bytes

  const PAD: byte := 0
  const END: byte := 255
  const HEADER := 240
  const MIN_SIZE := 272
  const COOKIE: Bytes := [99, 130, 83, 99]

  const BOOT_REPLY: byte := 2
  const OPTION_REQUESTED_IP: byte := 50
  const OPTION_LEASE_TIME: byte := 51
  const OPTION_MESSAGE_TYPE: byte := 53
  const OPTION_SERVER_ID: byte := 54
  const OPTION_PARAMETER_LIST: byte := 55

  // ----- The option field ------------------------------------------------------------------------

  datatype Item = Padding | Opt(code: byte, value: Bytes)

  /** Section 2 of RFC 2132: a code other than pad and end, and at most 255 octets. */
  predicate Good(item: Item) {
    item.Opt? ==> item.code != PAD && item.code != END && |item.value| <= 255
  }

  predicate AllGood(items: seq<Item>) {
    forall i :: 0 <= i < |items| ==> Good(items[i])
  }

  function ItemBytes(item: Item): Bytes {
    match item
    case Padding => [PAD]
    case Opt(c, v) => [c, |v| % 256] + v
  }

  function Wire(items: seq<Item>): Bytes {
    if items == [] then [] else ItemBytes(items[0]) + Wire(items[1..])
  }

  /** The options that hold after the items, later ones replacing earlier ones. */
  function Written(items: seq<Item>, m: map<byte, Bytes>): map<byte, Bytes> {
    if items == [] then m
    else Written(items[1..], Put(m, items[0]))
  }

  /** How many octets the first item takes. */
  function Size(o: Bytes): (n: nat)
    requires |o| >= 2
    ensures n > 0
  {
    if o[0] == PAD then 1 else o[1] as int + 2
  }

  /** Where reading stops: too short, at the end mark, or at an option cut off by the end of the packet. */
  predicate Stop(o: Bytes) {
    |o| < 2 || o[0] == END || |o| < Size(o)
  }

  function First(o: Bytes): Item
    requires !Stop(o)
  {
    if o[0] == PAD then Padding else Opt(o[0], o[2..Size(o)])
  }

  /** The octets read as items. */
  function Items(o: Bytes): seq<Item>
    decreases |o|
  {
    if Stop(o) then [] else [First(o)] + Items(o[Size(o)..])
  }

  lemma FirstBytes(o: Bytes)
    requires !Stop(o)
    ensures Good(First(o)) && ItemBytes(First(o)) == o[..Size(o)]
  {
  }

  lemma ItemsStep(o: Bytes)
    requires !Stop(o)
    ensures 0 < Size(o) <= |o| && Items(o) == [First(o)] + Items(o[Size(o)..])
    ensures Good(First(o)) && o == ItemBytes(First(o)) + o[Size(o)..]
  {
    FirstBytes(o);
    hide Good, ItemBytes;
    assert o == o[..Size(o)] + o[Size(o)..];
  }

  /** Every octet string is items followed by a place to stop. */
  lemma {:induction false} ItemsWire(o: Bytes) returns (rest: Bytes)
    ensures AllGood(Items(o)) && Stop(rest) && o == Wire(Items(o)) + rest
    decreases |o|
  {
    if Stop(o) {
      return o;
    }
    hide Stop, First, ItemBytes, Wire, Good, Items;
    ItemsStep(o);
    rest := ItemsWire(o[Size(o)..]);
    WireFirst(First(o), Items(o[Size(o)..]), o[Size(o)..], rest);
  }

  lemma WireFirst(item: Item, items: seq<Item>, tail: Bytes, rest: Bytes)
    requires AllGood(items) && Good(item) && tail == Wire(items) + rest
    ensures AllGood([item] + items) && ItemBytes(item) + tail == Wire([item] + items) + rest
  {
    assert ([item] + items)[1..] == items;
    Names.SeqAssoc(ItemBytes(item), Wire(items), rest);
  }

  lemma FirstOfWire(item: Item, tail: Bytes)
    requires Good(item) && (item.Padding? ==> tail != [])
    ensures var o := ItemBytes(item) + tail; !Stop(o) && First(o) == item && o[Size(o)..] == tail
  {
  }

  function Put(m: map<byte, Bytes>, item: Item): map<byte, Bytes> {
    if item.Opt? then m[item.code := item.value] else m
  }

  lemma WrittenFirst(item: Item, items: seq<Item>, m: map<byte, Bytes>)
    ensures Written([item] + items, m) == Written(items, Put(m, item))
  {
    assert ([item] + items)[1..] == items;
  }

  /** Whatever items are written before a place to stop, their options are read back. */
  lemma {:induction false} WireItems(items: seq<Item>, rest: Bytes, m: map<byte, Bytes>)
    requires AllGood(items) && Stop(rest)
    ensures Written(Items(Wire(items) + rest), m) == Written(items, m)
  {
    if items == [] {
      assert Wire(items) + rest == rest;
    } else {
      var item, tail := items[0], Wire(items[1..]) + rest;
      Names.SeqAssoc(ItemBytes(item), Wire(items[1..]), rest);
      WireItems(items[1..], rest, Put(m, item));
      if item.Padding? && tail == [] {
        assert Wire(items) + rest == [PAD];
      } else {
        FirstOfWire(item, tail);
        hide Size, Stop, First;
        WrittenFirst(item, Items(tail), m);
      }
    }
  }

  lemma {:induction false} WireAppend(items: seq<Item>, item: Item)
    ensures Wire(items + [item]) == Wire(items) + ItemBytes(item)
  {
    if items == [] {
      assert (items + [item])[1..] == [];
    } else {
      WireAppend(items[1..], item);
      assert (items + [item])[1..] == items[1..] + [item];
      Names.SeqAssoc(ItemBytes(items[0]), Wire(items[1..]), ItemBytes(item));
    }
  }

  lemma {:induction false} WrittenAppend(items: seq<Item>, item: Item, m: map<byte, Bytes>)
    requires item.Opt?
    ensures Written(items + [item], m) == Written(items, m)[item.code := item.value]
  {
    if items == [] {
      assert (items + [item])[1..] == [];
    } else {
      WrittenAppend(items[1..], item, Put(m, items[0]));
      assert (items + [item])[1..] == items[1..] + [item];
    }
  }

  lemma WireCons(item: Item, items: seq<Item>)
    ensures Wire([item] + items) == ItemBytes(item) + Wire(items)
  {
    assert ([item] + items)[1..] == items;
  }

  /** A pad, an option, a pad and the option again. */
  lemma WireExample()
    ensures var items := [Padding, Opt(53, [1]), Padding, Opt(53, [3])];
            AllGood(items) && Wire(items) == [0, 53, 1, 1, 0, 53, 1, 3] && Written(items, map[]) == map[53 := [3]]
  {
    var x, y: Item := Opt(53, [1]), Opt(53, [3]);
    assert Wire([]) == [] && Written([], map[53 := [3]]) == map[53 := [3]];
    hide Wire, Written;
    var items := [Padding, x, Padding, y];
    assert [y] + [] == [y] && [Padding] + [y] == [Padding, y];
    assert [x] + [Padding, y] == [x, Padding, y] && [Padding] + [x, Padding, y] == items;
    WireCons(y, []);
    WireCons(Padding, [y]);
    WireCons(x, [Padding, y]);
    WireCons(Padding, [x, Padding, y]);
    var m: map<byte, Bytes> := map[53 := [1]];
    WrittenFirst(y, [], m);
    WrittenFirst(Padding, [y], m);
    WrittenFirst(x, [Padding, y], map[]);
    WrittenFirst(Padding, [x, Padding, y], map[]);
    assert Put(map[], x) == m && Put(m, y) == map[53 := [3]];
  }

  /** Pads are skipped, the last of two options with one code holds, nothing behind the end mark counts, and neither
      does an option that is cut off. */
  lemma OptionsExample(h: Bytes)
    requires |h| == 240
    ensures OptionsOf(h + [0, 53, 1, 1, 0, 53, 1, 3, 255, 50, 0]) == map[53 := [3]]
    ensures OptionsOf(h + [50, 4, 10, 0, 0]) == map[] == OptionsOf(h)
  {
    var items := [Padding, Opt(53, [1]), Padding, Opt(53, [3])];
    WireExample();
    WireItems(items, [255, 50, 0], map[]);
    var o: Bytes := [0, 53, 1, 1, 0, 53, 1, 3, 255, 50, 0];
    assert o == [0, 53, 1, 1, 0, 53, 1, 3] + [255, 50, 0];
    assert (h + o)[240..] == o;
    CutOffExample(h);
    hide Written, Items, Wire;
  }

  lemma CutOffExample(h: Bytes)
    requires |h| == 240
    ensures OptionsOf(h + [50, 4, 10, 0, 0]) == map[]
  {
    assert (h + [50, 4, 10, 0, 0])[240..] == [50, 4, 10, 0, 0];
  }

  // ----- Parsing in place ------------------------------------------------------------------------------

  /** An option value: a view into the receive buffer, or octets of the server's own. */
  datatype Slice = View(lo: nat, hi: nat) | Fixed(value: Bytes)

  predicate Inside(buffer: Bytes, s: Slice) {
    s.View? ==> s.lo <= s.hi <= |buffer|
  }

  function Octets(buffer: Bytes, s: Slice): Bytes {
    if s.Fixed? then s.value else if Inside(buffer, s) then buffer[s.lo..s.hi] else []
  }

  /** The options that the slices show. */
  function Seen(buffer: Bytes, m: map<byte, Slice>): map<byte, Bytes> {
    map k | k in m :: Octets(buffer, m[k])
  }

  /** The options of a packet: nothing before octet 240 belongs to them. */
  function OptionsOf(p: Bytes): map<byte, Bytes> {
    if |p| <= HEADER then map[] else Written(Items(p[HEADER..]), map[])
  }

  lemma SeenUpdate(p: Bytes, m: map<byte, Slice>, c: byte, lo: nat, hi: nat)
    requires lo <= hi <= |p|
    ensures Seen(p, m[c := View(lo, hi)]) == Seen(p, m)[c := p[lo..hi]]
  {
  }

  /** Reading on from `at` with m in hand gives the options of the packet. */
  ghost predicate Reading(p: Bytes, at: nat, m: map<byte, Slice>) {
    && HEADER <= at <= |p|
    && Written(Items(p[at..]), Seen(p, m)) == OptionsOf(p)
    && Views(m, |p|)
  }

  ghost predicate Views(m: map<byte, Slice>, n: nat) {
    forall k :: k in m ==> m[k].View? && HEADER <= m[k].lo <= m[k].hi <= n
  }

  lemma ReadPad(p: Bytes, at: nat, m: map<byte, Slice>)
    requires Reading(p, at, m) && !Stop(p[at..]) && p[at] == PAD
    ensures Reading(p, at + 1, m)
  {
    var o := p[at..];
    assert o[1..] == p[at + 1..];
    WrittenFirst(First(o), Items(p[at + 1..]), Seen(p, m));
  }

  lemma ReadOption(p: Bytes, at: nat, m: map<byte, Slice>, size: nat)
    requires Reading(p, at, m) && !Stop(p[at..]) && p[at] != PAD && size == p[at + 1]
    ensures Reading(p, at + 2 + size, m[p[at] := View(at + 2, at + 2 + size)])
  {
    hide Seen, Items, Written, OptionsOf;
    OptionNext(p, at, size);
    var end := at + 2 + size;
    WrittenFirst(Opt(p[at], p[at + 2..end]), Items(p[end..]), Seen(p, m));
    SeenUpdate(p, m, p[at], at + 2, end);
  }

  lemma OptionNext(p: Bytes, at: nat, size: nat)
    requires at + 2 <= |p| && !Stop(p[at..]) && p[at] != PAD && size == p[at + 1]
    ensures at + 2 + size <= |p| && Items(p[at..]) == [Opt(p[at], p[at + 2..at + 2 + size])] + Items(p[at + 2 + size..])
  {
    var o, end := p[at..], at + 2 + size;
    assert o[Size(o)..] == p[end..] && o[2..Size(o)] == p[at + 2..end];
  }

  lemma ReadEnd(p: Bytes, at: nat, m: map<byte, Slice>)
    requires Reading(p, at, m) && Stop(p[at..])
    ensures Seen(p, m) == OptionsOf(p) && Views(m, |p|)
  {
  }

  lemma ReadStart(p: Bytes)
    ensures Views(map[], |p|)
    ensures if |p| <= HEADER then Seen(p, map[]) == OptionsOf(p) else Reading(p, HEADER, map[])
  {
    assert Seen(p, map[]) == map[];
  }

  /** ParseOptions, on the first n octets of the buffer: the values are views, not copies. */
  method ParseOptions(buffer: array<byte>, n: nat) returns (m: map<byte, Slice>)
    requires n <= buffer.Length
    ensures Seen(buffer[..n], m) == OptionsOf(buffer[..n]) && Views(m, n)
  {
    hide Reading, OptionsOf, Seen, Views;
    m := map[];
    ghost var p := buffer[..n];
    ReadStart(p);
    if n <= HEADER {
      return;
    }
    var at := HEADER;
    while n - at >= 2 && buffer[at] != END
      invariant at <= n && Reading(p, at, m)
    {
      if buffer[at] == PAD {
        ReadPad(p, at, m);
        at := at + 1;
        continue;
      }
      var size: nat := buffer[at + 1];
      if n - at < size + 2 {
        break;
      }
      ReadOption(p, at, m, size);
      m := m[buffer[at] := View(at + 2, at + 2 + size)];
      at := at + 2 + size;
    }
    ReadEnd(p, at, m);
  }

  /** A parsed option has a code other than pad and end, and at most 255 octets. */
  lemma {:induction false} WrittenGood(items: seq<Item>, m: map<byte, Bytes>)
    requires AllGood(items) && forall k :: k in m ==> Good(Opt(k, m[k]))
    ensures forall k :: k in Written(items, m) ==> Good(Opt(k, Written(items, m)[k]))
  {
    if items != [] {
      assert Good(items[0]);
      WrittenGood(items[1..], Put(m, items[0]));
    }
  }

  // ----- Building ----------------------------------------------------------------------------------

  /** The header, the options so far and the end mark. */
  ghost predicate Built(p: Bytes, header: Bytes, items: seq<Item>) {
    |header| == HEADER && p == header + Wire(items) + [END]
  }

  lemma BuiltAdd(p: Bytes, header: Bytes, items: seq<Item>, item: Item)
    requires Built(p, header, items)
    ensures Built(p[..|p| - 1] + ItemBytes(item) + [END], header, items + [item])
  {
    WireAppend(items, item);
    assert p[..|p| - 1] == header + Wire(items);
    Names.SeqAssoc(header, Wire(items), ItemBytes(item));
  }

  function Zeros(n: nat): Bytes {
    seq(n, i => 0)
  }

  /** Options written into a packet are read back from it, padded or not: each code with its last value. */
  lemma BuiltOptions(p: Bytes, header: Bytes, items: seq<Item>, pad: nat)
    requires Built(p, header, items) && AllGood(items)
    ensures OptionsOf(p + Zeros(pad)) == Written(items, map[])
  {
    var rest := [END] + Zeros(pad);
    assert (p + Zeros(pad))[HEADER..] == Wire(items) + rest;
    WireItems(items, rest, map[]);
  }

  /** A single option is read back exactly when its code is neither pad nor end and its length fits an octet. */
  lemma LoneOption(p: Bytes, header: Bytes, c: byte, v: Bytes)
    requires Built(p, header, [Opt(c, v)])
    ensures OptionsOf(p) == map[c := v] <==> Good(Opt(c, v))
  {
    assert Wire([Opt(c, v)]) == ItemBytes(Opt(c, v)) + Wire([]);
    assert p + Zeros(0) == p;
    assert Written([Opt(c, v)], map[]) == map[c := v];
    if Good(Opt(c, v)) {
      BuiltOptions(p, header, [Opt(c, v)], 0);
    } else {
      var o := p[HEADER..];
      var rest := ItemsWire(o);
      WrittenGood(Items(o), map[]);
      assert c in map[c := v] && map[c := v][c] == v;
    }
  }

  // ----- The header ----------------------------------------------------------------------------------

  function XId(p: Bytes): Bytes
    requires |p| >= 44
  { p[4..8] }

  function Flags(p: Bytes): Bytes
    requires |p| >= 44
  { p[10..12] }

  function YIAddr(p: Bytes): Bytes
    requires |p| >= 44
  { p[16..20] }

  function GIAddr(p: Bytes): Bytes
    requires |p| >= 44
  { p[24..28] }

  function CHAddr(p: Bytes): (r: Bytes)
    requires |p| >= 44
    ensures |r| <= 16
  {
    p[28..28 + if p[2] > 16 then 16 else p[2] as int]
  }

  /** v copied over d at `at`. */
  function Splice(d: Bytes, at: nat, v: Bytes): (r: Bytes)
    requires at + |v| <= |d|
    ensures |r| == |d| && forall i :: 0 <= i < |d| ==> r[i] == if at <= i < at + |v| then v[i - at] else d[i]
  {
    d[..at] + v + d[at + |v|..]
  }

  class Packet {
    var data: Bytes

    /** NewPacket: 240 octets of header with the magic cookie, and the end mark. */
    constructor (op: byte)
      ensures Built(data, Splice(Splice(Zeros(HEADER), 0, [op, 1]), 236, COOKIE), [])
    {
      data := Splice(Splice(Zeros(HEADER), 0, [op, 1]), 236, COOKIE) + [END];
    }

    /** Copies v into the field from lo to hi, as far as it fits. */
    method SetField(lo: nat, hi: nat, v: Bytes, ghost header: Bytes)
      requires lo <= hi <= HEADER && Built(data, header, [])
      modifies this
      ensures Built(data, Splice(header, lo, if |v| <= hi - lo then v else v[..hi - lo]), [])
    {
      var w := if |v| <= hi - lo then v else v[..hi - lo];
      assert data == header + [END];
      data := Splice(data, lo, w);
      assert data == Splice(header, lo, w) + [END];
    }

    /** AddOption strips the end mark, writes the option and puts the end mark back. */
    method AddOption(code: byte, value: Bytes)
      requires |data| > 0
      modifies this
      ensures data == old(data)[..|old(data)| - 1] + ItemBytes(Opt(code, value)) + [END]
    {
      data := data[..|data| - 1] + [code, |value| % 256];
      data := data + value;
      data := data + [END];
    }

    /** PadToMinSize fills up to 272 octets with zeros. */
    method PadToMinSize()
      modifies this
      ensures data == old(data) + Zeros(if |old(data)| < MIN_SIZE then MIN_SIZE - |old(data)| else 0)
    {
      if |data| < MIN_SIZE {
        data := data + Zeros(MIN_SIZE - |data|);
      }
    }
  }

  // ----- Replies -------------------------------------------------------------------------------------

  /** net.IP.To4: four octets, also from the IPv4-mapped form; nothing for anything else. */
  function To4(ip: Bytes): (r: Bytes)
    ensures r == [] || |r| == 4
  {
    if |ip| == 4 then ip
    else if |ip| == 16 && ip[..12] == Zeros(10) + [255, 255] then ip[12..]
    else []
  }

  /** Which octets are an address, and which: four stand for themselves, and sixteen that begin with ten zeros and
      255, 255 for their last four. */
  lemma To4Octets(ip: Bytes)
    ensures |ip| == 4 ==> To4(ip) == ip
    ensures |ip| == 16 && (forall i :: 0 <= i < 10 ==> ip[i] == 0) && ip[10] == 255 == ip[11] ==> To4(ip) == ip[12..16]
    ensures To4(ip) != [] ==>
              |ip| == 4 || (|ip| == 16 && (forall i :: 0 <= i < 10 ==> ip[i] == 0) && ip[10] == 255 == ip[11])
  {
    if |ip| == 16 {
      var mapped := Zeros(10) + [255, 255];
      assert ip[..12] == mapped ==> forall i :: 0 <= i < 12 ==> ip[i] == ip[..12][i] == mapped[i];
    }
  }

  function Be32(n: nat): (r: Bytes)
    ensures |r| == 4
  {
    [n / 0x100_0000 % 256, n / 0x1_0000 % 256, n / 0x100 % 256, n % 256]
  }

  const SECOND := 1_000_000_000

  function ReplyItems(mt: byte, serverId: Bytes, duration: int, options: seq<Item>): seq<Item> {
    [Opt(OPTION_MESSAGE_TYPE, [mt]), Opt(OPTION_SERVER_ID, serverId)]
    + (if duration > 0 then [Opt(OPTION_LEASE_TIME, Be32(duration / SECOND))] else [])
    + options
  }

  /** The header of a reply: the request's transaction, flags, relay and client, and the address granted. */
  ghost predicate Echoes(d: Bytes, req: Bytes, yi: Bytes)
    requires |req| >= 44
  {
    && |d| >= HEADER && d[0] == BOOT_REPLY && d[1] == 1 && d[2] == |CHAddr(req)| && d[236..240] == COOKIE
    && XId(d) == XId(req) && Flags(d) == Flags(req) && GIAddr(d) == GIAddr(req) && CHAddr(d) == CHAddr(req)
    && YIAddr(d) == if yi == [] then Zeros(4) else yi
  }

  function ReplyHeader(req: Bytes, yi: Bytes): (h: Bytes)
    requires |req| >= 44 && (yi == [] || |yi| == 4)
    ensures |h| == HEADER
  {
    var ch := CHAddr(req);
    var h := Splice(Splice(Zeros(HEADER), 0, [BOOT_REPLY, 1]), 236, COOKIE);
    var filled := Splice(Splice(Splice(Splice(h, 4, XId(req)), 10, Flags(req)), 16, yi), 24, GIAddr(req));
    Splice(Splice(filled, 28, ch), 2, [|ch|])
  }

  lemma ReplyEchoesFront(req: Bytes, yi: Bytes)
    requires |req| >= 44 && (yi == [] || |yi| == 4)
    ensures var h := ReplyHeader(req, yi); XId(h) == XId(req) && Flags(h) == Flags(req)
  {
    var h := ReplyHeader(req, yi);
    hide Splice, ReplyHeader;
  }

  /** The fields filled in leave the kind of the packet and the cookie alone. */
  lemma ReplyKeeps(req: Bytes, yi: Bytes, i: nat)
    requires |req| >= 44 && (yi == [] || |yi| == 4) && (i < 2 || 236 <= i < HEADER)
    ensures ReplyHeader(req, yi)[i] == Splice(Splice(Zeros(HEADER), 0, [BOOT_REPLY, 1]), 236, COOKIE)[i]
  {
    hide Splice;
  }

  lemma ReplyKind(req: Bytes, yi: Bytes)
    requires |req| >= 44 && (yi == [] || |yi| == 4)
    ensures var h := ReplyHeader(req, yi); h[0] == BOOT_REPLY && h[1] == 1 && h[236..240] == COOKIE
  {
    hide Splice, ReplyHeader;
    var h := ReplyHeader(req, yi);
    ReplyKeeps(req, yi, 0);
    ReplyKeeps(req, yi, 1);
    forall k | 0 <= k < 4 ensures h[236 + k] == COOKIE[k] {
      ReplyKeeps(req, yi, 236 + k);
    }
  }

  lemma ReplyEchoesAddresses(req: Bytes, yi: Bytes)
    requires |req| >= 44 && (yi == [] || |yi| == 4)
    ensures var h := ReplyHeader(req, yi);
            GIAddr(h) == GIAddr(req) && YIAddr(h) == if yi == [] then Zeros(4) else yi
  {
    var h := ReplyHeader(req, yi);
    hide Splice, ReplyHeader;
  }

  lemma ReplyEchoesClient(req: Bytes, yi: Bytes)
    requires |req| >= 44 && (yi == [] || |yi| == 4)
    ensures CHAddr(ReplyHeader(req, yi)) == CHAddr(req) && ReplyHeader(req, yi)[2] == |CHAddr(req)|
  {
    var h := ReplyHeader(req, yi);
    hide Splice, ReplyHeader;
  }

  lemma ReplyHeaderEchoes(req: Bytes, yi: Bytes, d: Bytes)
    requires |req| >= 44 && (yi == [] || |yi| == 4) && |d| >= HEADER && d[..HEADER] == ReplyHeader(req, yi)
    ensures Echoes(d, req, yi)
  {
    ReplyKind(req, yi);
    ReplyEchoesFront(req, yi);
    ReplyEchoesAddresses(req, yi);
    ReplyEchoesClient(req, yi);
    hide ReplyHeader;
    FirstOctets(d, HEADER, 4, 8);
    FirstOctets(d, HEADER, 10, 12);
    FirstOctets(d, HEADER, 16, 20);
    FirstOctets(d, HEADER, 24, 28);
    FirstOctets(d, HEADER, 236, 240);
    FirstOctets(d, HEADER, 28, 28 + if d[2] > 16 then 16 else d[2] as int);
    assert d[..HEADER][0] == d[0] && d[..HEADER][1] == d[1] && d[..HEADER][2] == d[2];
  }

  lemma FirstOctets(d: Bytes, n: nat, lo: nat, hi: nat)
    requires lo <= hi <= n <= |d|
    ensures d[..n][lo..hi] == d[lo..hi]
  {
  }

  method StartReply(req: Bytes, yi: Bytes) returns (p: Packet)
    requires |req| >= 44 && (yi == [] || |yi| == 4)
    ensures fresh(p) && Built(p.data, ReplyHeader(req, yi), [])
  {
    hide Built, Splice;
    p := new Packet(BOOT_REPLY);
    ghost var h := Splice(Splice(Zeros(HEADER), 0, [BOOT_REPLY, 1]), 236, COOKIE);
    p.SetField(4, 8, XId(req), h);
    h := Splice(h, 4, XId(req));
    p.SetField(10, 12, Flags(req), h);
    h := Splice(h, 10, Flags(req));
    p.SetField(16, 20, yi, h);
    h := Splice(h, 16, yi);
    p.SetField(24, 28, GIAddr(req), h);
    h := Splice(h, 24, GIAddr(req));
    var ch := CHAddr(req);
    p.SetField(28, 44, ch, h);
    h := Splice(h, 28, ch);
    p.SetField(2, 3, [|ch|], h);
  }

  /** Behind the header: the items in order, the end mark, and nothing but padding. */
  ghost predicate Carries(d: Bytes, items: seq<Item>) {
    var w := Wire(items);
    && |d| > HEADER + |w| && d[HEADER..HEADER + |w|] == w && d[HEADER + |w|] == END
    && forall k :: HEADER + |w| < k < |d| ==> d[k] == PAD
  }

  /** ReplyPacket: echoes the request and carries the options, each code with its last value. */
  method ReplyPacket(req: Bytes, mt: byte, serverId: Bytes, yIAddr: Bytes, duration: int, options: seq<Item>)
    returns (d: Bytes)
    requires |req| >= 44 && forall i :: 0 <= i < |options| ==> options[i].Opt?
    ensures |d| >= MIN_SIZE && Echoes(d, req, To4(yIAddr))
    ensures var items := ReplyItems(mt, serverId, duration, options);
            Carries(d, items) && (AllGood(items) ==> OptionsOf(d) == Written(items, map[]))
  {
    ghost var yi := To4(yIAddr);
    ghost var h := ReplyHeader(req, yi);
    hide Echoes, ReplyHeader, To4;
    var p := StartReply(req, To4(yIAddr));
    ghost var items: seq<Item> := [];
    items := AddItem(p, Opt(OPTION_MESSAGE_TYPE, [mt]), h, items);
    items := AddItem(p, Opt(OPTION_SERVER_ID, serverId), h, items);
    if duration > 0 {
      items := AddItem(p, Opt(OPTION_LEASE_TIME, Be32(duration / SECOND)), h, items);
    }
    ghost var first := items;
    for i := 0 to |options|
      invariant Built(p.data, h, items) && items == first + options[..i]
    {
      items := AddItem(p, options[i], h, items);
    }
    assert items == ReplyItems(mt, serverId, duration, options);
    ghost var built := p.data;
    p.PadToMinSize();
    d := p.data;
    FinishReply(built, h, items, d, req, yi);
  }

  /** One AddOption on a packet under construction. */
  method AddItem(p: Packet, item: Item, ghost header: Bytes, ghost items: seq<Item>) returns (ghost more: seq<Item>)
    requires Built(p.data, header, items) && item.Opt?
    modifies p
    ensures more == items + [item] && Built(p.data, header, more)
  {
    BuiltAdd(p.data, header, items, item);
    p.AddOption(item.code, item.value);
    more := items + [item];
  }

  lemma FinishReply(p: Bytes, h: Bytes, items: seq<Item>, d: Bytes, req: Bytes, yi: Bytes)
    requires Built(p, h, items) && |req| >= 44 && (yi == [] || |yi| == 4) && h == ReplyHeader(req, yi)
    requires d == p + Zeros(if |p| < MIN_SIZE then MIN_SIZE - |p| else 0)
    ensures Echoes(d, req, yi) && Carries(d, items) && (AllGood(items) ==> OptionsOf(d) == Written(items, map[]))
  {
    hide Wire, ReplyHeader, Echoes, OptionsOf, Written, AllGood;
    assert d[..HEADER] == h;
    ReplyHeaderEchoes(req, yi, d);
    if AllGood(items) {
      BuiltOptions(p, h, items, if |p| < MIN_SIZE then MIN_SIZE - |p| else 0);
    }
  }
}
