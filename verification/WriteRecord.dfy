/** Packing resource records: owner name, fixed header part, typed rdata, and the rdata length patched in
    afterwards. */
module WriteRecord {
  import opened Names
  import opened UnpackName
  import opened PackName
  import opened Compression
  import opened RoundTrip

  // ----- Names as texts -----------------------------------------------------------------------

  /** The name a text stands for. */
  function NameOf(s: Bytes): Domain {
    if s == [DOT] then Root
    else
      match Parse(s, [], true)
      case Parsed(name, _) => name
      case Malformed => Root
  }

  /** The texts of names with labels of 1 to 63 octets. Those that go with a compression table hold no escapes. */
  ghost predicate Accepted(s: Bytes, keyed: bool) {
    && s != [] && EndsInDot(s) && Valid(NameOf(s)) && (keyed ==> NoEscapes(s))
    && (s == [DOT] || Parse(s, [], true) == Parsed(NameOf(s), false))
  }

  /** The presentation form of every name is accepted without a table, and stands for that name. */
  lemma PresentAccepted(name: Domain)
    requires Valid(name)
    ensures Accepted(Present(name), false) && NameOf(Present(name)) == name
  {
    if name.Sub? {
      TextEndsInDot(name);
      TextNotDot(name);
      ParseText(name, true);
    }
  }

  /** The text of a plain name, without escapes. */
  function TextOf(name: Domain): Bytes {
    if name.Root? then [DOT] else Raw(name)
  }

  lemma {:induction false} ParsePlainLabel(l: Label, n: nat, rest: Bytes, first: bool)
    requires PlainLabel(l) && n <= |l|
    ensures Parse(l[n..] + rest, l[..n], first && n == 0) == Parse(rest, l, first && |l| == 0)
    decreases |l| - n
  {
    if n == |l| {
      assert l[n..] + rest == rest && l[..n] == l;
    } else {
      var s := l[n..] + rest;
      assert s[1..] == l[n + 1..] + rest;
      assert l[..n] + [s[0]] == l[..n + 1];
      ParsePlainLabel(l, n + 1, rest, first);
    }
  }

  /** Without escapes parsing undoes writing the labels out. */
  lemma {:induction false} ParsePlain(name: Domain, first: bool)
    requires Plain(name)
    ensures Parse(Raw(name), [], first) == Parsed(name, false)
  {
    if name.Sub? {
      var l, rest := name.leaf, [DOT] + Raw(name.parent);
      ParsePlainLabel(l, 0, rest, first);
      assert l[0..] + rest == Raw(name) && l[..0] == [];
      assert rest[1..] == Raw(name.parent);
      ParsePlain(name.parent, false);
    }
  }

  lemma LabelShape(l: Label, r: Bytes)
    requires PlainLabel(l) && NoEscapes(r) && EndsInDot(r)
    ensures var t := l + ([DOT] + r); NoEscapes(t) && EndsInDot(t) && |t| >= 2 && t[0] != DOT
  {
    var t := l + ([DOT] + r);
    assert t[0] == l[0];
    assert r != [] ==> t[|t| - 1] == r[|r| - 1];
    forall k | 0 <= k < |t| ensures t[k] != BACKSLASH {
      assert t[k] == if k < |l| then l[k] else if k == |l| then DOT else r[k - |l| - 1];
    }
  }

  lemma {:induction false} RawShape(name: Domain)
    requires Plain(name)
    ensures NoEscapes(Raw(name)) && EndsInDot(Raw(name)) && |Raw(name)| + 1 == Octets(name)
    ensures name.Sub? ==> |Raw(name)| >= 2 && Raw(name)[0] != DOT
  {
    hide NoEscapes, PlainLabel;
    if name.Sub? {
      RawShape(name.parent);
      LabelShape(name.leaf, Raw(name.parent));
    } else {
      assert NoEscapes([]) by { NoneEscaped(); }
    }
  }

  lemma NoneEscaped()
    ensures NoEscapes([])
  {}

  /** The text of a plain name is accepted with and without a table, and stands for that name. */
  lemma PlainAccepted(name: Domain)
    requires Plain(name)
    ensures Accepted(TextOf(name), true) && NameOf(TextOf(name)) == name
  {
    RawShape(name);
    ParsePlain(name, true);
  }

  ghost predicate NoDots(l: Label) {
    forall k :: 0 <= k < |l| ==> l[k] != DOT && l[k] != BACKSLASH
  }

  lemma {:induction false} ParseUnescaped(s: Bytes, cur: Label, first: bool)
    requires NoEscapes(s) && NoDots(cur)
    ensures var r := Parse(s, cur, first); r.Parsed? && Valid(r.name) ==> Plain(r.name)
    decreases |s|
  {
    if s != [] {
      if s[0] == DOT {
        ParseUnescaped(s[1..], [], false);
      } else {
        ParseUnescaped(s[1..], cur + [s[0]], false);
      }
    }
  }

  /** A text accepted with a table stands for a plain name, and is its text. */
  lemma KeyedIsPlain(s: Bytes)
    requires Accepted(s, true)
    ensures Plain(NameOf(s)) && s == TextOf(NameOf(s))
  {
    if s != [DOT] {
      ParseUnescaped(s, [], true);
      ParseRaw(s, [], true);
      assert [] + s == s;
    }
  }

  lemma AcceptedPacks(s: Bytes, tbl: Table)
    requires Accepted(s, tbl.Table?)
    ensures Packs(NameOf(s), tbl) && Tracked(s, tbl) && (s != [DOT] ==> NameOf(s).Sub?)
  {
    if s != [DOT] {
      if s[0] != DOT {
        ParseOpened(s);
      }
    }
    if tbl.Table? {
      KeyedIsPlain(s);
    }
  }

  lemma ParseOpened(s: Bytes)
    requires s != [] && s[0] != DOT
    ensures var r := Parse(s, [], true); r.Parsed? ==> r.name.Sub? || r.dropped
  {
    if s[0] == BACKSLASH {
      if |s| > 1 {
        var (b, n) := Unescape(s);
        ParseOpen(s[n..], [] + [b]);
      }
    } else {
      ParseOpen(s[1..], [] + [s[0]]);
    }
  }

  /** Packing an accepted text follows the reference packer on the name it stands for. */
  lemma TextExpected(s: Bytes, tbl: Table, off: nat, compress: bool)
    requires Accepted(s, tbl.Table?) && TableOk(tbl)
    ensures var name := NameOf(s); var w := Plan(name, tbl, off, compress);
            && Packs(name, tbl) && Tracked(s, tbl)
            && Expected(s, tbl, off, compress) ==
               Writes(w.bytes, w.tbl, if name.Root? then 1 else w.need, if name.Root? then 1 else w.labels, false)
  {
    AcceptedPacks(s, tbl);
    var w := Plan(NameOf(s), tbl, off, compress);
    assert [] + w.bytes == w.bytes;
  }

  lemma {:induction false} PlanFits(name: Domain, tbl: Table, off: nat, compress: bool)
    requires Valid(name) && TableOk(tbl)
    ensures var w := Plan(name, tbl, off, compress); 1 <= |w.bytes| <= Octets(name) && w.need < Octets(name)
  {
    hide Raw;
    PlanStep(name, tbl, off, compress);
    if name.Sub? && !Hit(tbl, Raw(name), compress) {
      PlanFits(name.parent, Remember(tbl, Raw(name), off), off + 1 + |name.leaf|, compress);
    }
  }

  // ----- What the message holds ------------------------------------------------------------------

  /** The message holds the name at off, its own octets ending at end; flat says that it takes no pointers. */
  ghost predicate NameHeld(m: Bytes, hole: int, off: nat, end: nat, name: Domain, flat: bool) {
    && Walk(m, off) == Some(end)
    && exists hops: nat :: hops <= LabelCount(name) && (flat ==> hops == 0) && Spells(m, hole, end, off, name, hops)
  }

  lemma HeldAfterPack(name: Domain, tbl: Table, off: nat, compress: bool, a: Bytes, b: Bytes, hole: int, flat: bool)
    requires Packs(name, tbl) && Sound(a, hole, off, tbl) && off <= |a|
    requires Agree(a, b, hole, off) && hole + 2 <= off
    requires At(b, off, Plan(name, tbl, off, compress).bytes) && (flat ==> !compress)
    ensures var w := Plan(name, tbl, off, compress);
            && w.tbl.Table? == tbl.Table?
            && Sound(b, hole, off + |w.bytes|, w.tbl) && NameHeld(b, hole, off, off + |w.bytes|, name, flat)
  {
    hide Spells, Plan, Entry, Walk;
    var hops := PackKeepsSound(name, tbl, off, compress, a, b, hole);
    PlanTable(name, tbl, off, compress);
    PackedWalk(name, tbl, off, compress, b);
  }

  /** The octets and the table are those of the reference packer. */
  ghost predicate PackedAs(name: Domain, tbl: Table, off: nat, compress: bool, m: Bytes, off1: nat, tbl': Table)
    requires TableOk(tbl) && Short(name)
  {
    var w := Plan(name, tbl, off, compress);
    off1 == off + |w.bytes| && At(m, off, w.bytes) && tbl' == w.tbl
  }

  /** PackDomainName on an accepted text, in a message whose table is sound: the name it stands for is held,
      as the reference packer writes it, the table stays sound, and there is no error when the uncompressed form
      would fit. */
  method PackText(s: Bytes, msg: array<byte>, off: nat, tbl: Table, compress: bool, ghost hole: int, ghost flat: bool)
    returns (off1: nat, err: Error, tbl': Table)
    requires flat ==> !compress
    requires Accepted(s, tbl.Table?) && Sound(msg[..], hole, off, tbl) && hole + 2 <= off <= msg.Length
    modifies msg
    ensures Same(old(msg[..]), msg[..], off) && TableOk(tbl')
    ensures err == NoError && off1 <= msg.Length ==>
              && off < off1 <= off + Octets(NameOf(s)) && tbl'.Table? == tbl.Table?
              && Sound(msg[..], hole, off1, tbl') && NameHeld(msg[..], hole, off, off1, NameOf(s), flat)
              && PackedAs(NameOf(s), tbl, off, compress, msg[..], off1, tbl')
    ensures off + Octets(NameOf(s)) <= msg.Length ==> err == NoError && off1 <= msg.Length
  {
    hide Plan, Sound, Spells, Walk, NameOf;
    ghost var a, name := msg[..], NameOf(s);
    SoundTable(a, hole, off, tbl);
    TextExpected(s, tbl, off, compress);
    PlanFits(name, tbl, off, compress);
    var labels;
    off1, labels, err, tbl' := PackDomainName(s, msg, off, tbl, compress);
    if err == NoError && off1 <= msg.Length {
      HeldAfterPack(name, tbl, off, compress, a, msg[..], hole, flat);
    }
  }

  lemma SoundTable(m: Bytes, hole: int, end: nat, tbl: Table)
    requires Sound(m, hole, end, tbl)
    ensures TableOk(tbl)
  {}

  // ----- Holding is kept by later writes -----------------------------------------------------------

  lemma {:induction false} WalkStable(a: Bytes, b: Bytes, off: nat, end: nat)
    requires Walk(a, off) == Some(end) && end <= |b|
    requires forall k :: off <= k < end && k < |a| ==> b[k] == a[k]
    ensures off < end && Walk(b, off) == Some(end)
    decreases |a| - off
  {
    var c := a[off];
    if c == 0 || c >= 192 {
    } else if c < 64 {
      WalkStable(a, b, off + 1 + c, end);
    } else {
      WalkStable(a, b, off + 1, end);
    }
  }

  /** A held name stays held when the octets outside the hole stay, and when the hole is closed. */
  lemma HeldKept(a: Bytes, b: Bytes, hole: int, hole': int, off: nat, end: nat, name: Domain, flat: bool)
    requires NameHeld(a, hole, off, end, name, flat) && Agree(a, b, hole, end)
    requires hole + 2 <= off || end <= hole
    requires hole' == hole || hole' + 2 <= 0 || end <= hole'
    ensures NameHeld(b, hole', off, end, name, flat)
  {
    hide Spells;
    var hops: nat :| hops <= LabelCount(name) && (flat ==> hops == 0) && Spells(a, hole, end, off, name, hops);
    SpellsStable(a, b, hole, end, off, name, hops);
    SpellsWiden(b, hole, end, hole', end, off, name, hops);
    WalkStable(a, b, off, end);
  }

  // ----- The rdata ------------------------------------------------------------------------------------

  /** A field as it is packed: octets, or a name, which the type allows to be compressed or not. */
  datatype Item = DataItem(bytes: Bytes) | NameItem(text: Bytes, compressible: bool)

  ghost predicate AcceptedItem(item: Item, keyed: bool) {
    item.NameItem? ==> Accepted(item.text, keyed)
  }

  ghost predicate AcceptedItems(items: seq<Item>, keyed: bool) {
    forall i :: 0 <= i < |items| ==> AcceptedItem(items[i], keyed)
  }

  /** Octets the fields take without compression. */
  function Size(item: Item): nat {
    match item
    case DataItem(b) => |b|
    case NameItem(s, _) => Octets(NameOf(s))
  }

  function Sizes(items: seq<Item>): nat {
    if items == [] then 0 else Size(items[0]) + Sizes(items[1..])
  }

  ghost predicate ItemHeld(m: Bytes, hole: int, off: nat, end: nat, item: Item, flat: bool) {
    match item
    case DataItem(b) => end == off + |b| && At(m, off, b)
    case NameItem(s, _) => NameHeld(m, hole, off, end, NameOf(s), flat)
  }

  /** The message holds the fields one after the other between the offsets listed in cuts. */
  ghost predicate ItemsHeld(m: Bytes, hole: int, cuts: seq<nat>, items: seq<Item>, flat: bool) {
    && |cuts| == |items| + 1
    && (forall i, j :: 0 <= i <= j < |cuts| ==> cuts[i] <= cuts[j])
    && forall i :: 0 <= i < |items| ==> ItemHeld(m, hole, cuts[i], cuts[i + 1], items[i], flat)
  }

  lemma ItemsKept(a: Bytes, b: Bytes, hole: int, hole': int, cuts: seq<nat>, items: seq<Item>, flat: bool)
    requires ItemsHeld(a, hole, cuts, items, flat) && Agree(a, b, hole, cuts[|items|])
    requires hole + 2 <= cuts[0] && (hole' == hole || hole' + 2 <= 0)
    ensures ItemsHeld(b, hole', cuts, items, flat)
  {
    hide NameHeld, NameOf;
    forall i | 0 <= i < |items| ensures ItemHeld(b, hole', cuts[i], cuts[i + 1], items[i], flat) {
      var off, end := cuts[i], cuts[i + 1];
      assert ItemHeld(a, hole, off, end, items[i], flat);
      match items[i]
      case DataItem(d) => assert b[off..end] == a[off..end];
      case NameItem(s, _) => HeldKept(a, b, hole, hole', off, end, NameOf(s), flat);
    }
  }

  lemma ItemsExtended(m: Bytes, hole: int, cuts: seq<nat>, items: seq<Item>, end: nat, item: Item, flat: bool)
    requires ItemsHeld(m, hole, cuts, items, flat) && cuts[|items|] <= end
             && ItemHeld(m, hole, cuts[|items|], end, item, flat)
    ensures ItemsHeld(m, hole, cuts + [end], items + [item], flat)
  {
    hide ItemHeld;
  }

  /** A field is packed with one table and leaves the other. */
  ghost predicate ItemLaid(m: Bytes, off: nat, end: nat, item: Item, tbl: Table, tbl': Table, compress: bool) {
    match item
    case DataItem(b) => end == off + |b| && tbl' == tbl
    case NameItem(s, compressible) =>
      TableOk(tbl) && Short(NameOf(s)) && PackedAs(NameOf(s), tbl, off, compress && compressible, m, end, tbl')
  }

  /** The fields are packed one after the other, the table going from each to the next. */
  ghost predicate ItemsLaid(m: Bytes, cuts: seq<nat>, items: seq<Item>, ts: seq<Table>, compress: bool) {
    && |cuts| == |ts| == |items| + 1
    && forall i :: 0 <= i < |items| ==> ItemLaid(m, cuts[i], cuts[i + 1], items[i], ts[i], ts[i + 1], compress)
  }

  lemma AtKeptBehind(a: Bytes, b: Bytes, hole: int, off: nat, w: Bytes)
    requires At(a, off, w) && Agree(a, b, hole, off + |w|) && hole + 2 <= off
    ensures At(b, off, w)
  {
    assert b[off..off + |w|] == a[off..off + |w|];
  }

  lemma ItemsLaidKept(a: Bytes, b: Bytes, hole: int, cuts: seq<nat>, items: seq<Item>, ts: seq<Table>, compress: bool)
    requires ItemsLaid(a, cuts, items, ts, compress) && Agree(a, b, hole, cuts[|items|]) && hole + 2 <= cuts[0]
    requires forall i, j :: 0 <= i <= j < |cuts| ==> cuts[i] <= cuts[j]
    ensures ItemsLaid(b, cuts, items, ts, compress)
  {
    hide Plan, NameOf, At;
    forall i | 0 <= i < |items| ensures ItemLaid(b, cuts[i], cuts[i + 1], items[i], ts[i], ts[i + 1], compress) {
      assert ItemLaid(a, cuts[i], cuts[i + 1], items[i], ts[i], ts[i + 1], compress);
      assert cuts[0] <= cuts[i] && cuts[i + 1] <= cuts[|items|];
      match items[i]
      case DataItem(_) =>
      case NameItem(s, c) => AtKeptBehind(a, b, hole, cuts[i], Plan(NameOf(s), ts[i], cuts[i], compress && c).bytes);
    }
  }

  lemma ItemsLaidExtended(m: Bytes, cuts: seq<nat>, items: seq<Item>, ts: seq<Table>, end: nat, item: Item,
                          tbl: Table, compress: bool)
    requires ItemsLaid(m, cuts, items, ts, compress)
             && ItemLaid(m, cuts[|items|], end, item, ts[|items|], tbl, compress)
    ensures ItemsLaid(m, cuts + [end], items + [item], ts + [tbl], compress)
  {
    hide ItemLaid;
  }

  method PackOctets(msg: array<byte>, off: nat, b: Bytes) returns (off1: nat, err: Error)
    modifies msg
    ensures Same(old(msg[..]), msg[..], off)
    ensures if off + |b| <= msg.Length then err == NoError && off1 == off + |b| && At(msg[..], off, b)
            else err == ErrOverflow && off1 == msg.Length
  {
    if off + |b| > msg.Length {
      return msg.Length, ErrOverflow;
    }
    for i := 0 to |b|
      invariant forall k :: 0 <= k < off ==> msg[k] == old(msg[k])
      invariant forall k :: 0 <= k < i ==> msg[off + k] == b[k]
    {
      msg[off + i] := b[i];
    }
    off1, err := off + |b|, NoError;
  }

  method PackItem(item: Item, msg: array<byte>, off: nat, tbl: Table, compress: bool, ghost hole: int, ghost flat: bool)
    returns (off1: nat, err: Error, tbl': Table)
    requires flat ==> !compress
    requires AcceptedItem(item, tbl.Table?)
    requires Sound(msg[..], hole, off, tbl) && hole + 2 <= off <= msg.Length
    modifies msg
    ensures Same(old(msg[..]), msg[..], off) && TableOk(tbl')
    ensures err == NoError && off1 <= msg.Length ==>
              && off <= off1 <= off + Size(item) && tbl'.Table? == tbl.Table?
              && Sound(msg[..], hole, off1, tbl') && ItemHeld(msg[..], hole, off, off1, item, flat)
              && ItemLaid(msg[..], off, off1, item, tbl, tbl', compress)
    ensures off + Size(item) <= msg.Length ==> err == NoError && off1 <= msg.Length
  {
    hide NameHeld, Entry, NameOf, PackedAs;
    ghost var a := msg[..];
    match item
    case DataItem(b) =>
      off1, err := PackOctets(msg, off, b);
      tbl' := tbl;
      if err == NoError {
        SoundKept(a, msg[..], hole, off, hole, off1, tbl);
      }
    case NameItem(s, compressible) =>
      off1, err, tbl' := PackText(s, msg, off, tbl, compress && compressible, hole, flat);
  }

  lemma SizesUpTo(items: seq<Item>, i: nat)
    requires i < |items|
    ensures Sizes(items[..i + 1]) == Sizes(items[..i]) + Size(items[i])
    ensures Sizes(items[..i + 1]) <= Sizes(items)
  {
    hide Sizes;
    SizesAppend(items[..i], items[i]);
    assert items[..i] + [items[i]] == items[..i + 1];
    SizesPrefix(items, i + 1);
  }

  lemma {:induction false} SizesAppend(items: seq<Item>, item: Item)
    ensures Sizes(items + [item]) == Sizes(items) + Size(item)
  {
    if items != [] {
      assert (items + [item])[1..] == items[1..] + [item];
      SizesAppend(items[1..], item);
    } else {
      assert ([] + [item])[1..] == [];
    }
  }

  lemma {:induction false} SizesPrefix(items: seq<Item>, i: nat)
    requires i <= |items|
    ensures Sizes(items[..i]) <= Sizes(items)
    decreases |items|
  {
    if i > 0 {
      assert items[..i][1..] == items[1..][..i - 1];
      SizesPrefix(items[1..], i - 1);
    }
  }

  /** One more field behind those packed. */
  method PackNextItem(item: Item, msg: array<byte>, off: nat, tbl: Table, compress: bool, ghost hole: int,
                      ghost items: seq<Item>, ghost cuts: seq<nat>, ghost ts: seq<Table>, ghost flat: bool)
    returns (off1: nat, err: Error, tbl': Table)
    requires flat ==> !compress
    requires AcceptedItem(item, tbl.Table?) && Sound(msg[..], hole, off, tbl) && off <= msg.Length
    requires ItemsHeld(msg[..], hole, cuts, items, flat) && hole + 2 <= cuts[0] && cuts[|items|] == off
    requires ItemsLaid(msg[..], cuts, items, ts, compress) && ts[|items|] == tbl
    modifies msg
    ensures Same(old(msg[..]), msg[..], off)
    ensures err == NoError && off1 <= msg.Length ==>
              && off <= off1 <= off + Size(item) && tbl'.Table? == tbl.Table? && Sound(msg[..], hole, off1, tbl')
              && ItemsHeld(msg[..], hole, cuts + [off1], items + [item], flat)
              && ItemsLaid(msg[..], cuts + [off1], items + [item], ts + [tbl'], compress)
    ensures off + Size(item) <= msg.Length ==> err == NoError && off1 <= msg.Length
  {
    hide ItemHeld, ItemLaid, Sound, NameOf, AcceptedItem, Size;
    ghost var a := msg[..];
    assert cuts[0] <= off;
    off1, err, tbl' := PackItem(item, msg, off, tbl, compress, hole, flat);
    if err == NoError && off1 <= msg.Length {
      ItemsKept(a, msg[..], hole, hole, cuts, items, flat);
      ItemsLaidKept(a, msg[..], hole, cuts, items, ts, compress);
      ItemsExtended(msg[..], hole, cuts, items, off1, item, flat);
      ItemsLaidExtended(msg[..], cuts, items, ts, off1, item, tbl', compress);
    }
  }

  /** The fields of a record, one after the other. A name whose closing zero did not fit leaves the offset past
      the end, which every later field refuses. */
  method PackItems(items: seq<Item>, msg: array<byte>, start: nat, tbl: Table, compress: bool, ghost hole: int,
                   ghost flat: bool)
    returns (off: nat, err: Error, tbl': Table, ghost cuts: seq<nat>, ghost ts: seq<Table>)
    requires flat ==> !compress
    requires AcceptedItems(items, tbl.Table?) && Sound(msg[..], hole, start, tbl) && hole + 2 <= start <= msg.Length
    modifies msg
    ensures Same(old(msg[..]), msg[..], start)
    ensures err == NoError && off <= msg.Length ==>
              && tbl'.Table? == tbl.Table? && Sound(msg[..], hole, off, tbl')
              && ItemsHeld(msg[..], hole, cuts, items, flat)
              && cuts[0] == start && cuts[|items|] == off <= start + Sizes(items)
              && ItemsLaid(msg[..], cuts, items, ts, compress) && ts[0] == tbl && ts[|items|] == tbl'
    ensures start + Sizes(items) <= msg.Length ==> err == NoError && off <= msg.Length
  {
    hide NameHeld, Sound, ItemHeld, ItemLaid, NameOf, AcceptedItem;
    off, err, tbl', cuts, ts := start, NoError, tbl, [start], [tbl];
    for i := 0 to |items|
      invariant err == NoError && hole + 2 <= start <= off <= msg.Length && tbl'.Table? == tbl.Table?
      invariant Same(old(msg[..]), msg[..], start)
      invariant Sound(msg[..], hole, off, tbl') && ItemsHeld(msg[..], hole, cuts, items[..i], flat)
      invariant cuts[0] == start && cuts[i] == off <= start + Sizes(items[..i])
      invariant ItemsLaid(msg[..], cuts, items[..i], ts, compress) && ts[0] == tbl && ts[i] == tbl'
    {
      SizesUpTo(items, i);
      off, err, tbl' := PackNextItem(items[i], msg, off, tbl', compress, hole, items[..i], cuts, ts, flat);
      if err != NoError {
        return;
      }
      if off > msg.Length {
        err := if i + 1 == |items| then NoError else if items[i + 1].DataItem? then ErrOverflow else ErrBuf;
        return;
      }
      assert items[..i] + [items[i]] == items[..i + 1];
      cuts, ts := cuts + [off], ts + [tbl'];
    }
    assert items[..|items|] == items;
  }

  // ----- The header and the rdata length -------------------------------------------------------------

  function Be16(v: nat): (b: Bytes)
    ensures |b| == 2
  {
    [v / 256 % 256, v % 256]
  }

  /** Type, class, TTL and rdata length, big-endian. */
  function FixedPart(rec: Record, rdlength: nat): (b: Bytes)
    ensures |b| == 10
  {
    Be16(rec.rrtype) + Be16(rec.rclass) + Be16(rec.ttl / 0x1_0000) + Be16(rec.ttl) + Be16(rdlength)
  }

  /** A record to be packed: its names are texts. */
  datatype Record = Record(owner: Bytes, rrtype: nat, rclass: nat, ttl: nat, items: seq<Item>)

  ghost predicate AcceptedRecord(rec: Record, keyed: bool) {
    Accepted(rec.owner, keyed) && AcceptedItems(rec.items, keyed)
  }

  /** rawSetRdlength: walks over the owner name at start again, steps over type, class and TTL, and writes the
      distance from the end of the header to `end` into the two octets of the rdata length. */
  method RawSetRdlength(msg: array<byte>, start: nat, end: nat) returns (ok: bool)
    modifies msg
    ensures var m := old(msg[..]);
            match Walk(m, start)
            case None => !ok && msg[..] == m
            case Some(e) =>
              && ok == (e + 10 <= |m| && end - (e + 10) <= 0xFFFF)
              && (!ok ==> msg[..] == m)
              && (ok ==> msg[..] == m[..e + 8] + Be16((end - (e + 10)) % 0x1_0000) + m[e + 10..])
              && (ok ==> 256 * (msg[e + 8] as int) + msg[e + 9] == (end - (e + 10)) % 0x1_0000)
  {
    ghost var m := msg[..];
    var off := start;
    while true
      invariant msg[..] == m && 0 <= off && Walk(m, off) == Walk(m, start)
      decreases msg.Length - off
    {
      if off + 1 > msg.Length {
        return false;
      }
      var c := msg[off];
      off := off + 1;
      if c == 0 {
        break;
      }
      if c < 64 {
        if off + c > msg.Length {
          return false;
        }
        off := off + c;
      } else if c >= 192 {
        off := off + 1;
        break;
      }
    }
    off := off + 8;
    if off + 2 > msg.Length || end - (off + 2) > 0xFFFF {
      return false;
    }
    var v := (end - (off + 2)) % 0x1_0000;
    msg[off], msg[off + 1] := v / 256 % 256, v % 256;
    ok := true;
  }

  /** RR_Header.pack. The owner name ends at e and the header ten octets later; the two octets of the rdata
      length are still to change. */
  method PackHeader(rec: Record, rdlength: nat, msg: array<byte>, off: nat, tbl: Table, compress: bool,
                    ghost flat: bool)
    returns (off1: nat, err: Error, tbl': Table, ghost e: nat)
    requires flat ==> !compress
    requires Accepted(rec.owner, tbl.Table?) && Sound(msg[..], NOWHERE, off, tbl) && off < msg.Length
    modifies msg
    ensures Same(old(msg[..]), msg[..], off)
    ensures err == NoError ==>
              && off < e <= off + Octets(NameOf(rec.owner)) && off1 == e + 10 <= msg.Length
              && NameHeld(msg[..], NOWHERE, off, e, NameOf(rec.owner), flat) && At(msg[..], e, FixedPart(rec, rdlength))
              && tbl'.Table? == tbl.Table? && Sound(msg[..], e + 8, off1, tbl')
              && PackedAs(NameOf(rec.owner), tbl, off, compress, msg[..], e, tbl')
    ensures off + Octets(NameOf(rec.owner)) + 10 <= msg.Length ==> err == NoError
  {
    hide NameHeld, Entry, FixedPart, NameOf, Plan;
    off1, err, tbl' := PackText(rec.owner, msg, off, tbl, compress, NOWHERE, flat);
    e := off1;
    if err == NoError {
      if off1 + 10 > msg.Length {
        return msg.Length, ErrOverflow, tbl', e;
      }
      ghost var a := msg[..];
      off1, err := PackOctets(msg, off1, FixedPart(rec, rdlength));
      HeldKept(a, msg[..], NOWHERE, NOWHERE, off, e, NameOf(rec.owner), flat);
      SoundKept(a, msg[..], NOWHERE, e, e + 8, off1, tbl');
      AtKept(a, msg[..], off, Plan(NameOf(rec.owner), tbl, off, compress).bytes);
    }
  }

  /** The message holds the whole record: its owner name, the fixed part with the rdata length that reaches
      exactly to `end`, and its fields. */
  ghost predicate RecordHeld(m: Bytes, off: nat, end: nat, rec: Record, e: nat, cuts: seq<nat>, flat: bool) {
    && NameHeld(m, NOWHERE, off, e, NameOf(rec.owner), flat)
    && e + 10 <= end <= |m| && end - (e + 10) <= 0xFFFF && At(m, e, FixedPart(rec, end - (e + 10)))
    && ItemsHeld(m, NOWHERE, cuts, rec.items, flat) && cuts[0] == e + 10 && cuts[|rec.items|] == end
  }

  /** The record's names are packed with one table, each leaving the next, up to the other. */
  ghost predicate RecordLaid(m: Bytes, off: nat, rec: Record, e: nat, cuts: seq<nat>, tbl: Table, tbl': Table,
                             ts: seq<Table>, compress: bool) {
    && TableOk(tbl) && Short(NameOf(rec.owner)) && |ts| == |rec.items| + 1 && ts[|rec.items|] == tbl'
    && PackedAs(NameOf(rec.owner), tbl, off, compress, m, e, ts[0]) && ItemsLaid(m, cuts, rec.items, ts, compress)
  }

  /** It stays so when octets behind it change, or the two of the rdata length. */
  lemma RecordLaidKept(a: Bytes, b: Bytes, off: nat, rec: Record, e: nat, cuts: seq<nat>, tbl: Table, tbl': Table,
                       ts: seq<Table>, compress: bool)
    requires RecordLaid(a, off, rec, e, cuts, tbl, tbl', ts, compress) && cuts[0] == e + 10
    requires (forall i, j :: 0 <= i <= j < |cuts| ==> cuts[i] <= cuts[j]) && Agree(a, b, e + 8, cuts[|rec.items|])
    ensures RecordLaid(b, off, rec, e, cuts, tbl, tbl', ts, compress)
  {
    hide Plan, NameOf, At, ItemLaid;
    AtKept(a, b, off, Plan(NameOf(rec.owner), tbl, off, compress).bytes);
    ItemsLaidKept(a, b, e + 8, cuts, rec.items, ts, compress);
  }

  /** Patching the rdata length completes a packed record and leaves the table sound. */
  lemma Patched(a: Bytes, b: Bytes, off: nat, end: nat, rec: Record, old0: nat, e: nat, cuts: seq<nat>, tbl: Table,
                flat: bool)
    requires off < e && e + 10 <= end <= |a| && |b| == |a| && end - (e + 10) <= 0xFFFF
    requires NameHeld(a, NOWHERE, off, e, NameOf(rec.owner), flat) && At(a, e, FixedPart(rec, old0))
    requires ItemsHeld(a, e + 8, cuts, rec.items, flat) && cuts[0] == e + 10 && cuts[|rec.items|] == end
    requires Sound(a, e + 8, end, tbl)
    requires b == a[..e + 8] + Be16(end - (e + 10)) + a[e + 10..]
    ensures RecordHeld(b, off, end, rec, e, cuts, flat) && Sound(b, NOWHERE, end, tbl)
  {
    hide NameHeld, Entry, ItemHeld, Be16, NameOf;
    HeldKept(a, b, NOWHERE, NOWHERE, off, e, NameOf(rec.owner), flat);
    ItemsKept(a, b, e + 8, NOWHERE, cuts, rec.items, flat);
    SoundKept(a, b, e + 8, end, NOWHERE, end, tbl);
    FixedPatched(a, b, rec, old0, end - (e + 10), e);
  }

  lemma FixedPatched(a: Bytes, b: Bytes, rec: Record, old0: nat, rdlength: nat, e: nat)
    requires At(a, e, FixedPart(rec, old0)) && b == a[..e + 8] + Be16(rdlength) + a[e + 10..]
    ensures At(b, e, FixedPart(rec, rdlength))
  {
    hide Be16;
    var f := a[e..e + 10];
    assert b[e..e + 10] == f[..8] + Be16(rdlength);
  }

  /** PackRR. The record is held and the table sound after every success that stays inside the message, and
      there is such a success whenever the uncompressed record fits and its rdata is at most 65535 octets. */
  method PackRR(rec: Record, rdlength: nat, msg: array<byte>, off: nat, tbl: Table, compress: bool, ghost flat: bool)
    returns (off1: nat, err: Error, tbl': Table, ghost e: nat, ghost cuts: seq<nat>, ghost ts: seq<Table>)
    requires flat ==> !compress
    requires AcceptedRecord(rec, tbl.Table?) && Sound(msg[..], NOWHERE, off, tbl) && off <= msg.Length
    modifies msg
    ensures Same(old(msg[..]), msg[..], off)
    ensures err == NoError && off1 <= msg.Length ==>
              && RecordHeld(msg[..], off, off1, rec, e, cuts, flat) && Sound(msg[..], NOWHERE, off1, tbl')
              && tbl'.Table? == tbl.Table?
              && RecordLaid(msg[..], off, rec, e, cuts, tbl, tbl', ts, compress)
              && e + 10 <= off1
              && 256 * (msg[e] as int) + msg[e + 1] == rec.rrtype % 0x1_0000
              && 256 * (msg[e + 2] as int) + msg[e + 3] == rec.rclass % 0x1_0000
              && rec.ttl % 0x1_0000_0000 ==
                 0x100_0000 * (msg[e + 4] as int) + 0x1_0000 * (msg[e + 5] as int) + 256 * (msg[e + 6] as int)
                 + msg[e + 7]
              && 256 * (msg[e + 8] as int) + msg[e + 9] == off1 - (e + 10)
    ensures off + Octets(NameOf(rec.owner)) + 10 + Sizes(rec.items) <= msg.Length && Sizes(rec.items) <= 0xFFFF ==>
              err == NoError && off1 <= off + Octets(NameOf(rec.owner)) + 10 + Sizes(rec.items)
  {
    hide NameHeld, ItemHeld, ItemLaid, RecordHeld, RecordLaid, Sound, NameOf;
    if off == msg.Length {
      e := 0;
      off1, err, tbl', cuts, ts := PackItems(rec.items, msg, off, tbl, compress, NOWHERE, flat);
      if err == NoError {
        var ok := RawSetRdlength(msg, off, off1);
        return off, ErrRdata, tbl', e, cuts, ts;
      }
      return;
    }
    off1, err, tbl', e, cuts, ts := PackWhole(rec, rdlength, msg, off, tbl, compress, flat);
    if err == NoError && off1 <= msg.Length {
      RecordOctets(msg[..], off, off1, rec, e, cuts, flat);
    }
  }

  /** The rdata length of a record whose header and fields are written, and with it the whole record. */
  method SetLength(rec: Record, ghost rdlength: nat, msg: array<byte>, off: nat, end: nat, ghost tbl: Table,
                   ghost e: nat, ghost cuts: seq<nat>, ghost flat: bool)
    returns (ok: bool)
    requires off < e && e + 10 <= msg.Length && NameHeld(msg[..], NOWHERE, off, e, NameOf(rec.owner), flat)
    requires At(msg[..], e, FixedPart(rec, rdlength))
    requires end <= msg.Length ==>
               && e + 10 <= end && ItemsHeld(msg[..], e + 8, cuts, rec.items, flat) && cuts[0] == e + 10
               && cuts[|rec.items|] == end
               && Sound(msg[..], e + 8, end, tbl)
    modifies msg
    ensures Same(old(msg[..]), msg[..], off) && ok == (end - (e + 10) <= 0xFFFF)
            && Agree(old(msg[..]), msg[..], e + 8, msg.Length)
    ensures ok && end <= msg.Length ==>
              RecordHeld(msg[..], off, end, rec, e, cuts, flat) && Sound(msg[..], NOWHERE, end, tbl)
  {
    hide NameHeld, Entry, ItemsHeld, FixedPart, Be16, At, NameOf, RecordHeld, Sound, Walk;
    ghost var b := msg[..];
    HeldWalk(b, NOWHERE, off, e, NameOf(rec.owner), flat);
    ok := RawSetRdlength(msg, off, end);
    if ok && end <= msg.Length {
      Patched(b, msg[..], off, end, rec, rdlength, e, cuts, tbl, flat);
    }
  }

  /** A 16-bit word behind other octets, the more significant octet first. */
  lemma WordOctets(m: Bytes, e: nat, t: Bytes, v: nat)
    requires At(m, e, t + Be16(v))
    ensures At(m, e, t) && e + |t| + 2 <= |m| && 256 * (m[e + |t|] as int) + m[e + |t| + 1] == v % 0x1_0000
  {
    hide Be16;
    AtSplit(m, e, t, Be16(v));
    WordAt(m, e + |t|, v);
  }

  lemma WordAt(m: Bytes, o: nat, v: nat)
    requires At(m, o, Be16(v))
    ensures 256 * (m[o] as int) + m[o + 1] == v % 0x1_0000
  {
    var w := m[o..o + 2];
    assert m[o] == w[0] && m[o + 1] == w[1];
    WordValue(v);
  }

  lemma WordValue(v: nat)
    ensures 256 * (v / 256 % 256) + v % 256 == v % 0x1_0000
  {}

  /** The fixed part of a held record, octet by octet: type, class, TTL and rdata length, big-endian. */
  lemma RecordOctets(m: Bytes, off: nat, end: nat, rec: Record, e: nat, cuts: seq<nat>, flat: bool)
    requires RecordHeld(m, off, end, rec, e, cuts, flat)
    ensures e + 10 <= end <= |m|
    ensures 256 * (m[e] as int) + m[e + 1] == rec.rrtype % 0x1_0000
    ensures 256 * (m[e + 2] as int) + m[e + 3] == rec.rclass % 0x1_0000
    ensures 0x100_0000 * (m[e + 4] as int) + 0x1_0000 * (m[e + 5] as int) + 256 * (m[e + 6] as int) + m[e + 7]
            == rec.ttl % 0x1_0000_0000
    ensures 256 * (m[e + 8] as int) + m[e + 9] == end - (e + 10)
  {
    hide Be16, At, NameHeld, ItemsHeld;
    var f1 := Be16(rec.rrtype);
    var f2 := f1 + Be16(rec.rclass);
    var f3 := f2 + Be16(rec.ttl / 0x1_0000);
    var f4 := f3 + Be16(rec.ttl);
    WordOctets(m, e, f4, end - (e + 10));
    WordOctets(m, e, f3, rec.ttl);
    WordOctets(m, e, f2, rec.ttl / 0x1_0000);
    WordOctets(m, e, f1, rec.rclass);
    assert [] + f1 == f1;
    WordOctets(m, e, [], rec.rrtype);
  }

  /** PackRR where there is a message left to pack into. */
  method PackWhole(rec: Record, rdlength: nat, msg: array<byte>, off: nat, tbl: Table, compress: bool, ghost flat: bool)
    returns (off1: nat, err: Error, tbl': Table, ghost e: nat, ghost cuts: seq<nat>, ghost ts: seq<Table>)
    requires flat ==> !compress
    requires AcceptedRecord(rec, tbl.Table?) && Sound(msg[..], NOWHERE, off, tbl) && off < msg.Length
    modifies msg
    ensures Same(old(msg[..]), msg[..], off)
    ensures err == NoError && off1 <= msg.Length ==>
              && RecordHeld(msg[..], off, off1, rec, e, cuts, flat) && Sound(msg[..], NOWHERE, off1, tbl')
              && tbl'.Table? == tbl.Table?
              && RecordLaid(msg[..], off, rec, e, cuts, tbl, tbl', ts, compress)
    ensures off + Octets(NameOf(rec.owner)) + 10 + Sizes(rec.items) <= msg.Length && Sizes(rec.items) <= 0xFFFF ==>
              err == NoError && off1 <= off + Octets(NameOf(rec.owner)) + 10 + Sizes(rec.items)
  {
    hide NameHeld, ItemHeld, ItemLaid, FixedPart, At, NameOf, RecordHeld, Sound, Plan;
    SoundTable(msg[..], NOWHERE, off, tbl);
    cuts, ts := [], [];
    off1, err, tbl', e := PackHeader(rec, rdlength, msg, off, tbl, compress, flat);
    if err != NoError {
      return;
    }
    ghost var a := msg[..];
    off1, err, tbl', cuts, ts := PackItems(rec.items, msg, off1, tbl', compress, e + 8, flat);
    if err != NoError {
      return;
    }
    HeldKept(a, msg[..], NOWHERE, NOWHERE, off, e, NameOf(rec.owner), flat);
    AtKept(a, msg[..], e, FixedPart(rec, rdlength));
    AtKept(a, msg[..], off, Plan(NameOf(rec.owner), tbl, off, compress).bytes);
    ghost var b := msg[..];
    var ok := SetLength(rec, rdlength, msg, off, off1, tbl', e, cuts, flat);
    if !ok {
      return off, ErrRdata, tbl', e, cuts, ts;
    }
    if off1 <= msg.Length {
      RecordLaidKept(b, msg[..], off, rec, e, cuts, tbl, tbl', ts, compress);
    }
  }

  lemma HeldWalk(m: Bytes, hole: int, off: nat, end: nat, name: Domain, flat: bool)
    requires NameHeld(m, hole, off, end, name, flat)
    ensures Walk(m, off) == Some(end)
  {}

  lemma AtKept(a: Bytes, b: Bytes, off: nat, w: Bytes)
    requires At(a, off, w) && Agree(a, b, NOWHERE, off + |w|)
    ensures At(b, off, w)
  {
    assert b[off..off + |w|] == a[off..off + |w|];
  }
}
