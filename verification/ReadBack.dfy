/** Records that a message holds are read back as they were packed. */
module ReadBack {
  import opened Names
  import opened UnpackName
  import opened PackName
  import opened Compression
  import opened RoundTrip
  import opened ReadRecord
  import opened WriteRecord

  /** A text of a name of at most 255 octets, which is all the decoder gives back. */
  ghost predicate Readable(s: Bytes) {
    Octets(NameOf(s)) <= MAX_NAME_OCTETS
  }

  /** The octets at off unfold to the name through at most as many pointers as the decoder follows. */
  ghost predicate NameFew(m: Bytes, off: nat, name: Domain) {
    exists hops: nat :: hops <= MAX_POINTERS && Spells(m, NOWHERE, |m|, off, name, hops)
  }

  /** There cannot be too many pointers: there are none, or no more labels than pointers that may be followed. */
  ghost predicate Few(name: Domain, flat: bool) {
    flat || LabelCount(name) <= MAX_POINTERS
  }

  /** What reading v back gives: v itself when the pointers are few, and the pointer error when they are not. */
  ghost predicate ReadsAs<T(!new)>(r: Read<T>, v: T, end: nat, few: bool) {
    r == if few then Got(v, end) else Fault(ErrPointers)
  }

  /** A printable character that needs no escape. */
  predicate Shown(b: byte) {
    !Special(b) && 32 <= b < 127
  }

  ghost predicate Printable(name: Domain) {
    name.Sub? ==> Printable(name.parent) && forall k :: 0 <= k < |name.leaf| ==> Shown(name.leaf[k])
  }

  lemma ShownUnescaped(b: byte)
    requires Shown(b)
    ensures EscapeByte(b) == [b]
  {}

  lemma {:induction false} EscapesNothing(l: Label, n: nat)
    requires n <= |l| && forall k :: 0 <= k < |l| ==> Shown(l[k])
    ensures Escape(l[..n]) == l[..n]
    decreases n
  {
    hide Shown, EscapeByte;
    if n > 0 {
      var p, b := l[..n - 1], l[n - 1];
      EscapesNothing(l, n - 1);
      ShownUnescaped(b);
      EscapeLast(p, b);
      assert l[..n] == p + [b];
    }
  }

  lemma EscapeLast(p: Label, b: byte)
    ensures Escape(p + [b]) == Escape(p) + EscapeByte(b)
  {
    assert (p + [b])[..|p|] == p;
  }

  lemma {:induction false} PrintableIsText(name: Domain)
    requires Printable(name)
    ensures Text(name) == Raw(name)
  {
    if name.Sub? {
      var l := name.leaf;
      EscapesNothing(l, |l|);
      assert l[..|l|] == l;
      PrintableIsText(name.parent);
    }
  }

  /** A printable text without escapes is read back as it was given to the packer. */
  lemma PrintableComesBack(s: Bytes)
    requires Accepted(s, true) && Printable(NameOf(s))
    ensures Present(NameOf(s)) == s
  {
    KeyedIsPlain(s);
    PrintableIsText(NameOf(s));
  }

  /** The number of pointers a name is spelled through is fixed by the octets. */
  lemma FewExactly(m: Bytes, off: nat, e: nat, name: Domain, hops: nat)
    requires Spells(m, NOWHERE, e, off, name, hops)
    ensures NameFew(m, off, name) <==> hops <= MAX_POINTERS
  {
    hide Spells;
    assert e <= |m| by { SpellsInside(m, off, e, name, hops); }
    SpellsWiden(m, NOWHERE, e, NOWHERE, |m|, off, name, hops);
    if NameFew(m, off, name) {
      var h: nat :| h <= MAX_POINTERS && Spells(m, NOWHERE, |m|, off, name, h);
      SpelledIsDecoded(m, NOWHERE, |m|, off, name, h, MAX_POINTERS);
      SpelledIsDecoded(m, NOWHERE, e, off, name, hops, MAX_POINTERS);
    }
  }

  lemma SpellsInside(m: Bytes, off: nat, e: nat, name: Domain, hops: nat)
    requires Spells(m, NOWHERE, e, off, name, hops)
    ensures off < e <= |m|
  {}

  /** A held name is read back exactly when its octets take few enough pointers. */
  lemma HeldNameReads(m: Bytes, off: nat, e: nat, name: Domain, flat: bool)
    requires NameHeld(m, NOWHERE, off, e, name, flat) && Octets(name) <= MAX_NAME_OCTETS
    ensures ReadsAs(NameAt(m, off), Present(name), e, NameFew(m, off, name)) && off < e <= |m|
    ensures Few(name, flat) ==> NameFew(m, off, name)
  {
    hide Spells, Walk;
    var hops: nat :| hops <= LabelCount(name) && (flat ==> hops == 0) && Spells(m, NOWHERE, e, off, name, hops);
    SpellsInside(m, off, e, name, hops);
    FewExactly(m, off, e, name, hops);
    SpelledIsDecoded(m, NOWHERE, e, off, name, hops, MAX_POINTERS);
    if hops <= MAX_POINTERS {
      DecodedWalk(m, off, MAX_POINTERS);
    }
  }

  /** Cutting the message off behind a held name does not change how many pointers it takes. */
  lemma FewInCut(m: Bytes, off: nat, e: nat, name: Domain, flat: bool, end: nat)
    requires NameHeld(m, NOWHERE, off, e, name, flat) && e <= end <= |m|
    ensures NameFew(m[..end], off, name) <==> NameFew(m, off, name)
  {
    hide Spells, Walk, NameFew;
    var hops: nat :| hops <= LabelCount(name) && (flat ==> hops == 0) && Spells(m, NOWHERE, e, off, name, hops);
    FewExactly(m, off, e, name, hops);
    SpellsStable(m, m[..end], NOWHERE, e, off, name, hops);
    FewExactly(m[..end], off, e, name, hops);
  }

  // ----- The rdata ---------------------------------------------------------------------------

  function ValueOf(item: Item): Value {
    match item
    case DataItem(b) => Data(b)
    case NameItem(s, _) => NameText(Present(NameOf(s)))
  }

  function ValuesOf(items: seq<Item>): seq<Value> {
    if items == [] then [] else [ValueOf(items[0])] + ValuesOf(items[1..])
  }

  /** A field has the shape its type's layout gives it. */
  predicate Fits(k: Kind, item: Item, last: bool) {
    match k
    case Fixed(n) => item.DataItem? && |item.bytes| == n
    case DomainName(c) => item.NameItem? && item.compressible == c
    case Rest => item.DataItem? && last
  }

  ghost predicate Matches(ks: seq<Kind>, items: seq<Item>) {
    |ks| == |items| && forall i :: 0 <= i < |ks| ==> Fits(ks[i], items[i], i == |ks| - 1)
  }

  ghost predicate ReadableItems(items: seq<Item>) {
    forall i :: 0 <= i < |items| && items[i].NameItem? ==> Readable(items[i].text)
  }

  ghost predicate FewItem(item: Item, flat: bool) {
    item.NameItem? ==> Few(NameOf(item.text), flat)
  }

  ghost predicate FewItems(items: seq<Item>, flat: bool) {
    forall i :: 0 <= i < |items| ==> FewItem(items[i], flat)
  }

  ghost predicate ItemFew(m: Bytes, off: nat, item: Item) {
    item.NameItem? ==> NameFew(m, off, NameOf(item.text))
  }

  /** No name among the fields takes too many pointers. */
  ghost predicate ItemsFew(m: Bytes, cuts: seq<nat>, items: seq<Item>)
    requires |cuts| == |items| + 1
  {
    forall i :: 0 <= i < |items| ==> ItemFew(m, cuts[i], items[i])
  }

  lemma ItemReads(k: Kind, item: Item, m: Bytes, off: nat, end: nat, last: bool, flat: bool)
    requires Fits(k, item, last) && ItemHeld(m, NOWHERE, off, end, item, flat) && off <= end <= |m|
    requires last ==> end == |m|
    requires item.NameItem? ==> Readable(item.text)
    ensures ReadsAs(FieldAt(k, m, off), ValueOf(item), end, ItemFew(m, off, item))
  {
    hide NameFew, NameOf, NameHeld;
    if item.NameItem? {
      HeldNameReads(m, off, end, NameOf(item.text), flat);
    } else {
      assert m[off..end] == item.bytes;
      if k.Rest? {
        assert m[off..] == m[off..end];
      }
    }
  }

  /** Fields without octets have the values of a fresh record, and hold no names. */
  lemma {:induction false} EmptyItems(ks: seq<Kind>, items: seq<Item>, m: Bytes, cuts: seq<nat>, flat: bool)
    requires Matches(ks, items) && ItemsHeld(m, NOWHERE, cuts, items, flat) && cuts[0] == cuts[|items|]
    ensures Defaults(ks) == ValuesOf(items)
    ensures forall i :: 0 <= i < |items| ==> items[i].DataItem?
    decreases |ks|
  {
    hide NameOf, NameHeld;
    if ks != [] {
      assert cuts[0] <= cuts[1] <= cuts[|items|];
      assert ItemHeld(m, NOWHERE, cuts[0], cuts[1], items[0], flat);
      FirstIsEmpty(ks[0], items[0], m, cuts[0], |ks| == 1, flat);
      TailHeld(ks, items, m, cuts, flat);
      EmptyItems(ks[1..], items[1..], m, cuts[1..], flat);
      assert forall i :: 0 < i < |items| ==> items[i] == items[1..][i - 1];
    }
  }

  lemma FirstIsEmpty(k: Kind, item: Item, m: Bytes, off: nat, last: bool, flat: bool)
    requires Fits(k, item, last) && ItemHeld(m, NOWHERE, off, off, item, flat)
    ensures Default(k) == ValueOf(item) && item.DataItem?
  {
    hide NameOf;
    if item.NameItem? {
      WalkStable(m, m, off, off);
    } else {
      assert item.bytes == [];
    }
  }

  lemma TailHeld(ks: seq<Kind>, items: seq<Item>, m: Bytes, cuts: seq<nat>, flat: bool)
    requires ks != [] && Matches(ks, items) && ItemsHeld(m, NOWHERE, cuts, items, flat)
    ensures Matches(ks[1..], items[1..]) && ItemsHeld(m, NOWHERE, cuts[1..], items[1..], flat)
  {
    hide ItemHeld;
    assert forall i :: 0 <= i < |items| - 1 ==> items[1..][i] == items[i + 1] && ks[1..][i] == ks[i + 1];
    assert forall i :: 0 <= i < |cuts| - 1 ==> cuts[1..][i] == cuts[i + 1];
  }

  lemma ItemsFewTail(m: Bytes, cuts: seq<nat>, items: seq<Item>)
    requires |cuts| == |items| + 1 && items != []
    ensures ItemsFew(m, cuts, items) <==> ItemFew(m, cuts[0], items[0]) && ItemsFew(m, cuts[1..], items[1..])
  {
    hide ItemFew;
    var c, t := cuts[1..], items[1..];
    assert forall i :: 0 <= i < |t| ==> t[i] == items[i + 1] && c[i] == cuts[i + 1];
    if ItemFew(m, cuts[0], items[0]) && ItemsFew(m, c, t) {
      forall i | 0 <= i < |items| ensures ItemFew(m, cuts[i], items[i]) {
        assert i > 0 ==> ItemFew(m, c[i - 1], t[i - 1]);
      }
    }
    if ItemsFew(m, cuts, items) {
      forall i | 0 <= i < |t| ensures ItemFew(m, c[i], t[i]) {
        assert ItemFew(m, cuts[i + 1], items[i + 1]);
      }
    }
  }

  /** Held fields are read back in order, up to the end of the cut-off message, exactly when none of their
      names takes too many pointers. */
  lemma {:induction false} ItemsRead(ks: seq<Kind>, items: seq<Item>, m: Bytes, cuts: seq<nat>, flat: bool)
    requires Matches(ks, items) && ReadableItems(items) && ItemsHeld(m, NOWHERE, cuts, items, flat)
    requires cuts[|items|] == |m|
    ensures ReadsAs(FieldsAt(ks, m, cuts[0]), ValuesOf(items), |m|, ItemsFew(m, cuts, items))
    decreases |ks|
  {
    hide ItemHeld, ItemFew, ItemsFew, NameOf, Readable;
    if ks != [] {
      assert cuts[0] <= cuts[1] <= cuts[|items|];
      assert ItemHeld(m, NOWHERE, cuts[0], cuts[1], items[0], flat);
      ItemReads(ks[0], items[0], m, cuts[0], cuts[1], |ks| == 1, flat);
      TailHeld(ks, items, m, cuts, flat);
      ItemsFewTail(m, cuts, items);
      if |ks| > 1 && cuts[1] == |m| {
        EmptyItems(ks[1..], items[1..], m, cuts[1..], flat);
        NoNamesFew(m, cuts[1..], items[1..]);
      } else {
        ItemsRead(ks[1..], items[1..], m, cuts[1..], flat);
      }
    } else {
      NoNamesFew(m, cuts, items);
    }
  }

  lemma NoNamesFew(m: Bytes, cuts: seq<nat>, items: seq<Item>)
    requires |cuts| == |items| + 1 && forall i :: 0 <= i < |items| ==> items[i].DataItem?
    ensures ItemsFew(m, cuts, items)
  {}

  lemma ItemsFewInCut(m: Bytes, cuts: seq<nat>, items: seq<Item>, flat: bool, end: nat)
    requires ItemsHeld(m, NOWHERE, cuts, items, flat) && cuts[|items|] <= end <= |m|
    ensures ItemsFew(m[..end], cuts, items) <==> ItemsFew(m, cuts, items)
  {
    hide NameFew, NameHeld, NameOf;
    forall i | 0 <= i < |items| ensures ItemFew(m[..end], cuts[i], items[i]) <==> ItemFew(m, cuts[i], items[i]) {
      assert ItemHeld(m, NOWHERE, cuts[i], cuts[i + 1], items[i], flat);
      assert cuts[i + 1] <= cuts[|items|];
      if items[i].NameItem? {
        FewInCut(m, cuts[i], cuts[i + 1], NameOf(items[i].text), flat, end);
      }
    }
  }

  // ----- The record ---------------------------------------------------------------------------

  ghost predicate GoodRecord(layouts: Layouts, rec: Record) {
    && Readable(rec.owner) && ReadableItems(rec.items)
    && rec.rrtype < 0x1_0000 && rec.rclass < 0x1_0000 && rec.ttl < 0x1_0000_0000
    && Matches(LayoutOf(layouts, rec.rrtype), rec.items) && Sizes(rec.items) <= 0xFFFF
  }

  function RROf(rec: Record): RR {
    RR(Present(NameOf(rec.owner)), rec.rrtype, rec.rclass, rec.ttl, ValuesOf(rec.items))
  }

  /** A 16-bit word behind other octets. */
  lemma WordReads(m: Bytes, e: nat, t: Bytes, v: nat)
    requires At(m, e, t + Be16(v))
    ensures At(m, e, t) && e + |t| + 2 <= |m| && U16(m, e + |t|) == v % 0x1_0000
  {
    hide Be16, At;
    WordOctets(m, e, t, v);
  }

  lemma FixedReads(m: Bytes, e: nat, rec: Record, rdlength: nat)
    requires At(m, e, FixedPart(rec, rdlength)) && rdlength < 0x1_0000
    requires rec.rrtype < 0x1_0000 && rec.rclass < 0x1_0000 && rec.ttl < 0x1_0000_0000
    ensures U16(m, e) == rec.rrtype && U16(m, e + 2) == rec.rclass && U32(m, e + 4) == rec.ttl
            && U16(m, e + 8) == rdlength
  {
    hide Be16, At, U16;
    var f1 := Be16(rec.rrtype);
    var f2 := f1 + Be16(rec.rclass);
    var f3 := f2 + Be16(rec.ttl / 0x1_0000);
    var f4 := f3 + Be16(rec.ttl);
    WordReads(m, e, f4, rdlength);
    WordReads(m, e, f3, rec.ttl);
    WordReads(m, e, f2, rec.ttl / 0x1_0000);
    WordReads(m, e, f1, rec.rclass);
    assert [] + f1 == f1;
    WordReads(m, e, [], rec.rrtype);
  }

  ghost predicate FewRecord(rec: Record, flat: bool) {
    Few(NameOf(rec.owner), flat) && FewItems(rec.items, flat)
  }

  /** No name of the record at off takes too many pointers. */
  ghost predicate RecordFew(m: Bytes, off: nat, rec: Record, cuts: seq<nat>) {
    NameFew(m, off, NameOf(rec.owner)) && |cuts| == |rec.items| + 1 && ItemsFew(m, cuts, rec.items)
  }

  /** A held record is read back as it was packed exactly when none of its names takes too many pointers: the
      header is found, the message is cut off exactly at the end of the record, and the rdata fills it. */
  lemma RecordReads(layouts: Layouts, m: Bytes, off: nat, end: nat, rec: Record, e: nat, cuts: seq<nat>, flat: bool)
    requires RecordHeld(m, off, end, rec, e, cuts, flat) && GoodRecord(layouts, rec)
    ensures var h := Header(Present(NameOf(rec.owner)), rec.rrtype, rec.rclass, rec.ttl, end - (e + 10));
            ReadsAs(HeaderAt(m, off), h, e + 10, NameFew(m, off, NameOf(rec.owner)))
    ensures ReadsAs(RecordAt(layouts, m, off), RROf(rec), end, RecordFew(m, off, rec, cuts)) && off + 11 <= end
    ensures FewRecord(rec, flat) ==> RecordFew(m, off, rec, cuts)
  {
    hide NameHeld, ItemHeld, FixedPart, At, NameAt, NameFew, ItemsFew, NameOf, FewItems;
    HeldNameReads(m, off, e, NameOf(rec.owner), flat);
    FixedReads(m, e, rec, end - (e + 10));
    var cut := m[..end];
    ItemsKept(m, cut, NOWHERE, NOWHERE, cuts, rec.items, flat);
    ItemsFewInCut(m, cuts, rec.items, flat, end);
    FewItemsFew(m, cuts, rec.items, flat);
    var ks := LayoutOf(layouts, rec.rrtype);
    if end == e + 10 {
      EmptyItems(ks, rec.items, m, cuts, flat);
      NoNamesFew(m, cuts, rec.items);
    } else {
      ItemsRead(ks, rec.items, cut, cuts, flat);
    }
  }

  lemma FewItemsFew(m: Bytes, cuts: seq<nat>, items: seq<Item>, flat: bool)
    requires ItemsHeld(m, NOWHERE, cuts, items, flat) && ReadableItems(items)
    ensures FewItems(items, flat) ==> ItemsFew(m, cuts, items)
  {
    hide NameFew, NameHeld, NameOf;
    if FewItems(items, flat) {
      forall i | 0 <= i < |items| ensures ItemFew(m, cuts[i], items[i]) {
        assert ItemHeld(m, NOWHERE, cuts[i], cuts[i + 1], items[i], flat) && FewItem(items[i], flat);
        if items[i].NameItem? {
          HeldNameReads(m, cuts[i], cuts[i + 1], NameOf(items[i].text), flat);
        }
      }
    }
  }
}
