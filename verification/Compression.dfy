/** What packing with a compression table means: every table entry, and every packed name, spells the name
    it stands for, in the message as it keeps growing. */
module Compression {
  import opened Names
  import opened UnpackName
  import opened PackName

  // ----- Plain names: non-empty labels without dots and backslashes --------------------

  ghost predicate PlainLabel(l: Label) {
    1 <= |l| <= MAX_LABEL && forall k :: 0 <= k < |l| ==> l[k] != DOT && l[k] != BACKSLASH
  }

  ghost predicate Plain(name: Domain): (p: bool)
    ensures p ==> Valid(name)
  {
    name.Sub? ==> PlainLabel(name.leaf) && Plain(name.parent)
  }

  /** What the packer can be given to pack: any labels without a table, labels that need no escapes with one. */
  ghost predicate Packs(name: Domain, tbl: Table) {
    Valid(name) && (tbl.Table? ==> Plain(name))
  }

  lemma LeafNotLonger(a: Domain, b: Domain)
    requires Plain(a) && Plain(b) && a.Sub? && b.Sub? && Raw(a) == Raw(b)
    ensures |a.leaf| <= |b.leaf|
  {
    assert Raw(b)[|b.leaf|] == DOT;
  }

  /** The text of a plain name determines the name. */
  lemma {:induction false} RawInjective(a: Domain, b: Domain)
    requires Plain(a) && Plain(b) && Raw(a) == Raw(b)
    ensures a == b
  {
    if a.Sub? && b.Sub? {
      LeafNotLonger(a, b);
      LeafNotLonger(b, a);
      var n, r := |a.leaf|, Raw(a);
      assert a.leaf == r[..n] == b.leaf;
      assert Raw(a.parent) == r[n + 1..] == Raw(b.parent);
      RawInjective(a.parent, b.parent);
    }
  }

  // ----- Soundness of the table ------------------------------------------------------

  /** The table entry (key, p) is right: key is the text of a plain name, which the message spells at p,
      and the label at p is written out, so that fewer pointers than labels are followed. */
  ghost predicate Entry(m: Bytes, hole: int, end: nat, key: Bytes, p: nat) {
    exists name: Domain, hops: nat ::
      && Spells(m, hole, end, p, name, hops)
      && Plain(name) && Raw(name) == key && hops < LabelCount(name)
  }

  ghost predicate Sound(m: Bytes, hole: int, end: nat, tbl: Table) {
    && TableOk(tbl)
    && (tbl.Table? ==> forall k :: k in tbl.m ==> Entry(m, hole, end, k, tbl.m[k]))
  }

  /** Entries stay right while the message grows and is written outside the octets they use. */
  lemma EntryKept(a: Bytes, b: Bytes, hole: int, end: nat, hole': int, end': nat, key: Bytes, p: nat)
    requires Entry(a, hole, end, key, p) && Agree(a, b, hole, end)
    requires end <= end' <= |b| && (hole' == hole || hole' + 2 <= 0 || end <= hole')
    ensures Entry(b, hole', end', key, p)
  {
    var name: Domain, hops: nat :|
      && Spells(a, hole, end, p, name, hops)
      && Plain(name) && Raw(name) == key && hops < LabelCount(name);
    SpellsStable(a, b, hole, end, p, name, hops);
    SpellsWiden(b, hole, end, hole', end', p, name, hops);
  }

  lemma SoundKept(a: Bytes, b: Bytes, hole: int, end: nat, hole': int, end': nat, tbl: Table)
    requires Sound(a, hole, end, tbl) && Agree(a, b, hole, end)
    requires end <= end' <= |b| && (hole' == hole || hole' + 2 <= 0 || end <= hole')
    ensures Sound(b, hole', end', tbl)
  {
    if tbl.Table? {
      forall k | k in tbl.m ensures Entry(b, hole', end', k, tbl.m[k]) {
        EntryKept(a, b, hole, end, hole', end', k, tbl.m[k]);
      }
    }
  }

  // ----- One packed name ----------------------------------------------------------------

  /** The octets w sit in m at off. */
  ghost predicate At(m: Bytes, off: nat, w: Bytes) {
    off + |w| <= |m| && m[off..off + |w|] == w
  }

  lemma AtLabel(m: Bytes, off: nat, l: Label, w: Bytes)
    requires |l| <= MAX_LABEL && At(m, off, [|l|] + l + w)
    ensures m[off] == |l| && m[off + 1..off + 1 + |l|] == l && At(m, off + 1 + |l|, w)
  {
    var v := m[off..off + 1 + |l| + |w|];
    assert v == [|l|] + l + w && m[off] == v[0];
    assert forall k :: 0 <= k < |l| ==> l[k] == v[1 + k] == m[off + 1 + k];
    assert forall k :: 0 <= k < |w| ==> w[k] == v[1 + |l| + k] == m[off + 1 + |l| + k];
  }

  lemma PointerTarget(p: nat)
    requires p < MAX_COMPRESSION_OFFSET
    ensures var w := Pointer(p); w[0] >= 192 && Target(w[0], w[1]) == p
  {}

  /** The entries for texts of at most n bytes are right. */
  ghost predicate SoundUpTo(m: Bytes, hole: int, end: nat, tbl: Table, n: nat) {
    tbl.Table? ==> forall k :: k in tbl.m && |k| <= n ==> Entry(m, hole, end, k, tbl.m[k])
  }

  /** Every entry of tbl' is an entry of tbl or right. */
  ghost predicate Extends(m: Bytes, hole: int, end: nat, tbl: Table, tbl': Table) {
    tbl.Table? ==>
      tbl'.Table? &&
      forall k :: k in tbl'.m ==> (k in tbl.m && tbl'.m[k] == tbl.m[k]) || Entry(m, hole, end, k, tbl'.m[k])
  }

  /** A pointer spells what its target spells, through one pointer more. */
  lemma FollowPointer(m: Bytes, hole: int, end: nat, off: nat, p: nat, name: Domain, hops: nat)
    requires p < MAX_COMPRESSION_OFFSET && Spells(m, hole, end, p, name, hops)
    requires hole + 2 <= off && At(m, off, Pointer(p)) && off + 2 <= end
    ensures Spells(m, hole, end, off, name, hops + 1)
  {
    PointerTarget(p);
    assert m[off] == m[off..off + 2][0] && m[off + 1] == m[off..off + 2][1];
  }

  lemma PointerSpells(name: Domain, p: nat, off: nat, m: Bytes, hole: int, end: nat) returns (hops: nat)
    requires Plain(name) && p < MAX_COMPRESSION_OFFSET && Entry(m, hole, end, Raw(name), p)
    requires hole + 2 <= off && At(m, off, Pointer(p)) && off + 2 == end
    ensures Spells(m, hole, end, off, name, hops) && hops <= LabelCount(name)
  {
    var name': Domain, h: nat :| Spells(m, hole, end, p, name', h) && Plain(name') && Raw(name') == Raw(name)
      && h < LabelCount(name');
    RawInjective(name', name);
    FollowPointer(m, hole, end, off, p, name, h);
    hops := h + 1;
  }

  lemma RememberExtends(m: Bytes, hole: int, end: nat, tbl: Table, name: Domain, off: nat, tbl': Table, hops: nat)
    requires Spells(m, hole, end, off, name, hops) && Packs(name, tbl) && hops < LabelCount(name)
    requires Extends(m, hole, end, Remember(tbl, Raw(name), off), tbl')
    ensures Extends(m, hole, end, tbl, tbl')
  {
    assert tbl.Table? ==> Entry(m, hole, end, Raw(name), off);
  }

  lemma LabelSpells(m: Bytes, hole: int, end: nat, off: nat, l: Label, p: Domain, hops: nat)
    requires 1 <= |l| <= MAX_LABEL && hole + 2 <= off && off < |m| && m[off] == |l|
    requires off + 1 + |l| <= |m| && m[off + 1..off + 1 + |l|] == l
    requires Spells(m, hole, end, off + 1 + |l|, p, hops)
    ensures Spells(m, hole, end, off, Sub(l, p), hops)
  {}

  lemma UpToParent(m: Bytes, hole: int, end: nat, tbl: Table, name: Domain, off: nat)
    requires name.Sub? && SoundUpTo(m, hole, end, tbl, |Raw(name)|)
    ensures SoundUpTo(m, hole, end, Remember(tbl, Raw(name), off), |Raw(name.parent)|)
  {}

  /** Packing a name at off, in a table whose entries up to the name's own length are right: the name is
      spelled at off through at most as many pointers as it has labels, and every new entry is right. */
  lemma {:induction false} PlanSpells(name: Domain, tbl: Table, off: nat, compress: bool, m: Bytes, hole: int, end: nat)
    returns (hops: nat)
    requires Packs(name, tbl) && TableOk(tbl)
    requires SoundUpTo(m, hole, end, tbl, |Raw(name)|)
    requires hole + 2 <= off
    requires At(m, off, Plan(name, tbl, off, compress).bytes) && off + |Plan(name, tbl, off, compress).bytes| == end
    ensures Spells(m, hole, end, off, name, hops) && hops <= LabelCount(name)
            && (!compress || tbl.NoTable? ==> hops == 0)
    ensures Extends(m, hole, end, tbl, Plan(name, tbl, off, compress).tbl)
    decreases name
  {
    var w := Plan(name, tbl, off, compress);
    if name.Root? {
      hops := 0;
    } else if Hit(tbl, Raw(name), compress) {
      hops := PointerSpells(name, tbl.m[Raw(name)], off, m, hole, end);
    } else {
      hops := PlanLabelSpells(name, tbl, off, compress, m, hole, end, w,
        Plan(name.parent, Remember(tbl, Raw(name), off), off + 1 + |name.leaf|, compress));
    }
  }

  lemma {:induction false} PlanLabelSpells(name: Domain, tbl: Table, off: nat, compress: bool, m: Bytes, hole: int,
                                           end: nat, w: Packed, w': Packed)
    returns (hops: nat)
    requires Packs(name, tbl) && TableOk(tbl) && name.Sub?
    requires SoundUpTo(m, hole, end, tbl, |Raw(name)|)
    requires hole + 2 <= off
    requires w' == Plan(name.parent, Remember(tbl, Raw(name), off), off + 1 + |name.leaf|, compress)
    requires w == AddLabel(name.leaf, w') && At(m, off, w.bytes) && off + |w.bytes| == end
    ensures Spells(m, hole, end, off, name, hops) && hops <= LabelCount(name)
            && (!compress || tbl.NoTable? ==> hops == 0)
    ensures Extends(m, hole, end, tbl, w.tbl)
    decreases name, 0
  {
    hide Spells, Entry, Raw, Plan, SoundUpTo, Extends;
    var l, p, tbl1 := name.leaf, name.parent, Remember(tbl, Raw(name), off);
    AtLabel(m, off, l, w'.bytes);
    UpToParent(m, hole, end, tbl, name, off);
    hops := PlanSpells(p, tbl1, off + 1 + |l|, compress, m, hole, end);
    LabelSpells(m, hole, end, off, l, p, hops);
    assert Sub(l, p) == name;
    RememberExtends(m, hole, end, tbl, name, off, w.tbl, hops);
  }

  /** Soundness is kept by every packed name, whatever its compress flag. */
  lemma PackKeepsSound(name: Domain, tbl: Table, off: nat, compress: bool, a: Bytes, b: Bytes, hole: int)
    returns (hops: nat)
    requires Packs(name, tbl) && Sound(a, hole, off, tbl) && off <= |a|
    requires Agree(a, b, hole, off) && hole + 2 <= off
    requires At(b, off, Plan(name, tbl, off, compress).bytes)
    ensures var w := Plan(name, tbl, off, compress);
            && Sound(b, hole, off + |w.bytes|, w.tbl)
            && Spells(b, hole, off + |w.bytes|, off, name, hops) && hops <= LabelCount(name)
            && (!compress || tbl.NoTable? ==> hops == 0)
  {
    hide Spells, Entry, Plan;
    var w := Plan(name, tbl, off, compress);
    SoundKept(a, b, hole, off, hole, off + |w.bytes|, tbl);
    hops := PlanSpells(name, tbl, off, compress, b, hole, off + |w.bytes|);
    PlanTable(name, tbl, off, compress);
    ExtendsSound(b, hole, off + |w.bytes|, tbl, w.tbl);
  }

  lemma {:induction false} PlanTable(name: Domain, tbl: Table, off: nat, compress: bool)
    requires Short(name) && TableOk(tbl)
    ensures Plan(name, tbl, off, compress).tbl.Table? == tbl.Table?
  {
    if name.Sub? && !Hit(tbl, Raw(name), compress) {
      PlanTable(name.parent, Remember(tbl, Raw(name), off), off + 1 + |name.leaf|, compress);
    }
  }

  lemma ExtendsSound(m: Bytes, hole: int, end: nat, tbl: Table, tbl': Table)
    requires Sound(m, hole, end, tbl) && TableOk(tbl') && Extends(m, hole, end, tbl, tbl') && tbl'.Table? == tbl.Table?
    ensures Sound(m, hole, end, tbl')
  {}
}
