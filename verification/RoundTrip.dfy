/** Packing and unpacking names undo each other. */
module RoundTrip {
  import opened Names
  import opened UnpackName
  import opened PackName
  import opened Compression

  // ----- Where a packed name ends -------------------------------------------------------

  datatype Option = None | Some(end: nat)

  /** The offset after the octets a name takes at off, found without following pointers. Octets with
      only one of the top two bits set are stepped over. */
  function Walk(m: Bytes, off: nat): Option
    decreases |m| - off
  {
    if off + 1 > |m| then None
    else
      var c := m[off];
      if c == 0 then Some(off + 1)
      else if c < 64 then if off + 1 + c > |m| then None else Walk(m, off + 1 + c)
      else if c >= 192 then Some(off + 2)
      else Walk(m, off + 1)
  }

  /** The walk and the decoder agree on where every decodable name ends. */
  lemma {:induction false} DecodedWalk(m: Bytes, off: nat, fuel: nat)
    requires Decode(m, off, fuel).Name?
    ensures Walk(m, off) == Some(Decode(m, off, fuel).next)
    decreases fuel, |m| - off
  {
    if 0 < m[off] < 64 {
      DecodedWalk(m, off + 1 + m[off], fuel);
    }
  }

  /** The walk finds the end of whatever the packer wrote. */
  lemma {:induction false} PackedWalk(name: Domain, tbl: Table, off: nat, compress: bool, m: Bytes)
    requires Valid(name) && TableOk(tbl)
    requires At(m, off, Plan(name, tbl, off, compress).bytes)
    ensures Walk(m, off) == Some(off + |Plan(name, tbl, off, compress).bytes|)
    decreases name
  {
    hide Raw, Plan, Short, Walk, At;
    PlanStep(name, tbl, off, compress);
    if name.Sub? && !Hit(tbl, Raw(name), compress) {
      var tbl1 := Remember(tbl, Raw(name), off);
      var w := Plan(name.parent, tbl1, off + 1 + |name.leaf|, compress);
      AtLabel(m, off, name.leaf, w.bytes);
      PackedWalk(name.parent, tbl1, off + 1 + |name.leaf|, compress, m);
      WalkLabel(m, off, name.leaf, w.bytes);
    } else {
      if name.Sub? {
        PointerTarget(tbl.m[Raw(name)]);
      }
      WalkStops(m, off, Plan(name, tbl, off, compress).bytes);
    }
  }

  lemma WalkLabel(m: Bytes, off: nat, l: Label, w: Bytes)
    requires 1 <= |l| <= MAX_LABEL && At(m, off, [|l|] + l + w)
    ensures Walk(m, off) == Walk(m, off + 1 + |l|)
  {
    assert m[off] == m[off..off + 1 + |l| + |w|][0];
  }

  lemma WalkStops(m: Bytes, off: nat, w: Bytes)
    requires At(m, off, w) && (w == [0] || (|w| == 2 && w[0] >= 192))
    ensures Walk(m, off) == Some(off + |w|)
  {
    assert m[off] == m[off..off + |w|][0];
  }

  // ----- The longest recorded suffix ------------------------------------------------------

  ghost predicate SuffixOf(s: Domain, name: Domain) {
    s == name || (name.Sub? && SuffixOf(s, name.parent))
  }

  /** The octets of the labels of name above its suffix s. */
  function LabelsDownTo(name: Domain, s: Domain): Bytes
    requires Short(name)
  {
    if name == s || name.Root? then [] else [|name.leaf|] + name.leaf + LabelsDownTo(name.parent, s)
  }

  /** The longest suffix of name with an entry in the table, or the root. */
  function LongestHit(name: Domain, m: map<Bytes, nat>): Domain {
    if name.Root? || Raw(name) in m then name else LongestHit(name.parent, m)
  }

  lemma {:induction false} LongestHitIsLongest(name: Domain, m: map<Bytes, nat>)
    ensures var s := LongestHit(name, m);
            && SuffixOf(s, name) && (s.Sub? ==> Raw(s) in m)
            && forall t :: SuffixOf(t, name) && t.Sub? && Raw(t) in m ==> LabelCount(t) <= LabelCount(s)
  {
    SuffixNotLonger(name);
    if name.Sub? && Raw(name) !in m {
      LongestHitIsLongest(name.parent, m);
    }
  }

  lemma {:induction false} SuffixNotLonger(name: Domain)
    ensures forall t :: SuffixOf(t, name) ==> LabelCount(t) <= LabelCount(name)
  {
    if name.Sub? {
      SuffixNotLonger(name.parent);
    }
  }

  /** The tables agree on texts of at most n bytes. */
  ghost predicate SameUpTo(a: map<Bytes, nat>, b: map<Bytes, nat>, n: nat) {
    forall k :: |k| <= n ==> (k in a <==> k in b) && (k in a ==> a[k] == b[k])
  }

  lemma SameUpToParent(tbl: Table, m: map<Bytes, nat>, name: Domain, off: nat)
    requires name.Sub? && tbl.Table? && SameUpTo(tbl.m, m, |Raw(name)|)
    ensures var tbl' := Remember(tbl, Raw(name), off); tbl'.Table? && SameUpTo(tbl'.m, m, |Raw(name.parent)|)
  {}

  lemma SameHere(tbl: Table, m: map<Bytes, nat>, key: Bytes)
    requires tbl.Table? && SameUpTo(tbl.m, m, |key|)
    ensures (key in tbl.m <==> key in m) && (key in m ==> tbl.m[key] == m[key])
  {}

  /** With compression a packed name is its labels down to the longest suffix that had an entry before, and
      a pointer to that entry; the entries made for the name's own suffixes play no part. Without such a
      suffix it is all its labels and the closing zero. */
  lemma {:induction false} PointsToLongest(name: Domain, tbl: Table, m: map<Bytes, nat>, off: nat)
    requires Plain(name) && TableOk(tbl) && tbl.Table? && SameUpTo(tbl.m, m, |Raw(name)|)
    ensures var s := LongestHit(name, m);
            && (s.Sub? ==> Raw(s) in m && m[Raw(s)] < MAX_COMPRESSION_OFFSET)
            && Plan(name, tbl, off, true).bytes == LabelsDownTo(name, s) + if s.Root? then [0] else Pointer(m[Raw(s)])
    decreases name
  {
    hide Raw, Plan, SameUpTo, Short, Valid;
    PlanStep(name, tbl, off, true);
    SameHere(tbl, m, Raw(name));
    if name.Sub? {
      RawNotDot(name);
    }
    if name.Sub? && Raw(name) !in m {
      SameUpToParent(tbl, m, name, off);
      PointsToLongest(name.parent, Remember(tbl, Raw(name), off), m, off + 1 + |name.leaf|);
      LongestHitShorter(name.parent, m);
    }
  }

  lemma {:induction false} LongestHitShorter(name: Domain, m: map<Bytes, nat>)
    ensures LabelCount(LongestHit(name, m)) <= LabelCount(name)
  {
    if name.Sub? && Raw(name) !in m {
      LongestHitShorter(name.parent, m);
    }
  }

  lemma RawNotDot(name: Domain)
    requires Plain(name) && name.Sub?
    ensures Raw(name) != [DOT]
  {
    assert Raw(name)[0] == name.leaf[0];
  }

  /** The two octets of a pointer, read as one number, are its offset with the two top bits set. */
  lemma PointerOctets(name: Domain, tbl: Table, off: nat)
    requires Plain(name) && TableOk(tbl) && tbl.Table? && LongestHit(name, tbl.m).Sub?
    ensures var s, w := LongestHit(name, tbl.m), Plan(name, tbl, off, true).bytes;
            var n := |LabelsDownTo(name, s)|;
            && Raw(s) in tbl.m && |w| == n + 2
            && 256 * (w[n] as int) + w[n + 1] == 0xC000 + tbl.m[Raw(s)]
  {
    hide Plan, Raw, LabelsDownTo, LongestHit;
    PointsToLongest(name, tbl, tbl.m, off);
  }

  // ----- What the table remembers ---------------------------------------------------------

  /** Whether packing the name writes its suffix t out: with compression only what is longer than the longest
      suffix that the table held before. */
  ghost predicate WrittenOut(name: Domain, t: Domain, tbl: Table, compress: bool)
    requires tbl.Table?
  {
    t.Sub? && SuffixOf(t, name) && (compress ==> LabelCount(t) > LabelCount(LongestHit(name, tbl.m)))
  }

  /** Entry of the new table: an old one, or a suffix written out below 16384 at the offset it was written at. */
  ghost predicate Recorded(name: Domain, tbl: Table, off: nat, compress: bool, k: Bytes, o: nat)
    requires Short(name) && tbl.Table?
  {
    if k in tbl.m then o == tbl.m[k]
    else
      o < 16384 && exists t: Domain ::
        Raw(t) == k && WrittenOut(name, t, tbl, compress) && o == off + |LabelsDownTo(name, t)|
  }

  lemma {:induction false} SuffixText(t: Domain, name: Domain)
    requires Plain(name) && SuffixOf(t, name)
    ensures Plain(t) && |Raw(t)| <= |Raw(name)| && (t != name ==> name.Sub? && |Raw(t)| <= |Raw(name.parent)|)
    ensures LabelCount(t) <= LabelCount(name) && (t != name ==> LabelCount(t) < LabelCount(name))
  {
    if t != name {
      SuffixText(t, name.parent);
    }
  }

  /** The entry made for a name plays no part in what its parent shares. */
  lemma {:induction false} SharedAnyway(name: Domain, a: map<Bytes, nat>, b: map<Bytes, nat>)
    requires SameUpTo(a, b, |Raw(name)|)
    ensures LongestHit(name, a) == LongestHit(name, b)
  {
    hide SameUpTo;
    SameUpToHere(a, b, Raw(name));
    if name.Sub? {
      SameUpToShorter(a, b, |Raw(name)|, |Raw(name.parent)|);
      SharedAnyway(name.parent, a, b);
    }
  }

  lemma SameUpToHere(a: map<Bytes, nat>, b: map<Bytes, nat>, key: Bytes)
    requires SameUpTo(a, b, |key|)
    ensures (key in a <==> key in b) && (key in a ==> a[key] == b[key])
  {}

  lemma SameUpToShorter(a: map<Bytes, nat>, b: map<Bytes, nat>, n: nat, k: nat)
    requires SameUpTo(a, b, n) && k <= n
    ensures SameUpTo(a, b, k)
  {}

  /** Every suffix written out below 16384 is in the new table, at the place it was written at unless it was in the
      table before. */
  lemma {:induction false} TableComplete(name: Domain, tbl: Table, off: nat, compress: bool, t: Domain)
    requires Plain(name) && TableOk(tbl) && tbl.Table? && WrittenOut(name, t, tbl, compress)
    ensures var tbl', o := Plan(name, tbl, off, compress).tbl, off + |LabelsDownTo(name, t)|;
            && tbl'.Table?
            && (Raw(t) in tbl.m ==> Raw(t) in tbl'.m && tbl'.m[Raw(t)] == tbl.m[Raw(t)])
            && (Raw(t) !in tbl.m && o < 16384 ==> Raw(t) in tbl'.m && tbl'.m[Raw(t)] == o)
    decreases name
  {
    hide Plan, Raw, SameUpTo;
    PlanStep(name, tbl, off, compress);
    PlanTable(name, tbl, off, compress);
    SuffixText(t, name);
    RawNotDot(name);
    NotHitAbove(name, t, tbl, compress);
    var tbl1 := Remember(tbl, Raw(name), off);
    PlanTable(name.parent, tbl1, off + 1 + |name.leaf|, compress);
    if t == name {
      if Raw(name) in tbl1.m {
        OldKept(name.parent, tbl1, off + 1 + |name.leaf|, compress, Raw(name));
      }
    } else {
      SameHere0(tbl, name);
      SameUpToParent(tbl, tbl.m, name, off);
      SharedAnyway(name.parent, tbl1.m, tbl.m);
      NotOwnKey(t, name);
      TableComplete(name.parent, tbl1, off + 1 + |name.leaf|, compress, t);
    }
  }

  lemma SameHere0(tbl: Table, name: Domain)
    requires tbl.Table?
    ensures SameUpTo(tbl.m, tbl.m, |Raw(name)|)
  {}

  lemma NotOwnKey(t: Domain, name: Domain)
    requires Plain(name) && SuffixOf(t, name) && t != name
    ensures Raw(t) != Raw(name)
  {
    SuffixText(t, name);
  }

  /** Above a suffix that is written out nothing is found in the table. */
  lemma NotHitAbove(name: Domain, t: Domain, tbl: Table, compress: bool)
    requires Plain(name) && tbl.Table? && WrittenOut(name, t, tbl, compress)
    ensures name.Sub? && !Hit(tbl, Raw(name), compress)
    ensures compress ==> LongestHit(name, tbl.m) == LongestHit(name.parent, tbl.m)
  {
    SuffixText(t, name);
  }

  lemma {:induction false} OldKept(name: Domain, tbl: Table, off: nat, compress: bool, k: Bytes)
    requires Short(name) && TableOk(tbl) && tbl.Table? && k in tbl.m
    ensures var t := Plan(name, tbl, off, compress).tbl; t.Table? && k in t.m && t.m[k] == tbl.m[k]
  {
    hide Plan, Raw;
    PlanStep(name, tbl, off, compress);
    if name.Sub? && !Hit(tbl, Raw(name), compress) {
      OldKept(name.parent, Remember(tbl, Raw(name), off), off + 1 + |name.leaf|, compress, k);
    }
  }

  /** And nothing else is. */
  lemma {:induction false} TableExact(name: Domain, tbl: Table, off: nat, compress: bool, k: Bytes)
    requires Plain(name) && TableOk(tbl) && tbl.Table?
    requires Plan(name, tbl, off, compress).tbl.Table? && k in Plan(name, tbl, off, compress).tbl.m
    ensures Recorded(name, tbl, off, compress, k, Plan(name, tbl, off, compress).tbl.m[k])
    decreases name
  {
    hide Plan, Raw, SameUpTo, Recorded;
    PlanStep(name, tbl, off, compress);
    if name.Sub? && !Hit(tbl, Raw(name), compress) {
      var l, p, tbl1 := name.leaf, name.parent, Remember(tbl, Raw(name), off);
      RawNotDot(name);
      SameHere0(tbl, name);
      SameUpToParent(tbl, tbl.m, name, off);
      SharedAnyway(p, tbl1.m, tbl.m);
      TableExact(p, tbl1, off + 1 + |l|, compress, k);
      RecordedBelow(name, tbl, off, compress, k, Plan(name, tbl, off, compress).tbl.m[k]);
    } else {
      RecordedBefore(name, tbl, off, compress, k);
    }
  }

  lemma RecordedBefore(name: Domain, tbl: Table, off: nat, compress: bool, k: Bytes)
    requires Short(name) && tbl.Table? && k in tbl.m
    ensures Recorded(name, tbl, off, compress, k, tbl.m[k])
  {}

  lemma RecordedBelow(name: Domain, tbl: Table, off: nat, compress: bool, k: Bytes, o: nat)
    requires Plain(name) && name.Sub? && tbl.Table? && TableOk(tbl)
    requires (compress ==> Raw(name) !in tbl.m) && Raw(name) != [DOT]
    requires var tbl1 := Remember(tbl, Raw(name), off);
             && tbl1.Table? && LongestHit(name.parent, tbl1.m) == LongestHit(name.parent, tbl.m)
             && Recorded(name.parent, tbl1, off + 1 + |name.leaf|, compress, k, o)
    ensures Recorded(name, tbl, off, compress, k, o)
  {
    hide Raw;
    var p, tbl1 := name.parent, Remember(tbl, Raw(name), off);
    if k !in tbl.m {
      if k in tbl1.m {
        LongestHitShorter(p, tbl.m);
        assert LabelsDownTo(name, name) == [] && WrittenOut(name, name, tbl, compress);
      } else {
        var t: Domain :|
          Raw(t) == k && WrittenOut(p, t, tbl1, compress) && o == off + 1 + |name.leaf| + |LabelsDownTo(p, t)|;
        NotItself(t, name);
        assert WrittenOut(name, t, tbl, compress) && |LabelsDownTo(name, t)| == 1 + |name.leaf| + |LabelsDownTo(p, t)|;
      }
    }
  }

  lemma NotItself(t: Domain, name: Domain)
    requires name.Sub? && SuffixOf(t, name.parent)
    ensures t != name
  {
    SuffixNotLonger(name.parent);
  }

  /** A name that was packed below 16384 takes just a pointer when it is packed with compression again, however many
      names come in between. */
  lemma PackedAgain(name: Domain, tbl: Table, off: nat, compress: bool, later: Table, off2: nat)
    requires Plain(name) && name.Sub? && TableOk(tbl) && tbl.Table? && off < 16384
    requires TableOk(later) && later.Table?
    requires var t := Plan(name, tbl, off, compress).tbl;
             t.Table? ==> forall k :: k in t.m ==> k in later.m && later.m[k] == t.m[k]
    ensures var w := Plan(name, later, off2, true).bytes;
            && |w| == 2 && (Raw(name) !in tbl.m ==> 256 * (w[0] as int) + w[1] == 0xC000 + off)
  {
    hide Raw, Plan;
    RawNotDot(name);
    PlanTable(name, tbl, off, compress);
    if Raw(name) in tbl.m {
      OldKept(name, tbl, off, compress, Raw(name));
    } else {
      LongestHitShorter(name.parent, tbl.m);
      assert LabelsDownTo(name, name) == [] && WrittenOut(name, name, tbl, compress);
      TableComplete(name, tbl, off, compress, name);
    }
    PlanStep(name, later, off2, true);
  }

  // ----- Compressed names ---------------------------------------------------------------

  lemma AtSplit(m: Bytes, off: nat, u: Bytes, v: Bytes)
    requires At(m, off, u + v)
    ensures At(m, off, u) && At(m, off + |u|, v)
  {
    var w := m[off..off + |u + v|];
    assert w[..|u|] == u && w[|u|..] == v;
    assert m[off..off + |u|] == w[..|u|];
    assert m[off + |u|..off + |u| + |v|] == w[|u|..];
  }

  /** Labels written out in front of a suffix take no pointers of their own. */
  lemma {:induction false} LabelsSpell(name: Domain, s: Domain, m: Bytes, hole: int, end: nat, off: nat, hops: nat)
    requires Valid(name) && SuffixOf(s, name) && hole + 2 <= off
    requires At(m, off, LabelsDownTo(name, s)) && Spells(m, hole, end, off + |LabelsDownTo(name, s)|, s, hops)
    ensures Spells(m, hole, end, off, name, hops)
    decreases name
  {
    hide Spells;
    if name != s {
      var l, p := name.leaf, name.parent;
      AtLabel(m, off, l, LabelsDownTo(p, s));
      LabelsSpell(p, s, m, hole, end, off + 1 + |l|, hops);
      LabelSpells(m, hole, end, off, l, p, hops);
      assert Sub(l, p) == name;
    }
  }

  /** The suffix a name is going to share: the longest one in the table, the root when there is none. */
  function Shared(name: Domain, tbl: Table, compress: bool): Domain {
    if compress && tbl.Table? then LongestHit(name, tbl.m) else Root
  }

  /** The pointers a name is going to take when it is packed at off, read off the message and the table as
      they are before: none without a shared suffix, and otherwise one more than that suffix takes where the
      table has it, which is always earlier in the message. */
  ghost predicate Takes(name: Domain, tbl: Table, off: nat, compress: bool, a: Bytes, hole: int, hops: nat) {
    var s := Shared(name, tbl, compress);
    if s.Root? then hops == 0
    else
      && tbl.Table? && Raw(s) in tbl.m && tbl.m[Raw(s)] < off
      && hops > 0 && Spells(a, hole, off, tbl.m[Raw(s)], s, hops - 1)
  }

  lemma {:induction false} SuffixPlain(s: Domain, name: Domain)
    requires Plain(name) && SuffixOf(s, name)
    ensures Plain(s) && LabelCount(s) <= LabelCount(name)
  {
    if s != name {
      SuffixPlain(s, name.parent);
    }
  }

  /** A right entry is spelled before the end of the message, with fewer pointers than labels. */
  lemma EntrySpells(s: Domain, m: Bytes, hole: int, end: nat, p: nat) returns (h: nat)
    requires Plain(s) && Entry(m, hole, end, Raw(s), p)
    ensures p < end && Spells(m, hole, end, p, s, h) && h < LabelCount(s)
  {
    var s': Domain, h': nat :| Spells(m, hole, end, p, s', h') && Plain(s') && Raw(s') == Raw(s) && h' < LabelCount(s');
    RawInjective(s', s);
    h := h';
  }

  /** A name packed with its shared suffix s: the labels above s and a pointer to where s was spelled. */
  lemma PointedSpells(name: Domain, s: Domain, p: nat, h: nat, off: nat, a: Bytes, b: Bytes, hole: int, end: nat)
    requires Valid(name) && SuffixOf(s, name) && p < MAX_COMPRESSION_OFFSET && hole + 2 <= off
    requires Spells(a, hole, off, p, s, h) && Agree(a, b, hole, off)
    requires At(b, off, LabelsDownTo(name, s) + Pointer(p)) && end == off + |LabelsDownTo(name, s)| + 2
    ensures Spells(b, hole, end, off, name, h + 1)
  {
    hide Spells;
    var labels := LabelsDownTo(name, s);
    AtSplit(b, off, labels, Pointer(p));
    SpellsStable(a, b, hole, off, p, s, h);
    SpellsWiden(b, hole, off, hole, end, p, s, h);
    FollowPointer(b, hole, end, off + |labels|, p, s, h);
    LabelsSpell(name, s, b, hole, end, off, h + 1);
  }

  /** The number of pointers a packed name takes is fixed by the message and the table before packing. */
  lemma PackedTakes(name: Domain, tbl: Table, off: nat, compress: bool, a: Bytes, b: Bytes, hole: int)
    returns (hops: nat)
    requires Packs(name, tbl) && Sound(a, hole, off, tbl) && off <= |a|
    requires Agree(a, b, hole, off) && hole + 2 <= off
    requires At(b, off, Plan(name, tbl, off, compress).bytes)
    ensures Takes(name, tbl, off, compress, a, hole, hops) && hops <= LabelCount(name)
    ensures Spells(b, hole, off + |Plan(name, tbl, off, compress).bytes|, off, name, hops)
  {
    hide Plan, Spells, Entry, Raw, SuffixOf, LabelsDownTo, LongestHit, Valid, Short, Plain;
    hops := PackKeepsSound(name, tbl, off, compress, a, b, hole);
    var s := Shared(name, tbl, compress);
    if compress && tbl.Table? {
      LongestHitIsLongest(name, tbl.m);
      SuffixPlain(s, name);
      PointsToLongest(name, tbl, tbl.m, off);
      if s.Root? {
        RootReached(name, off, b, hole, off + |Plan(name, tbl, off, compress).bytes|);
        hops := 0;
      } else {
        var p := tbl.m[Raw(s)];
        var h := EntrySpells(s, a, hole, off, p);
        PointedSpells(name, s, p, h, off, a, b, hole, off + |Plan(name, tbl, off, compress).bytes|);
        hops := h + 1;
      }
    }
  }

  lemma RootReached(name: Domain, off: nat, b: Bytes, hole: int, end: nat)
    requires Valid(name) && SuffixOf(Root, name) && hole + 2 <= off
    requires At(b, off, LabelsDownTo(name, Root) + [0]) && end == off + |LabelsDownTo(name, Root)| + 1
    ensures Spells(b, hole, end, off, name, 0)
  {
    var labels := LabelsDownTo(name, Root);
    AtSplit(b, off, labels, [0]);
    assert b[off + |labels|] == b[off + |labels|..off + |labels| + 1][0];
    LabelsSpell(name, Root, b, hole, end, off, 0);
  }

  /** A packed name decodes to itself, ending where the packer stopped, exactly when it shares no suffix or
      the suffix it shares, as the message and the table were before packing, decodes through at most nine
      pointers; otherwise the decoder refuses it. At most ten labels suffice. */
  lemma PackedNameDecodes(name: Domain, tbl: Table, off: nat, compress: bool, a: Bytes, b: Bytes, hole: int)
    returns (hops: nat)
    requires Packs(name, tbl) && Sound(a, hole, off, tbl) && off <= |a|
    requires Agree(a, b, hole, off) && hole + 2 <= off
    requires At(b, off, Plan(name, tbl, off, compress).bytes)
    ensures Takes(name, tbl, off, compress, a, hole, hops) && hops <= LabelCount(name)
    ensures Spells(b, hole, off + |Plan(name, tbl, off, compress).bytes|, off, name, hops)
    ensures Decode(b, off, MAX_POINTERS) ==
            if hops <= MAX_POINTERS then Name(name, off + |Plan(name, tbl, off, compress).bytes|, hops)
            else Bad(ErrPointers)
    ensures var s := Shared(name, tbl, compress);
            hops <= MAX_POINTERS <==> s.Root? || Decode(a, tbl.m[Raw(s)], MAX_POINTERS - 1).Name?
  {
    hide Plan, Spells, Entry, Walk, Raw, Decode;
    var w := Plan(name, tbl, off, compress);
    hops := PackedTakes(name, tbl, off, compress, a, b, hole);
    SpelledIsDecoded(b, hole, off + |w.bytes|, off, name, hops, MAX_POINTERS);
    PackedWalk(name, tbl, off, compress, b);
    if hops <= MAX_POINTERS {
      DecodedWalk(b, off, MAX_POINTERS);
    }
    var s := Shared(name, tbl, compress);
    if s.Sub? {
      SpelledIsDecoded(a, hole, off, tbl.m[Raw(s)], s, hops - 1, MAX_POINTERS - 1);
    }
  }

  // ----- A chain that is too long ---------------------------------------------------------

  /** The name of n labels "a". */
  function Nested(n: nat): (name: Domain)
    ensures Plain(name) && LabelCount(name) == n && |Raw(name)| == 2 * n && Octets(name) == 2 * n + 1
  {
    if n == 0 then Root else Sub([97], Nested(n - 1))
  }

  /** The message and table after packing a., a.a., and so on up to n labels, with compression. */
  function Chain(n: nat): (r: (Bytes, Table))
    ensures TableOk(r.1) && r.1.Table?
  {
    if n == 0 then ([], Table(map[]))
    else
      var (m, tbl) := Chain(n - 1);
      var w := Plan(Nested(n), tbl, |m|, true);
      PlanTable(Nested(n), tbl, |m|, true);
      (m + w.bytes, w.tbl)
  }

  lemma ChainStep(n: nat)
    requires n > 0
    ensures var (m, tbl) := Chain(n - 1);
            Chain(n) == (m + Plan(Nested(n), tbl, |m|, true).bytes, Plan(Nested(n), tbl, |m|, true).tbl)
  {}

  /** What the n-th name of the chain adds. */
  lemma ChainOctets(n: nat, tbl: Table, p: nat) returns (w: Bytes)
    requires 1 <= n && TableOk(tbl) && tbl.Table? && p + 2 < MAX_COMPRESSION_OFFSET
    requires forall k :: k in tbl.m ==> |k| <= 2 * (n - 1)
    requires n > 1 ==> Raw(Nested(n - 1)) in tbl.m
    ensures w == if n == 1 then [0] else Pointer(tbl.m[Raw(Nested(n - 1))])
    ensures Plan(Nested(n), tbl, p, true).bytes == [1] + [97] + w
    ensures Plan(Nested(n), tbl, p, true).tbl == Table(tbl.m[Raw(Nested(n)) := p])
  {
    hide Plan, Raw;
    var name, key := Nested(n), Raw(Nested(n));
    RawNotDot(name);
    PlanStep(name, tbl, p, true);
    var tbl1 := Remember(tbl, key, p);
    PlanStep(Nested(n - 1), tbl1, p + 2, true);
    if n > 1 {
      RawNotDot(Nested(n - 1));
    }
    w := Plan(Nested(n - 1), tbl1, p + 2, true).bytes;
  }

  /** Each name of the chain is one label and a pointer to the name before it. */
  lemma {:induction false} ChainHops(n: nat)
    requires 1 <= n <= 1000
    ensures var (m, tbl) := Chain(n); var p := |Chain(n - 1).0|;
            && |m| <= 4 * n
            && (forall k :: k in tbl.m ==> |k| <= 2 * n)
            && Raw(Nested(n)) in tbl.m && tbl.m[Raw(Nested(n))] == p
            && Spells(m, NOWHERE, |m|, p, Nested(n), n - 1)
  {
    hide Spells, Plan, Raw;
    var (m0, tbl0) := Chain(n - 1);
    if n > 1 {
      ChainHops(n - 1);
    }
    ChainStep(n);
    var p := |m0|;
    var w := ChainOctets(n, tbl0, p);
    ChainGrows(n, m0, m0 + ([1] + [97] + w), w, p, if n == 1 then 0 else tbl0.m[Raw(Nested(n - 1))]);
  }

  lemma ChainGrows(n: nat, m0: Bytes, m: Bytes, w: Bytes, p: nat, q: nat)
    requires 1 <= n && p == |m0| && m == m0 + ([1] + [97] + w) && q < MAX_COMPRESSION_OFFSET
    requires if n == 1 then w == [0] else w == Pointer(q) && Spells(m0, NOWHERE, p, q, Nested(n - 1), n - 2)
    ensures Spells(m, NOWHERE, |m|, p, Nested(n), n - 1)
  {
    hide Spells, Pointer, Nested, At;
    ChainAppended(m0, m, w);
    if n > 1 {
      SpellsStable(m0, m, NOWHERE, p, q, Nested(n - 1), n - 2);
      SpellsWiden(m, NOWHERE, p, NOWHERE, |m|, q, Nested(n - 1), n - 2);
    }
    ChainLink(n, m, w, p, q);
  }

  lemma NestedStep(n: nat)
    requires n >= 1
    ensures Nested(n) == Sub([97], Nested(n - 1)) && Nested(0) == Root
  {}

  lemma ChainAppended(m0: Bytes, m: Bytes, w: Bytes)
    requires m == m0 + ([1] + [97] + w)
    ensures m0 <= m && At(m, |m0|, [1] + [97] + w)
  {
    assert m[|m0|..|m0| + |[1] + [97] + w|] == [1] + [97] + w;
  }

  lemma ChainLink(n: nat, m: Bytes, w: Bytes, p: nat, q: nat)
    requires 1 <= n && At(m, p, [1] + [97] + w) && q < MAX_COMPRESSION_OFFSET
    requires if n == 1 then w == [0] else w == Pointer(q) && Spells(m, NOWHERE, |m|, q, Nested(n - 1), n - 2)
    ensures Spells(m, NOWHERE, |m|, p, Nested(n), n - 1)
  {
    hide Spells, At, Pointer, Nested;
    NestedStep(n);
    if n == 1 {
      LabelThenRoot(m, p, [97]);
    } else {
      LabelThenPointer(m, p, [97], q, Nested(n - 1), n - 2);
    }
  }

  lemma LabelThenRoot(m: Bytes, off: nat, l: Label)
    requires 1 <= |l| <= MAX_LABEL && At(m, off, [|l|] + l + [0])
    ensures Spells(m, NOWHERE, |m|, off, Sub(l, Root), 0)
  {
    hide Spells;
    AtLabel(m, off, l, [0]);
    RootSpells(m, off + 1 + |l|);
    LabelSpells(m, NOWHERE, |m|, off, l, Root, 0);
  }

  lemma LabelThenPointer(m: Bytes, off: nat, l: Label, q: nat, name: Domain, hops: nat)
    requires 1 <= |l| <= MAX_LABEL && q < MAX_COMPRESSION_OFFSET && At(m, off, [|l|] + l + Pointer(q))
    requires Spells(m, NOWHERE, |m|, q, name, hops)
    ensures Spells(m, NOWHERE, |m|, off, Sub(l, name), hops + 1)
  {
    hide Spells;
    var w := Pointer(q);
    assert |w| == 2;
    hide Pointer;
    AtLabel(m, off, l, w);
    FollowPointer(m, NOWHERE, |m|, off + 1 + |l|, q, name, hops);
    LabelSpells(m, NOWHERE, |m|, off, l, name, hops + 1);
  }

  lemma RootSpells(m: Bytes, off: nat)
    requires At(m, off, [0])
    ensures Spells(m, NOWHERE, |m|, off, Root, 0)
  {
    assert m[off] == m[off..off + 1][0];
  }

  /** Packing is not always undone: the twelfth name of the chain, twelve labels and 25 octets, is refused by
      the decoder, while the eleventh is still accepted. */
  lemma ChainRefused()
    ensures Decode(Chain(12).0, |Chain(11).0|, MAX_POINTERS) == Bad(ErrPointers)
    ensures Decode(Chain(11).0, |Chain(10).0|, MAX_POINTERS).Name?
  {
    hide Spells, Chain, Decode;
    ChainHops(12);
    ChainHops(11);
    SpelledIsDecoded(Chain(12).0, NOWHERE, |Chain(12).0|, |Chain(11).0|, Nested(12), 11, MAX_POINTERS);
    SpelledIsDecoded(Chain(11).0, NOWHERE, |Chain(11).0|, |Chain(10).0|, Nested(11), 10, MAX_POINTERS);
  }

  // ----- Escaping, without compression ------------------------------------------------------

  /** The plain wire form: counted labels and a closing zero. */
  function Wire(name: Domain): (w: Bytes)
    requires Short(name)
    ensures |w| == Octets(name)
  {
    match name
    case Root => [0]
    case Sub(l, p) => [|l|] + l + Wire(p)
  }

  lemma {:induction false} PlanIsWire(name: Domain, off: nat, compress: bool)
    requires Short(name)
    ensures Plan(name, NoTable, off, compress) == Packed(Wire(name), NoTable, Octets(name) - 1, LabelCount(name))
  {
    if name.Sub? {
      PlanIsWire(name.parent, off + 1 + |name.leaf|, compress);
    }
  }

  /** A wire form placed anywhere in a message decodes to its name, whatever the labels are made of. */
  lemma WireDecodes(m: Bytes, off: nat, name: Domain, fuel: nat)
    requires Valid(name) && At(m, off, Wire(name))
    ensures Decode(m, off, fuel) == Name(name, off + Octets(name), 0)
  {
    hide Spells, Plan, Decode, Walk, Entry;
    PlanIsWire(name, off, false);
    var hops := PackKeepsSound(name, NoTable, off, false, m, m, NOWHERE);
    SpelledIsDecoded(m, NOWHERE, off + Octets(name), off, name, hops, fuel);
    PackedWalk(name, NoTable, off, false, m);
    DecodedWalk(m, off, fuel);
  }

  /** The packer, given the escaped text of a name, writes the wire form of that name. */
  lemma PackPresented(name: Domain, off: nat, compress: bool)
    requires Valid(name)
    ensures EndsInDot(Present(name)) && Present(name) != []
    ensures Expected(Present(name), NoTable, off, compress) ==
            if name.Root? then Writes([0], NoTable, 1, 1, false)
            else Writes(Wire(name), NoTable, Octets(name) - 1, LabelCount(name), false)
  {
    if name.Sub? {
      TextEndsInDot(name);
      TextNotDot(name);
      ParseText(name, true);
      PlanIsWire(name, off, compress);
      assert [] + Wire(name) == Wire(name);
    }
  }

  lemma TextNotDot(name: Domain)
    requires Valid(name) && name.Sub?
    ensures Text(name) != [DOT]
  {
    ParseText(name, true);
    assert Parse([DOT], [], true) == Parsed(Sub([], Root), false);
  }

  /** UnpackDomainName followed by packDomainName without a table: for every name of at most 255 octets that
      decodes from msg, and a buffer with room, exactly its wire form is written. */
  method Repack(msg: Bytes, off: nat, buf: array<byte>, start: nat) returns (off1: nat, err: Error)
    modifies buf
    ensures match Decode(msg, off, MAX_POINTERS)
            case Bad(e) => err == e && buf[..] == old(buf[..])
            case Name(name, _, _) =>
              && Valid(name)
              && (Octets(name) > MAX_NAME_OCTETS ==> err == ErrLongDomain && buf[..] == old(buf[..]))
              && (Octets(name) <= MAX_NAME_OCTETS && start + Octets(name) <= buf.Length ==>
                    err == NoError && off1 == start + Octets(name) && buf[start..off1] == Wire(name))
  {
    var s, next;
    s, next, err := UnpackDomainName(msg, off);
    off1 := start;
    ghost var d := Decode(msg, off, MAX_POINTERS);
    if d.Name? {
      DecodeBounds(msg, off, MAX_POINTERS);
      PackPresented(d.name, start, false);
    }
    if err == NoError {
      var labels, tbl;
      off1, labels, err, tbl := PackDomainName(s, buf, start, NoTable, false);
    }
  }

  /** The wire form of every valid name is decoded and packed back to the same octets. */
  lemma EscapingRoundTrip(name: Domain, before: Bytes, after: Bytes, off: nat, compress: bool)
    requires Valid(name) && Octets(name) <= MAX_NAME_OCTETS
    ensures var d := Decode(before + Wire(name) + after, |before|, MAX_POINTERS);
            && d == Name(name, |before| + Octets(name), 0)
            && Expected(Present(d.name), NoTable, off, compress).Writes?
            && Expected(Present(d.name), NoTable, off, compress).bytes == Wire(name)
  {
    var m := before + Wire(name) + after;
    assert m[|before|..|before| + Octets(name)] == Wire(name);
    WireDecodes(m, |before|, name, MAX_POINTERS);
    PackPresented(name, off, compress);
  }
}
