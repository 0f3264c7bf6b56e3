/** How many pointers names take when they are packed with compression, worked out before they are packed. */
module Depths {
  import opened Names
  import opened UnpackName
  import opened PackName
  import opened Compression
  import opened RoundTrip

  /** The pointers a name is going to take, where depth has for every table key the pointers of its name: one more than
      the longest suffix with an entry, and none without one. */
  function Hops(name: Domain, depth: map<Bytes, nat>): nat {
    var s := LongestHit(name, depth);
    if s.Sub? && Raw(s) in depth then depth[Raw(s)] + 1 else 0
  }

  /** The keys of the new table, those that were not there before with the pointers of the name just packed. */
  function Deepen(depth: map<Bytes, nat>, tbl: Table, hops: nat): map<Bytes, nat> {
    if tbl.NoTable? then depth else map k | k in tbl.m :: if k in depth then depth[k] else hops
  }

  /** The message spells the name of a key at p through this many pointers. */
  ghost predicate EntryAt(m: Bytes, key: Bytes, p: nat, hops: nat) {
    exists name: Domain :: Plain(name) && Raw(name) == key && Spells(m, NOWHERE, |m|, p, name, hops)
  }

  ghost predicate DepthOk(m: Bytes, tbl: Table, depth: map<Bytes, nat>) {
    && TableOk(tbl)
    && (tbl.Table? ==> tbl.m.Keys == depth.Keys && forall k :: k in tbl.m ==> EntryAt(m, k, tbl.m[k], depth[k]))
  }

  /** Only the keys of a table decide which suffix is shared. */
  lemma {:induction false} SameHit(name: Domain, a: map<Bytes, nat>, b: map<Bytes, nat>)
    requires a.Keys == b.Keys
    ensures LongestHit(name, a) == LongestHit(name, b)
  {
    hide Raw;
    if name.Sub? {
      assert Raw(name) in a.Keys <==> Raw(name) in b.Keys;
      SameHit(name.parent, a, b);
    }
  }

  lemma EntryOf(m: Bytes, s: Domain, p: nat, hops: nat)
    requires Plain(s) && EntryAt(m, Raw(s), p, hops)
    ensures Spells(m, NOWHERE, |m|, p, s, hops)
  {
    var name: Domain :| Plain(name) && Raw(name) == Raw(s) && Spells(m, NOWHERE, |m|, p, name, hops);
    RawInjective(name, s);
  }

  lemma SharedTakes(name: Domain, s: Domain, p: nat, h: nat, off: nat, m: Bytes)
    requires Valid(name) && SuffixOf(s, name) && p < MAX_COMPRESSION_OFFSET && Spells(m, NOWHERE, |m|, p, s, h)
    requires At(m, off, LabelsDownTo(name, s) + Pointer(p))
    ensures Spells(m, NOWHERE, |m|, off, name, h + 1)
  {
    hide Spells, LabelsDownTo, SuffixOf;
    var labels := LabelsDownTo(name, s);
    AtSplit(m, off, labels, Pointer(p));
    FollowPointer(m, NOWHERE, |m|, off + |labels|, p, s, h);
    LabelsSpell(name, s, m, NOWHERE, |m|, off, h + 1);
  }

  lemma AloneTakes(name: Domain, off: nat, m: Bytes)
    requires Valid(name) && SuffixOf(Root, name) && At(m, off, LabelsDownTo(name, Root) + [0])
    ensures Spells(m, NOWHERE, |m|, off, name, 0)
  {
    hide Spells, LabelsDownTo, SuffixOf;
    var labels := LabelsDownTo(name, Root);
    AtSplit(m, off, labels, [0]);
    RootSpells(m, off + |labels|);
    LabelsSpell(name, Root, m, NOWHERE, |m|, off, 0);
  }

  lemma CompressedTakes(name: Domain, tbl: Table, depth: map<Bytes, nat>, off: nat, m: Bytes)
    requires Plain(name) && DepthOk(m, tbl, depth) && tbl.Table? && At(m, off, Plan(name, tbl, off, true).bytes)
    ensures Spells(m, NOWHERE, |m|, off, name, Hops(name, depth))
  {
    hide Plan, Spells, Raw, EntryAt, LongestHit, LabelsDownTo, SuffixOf, At, Valid, Short, Plain, Pointer;
    var s := LongestHit(name, tbl.m);
    SameHit(name, tbl.m, depth);
    LongestHitIsLongest(name, tbl.m);
    SuffixPlain(s, name);
    PointsToLongest(name, tbl, tbl.m, off);
    if s.Root? {
      AloneTakes(name, off, m);
    } else {
      assert Raw(s) in depth.Keys;
      EntryOf(m, s, tbl.m[Raw(s)], depth[Raw(s)]);
      SharedTakes(name, s, tbl.m[Raw(s)], depth[Raw(s)], off, m);
    }
  }

  /** Without compression the labels are all written out, whatever is in the table. */
  lemma {:induction false} FlatPlan(name: Domain, tbl: Table, off: nat, compress: bool)
    requires Valid(name) && TableOk(tbl) && (!compress || tbl.NoTable?)
    ensures Plan(name, tbl, off, compress).bytes == Wire(name)
  {
    hide Raw, Short, Plan;
    PlanStep(name, tbl, off, compress);
    if name.Sub? {
      FlatPlan(name.parent, Remember(tbl, Raw(name), off), off + 1 + |name.leaf|, compress);
    }
  }

  lemma FlatTakes(name: Domain, tbl: Table, off: nat, compress: bool, m: Bytes)
    requires Valid(name) && TableOk(tbl) && (!compress || tbl.NoTable?)
             && At(m, off, Plan(name, tbl, off, compress).bytes)
    ensures Spells(m, NOWHERE, |m|, off, name, 0)
  {
    hide Plan, Spells, Entry, At;
    FlatPlan(name, tbl, off, compress);
    AtBounds(m, off, Wire(name));
    PlanIsWire(name, off, false);
    var hops := PackKeepsSound(name, NoTable, off, false, m, m, NOWHERE);
    SpellsWiden(m, NOWHERE, off + Octets(name), NOWHERE, |m|, off, name, 0);
  }

  lemma AtBounds(m: Bytes, off: nat, w: Bytes)
    requires At(m, off, w)
    ensures off + |w| <= |m|
  {}

  /** The pointers a name is going to take with or without compression. */
  function PointersOf(name: Domain, tbl: Table, depth: map<Bytes, nat>, compress: bool): nat {
    if compress && tbl.Table? then Hops(name, depth) else 0
  }

  /** A packed name takes the pointers worked out for it. */
  lemma NameTakes(name: Domain, tbl: Table, depth: map<Bytes, nat>, off: nat, compress: bool, m: Bytes)
    requires Packs(name, tbl) && DepthOk(m, tbl, depth) && At(m, off, Plan(name, tbl, off, compress).bytes)
    ensures Spells(m, NOWHERE, |m|, off, name, PointersOf(name, tbl, depth, compress))
  {
    hide Plan, Spells, EntryAt, Hops;
    if compress && tbl.Table? {
      CompressedTakes(name, tbl, depth, off, m);
    } else {
      FlatTakes(name, tbl, off, compress, m);
    }
  }

  /** What packing adds to the table are suffixes of the name, each taking the pointers of the name. */
  lemma {:induction false} NewEntries(name: Domain, tbl: Table, off: nat, compress: bool, m: Bytes, hops: nat, k: Bytes)
    requires Plain(name) && TableOk(tbl) && tbl.Table?
    requires At(m, off, Plan(name, tbl, off, compress).bytes) && Spells(m, NOWHERE, |m|, off, name, hops)
    ensures var t := Plan(name, tbl, off, compress).tbl;
            && t.Table? && (k in tbl.m ==> k in t.m && t.m[k] == tbl.m[k])
            && (k in t.m && k !in tbl.m ==> EntryAt(m, k, t.m[k], hops))
    decreases name
  {
    hide Raw, Plan, At, EntryAt, Spells;
    PlanStep(name, tbl, off, compress);
    if name.Sub? && !Hit(tbl, Raw(name), compress) {
      var l, p, tbl1 := name.leaf, name.parent, Remember(tbl, Raw(name), off);
      var w := Plan(p, tbl1, off + 1 + |l|, compress);
      AtLabel(m, off, l, w.bytes);
      ParentSpelled(m, off, name, hops);
      NewEntries(p, tbl1, off + 1 + |l|, compress, m, hops, k);
      OwnEntry(m, off, name, hops);
    }
  }

  lemma ParentSpelled(m: Bytes, off: nat, name: Domain, hops: nat)
    requires Plain(name) && name.Sub? && Spells(m, NOWHERE, |m|, off, name, hops) && off < |m| && m[off] == |name.leaf|
    ensures Spells(m, NOWHERE, |m|, off + 1 + |name.leaf|, name.parent, hops)
  {}

  lemma OwnEntry(m: Bytes, off: nat, name: Domain, hops: nat)
    requires Plain(name) && Spells(m, NOWHERE, |m|, off, name, hops)
    ensures EntryAt(m, Raw(name), off, hops)
  {}

  /** And the depths stay right for the next name. */
  lemma DepthKept(name: Domain, tbl: Table, depth: map<Bytes, nat>, off: nat, compress: bool, m: Bytes)
    requires Packs(name, tbl) && DepthOk(m, tbl, depth) && At(m, off, Plan(name, tbl, off, compress).bytes)
    ensures var t := Plan(name, tbl, off, compress).tbl;
            DepthOk(m, t, Deepen(depth, t, PointersOf(name, tbl, depth, compress)))
  {
    hide Plan, Spells, Raw, EntryAt, PointersOf, At;
    NameTakes(name, tbl, depth, off, compress, m);
    PlanTable(name, tbl, off, compress);
    var t, h := Plan(name, tbl, off, compress).tbl, PointersOf(name, tbl, depth, compress);
    var d := Deepen(depth, t, h);
    if t.Table? {
      forall k | k in t.m ensures EntryAt(m, k, t.m[k], d[k]) {
        NewEntries(name, tbl, off, compress, m, h, k);
        assert k in tbl.m.Keys <==> k in depth.Keys;
      }
    }
  }
}
