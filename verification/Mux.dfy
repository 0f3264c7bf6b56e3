/** The request multiplexer: which handler a query name is given. */
module Mux {
  import opened Names
  import opened Labels
  import opened Subdomain

  const TYPE_DS := 43

  datatype Match<H> = NoHandler | Found(handler: H)

  function Fqdn(s: Bytes): (r: Bytes)
    ensures r != [] && r[|r| - 1] == 46 && (r == s || (r == s + [46] && (s == [] || s[|s| - 1] != 46)))
  {
    if s != [] && s[|s| - 1] == DOT then s else s + [DOT]
  }

  // ----- What a query matches --------------------------------------------------------------------

  /** Patterns as Handle stores them. */
  ghost predicate Registered<H>(z: map<Bytes, H>) {
    forall p :: p in z ==> p != [] && p[|p| - 1] == DOT
  }

  /** Pattern p other than the root is written in lower case and is q or a parent of q. */
  ghost predicate Covers<H>(z: map<Bytes, H>, q: Bytes, p: Bytes) {
    p in z && p != [DOT] && p == Fold(p) && Below(p, q)
  }

  ghost predicate Covered<H>(z: map<Bytes, H>, q: Bytes) {
    exists p :: Covers(z, q, p)
  }

  /** p covers q and lies below every pattern that does. */
  ghost predicate Closest<H>(z: map<Bytes, H>, q: Bytes, p: Bytes) {
    Covers(z, q, p) && forall o :: Covers(z, q, o) ==> Below(o, p)
  }

  /** p covers q and lies above every pattern that does. */
  ghost predicate Topmost<H>(z: map<Bytes, H>, q: Bytes, p: Bytes) {
    Covers(z, q, p) && forall o :: Covers(z, q, o) ==> Below(p, o)
  }

  function RootMatch<H>(z: map<Bytes, H>): Match<H> {
    if [DOT] in z then Found(z[[DOT]]) else NoHandler
  }

  /** The handler is the closest pattern's, or the root's; for DS the root's, or the topmost pattern's. */
  ghost predicate Dispatched<H>(z: map<Bytes, H>, q: Bytes, ds: bool, r: Match<H>) {
    if !ds then
      if Covered(z, q) then exists p :: Closest(z, q, p) && r == Found(z[p]) else r == RootMatch(z)
    else
      if Covered(z, q) && [DOT] !in z then exists p :: Topmost(z, q, p) && r == Found(z[p]) else r == RootMatch(z)
  }

  // ----- Suffixes of the query -----------------------------------------------------------------------

  /** The pattern that the suffix of q at off asks for. */
  function Key(q: Bytes, off: nat): Bytes
    requires off <= |q|
  {
    Fold(q[off..])
  }

  lemma FoldRoot(s: Bytes)
    ensures Fold(s) == [DOT] <==> s == [DOT]
  {
    if Fold(s) == [DOT] {
      assert FoldByte(s[0]) == DOT;
    }
  }

  /** The covering patterns are the keys of the label starts. */
  lemma CoversKey<H>(z: map<Bytes, H>, q: Bytes, off: nat)
    requires IsStart(q, off) && Key(q, off) in z && Key(q, off) != [DOT]
    ensures Covers(z, q, Key(q, off))
  {
    FoldTwice(q[off..]);
    TextBelow(Key(q, off), q, off);
  }

  lemma KeyOf<H>(z: map<Bytes, H>, q: Bytes, p: Bytes) returns (off: nat)
    requires Covers(z, q, p)
    ensures IsStart(q, off) && Key(q, off) == p
  {
    off := BelowText(p, q);
  }

  /** Of two label starts the earlier one has the lower name. */
  lemma EarlierBelow(q: Bytes, off: nat, later: nat)
    requires IsStart(q, off) && IsStart(q, later) && off <= later && Key(q, later) != [DOT]
    ensures Below(Key(q, later), Key(q, off))
  {
    var s, d := q[off..], later - off;
    assert s[d..] == q[later..];
    FoldRoot(q[later..]);
    FoldRoot(s);
    FoldTwice(s);
    FoldStarts(Key(q, off), s);
    if d > 0 {
      SuffixSeparator(q, off, d - 1);
    }
    StartsElements(s, d);
    StartsElements(Key(q, off), d);
    FoldSlice(s, d, |s|);
    assert Key(q, off)[d..] == Key(q, later);
    TextBelow(Key(q, later), Key(q, off), d);
  }

  /** NextLabel goes from one label start to the next. */
  lemma NextStart(q: Bytes, off: nat, next: nat)
    requires IsStart(q, off) && off < next < |q| && Separator(q, off, next - 1)
    requires forall k :: off <= k < next - 1 ==> !Separator(q, off, k)
    ensures IsStart(q, next) && forall k: nat :: off < k < next ==> !IsStart(q, k)
  {
    QuotedLocal(q, off, next - 1);
    forall k: nat | off < k < next ensures !IsStart(q, k) {
      QuotedLocal(q, off, k - 1);
      assert !Separator(q, off, k - 1);
    }
  }

  lemma NoNextStart(q: Bytes, off: nat)
    requires IsStart(q, off) && forall k :: off <= k ==> !Separator(q, off, k)
    ensures forall k: nat :: off < k ==> !IsStart(q, k)
  {
    forall k: nat | off < k ensures !IsStart(q, k) {
      if k - 1 < |q| {
        QuotedLocal(q, off, k - 1);
      }
      assert !Separator(q, off, k - 1);
    }
  }

  // ----- The multiplexer -------------------------------------------------------------------------

  /** The suffix of q at off, folded into the buffer. */
  method Lower(b: array<byte>, q: Bytes, off: nat)
    requires off <= |q| == b.Length
    modifies b
    ensures b[..|q| - off] == Key(q, off)
  {
    var l := |q| - off;
    for i := 0 to l
      invariant forall k :: 0 <= k < i ==> b[k] == FoldByte(q[off + k])
    {
      b[i] := q[off + i];
      if 65 <= b[i] <= 90 {
        b[i] := b[i] + 32;
      }
    }
  }

  /** No suffix of q that starts at or after `from` and before `to` is a pattern. */
  ghost predicate Missed<H>(z: map<Bytes, H>, q: Bytes, from: nat, to: nat) {
    forall k: nat :: from <= k < to && IsStart(q, k) ==> Key(q, k) !in z
  }

  /** The first suffix that is a pattern decides. */
  lemma FirstHit<H>(z: map<Bytes, H>, q: Bytes, off: nat)
    requires IsStart(q, off) && Missed(z, q, 0, off) && Key(q, off) in z
    ensures Dispatched(z, q, false, Found(z[Key(q, off)]))
  {
    var p := Key(q, off);
    forall o | Covers(z, q, o) ensures p != [DOT] && Below(o, p) {
      var k := KeyOf(z, q, o);
      FoldRoot(q[off..]);
      EarlierBelow(q, off, k);
    }
    if p != [DOT] {
      CoversKey(z, q, off);
      assert Closest(z, q, p);
    }
  }

  lemma NoHit<H>(z: map<Bytes, H>, q: Bytes)
    requires Missed(z, q, 0, |q| + 1)
    ensures !Covered(z, q)
  {
    forall o | Covers(z, q, o) ensures false {
      var k := KeyOf(z, q, o);
    }
  }

  /** Without a root pattern the last suffix that is a pattern decides a DS query. */
  lemma LastHit<H>(z: map<Bytes, H>, q: Bytes, best: nat)
    requires IsStart(q, best) && Key(q, best) in z && [DOT] !in z && Missed(z, q, best + 1, |q| + 1)
    ensures Dispatched(z, q, true, Found(z[Key(q, best)]))
  {
    var p := Key(q, best);
    CoversKey(z, q, best);
    forall o | Covers(z, q, o) ensures Below(p, o) {
      var k := KeyOf(z, q, o);
      EarlierBelow(q, k, best);
    }
    assert Topmost(z, q, p);
  }

  /** Nothing starts between one label start and the next. */
  lemma MissedNext<H>(z: map<Bytes, H>, q: Bytes, from: nat, off: nat, next: nat)
    requires Missed(z, q, from, off) && (off < from || !IsStart(q, off) || Key(q, off) !in z)
    requires forall k: nat :: off < k < next ==> !IsStart(q, k)
    ensures Missed(z, q, from, next)
  {
  }

  lemma MissedNone<H>(z: map<Bytes, H>, q: Bytes, off: nat)
    ensures Missed(z, q, off + 1, off)
  {
  }

  /** The loop position: at a label start, or at the dot of the root name. */
  ghost predicate Visiting(q: Bytes, off: nat) {
    if q == [DOT] then off == 0 else IsStart(q, off)
  }

  lemma FirstVisit<H>(z: map<Bytes, H>, q: Bytes)
    ensures Visiting(q, 0) && Missed(z, q, 0, 0)
  {
  }

  lemma Hit<H>(z: map<Bytes, H>, q: Bytes, off: nat)
    requires off <= |q| && Visiting(q, off) && Missed(z, q, 0, off) && Key(q, off) in z
    ensures Dispatched(z, q, false, Found(z[Key(q, off)]))
  {
    if q == [DOT] {
      FoldRoot(q);
      assert q[0..] == q;
      NoHit(z, q);
    } else {
      FirstHit(z, q, off);
    }
  }

  /** The handler noted so far is that of the suffix just before `from`. */
  ghost predicate Held<H>(z: map<Bytes, H>, q: Bytes, handler: Match<H>, from: nat) {
    if from == 0 then handler == NoHandler
    else from - 1 <= |q| && Visiting(q, from - 1) && Key(q, from - 1) in z && handler == Found(z[Key(q, from - 1)])
  }

  /** What is returned when every suffix has been visited. */
  lemma Finish<H>(z: map<Bytes, H>, q: Bytes, handler: Match<H>, from: nat, off: nat, ds: bool)
    requires off <= |q| && Visiting(q, off) && Held(z, q, handler, from) && (!ds ==> from == 0)
    requires Missed(z, q, from, off) && (off < from || Key(q, off) !in z)
    requires forall k :: off <= k ==> !Separator(q, off, k)
    ensures Dispatched(z, q, ds, if [DOT] in z then RootMatch(z) else handler)
  {
    hide Below, Covers, Closest, Topmost, Fold;
    if q != [DOT] {
      NoNextStart(q, off);
    }
    assert Missed(z, q, from, |q| + 1);
    if from == 0 {
      NoHit(z, q);
    } else if [DOT] !in z {
      FoldRoot(q);
      assert q[0..] == q;
      LastHit(z, q, from - 1);
    }
  }

  lemma Pass<H>(z: map<Bytes, H>, q: Bytes, from: nat, off: nat, next: nat)
    requires off <= |q| && Visiting(q, off) && Missed(z, q, from, off) && (off < from || Key(q, off) !in z)
    requires off < next < |q| && Separator(q, off, next - 1)
             && forall k :: off <= k < next - 1 ==> !Separator(q, off, k)
    ensures Visiting(q, next) && Missed(z, q, from, next)
  {
    NextStart(q, off, next);
    MissedNext(z, q, from, off, next);
  }

  // ----- What dispatching promises ---------------------------------------------------------------

  lemma SameCover<H>(z: map<Bytes, H>, q: Bytes, p: Bytes, o: Bytes)
    requires Covers(z, q, p) && Covers(z, q, o) && Below(p, o) && Below(o, p)
    ensures p == o
  {
    BelowAntisymmetric(p, o);
  }

  /** The handler is determined by the patterns and the query. */
  lemma DispatchUnique<H>(z: map<Bytes, H>, q: Bytes, ds: bool, r: Match<H>, u: Match<H>)
    requires Dispatched(z, q, ds, r) && Dispatched(z, q, ds, u)
    ensures r == u
  {
    if !ds && Covered(z, q) {
      var p :| Closest(z, q, p) && r == Found(z[p]);
      var o :| Closest(z, q, o) && u == Found(z[o]);
      SameCover(z, q, p, o);
    } else if ds && Covered(z, q) && [DOT] !in z {
      var p :| Topmost(z, q, p) && r == Found(z[p]);
      var o :| Topmost(z, q, o) && u == Found(z[o]);
      SameCover(z, q, p, o);
    }
  }

  /** A lone pattern below the root gets the query exactly when it is in lower case and covers the name:
      one with an upper-case letter is never found, though names compare without regard to case. */
  lemma LonePattern<H>(p: Bytes, h: H, q: Bytes, ds: bool, r: Match<H>)
    requires p != [DOT] && Dispatched(map[p := h], q, ds, r)
    ensures r == Found(h) <==> p == Fold(p) && Below(p, q)
    ensures r != Found(h) ==> r == NoHandler
  {
    var z := map[p := h];
    assert Covers(z, q, p) <==> p == Fold(p) && Below(p, q);
  }

  lemma UpperCaseIgnored(h: nat, r: Match<nat>)
    requires Dispatched(map[[65, DOT] := h], [65, DOT], false, r)
    ensures r == NoHandler && Below([65, DOT], [65, DOT])
  {
    assert Fold([65, DOT])[0] == 97;
    BelowReflexive([65, DOT]);
    LonePattern([65, DOT], h, [65, DOT], false, r);
  }

  /** Patterns are stored fully qualified, so a query name without the closing dot finds none but the root's. */
  lemma Unqualified<H>(z: map<Bytes, H>, q: Bytes, ds: bool, r: Match<H>)
    requires Registered(z) && Dispatched(z, q, ds, r) && (q == [] || q[|q| - 1] != DOT)
    ensures r == RootMatch(z)
  {
    if p :| Covers(z, q, p) {
      BelowIsSuffix(p, q);
      var off: nat :| IsStart(q, off) && SameText(p, q[off..]);
      LastByte(p, q[off..]);
    }
  }

  lemma LastByte(p: Bytes, s: Bytes)
    requires SameText(p, s) && p != [] && p[|p| - 1] == DOT
    ensures s != [] && s[|s| - 1] == DOT
  {}

  class ServeMux<H> {
    var z: map<Bytes, H>

    ghost predicate Valid()
      reads this
    {
      Registered(z)
    }

    constructor ()
      ensures Valid() && z == map[]
    {
      z := map[];
    }

    /** Handle stores the pattern fully qualified and panics on the empty one, changing nothing. */
    method Handle(pattern: Bytes, handler: H) returns (panics: bool)
      requires Valid()
      modifies this
      ensures Valid() && (panics <==> pattern == [])
      ensures z == if panics then old(z) else old(z)[Fqdn(pattern) := handler]
    {
      if pattern == [] {
        return true;
      }
      z := z[Fqdn(pattern) := handler];
      return false;
    }

    /** HandleRemove takes it away again. */
    method HandleRemove(pattern: Bytes) returns (panics: bool)
      requires Valid()
      modifies this
      ensures Valid() && (panics <==> pattern == [])
      ensures z == if panics then old(z) else old(z) - {Fqdn(pattern)}
    {
      if pattern == [] {
        return true;
      }
      z := z - {Fqdn(pattern)};
      return false;
    }

    /** match, for every query name. */
    method FindHandler(q: Bytes, t: nat) returns (r: Match<H>)
      ensures Dispatched(z, q, t == 43, r)
    {
      hide Dispatched, Key, Missed, IsStart;
      var handler: Match<H> := NoHandler;
      var b := new byte[|q|];
      var off := 0;
      ghost var from: nat := 0;
      FirstVisit(z, q);
      while true
        invariant off <= |q| && Visiting(q, off) && Missed(z, q, from, off) && Held(z, q, handler, from)
        invariant t != TYPE_DS ==> from == 0
        decreases |q| - off
      {
        Lower(b, q, off);
        var key := b[..|q| - off];
        if key in z {
          if t != TYPE_DS {
            Hit(z, q, off);
            return Found(z[key]);
          }
          handler, from := Found(z[key]), off + 1;
          MissedNone(z, q, off);
        }
        var next, end := NextLabel(q, off);
        if end {
          Finish(z, q, handler, from, off, t == TYPE_DS);
          break;
        }
        Pass(z, q, from, off, next);
        off := next;
      }
      if [DOT] in z {
        return Found(z[[DOT]]);
      }
      return handler;
    }
  }
}
