/** A path with its segments and the curve list it keeps up to date in place. */
module Paths {
  import opened Curves

  class Segment {
    var path: Path?
    var index: int          // -1 outside a path
    const point: int        // what the segment draws

    constructor (p: int)
      ensures path == null && index == -1 && point == p
    {
      path, index, point := null, -1, p;
    }
  }

  class Curve {
    var path: Path?
    var segment1: Segment?
    var segment2: Segment?

    constructor (p: Path?, a: Segment?, b: Segment?)
      ensures path == p && segment1 == a && segment2 == b
    {
      path, segment1, segment2 := p, a, b;
    }
  }

  /** The ends of the curves in a list. */
  ghost function EndsOf(cs: seq<Curve>): (e: seq<Ends<Segment?>>)
    reads cs
    ensures |e| == |cs| && forall i :: 0 <= i < |cs| ==> e[i] == Ends(cs[i].segment1, cs[i].segment2)
  {
    seq(|cs|, i requires 0 <= i < |cs| reads cs => Ends(cs[i].segment1, cs[i].segment2))
  }

  ghost predicate Distinct(cs: seq<Curve>) {
    forall i, j :: 0 <= i < j < |cs| ==> cs[i] != cs[j]
  }

  ghost predicate Owned(cs: seq<Curve>, p: Path?)
    reads cs
  {
    forall i :: 0 <= i < |cs| ==> cs[i].path == p
  }

  /** cs is a list of p's own curves, with the ends that getCurves would give them. */
  ghost predicate Listed(p: Path, s: seq<Segment>, closed: bool, cs: seq<Curve>)
    reads cs
  {
    Distinct(cs) && Owned(cs, p) && EndsOf(cs) == Rebuilt<Segment?>(s, closed)
  }

  method Close(p: Path, s: seq<Segment>, cs: seq<Curve>) returns (r: seq<Curve>)
    requires s != [] && Listed(p, s, false, cs)
    ensures Listed(p, s, true, r) && forall c :: c in r ==> c in cs || fresh(c)
  {
    CloseKeeps<Segment?>(s);
    var c := new Curve(p, s[|s| - 1], s[0]);
    EndsAppend(cs, c);
    r := cs + [c];
  }

  lemma Open(p: Path, s: seq<Segment>, cs: seq<Curve>, flag: bool)
    requires Listed(p, s, !flag, cs) && (flag ==> s == [])
    ensures Count(|s|, flag) <= |cs| && Listed(p, s, flag, cs[..Count(|s|, flag)])
  {
    CloseKeeps<Segment?>(s);
    if !flag {
      EndsTake(cs, Count(|s|, flag));
    }
  }

  /** Gives one curve of the list new ends. */
  method SetEnds(cs: seq<Curve>, i: nat, a: Segment?, b: Segment?)
    requires i < |cs| && Distinct(cs)
    modifies cs[i]
    ensures EndsOf(cs) == old(EndsOf(cs))[i := Ends(a, b)] && cs[i].path == old(cs[i].path)
  {
    cs[i].segment1, cs[i].segment2 := a, b;
  }

  /** The ends while the curves from start to i have been set. */
  ghost function Filled(e: seq<Ends<Segment?>>, s: seq<Segment>, start: nat, i: nat): (r: seq<Ends<Segment?>>)
    requires start <= i <= |e| <= |s|
    ensures |r| == |e| && forall k :: 0 <= k < |e| ==> r[k] == if start <= k < i then Ends(s[k], After(s, k)) else e[k]
  {
    seq(|e|, k requires 0 <= k < |e| => if start <= k < i then Ends(s[k], After(s, k)) else e[k])
  }

  /** And the neighbours after that. */
  ghost function Met(e: seq<Ends<Segment?>>, s: seq<Segment>, closed: bool, start: nat): (r: seq<Ends<Segment?>>)
    requires |e| <= |s|
    ensures |r| == |e|
  {
    var before := Before(|s|, closed, start);
    if 0 <= before < |e| then e[before := Ends(e[before].first, FirstOrStart(s, start))] else e
  }

  lemma FilledMet(e: seq<Ends<Segment?>>, s: seq<Segment>, closed: bool, start: nat, end: nat)
    requires start <= end <= |e| <= |s|
    ensures var m := Met(Filled(e, s, start, end), s, closed, start);
            Adjusted<Segment?>(e, s, closed, start, end) ==
            if end < |e| then m[end := Ends(s[end], m[end].second)] else m
  {
    hide Filled;
    var f := Filled(e, s, start, end);
    var m := Met(f, s, closed, start);
    var r := if end < |e| then m[end := Ends(s[end], m[end].second)] else m;
    forall i | 0 <= i < |e| ensures r[i] == AdjustedAt<Segment?>(e, s, closed, start, end, i) {
      assert f[i] == if start <= i < end then Ends(s[i], After(s, i)) else e[i];
    }
  }

  /** A fresh curve for every place in the list. */
  method BuildCurves(p: Path, s: seq<Segment>, closed: bool) returns (cs: seq<Curve>)
    ensures fresh(cs) && Listed(p, s, closed, cs)
  {
    cs := [];
    ghost var goal := Rebuilt<Segment?>(s, closed);
    assert EndsOf(cs) == goal[..0];
    hide EndsOf, Rebuilt;
    for i := 0 to Count(|s|, closed)
      invariant |cs| == i && Distinct(cs) && Owned(cs, p) && fresh(cs) && EndsOf(cs) == goal[..i]
    {
      RebuiltStep(s, closed, i);
      var c := new Curve(p, s[i], After(s, i));
      EndsAppend(cs, c);
      cs := cs + [c];
    }
    RebuiltEnd(s, closed);
  }

  lemma RebuiltStep(s: seq<Segment>, closed: bool, i: nat)
    requires i < Count(|s|, closed)
    ensures var r := Rebuilt<Segment?>(s, closed); i < |r| && r[..i + 1] == r[..i] + [Ends(s[i], After(s, i))]
  {
  }

  lemma RebuiltEnd(s: seq<Segment>, closed: bool)
    ensures var r := Rebuilt<Segment?>(s, closed); Count(|s|, closed) == |r| && r[..Count(|s|, closed)] == r
  {
  }

  lemma EndsAppend(cs: seq<Curve>, c: Curve)
    ensures EndsOf(cs + [c]) == EndsOf(cs) + [Ends(c.segment1, c.segment2)]
  {
  }

  lemma EndsTake(cs: seq<Curve>, n: nat)
    requires n <= |cs|
    ensures EndsOf(cs[..n]) == EndsOf(cs)[..n]
  {
  }

  /** New curves, without ends yet, put into the list from start to end. */
  method MakeRoom(p: Path, cs: seq<Curve>, start: nat, end: nat) returns (r: seq<Curve>, ghost more: seq<Curve>)
    requires start <= end && start <= |cs|
    ensures |more| == end - start && r == Inserted(cs, start, more) && fresh(more) && Distinct(more) && Owned(more, p)
    ensures forall k :: 0 <= k < |r| ==> r[k] in cs || fresh(r[k])
  {
    r, more := cs, [];
    assert r == Inserted(cs, start, []);
    for i := start to end
      invariant |more| == i - start && r == Inserted(cs, start, more) && fresh(more) && Distinct(more) && Owned(more, p)
    {
      var c := new Curve(p, null, null);
      InsertOne(cs, start, more, c, i);
      r := r[..i] + [c] + r[i..];
      more := more + [c];
    }
  }

  lemma InsertOne(cs: seq<Curve>, start: nat, more: seq<Curve>, c: Curve, i: nat)
    requires start <= |cs| && i == start + |more|
    ensures var r := Inserted(cs, start, more); r[..i] + [c] + r[i..] == Inserted(cs, start, more + [c])
  {
    var r := Inserted(cs, start, more);
    assert r[..i] == cs[..start] + more && r[i..] == cs[start..];
  }

  lemma EndsInserted(p: Path, cs: seq<Curve>, start: nat, more: seq<Curve>)
    requires start <= |cs| && Distinct(cs) && Distinct(more) && Owned(cs, p) && Owned(more, p)
    requires forall i, j :: 0 <= i < |cs| && 0 <= j < |more| ==> cs[i] != more[j]
    ensures var r := Inserted(cs, start, more);
            Distinct(r) && Owned(r, p) && EndsOf(r) == Inserted(EndsOf(cs), start, EndsOf(more))
  {
    var r := Inserted(cs, start, more);
    forall k | 0 <= k < |r| ensures EndsOf(r)[k] == Inserted(EndsOf(cs), start, EndsOf(more))[k] && r[k].path == p {
      InsertedAt(cs, start, more, k);
      InsertedAt(EndsOf(cs), start, EndsOf(more), k);
    }
    forall a, b | 0 <= a < b < |r| ensures r[a] != r[b] {
      InsertedAt(cs, start, more, a);
      InsertedAt(cs, start, more, b);
    }
  }

  lemma ListedSize(p: Path, s: seq<Segment>, closed: bool, cs: seq<Curve>)
    requires Listed(p, s, closed, cs)
    ensures |cs| == Count(|s|, closed) <= |s|
  {
  }

  lemma AddedEnds(s: seq<Segment>, closed: bool, index: nat, r: seq<Segment>, blank: seq<Ends<Segment?>>)
    requires index <= |s| && |blank| == Count(|s| + |r|, closed) - Count(|s|, closed)
    ensures var start, end := StartOf(|s|, closed, index, |r|), EndOf(|s|, closed, index, |r|);
            var c, t := Rebuilt<Segment?>(s, closed), Inserted<Segment>(s, index, r);
            && start <= |c| && start <= end <= Count(|t|, closed) == |Inserted(c, start, blank)| <= |t|
            && Adjusted<Segment?>(Inserted(c, start, blank), t, closed, start, end) == Rebuilt<Segment?>(t, closed)
  {
    InsertKeeps<Segment?>(s, closed, index, r, blank);
    assert Inserted<Segment?>(s, index, r) == Inserted<Segment>(s, index, r);
  }

  /** What is left of a list after a cut, and that it shares no curve with what was cut. */
  lemma EndsRemoved(p: Path, cs: seq<Curve>, at: nat, amount: nat)
    requires at <= |cs| && Distinct(cs) && Owned(cs, p)
    ensures var r, hi := Removed(cs, at, amount), if at + amount <= |cs| then at + amount else |cs|;
            && Distinct(r) && Owned(r, p) && EndsOf(r) == Removed(EndsOf(cs), at, amount)
            && (forall i, j :: 0 <= i < |r| && at <= j < hi ==> r[i] != cs[j])
            && (forall i :: 0 <= i < |r| ==> r[i] in cs)
  {
    var r := Removed(cs, at, amount);
    forall k | 0 <= k < |r| ensures EndsOf(r)[k] == Removed(EndsOf(cs), at, amount)[k] && r[k].path == p && r[k] in cs {
      RemovedAt(cs, at, amount, k);
      RemovedAt(EndsOf(cs), at, amount, k);
    }
    forall a, b | 0 <= a < b < |r| ensures r[a] != r[b] {
      RemovedAt(cs, at, amount, a);
      RemovedAt(cs, at, amount, b);
    }
  }

  /** Curves that leave the path. */
  method Unlink(gone: seq<Curve>)
    modifies gone
    ensures Owned(gone, null) && EndsOf(gone) == old(EndsOf(gone))
  {
    for k := 0 to |gone|
      invariant forall i :: 0 <= i < k ==> gone[i].path == null
      invariant EndsOf(gone) == old(EndsOf(gone))
    {
      gone[k].path := null;
    }
  }

  // ----- Segments ------------------------------------------------------------------------------------

  ghost predicate Different(s: seq<Segment>) {
    forall i, j :: 0 <= i < j < |s| ==> s[i] != s[j]
  }

  ghost predicate PlacedFrom(p: Path, s: seq<Segment>, index: nat)
    reads s
  {
    forall i :: 0 <= i < |s| ==> s[i].path == p && s[i].index == index + i
  }

  /** What becomes of a segment given to a path: itself when it was free, else a copy. */
  twostate predicate Taken(given: Segment, new taken: Segment)
    reads given, taken
  {
    taken.point == given.point && (taken == given || fresh(taken)) && (taken == given ==> old(given.path) == null)
  }

  /** The first loop of _add: takes the segments over, copying those that belong to a path already, also those
      that occur twice. */
  method Claim(p: Path, segs: seq<Segment>, index: nat) returns (r: seq<Segment>)
    modifies segs
    ensures |r| == |segs| && PlacedFrom(p, r, index)
    ensures forall i :: 0 <= i < |r| ==> Taken(segs[i], r[i])
    ensures forall s :: s in segs && old(s.path) != null ==> s.path == old(s.path) && s.index == old(s.index)
  {
    r := [];
    for i := 0 to |segs|
      invariant |r| == i && PlacedFrom(p, r, index)
      invariant forall k :: 0 <= k < i ==> Taken(segs[k], r[k])
      invariant forall s :: s in segs && s !in r ==> s.path == old(s.path) && s.index == old(s.index)
    {
      var segment := segs[i];
      if segment.path != null {
        segment := new Segment(segment.point);
      }
      assert segment !in r;
      segment.path := p;
      segment.index := index + i;
      r := r + [segment];
    }
  }

  /** Segments that leave the path. */
  method Detach(removed: seq<Segment>)
    modifies removed
    ensures forall s :: s in removed ==> s.path == null && s.index == -1
  {
    for i := 0 to |removed|
      invariant forall k :: 0 <= k < i ==> removed[k].path == null && removed[k].index == -1
    {
      removed[i].index := -1;
      removed[i].path := null;
    }
  }

  ghost predicate Apart(t: seq<Segment>, u: seq<Segment>) {
    forall i, j :: 0 <= i < |t| && 0 <= j < |u| ==> t[i] != u[j]
  }

  /** Some segments leave, the others are numbered anew. */
  method Part(p: Path, t: seq<Segment>, removed: seq<Segment>, start: nat)
    requires start <= |t| && Different(t) && PlacedFrom(p, t[..start], 0) && forall i :: 0 <= i < |t| ==> t[i].path == p
    requires Apart(t, removed)
    modifies removed, t
    ensures PlacedFrom(p, t, 0) && forall s :: s in removed ==> s.path == null && s.index == -1
  {
    Detach(removed);
    Reindex(p, t, start);
  }

  /** What is left after a cut has no segment twice, and none of those cut. */
  lemma CutDifferent(p: Path, s: seq<Segment>, start: nat, stop: nat)
    requires PlacedFrom(p, s, 0) && start <= stop <= |s|
    ensures var t := s[..start] + s[stop..];
            && Different(t) && t == Removed(s, start, stop - start) && PlacedFrom(p, t[..start], 0)
            && (forall i :: 0 <= i < |t| ==> t[i].path == p && t[i] in s)
            && Apart(t, s[start..stop])
  {
    var t := s[..start] + s[stop..];
    assert forall i :: 0 <= i < |t| ==> t[i] == s[if i < start then i else i + (stop - start)];
    assert forall i :: 0 <= i < |s| ==> s[i].index == i && s[i].path == p;
    hide PlacedFrom;
    assert t == Removed(s, start, stop - start);
    assert PlacedFrom(p, t[..start], 0) by { FrontPlaced(p, s, start, t); }
  }

  lemma FrontPlaced(p: Path, s: seq<Segment>, start: nat, t: seq<Segment>)
    requires PlacedFrom(p, s, 0) && start <= |s| && start <= |t| && t[..start] == s[..start]
    ensures PlacedFrom(p, t[..start], 0)
  {
    forall i | 0 <= i < start ensures t[..start][i].path == p && t[..start][i].index == i {
      assert t[..start][i] == s[..start][i] == s[i];
    }
  }

  /** Numbers the segments from a place on. */
  method Reindex(p: Path, s: seq<Segment>, from: nat)
    requires from <= |s| && Different(s) && PlacedFrom(p, s[..from], 0) && forall i :: 0 <= i < |s| ==> s[i].path == p
    modifies s[from..]
    ensures PlacedFrom(p, s, 0)
  {
    for i := from to |s|
      invariant PlacedFrom(p, s[..i], 0) && forall k :: 0 <= k < |s| ==> s[k].path == p
    {
      s[i].index := i;
    }
    assert s[..|s|] == s;
  }

  class Path {
    var segments: seq<Segment>
    var curves: seq<Curve>
    var cached: bool
    var closed: bool

    /** Every segment knows its path and its place in it. */
    ghost predicate Placed()
      reads this, segments
    {
      PlacedFrom(this, segments, 0)
    }

    /** The curve list, when there is one, is the one getCurves would build. */
    ghost predicate CurvesOk()
      reads this, curves
    {
      if cached then Listed(this, segments, closed, curves) else curves == []
    }

    ghost predicate Valid()
      reads this, segments, curves
    {
      Placed() && CurvesOk()
    }

    constructor ()
      ensures Valid() && segments == [] && curves == [] && !cached && !closed
    {
      segments, curves, cached, closed := [], [], false, false;
    }

    /** getCurves: the list, built when there is none. */
    method GetCurves() returns (r: seq<Curve>)
      requires Valid()
      modifies this
      ensures Valid() && cached && r == curves && Listed(this, segments, closed, r)
      ensures segments == old(segments) && closed == old(closed)
      ensures forall c :: c in curves ==> c in old(curves) || fresh(c)
    {
      if !cached {
        var cs := BuildCurves(this, segments, closed);
        curves, cached := cs, true;
      }
      r := curves;
    }

    /** setClosed: adds or drops the closing curve. */
    method SetClosed(flag: bool)
      requires Valid()
      modifies this
      ensures Valid() && closed == flag && segments == old(segments) && cached == old(cached)
      ensures forall c :: c in curves ==> c in old(curves) || fresh(c)
    {
      hide Listed;
      if closed != flag {
        if cached {
          var length := Count(|segments|, flag);
          if flag && length > 0 {
            curves := Close(this, segments, curves);
          } else {
            Open(this, segments, curves, flag);
            curves := curves[..length];
          }
        }
        closed := flag;
      }
    }

    /** _adjustCurves. */
    method AdjustCurves(start: nat, end: nat)
      requires start <= end <= |curves| <= |segments| && Distinct(curves) && Owned(curves, this)
      modifies curves
      ensures Owned(curves, this)
              && EndsOf(curves) == Adjusted<Segment?>(old(EndsOf(curves)), segments, closed, start, end)
    {
      ghost var e := EndsOf(curves);
      FilledMet(e, segments, closed, start, end);
      FillCurves(start, end);
      hide Filled, Adjusted;
      var before := Before(|segments|, closed, start);
      if 0 <= before < |curves| {
        SetEnds(curves, before, curves[before].segment1, FirstOrStart(segments, start));
      }
      assert EndsOf(curves) == Met(Filled(e, segments, start, end), segments, closed, start);
      if end < |curves| {
        SetEnds(curves, end, segments[end], curves[end].segment2);
      }
    }

    method FillCurves(start: nat, end: nat)
      requires start <= end <= |curves| <= |segments| && Distinct(curves) && Owned(curves, this)
      modifies curves
      ensures Owned(curves, this) && EndsOf(curves) == Filled(old(EndsOf(curves)), segments, start, end)
    {
      ghost var e := EndsOf(curves);
      for i := start to end
        invariant EndsOf(curves) == Filled(e, segments, start, i) && Owned(curves, this)
      {
        curves[i].path := this;
        SetEnds(curves, i, segments[i], After(segments, i));
        ghost var f := Filled(e, segments, start, i);
        assert Filled(e, segments, start, i + 1) == f[i := Ends(segments[i], After(segments, i))];
      }
    }

    /** _add: the segments, or copies of those that are in a path already, from index on. */
    method Add(segs: seq<Segment>, index: nat) returns (r: seq<Segment>)
      requires Valid() && index <= |segments|
      modifies this, segs, segments, curves
      ensures Valid() && closed == old(closed) && cached == old(cached)
      ensures |r| == |segs| && segments == Inserted(old(segments), index, r)
      ensures forall i :: 0 <= i < |r| ==> Taken(segs[i], r[i])
      ensures forall s :: s in segs && old(s.path) != null && old(s.path) != this ==>
                s.path == old(s.path) && s.index == old(s.index)
      ensures forall c :: c in curves ==> c in old(curves) || fresh(c)
    {
      ghost var s := segments;
      r := AddSegments(segs, index);
      if cached {
        AddCurves(s, index, r);
      }
    }

    method AddCurves(ghost s: seq<Segment>, index: nat, r: seq<Segment>)
      requires index <= |s| && segments == Inserted(s, index, r) && Listed(this, s, closed, curves)
      modifies this`curves, curves
      ensures Listed(this, segments, closed, curves)
      ensures forall c :: c in curves ==> c in old(curves) || fresh(c)
    {
      hide EndsOf, Adjusted, Inserted, Rebuilt, StartOf, EndOf, Distinct, Owned, Count;
      var n := |segments| - |r|;
      ListedSize(this, s, closed, curves);
      InsertPlaces(n, closed, index, |r|);
      var start, end := StartOf(n, closed, index, |r|), EndOf(n, closed, index, |r|);
      ghost var blank := Widen(start, end);
      AddedEnds(s, closed, index, r, blank);
      AdjustCurves(start, end);
    }

    method Widen(start: nat, end: nat) returns (ghost blank: seq<Ends<Segment?>>)
      requires start <= end && start <= |curves| && Distinct(curves) && Owned(curves, this)
      modifies this`curves
      ensures Distinct(curves) && Owned(curves, this) && |blank| == end - start && |curves| == |old(curves)| + |blank|
      ensures EndsOf(curves) == Inserted(old(EndsOf(curves)), start, blank)
      ensures forall k :: 0 <= k < |curves| ==> curves[k] in old(curves) || fresh(curves[k])
    {
      hide EndsOf, Inserted, Owned;
      var cs;
      ghost var more;
      cs, more := MakeRoom(this, curves, start, end);
      EndsInserted(this, curves, start, more);
      blank := EndsOf(more);
      curves := cs;
    }

    method AddSegments(segs: seq<Segment>, index: nat) returns (r: seq<Segment>)
      requires Placed() && index <= |segments|
      modifies this`segments, segs, segments
      ensures Placed() && |r| == |segs| && segments == Inserted(old(segments), index, r)
      ensures forall i :: 0 <= i < |r| ==> Taken(segs[i], r[i])
      ensures forall s :: s in segs && old(s.path) != null && old(s.path) != this ==>
                s.path == old(s.path) && s.index == old(s.index)
    {
      ghost var s := segments;
      r := Claim(this, segs, index);
      segments := Inserted(segments, index, r);
      Reindex(this, segments, index + |segs|);
    }

    /** removeSegments, for any range: as many segments as there are in it leave the path. The curve list stays
        right exactly unless the path is open and the range begins inside it and ends beyond it. */
    method RemoveSegments(start: nat, end: nat) returns (removed: seq<Segment>)
      requires Valid()
      modifies this, segments, curves
      ensures Placed() && closed == old(closed) && cached == old(cached)
      ensures CurvesOk() <==> !(cached && !closed && 0 < start < |old(segments)| < end)
      ensures start < |old(segments)| && start < end ==>
                removed == old(segments)[start..if end < |old(segments)| then end else |old(segments)|]
                && segments == Removed(old(segments), start, |removed|)
      ensures !(start < |old(segments)| && start < end) ==> removed == [] && segments == old(segments)
      ensures forall s :: s in removed ==> s.path == null && s.index == -1
      ensures forall c :: c in curves ==> c in old(curves)
    {
      hide Listed, Removed, PlacedFrom;
      if start >= |segments| || end <= start {
        return [];
      }
      ghost var s := segments;
      var count := |segments|;
      removed := CutSegments(start, if end < count then end else count);
      if cached {
        CutCurves(s, count, start, end, |removed|);
      }
    }

    method CutSegments(start: nat, stop: nat) returns (removed: seq<Segment>)
      requires Placed() && start < stop <= |segments|
      modifies this`segments, segments
      ensures Placed() && removed == old(segments)[start..stop]
              && segments == Removed(old(segments), start, stop - start)
      ensures forall s :: s in removed ==> s.path == null && s.index == -1
    {
      hide Different, Removed, PlacedFrom;
      ghost var s := segments;
      CutDifferent(this, s, start, stop);
      removed := segments[start..stop];
      segments := segments[..start] + segments[stop..];
      Part(this, segments, removed, start);
    }

    method CutCurves(ghost s: seq<Segment>, count: nat, start: nat, end: nat, amount: nat)
      requires start < |s| == count && start < end && amount == (if end < count then end else count) - start
      requires segments == Removed(s, start, amount) && Listed(this, s, closed, curves)
      modifies this`curves, curves
      ensures Listed(this, segments, closed, curves) <==> closed || start == 0 || end <= count
      ensures forall c :: c in curves ==> c in old(curves)
    {
      hide EndsOf, Adjusted, Rebuilt, Distinct, Owned, CutAt, Removed;
      CutEnds(s, closed, start, end, amount);
      var at := CutAt(count, closed, start, end);
      ListedSize(this, s, closed, curves);
      Narrow(at, amount);
      AdjustCurves(at, at);
    }

    method Narrow(at: nat, amount: nat)
      requires at <= |curves| && Distinct(curves) && Owned(curves, this)
      modifies this`curves, curves
      ensures Distinct(curves) && Owned(curves, this) && EndsOf(curves) == Removed(old(EndsOf(curves)), at, amount)
      ensures |curves| == |Removed(old(EndsOf(curves)), at, amount)|
      ensures forall k :: 0 <= k < |curves| ==> curves[k] in old(curves)
    {
      hide EndsOf, Removed, Owned;
      EndsRemoved(this, curves, at, amount);
      var gone := curves[at..if at + amount <= |curves| then at + amount else |curves|];
      curves := Removed(curves, at, amount);
      assert forall i, j :: 0 <= i < |curves| && 0 <= j < |gone| ==> curves[i] != gone[j];
      Unlink(gone);
    }
  }

  /** Cutting curves out as the segments are cut, in range or beyond it. */
  lemma CutEnds(s: seq<Segment>, closed: bool, start: nat, end: nat, amount: nat)
    requires start < |s| && start < end && amount == (if end < |s| then end else |s|) - start
    ensures var c, t := Rebuilt<Segment?>(s, closed), Removed<Segment>(s, start, amount);
            var at := CutAt(|s|, closed, start, end);
            && at <= |c| && at <= |Removed(c, at, amount)| <= |t|
            && (Adjusted<Segment?>(Removed(c, at, amount), t, closed, at, at) == Rebuilt<Segment?>(t, closed)
                <==> closed || start == 0 || end <= |s|)
  {
    hide Adjusted, Rebuilt, CutAt, Removed;
    if end <= |s| {
      CutInside(s, closed, start, end);
    } else {
      CutBeyond(s, closed, start, end);
    }
  }

  lemma CutInside(s: seq<Segment>, closed: bool, start: nat, end: nat)
    requires start < end <= |s|
    ensures var c, t := Rebuilt<Segment?>(s, closed), Removed<Segment>(s, start, end - start);
            var at := CutAt(|s|, closed, start, end);
            && at <= |c| && at <= |Removed(c, at, end - start)| <= |t|
            && Adjusted<Segment?>(Removed(c, at, end - start), t, closed, at, at) == Rebuilt<Segment?>(t, closed)
  {
    assert Removed<Segment?>(s, start, end - start) == Removed<Segment>(s, start, end - start);
    hide Adjusted, Rebuilt, CutAt, Removed;
    RemoveKeeps<Segment?>(s, closed, start, end);
  }

  lemma CutBeyond(s: seq<Segment>, closed: bool, start: nat, end: nat)
    requires start < |s| < end
    ensures var amount := |s| - start;
            var c, t := Rebuilt<Segment?>(s, closed), Removed<Segment>(s, start, amount);
            var at := CutAt(|s|, closed, start, end);
            && at <= |c| && at <= |Removed(c, at, amount)| <= |t|
            && (Adjusted<Segment?>(Removed(c, at, amount), t, closed, at, at) == Rebuilt<Segment?>(t, closed)
                <==> closed || start == 0)
  {
    assert s[..start] == Removed<Segment>(s, start, |s| - start);
    hide Adjusted, Rebuilt, CutAt, Removed;
    RemoveBeyond<Segment?>(s, closed, start, end);
  }

  // ----- Any sequence of operations ------------------------------------------------------------------

  /** What a client does to a path. */
  datatype Op = Insert(segs: seq<Segment>, index: nat) | Remove(start: nat, end: nat) | Look | Shut(flag: bool)

  /** A path as it is seen from outside: the points of its segments, whether it is closed, whether there is a list. */
  datatype Drawing = Drawing(points: seq<int>, closed: bool, cached: bool)

  ghost function Points(s: seq<Segment>): (r: seq<int>)
    ensures |r| == |s| && forall i :: 0 <= i < |s| ==> r[i] == s[i].point
  {
    seq(|s|, i requires 0 <= i < |s| => s[i].point)
  }

  ghost function Seen(p: Path): Drawing
    reads p
  {
    Drawing(Points(p.segments), p.closed, p.cached)
  }

  ghost function Next(d: Drawing, op: Op): Drawing {
    match op
    case Insert(segs, index) => if index <= |d.points| then d.(points := Inserted(d.points, index, Points(segs))) else d
    case Remove(start, end) =>
      var stop := if end < |d.points| then end else |d.points|;
      if start < stop then d.(points := Removed(d.points, start, stop - start)) else d
    case Look => d.(cached := true)
    case Shut(flag) => d.(closed := flag)
  }

  /** A removal that leaves a curve too many. */
  predicate BadCut(d: Drawing, op: Op) {
    op.Remove? && d.cached && !d.closed && 0 < op.start < |d.points| < op.end
  }

  ghost function Given(op: Op): set<Segment> {
    if op.Insert? then set s | s in op.segs else {}
  }

  /** Where the objects of a path come from: there before, handed in, or new. */
  twostate predicate Grown(p: Path, given: set<Segment>)
    reads p
  {
    && (forall s :: s in p.segments ==> s in old(p.segments) || s in given || fresh(s))
    && (forall c :: c in p.curves ==> c in old(p.curves) || fresh(c))
  }

  lemma PointsInserted(s: seq<Segment>, index: nat, r: seq<Segment>)
    requires index <= |s|
    ensures Points(Inserted(s, index, r)) == Inserted(Points(s), index, Points(r))
    ensures forall x :: x in Inserted(s, index, r) ==> x in s || x in r
  {
    var t := Inserted(s, index, r);
    forall k | 0 <= k < |t|
      ensures Points(t)[k] == Inserted(Points(s), index, Points(r))[k] && (t[k] in s || t[k] in r)
    {
      InsertedAt(s, index, r, k);
      InsertedAt(Points(s), index, Points(r), k);
    }
  }

  lemma PointsRemoved(s: seq<Segment>, start: nat, amount: nat)
    requires start <= |s|
    ensures Points(Removed(s, start, amount)) == Removed(Points(s), start, amount)
    ensures forall x :: x in Removed(s, start, amount) ==> x in s
  {
    var t := Removed(s, start, amount);
    forall k | 0 <= k < |t| ensures Points(t)[k] == Removed(Points(s), start, amount)[k] && t[k] in s {
      RemovedAt(s, start, amount, k);
      RemovedAt(Points(s), start, amount, k);
    }
  }

  method PerformInsert(p: Path, segs: seq<Segment>, index: nat, ghost others: set<Path>)
    requires p.Valid() && index <= |p.segments|
    requires p !in others && forall q :: q in others ==> q.Valid()
    modifies p, segs, p.segments, p.curves
    ensures p.Valid() && Seen(p) == Next(old(Seen(p)), Insert(segs, index)) && Grown(p, Given(Insert(segs, index)))
    ensures forall q :: q in others ==> q.Valid() && unchanged(q)
  {
    hide EndsOf, Rebuilt, Inserted, Distinct;
    var r := p.Add(segs, index);
    PointsInserted(old(p.segments), index, r);
    assert Points(r) == Points(segs);
  }

  method PerformRemove(p: Path, start: nat, end: nat, ghost others: set<Path>)
    requires p.Valid() && p !in others && forall q :: q in others ==> q.Valid()
    modifies p, p.segments, p.curves
    ensures p.Placed() && Seen(p) == Next(old(Seen(p)), Remove(start, end)) && Grown(p, {})
    ensures p.CurvesOk() <==> !BadCut(old(Seen(p)), Remove(start, end))
    ensures forall q :: q in others ==> q.Valid() && unchanged(q)
  {
    hide EndsOf, Rebuilt, Removed, Distinct, Next, Points;
    ghost var d := Seen(p);
    var removed := p.RemoveSegments(start, end);
    CutSeen(old(p.segments), start, end, p.segments, d);
  }

  lemma CutSeen(s: seq<Segment>, start: nat, end: nat, t: seq<Segment>, d: Drawing)
    requires d.points == Points(s)
    requires if start < |s| && start < end then t == Removed(s, start, (if end < |s| then end else |s|) - start)
             else t == s
    ensures |d.points| == |s| && Next(d, Remove(start, end)) == d.(points := Points(t)) && forall x :: x in t ==> x in s
  {
    if start < |s| && start < end {
      PointsRemoved(s, start, (if end < |s| then end else |s|) - start);
    }
  }

  /** One operation, on one of several paths that may be handed each other's segments: the path looks as it should, it
      stays right exactly unless the operation is a bad cut, and the others stay as they are. */
  method Perform(p: Path, op: Op, ghost others: set<Path>)
    requires p.Valid() && (op.Insert? ==> op.index <= |p.segments|)
    requires p !in others && forall q :: q in others ==> q.Valid()
    modifies p, p.segments, p.curves, Given(op)
    ensures p.Placed() && Seen(p) == Next(old(Seen(p)), op) && Grown(p, Given(op))
    ensures p.CurvesOk() <==> !BadCut(old(Seen(p)), op)
    ensures forall q :: q in others ==> q.Valid() && unchanged(q)
  {
    hide Listed, PlacedFrom, Inserted, Removed;
    match op
    case Insert(segs, index) => PerformInsert(p, segs, index, others);
    case Remove(start, end) => PerformRemove(p, start, end, others);
    case Look => var cs := p.GetCurves();
    case Shut(flag) => p.SetClosed(flag);
  }

  /** An operation on one of several paths, or the insertion of segments that one of them has at that time. */
  datatype Edit = Edit(who: nat, op: Op) | Share(who: nat, from: nat, lo: nat, hi: nat, index: nat)

  /** The edit names paths there are and places in them. */
  predicate InRange(ds: seq<Drawing>, e: Edit) {
    e.who < |ds| &&
    match e
    case Edit(who, op) => op.Insert? ==> op.index <= |ds[who].points|
    case Share(who, from, lo, hi, index) => from < |ds| && lo <= hi <= |ds[from].points| && index <= |ds[who].points|
  }

  ghost function Edited(ds: seq<Drawing>, e: Edit): (r: seq<Drawing>)
    ensures |r| == |ds|
  {
    if !InRange(ds, e) then ds
    else
      match e
      case Edit(who, op) => ds[who := Next(ds[who], op)]
      case Share(who, from, lo, hi, index) =>
        ds[who := ds[who].(points := Inserted(ds[who].points, index, ds[from].points[lo..hi]))]
  }

  ghost predicate Spoiling(ds: seq<Drawing>, e: Edit) {
    e.Edit? && e.who < |ds| && BadCut(ds[e.who], e.op)
  }

  /** What n new paths should look like after the edits. */
  ghost function Drawn(n: nat, edits: seq<Edit>): (ds: seq<Drawing>)
    ensures |ds| == n
  {
    if edits == [] then seq(n, _ => Drawing([], false, false))
    else Edited(Drawn(n, edits[..|edits| - 1]), edits[|edits| - 1])
  }

  ghost predicate AllInRange(n: nat, edits: seq<Edit>) {
    forall i :: 0 <= i < |edits| ==> InRange(Drawn(n, edits[..i]), edits[i])
  }

  /** Edit i is a bad cut. */
  ghost predicate Spoils(n: nat, edits: seq<Edit>, i: nat)
    requires i < |edits|
  {
    Spoiling(Drawn(n, edits[..i]), edits[i])
  }

  ghost predicate Unspoilt(n: nat, edits: seq<Edit>, done: nat)
    requires done <= |edits|
  {
    forall i :: 0 <= i < done ==> !Spoils(n, edits, i)
  }

  lemma DrawnNext(n: nat, edits: seq<Edit>, i: nat)
    requires i < |edits| && AllInRange(n, edits)
    ensures InRange(Drawn(n, edits[..i]), edits[i])
    ensures Drawn(n, edits[..i + 1]) == Edited(Drawn(n, edits[..i]), edits[i])
    ensures Spoils(n, edits, i) <==> Spoiling(Drawn(n, edits[..i]), edits[i])
    ensures Unspoilt(n, edits, i + 1) <==> Unspoilt(n, edits, i) && !Spoils(n, edits, i)
    ensures Spoils(n, edits, i) ==> !Unspoilt(n, edits, |edits|)
  {
    hide Edited, Spoiling;
    assert edits[..i + 1][..i] == edits[..i];
  }

  lemma DrawnNone(n: nat, edits: seq<Edit>)
    ensures Drawn(n, edits[..0]) == seq(n, _ => Drawing([], false, false)) && Unspoilt(n, edits, 0)
  {}

  ghost function GivenBy(e: Edit): set<Segment> {
    if e.Edit? then Given(e.op) else {}
  }

  ghost function AllGiven(edits: seq<Edit>): set<Segment> {
    if edits == [] then {} else AllGiven(edits[..|edits| - 1]) + GivenBy(edits[|edits| - 1])
  }

  lemma {:induction false} GivenAt(edits: seq<Edit>, i: nat)
    requires i < |edits|
    ensures GivenBy(edits[i]) <= AllGiven(edits)
  {
    if i < |edits| - 1 {
      var front := edits[..|edits| - 1];
      assert front[i] == edits[i];
      GivenAt(front, i);
    }
  }

  ghost predicate AllDifferent(paths: seq<Path>) {
    forall i, j :: 0 <= i < j < |paths| ==> paths[i] != paths[j]
  }

  /** One operation on one path of several: it looks as it should, and all the others stay as they are. */
  method PerformOn(paths: seq<Path>, who: nat, op: Op, ghost others: set<Path>, ghost ds: seq<Drawing>)
    requires AllDifferent(paths) && |ds| == |paths| && InRange(ds, Edit(who, op))
    requires forall k :: 0 <= k < |paths| ==> paths[k] !in others && paths[k].Valid() && Seen(paths[k]) == ds[k]
    requires forall q :: q in others ==> q.Valid()
    modifies paths[who], paths[who].segments, paths[who].curves, Given(op)
    ensures paths[who].Placed() && (paths[who].CurvesOk() <==> !BadCut(ds[who], op)) && Grown(paths[who], Given(op))
    ensures forall k :: 0 <= k < |paths| && k != who ==> paths[k].Valid() && unchanged(paths[k])
    ensures forall k :: 0 <= k < |paths| ==> Seen(paths[k]) == Edited(ds, Edit(who, op))[k]
    ensures forall q :: q in others ==> q.Valid() && unchanged(q)
  {
    hide PlacedFrom, Listed, Next, Points, Grown;
    SeenSize(paths[who]);
    ghost var rest := others + set k | 0 <= k < |paths| && k != who :: paths[k];
    Perform(paths[who], op, rest);
    assert forall k :: 0 <= k < |paths| && k != who ==> paths[k] in rest;
  }

  lemma SeenSize(p: Path)
    ensures |Seen(p).points| == |p.segments|
  {}

  method NewPaths(n: nat) returns (paths: seq<Path>)
    ensures |paths| == n && fresh(paths) && AllDifferent(paths)
    ensures forall k :: 0 <= k < n ==> paths[k].Valid() && paths[k].segments == [] && paths[k].curves == []
    ensures forall k :: 0 <= k < n ==> !paths[k].closed && !paths[k].cached
  {
    paths := [];
    for i := 0 to n
      invariant |paths| == i && fresh(paths) && AllDifferent(paths)
      invariant forall k :: 0 <= k < i ==> paths[k].Valid() && paths[k].segments == [] && paths[k].curves == []
      invariant forall k :: 0 <= k < i ==> !paths[k].closed && !paths[k].cached
    {
      var p := new Path();
      paths := paths + [p];
    }
  }

  /** The paths hold no other segments and curves than these. */
  ghost predicate Within(paths: seq<Path>, segs: set<Segment>, cs: set<Curve>)
    reads paths
  {
    forall k :: 0 <= k < |paths| ==>
      && (forall s :: s in paths[k].segments ==> s in segs)
      && (forall c :: c in paths[k].curves ==> c in cs)
  }

  /** Between two edits: every path is right and looks as it should. */
  ghost predicate AllRight(paths: seq<Path>, ds: seq<Drawing>)
    reads *
  {
    |ds| == |paths| && forall k :: 0 <= k < |paths| ==> paths[k].Valid() && Seen(paths[k]) == ds[k]
  }

  /** The operation that an edit comes down to. */
  method Resolve(paths: seq<Path>, e: Edit, ghost ds: seq<Drawing>) returns (op: Op, bad: bool)
    requires AllRight(paths, ds) && InRange(ds, e)
    ensures e.Edit? ==> op == e.op
    ensures e.Share? ==> op.Insert? && forall s :: s in op.segs ==> s in paths[e.from].segments
    ensures InRange(ds, Edit(e.who, op)) && Edited(ds, Edit(e.who, op)) == Edited(ds, e)
    ensures bad == BadCut(ds[e.who], op) == Spoiling(ds, e)
  {
    hide PlacedFrom, Listed, Next, Inserted;
    SeenSize(paths[e.who]);
    match e {
      case Edit(who, o) =>
        op := o;
      case Share(who, from, lo, hi, index) =>
        SeenSize(paths[from]);
        op := Insert(paths[from].segments[lo..hi], index);
        InsertSeen(ds[who], op.segs, index);
        assert Points(op.segs) == ds[from].points[lo..hi];
    }
    var p := paths[e.who];
    bad := op.Remove? && p.cached && !p.closed && 0 < op.start < |p.segments| < op.end;
  }

  lemma InsertSeen(d: Drawing, segs: seq<Segment>, index: nat)
    requires index <= |d.points|
    ensures Next(d, Insert(segs, index)) == d.(points := Inserted(d.points, index, Points(segs)))
  {}

  method DrawNext(paths: seq<Path>, e: Edit, ghost others: set<Path>, ghost ds: seq<Drawing>,
                  ghost segs: set<Segment>, ghost cs: set<Curve>)
    returns (bad: bool, ghost segs': set<Segment>, ghost cs': set<Curve>)
    requires AllDifferent(paths) && AllRight(paths, ds) && InRange(ds, e)
    requires Within(paths, segs, cs) && GivenBy(e) <= segs
    requires forall k :: 0 <= k < |paths| ==> paths[k] !in others
    requires forall q :: q in others ==> q.Valid()
    modifies paths, segs, cs
    ensures bad == Spoiling(ds, e) && (!bad ==> AllRight(paths, Edited(ds, e)))
    ensures forall k :: 0 <= k < |paths| ==> paths[k].Placed() && Seen(paths[k]) == Edited(ds, e)[k]
    ensures bad ==> forall k :: 0 <= k < |paths| ==> (paths[k].Valid() <==> k != e.who)
    ensures Within(paths, segs', cs') && segs <= segs' && fresh(segs' - segs) && cs <= cs' && fresh(cs' - cs)
    ensures forall q :: q in others ==> q.Valid() && unchanged(q)
  {
    hide PlacedFrom, Listed, Next, Points, Edited, Spoiling, InRange;
    var op;
    op, bad := Resolve(paths, e, ds);
    WhoInRange(ds, e);
    assert Given(op) <= segs;
    var p := paths[e.who];
    PerformOn(paths, e.who, op, others, ds);
    segs' := segs + set s | s in p.segments;
    cs' := cs + set c | c in p.curves;
  }

  lemma WhoInRange(ds: seq<Drawing>, e: Edit)
    requires InRange(ds, e)
    ensures e.who < |ds| && (e.Share? ==> e.from < |ds|)
  {}

  method DrawAll(paths: seq<Path>, edits: seq<Edit>, ghost others: set<Path>) returns (done: nat)
    requires AllInRange(|paths|, edits) && AllDifferent(paths) && AllRight(paths, Drawn(|paths|, edits[..0]))
    requires Within(paths, {}, {}) && (forall k :: 0 <= k < |paths| ==> paths[k] !in others)
             && forall q :: q in others ==> q.Valid()
    modifies paths, AllGiven(edits)
    ensures done <= |edits| && Outcome(paths, edits, done)
    ensures forall q :: q in others ==> q.Valid() && unchanged(q)
  {
    hide PlacedFrom, Listed, Next, BadCut, Edited, Drawn, Spoils, Spoiling, Unspoilt, InRange, AllInRange, AllGiven;
    ghost var n := |paths|;
    done := 0;
    DrawnNone(n, edits);
    ghost var segs: set<Segment>, cs: set<Curve> := AllGiven(edits), {};
    while done < |edits|
      invariant done <= |edits| && AllRight(paths, Drawn(n, edits[..done])) && Unspoilt(n, edits, done)
      invariant forall q :: q in others ==> q.Valid() && unchanged(q)
      invariant Within(paths, segs, cs) && AllGiven(edits) <= segs && fresh(segs - AllGiven(edits)) && fresh(cs)
    {
      var e := edits[done];
      GivenAt(edits, done);
      DrawnNext(n, edits, done);
      var bad;
      bad, segs, cs := DrawNext(paths, e, others, Drawn(n, edits[..done]), segs, cs);
      done := done + 1;
      if bad {
        return;
      }
    }
  }

  /** What the edits done have made of the paths. */
  ghost predicate Outcome(paths: seq<Path>, edits: seq<Edit>, done: nat)
    requires done <= |edits|
    reads *
  {
    && (Unspoilt(|paths|, edits, |edits|) ==> done == |edits|)
    && (!Unspoilt(|paths|, edits, |edits|) ==> done > 0 && Spoils(|paths|, edits, done - 1))
    && forall k :: 0 <= k < |paths| ==>
         && paths[k].Placed() && Seen(paths[k]) == Drawn(|paths|, edits[..done])[k]
         && (paths[k].Valid() <==> Unspoilt(|paths|, edits, |edits|) || k != edits[done - 1].who)
  }

  /** Any sequence of inserts, removals, looks and open/close changes on n new paths, with segments of each other and
      of paths that were there before: until a bad cut every path looks as it should, each of its segments knows its
      place, and its curve list is the one that would be built from scratch. The bad cut, where the edits stop, spoils
      the list of its own path and nothing else, and the paths that were there before never change. */
  method Draw(n: nat, edits: seq<Edit>, ghost others: set<Path>) returns (paths: seq<Path>, done: nat)
    requires AllInRange(n, edits) && forall q :: q in others ==> q.Valid()
    modifies AllGiven(edits)
    ensures |paths| == n && fresh(paths) && done <= |edits| && Outcome(paths, edits, done)
    ensures forall q :: q in others ==> q.Valid() && unchanged(q)
  {
    hide PlacedFrom, Listed, Next, BadCut, Edited, Drawn, Spoils, Unspoilt, InRange, AllInRange, AllGiven, Outcome;
    paths := NewPaths(n);
    DrawnNone(n, edits);
    done := DrawAll(paths, edits, others);
  }
}
