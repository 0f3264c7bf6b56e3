/** The curve list of a path, as values: what it must be, and what the path's operations do to it. */
module Curves {
  /** The two ends of a curve. */
  datatype Ends<T> = Ends(first: T, second: T)

  function Count(n: nat, closed: bool): nat {
    if !closed && n > 0 then n - 1 else n
  }

  /** The segment after i, around the end. */
  function After<T>(s: seq<T>, i: nat): T
    requires i < |s|
  {
    if i + 1 < |s| then s[i + 1] else s[0]
  }

  /** The list getCurves builds from scratch. */
  function Rebuilt<T>(s: seq<T>, closed: bool): (c: seq<Ends<T>>)
    ensures |c| == Count(|s|, closed) && forall i :: 0 <= i < |c| ==> c[i] == Ends(s[i], After(s, i))
  {
    seq(Count(|s|, closed), i requires 0 <= i < Count(|s|, closed) => Ends(s[i], After(s, i)))
  }

  /** One curve per segment, or one fewer in an open path; each joins a segment to the next one around the path. */
  lemma Joined<T>(s: seq<T>, closed: bool)
    ensures |Rebuilt(s, closed)| == if closed || s == [] then |s| else |s| - 1
    ensures forall i :: 0 <= i < |Rebuilt(s, closed)| ==> Rebuilt(s, closed)[i] == Ends(s[i], s[(i + 1) % |s|])
  {
    forall i | 0 <= i < |Rebuilt(s, closed)| ensures Rebuilt(s, closed)[i] == Ends(s[i], s[(i + 1) % |s|]) {
      assert (i + 1) % |s| == if i + 1 == |s| then 0 else i + 1;
    }
  }

  /** The curve before the first one adjusted: around the end in a closed path. */
  function Before(n: nat, closed: bool, start: nat): int {
    if closed && start == 0 then n - 1 else start - 1
  }

  function FirstOrStart<T>(s: seq<T>, i: nat): T
    requires s != []
  {
    if i < |s| then s[i] else s[0]
  }

  /** _adjustCurves on the list: curves start to end are set from the segments, and their neighbours are
      made to meet them. */
  function Adjusted<T>(c: seq<Ends<T>>, s: seq<T>, closed: bool, start: nat, end: nat): (r: seq<Ends<T>>)
    requires c != [] ==> s != []
    requires start <= end <= |c| <= |s|
    ensures |r| == |c|
    ensures forall i :: 0 <= i < |c| ==> r[i] == AdjustedAt(c, s, closed, start, end, i)
  {
    seq(|c|, i requires 0 <= i < |c| => AdjustedAt(c, s, closed, start, end, i))
  }

  function AdjustedAt<T>(c: seq<Ends<T>>, s: seq<T>, closed: bool, start: nat, end: nat, i: nat): Ends<T>
    requires i < |c| <= |s|
  {
    Ends(if start <= i <= end then s[i] else c[i].first,
         if i == Before(|s|, closed, start) then FirstOrStart(s, start)
         else if start <= i < end then After(s, i) else c[i].second)
  }

  // ----- Inserting -----------------------------------------------------------------------------------

  function Inserted<T>(s: seq<T>, index: nat, more: seq<T>): (r: seq<T>)
    requires index <= |s|
    ensures |r| == |s| + |more|
  {
    s[..index] + more + s[index..]
  }

  lemma InsertedAt<T>(s: seq<T>, index: nat, more: seq<T>, i: nat)
    requires index <= |s| && i < |s| + |more|
    ensures Inserted(s, index, more)[i] ==
            if i < index then s[i] else if i < index + |more| then more[i - index] else s[i - |more|]
  {
  }

  lemma InsertedFront<T>(s: seq<T>, index: nat, more: seq<T>)
    requires index <= |s|
    ensures forall i :: 0 <= i < index ==> Inserted(s, index, more)[i] == s[i]
  {
  }

  /** Where _add begins to insert curves, and where it ends. */
  function StartOf(n: nat, closed: bool, index: nat, amount: nat): nat {
    if index > 0 && index + amount - 1 == Count(n + amount, closed) then index - 1 else index
  }

  function EndOf(n: nat, closed: bool, index: nat, amount: nat): nat {
    var start, total := StartOf(n, closed, index, amount), Count(n + amount, closed);
    if start + amount < total then start + amount else total
  }

  /** Curves are inserted where the segments are, but before the end of an open path; an open path that was
      empty gets one curve fewer. */
  lemma InsertPlaces(n: nat, closed: bool, index: nat, amount: nat)
    requires index <= n
    ensures var start, end := StartOf(n, closed, index, amount), EndOf(n, closed, index, amount);
            var total := Count(n + amount, closed);
            && start <= Count(n, closed) && start <= end <= total && end - start == total - Count(n, closed)
            && (closed || index < n ==> start == index && end == index + amount)
            && (!closed && 0 < index == n ==> start == n - 1 && end == total)
            && (!closed && n == 0 ==> start == 0 && end == total)
  {
  }

  /** A curve before the new ones. */
  lemma AdjustBefore<T>(s: seq<T>, t: seq<T>, c: seq<Ends<T>>, closed: bool, start: nat, end: nat, i: nat)
    requires i < start <= end <= |c| <= |t| && start <= |s|
    requires c[i] == Ends(s[i], After(s, i)) && forall k :: 0 <= k < start && k < |t| ==> t[k] == s[k]
    requires i + 1 < start ==> start <= |t|
    ensures AdjustedAt(c, t, closed, start, end, i) == Ends(t[i], After(t, i))
  {
  }

  /** A new curve. */
  lemma AdjustWithin<T>(t: seq<T>, c: seq<Ends<T>>, closed: bool, start: nat, end: nat, i: nat)
    requires start <= i < end <= |c| <= |t|
    ensures AdjustedAt(c, t, closed, start, end, i) == Ends(t[i], After(t, i))
  {
  }

  /** A curve after the new ones: its segments have moved by some amount. */
  lemma AdjustBehind<T>(s: seq<T>, t: seq<T>, c: seq<Ends<T>>, closed: bool, start: nat, end: nat, i: nat, k: nat)
    requires start <= end <= i < |c| <= |t| && k < |s| && |t| - i == |s| - k
    requires c[i] == Ends(s[k], After(s, k)) && s[k] == t[i] && (k + 1 < |s| ==> s[k + 1] == t[i + 1])
    requires i + 1 == |t| ==> closed && (start > 0 ==> s[0] == t[0])
    ensures AdjustedAt(c, t, closed, start, end, i) == Ends(t[i], After(t, i))
  {
  }

  lemma InsertBehind<T>(s: seq<T>, closed: bool, index: nat, more: seq<T>, c: seq<Ends<T>>, blank: seq<Ends<T>>, i: nat)
    requires index <= |c| <= |s| && c == Rebuilt(s, closed) && |blank| == |more|
    requires index + |more| <= i < |c| + |blank|
    ensures var t := Inserted(s, index, more);
            AdjustedAt(Inserted(c, index, blank), t, closed, index, index + |more|, i) == Ends(t[i], After(t, i))
  {
    hide AdjustedAt, Inserted;
    var t, room, k := Inserted(s, index, more), Inserted(c, index, blank), i - |more|;
    InsertedAt(c, index, blank, i);
    InsertedAt(s, index, more, i);
    InsertedAt(s, index, more, 0);
    if i + 1 < |t| {
      InsertedAt(s, index, more, i + 1);
      assert k + 1 < |s| && s[k + 1] == t[i + 1];
    }
    assert room[i] == c[k] == Ends(s[k], After(s, k)) && s[k] == t[i];
    AdjustBehind(s, t, room, closed, index, index + |more|, i, k);
  }

  lemma InsertAt<T>(s: seq<T>, closed: bool, index: nat, more: seq<T>, c: seq<Ends<T>>, blank: seq<Ends<T>>,
                    start: nat, end: nat, i: nat)
    requires index <= |s| && c == Rebuilt(s, closed) && |blank| == end - start
    requires start == StartOf(|s|, closed, index, |more|) && end == EndOf(|s|, closed, index, |more|)
    requires start <= |c| && i < Count(|s| + |more|, closed) == |c| + |blank| && start <= end <= |c| + |blank|
    ensures var t := Inserted(s, index, more);
            AdjustedAt(Inserted(c, start, blank), t, closed, start, end, i) == Ends(t[i], After(t, i))
  {
    InsertPlaces(|s|, closed, index, |more|);
    var t, room := Inserted(s, index, more), Inserted(c, start, blank);
    hide StartOf, EndOf, Inserted, AdjustedAt;
    if i < start {
      InsertedAt(c, start, blank, i);
      InsertedFront(s, index, more);
      AdjustBefore(s, t, room, closed, start, end, i);
    } else if i < end {
      AdjustWithin(t, room, closed, start, end, i);
    } else {
      InsertBehind(s, closed, index, more, c, blank, i);
    }
  }

  /** Inserting segments, making room for that many curves and adjusting gives the list for the new segments,
      whatever the new curves hold at first. */
  lemma InsertKeeps<T>(s: seq<T>, closed: bool, index: nat, more: seq<T>, blank: seq<Ends<T>>)
    requires index <= |s|
    requires |blank| == Count(|s| + |more|, closed) - Count(|s|, closed)
    ensures var start, end := StartOf(|s|, closed, index, |more|), EndOf(|s|, closed, index, |more|);
            var c, t := Rebuilt(s, closed), Inserted(s, index, more);
            && start <= |c| && start <= end <= Count(|t|, closed) == |c| + |blank| <= |t|
            && Adjusted(Inserted(c, start, blank), t, closed, start, end) == Rebuilt(t, closed)
  {
    InsertPlaces(|s|, closed, index, |more|);
    var start, end := StartOf(|s|, closed, index, |more|), EndOf(|s|, closed, index, |more|);
    var c, t := Rebuilt(s, closed), Inserted(s, index, more);
    var next := Adjusted(Inserted(c, start, blank), t, closed, start, end);
    forall i | 0 <= i < |next| ensures next[i] == Rebuilt(t, closed)[i] {
      InsertAt(s, closed, index, more, c, blank, start, end, i);
    }
    hide AdjustedAt, Inserted, StartOf, EndOf;
  }

  // ----- Removing ------------------------------------------------------------------------------------

  /** splice: amount items from start on, or as many as there are. */
  function Removed<T>(s: seq<T>, start: nat, amount: nat): (r: seq<T>)
    requires start <= |s|
    ensures |r| == if start + amount <= |s| then |s| - amount else start
  {
    s[..start] + if start + amount <= |s| then s[start + amount..] else []
  }

  lemma RemovedAt<T>(s: seq<T>, start: nat, amount: nat, i: nat)
    requires start <= |s| && i < |Removed(s, start, amount)|
    ensures if i < start then Removed(s, start, amount)[i] == s[i]
            else i + amount < |s| && Removed(s, start, amount)[i] == s[i + amount]
  {
  }

  lemma RemovedFront<T>(s: seq<T>, start: nat, amount: nat)
    requires start <= |s|
    ensures forall i :: 0 <= i < start ==> Removed(s, start, amount)[i] == s[i]
  {
  }

  /** Where removeSegments begins to remove curves. */
  function CutAt(n: nat, closed: bool, start: nat, end: nat): nat {
    if start > 0 && end == n + (if closed then 1 else 0) then start - 1 else start
  }

  lemma RemovePlaces(n: nat, closed: bool, start: nat, end: nat)
    requires start < end <= n
    ensures var at, c, left := CutAt(n, closed, start, end), Count(n, closed), Count(n - (end - start), closed);
            && at <= c && at <= left && (at < left ==> at == start)
            && left == if at + (end - start) <= c then c - (end - start) else at
  {
  }

  lemma RemoveBefore<T>(s: seq<T>, closed: bool, start: nat, amount: nat, c: seq<Ends<T>>, at: nat, i: nat)
    requires start + amount <= |s| && c == Rebuilt(s, closed) && i < at <= start && at <= |c| <= |s|
    requires at <= |Removed(c, at, amount)| <= |Removed(s, start, amount)|
    ensures var t, cut := Removed(s, start, amount), Removed(c, at, amount);
            AdjustedAt(cut, t, closed, at, at, i) == Ends(t[i], After(t, i))
  {
    hide AdjustedAt, Removed;
    RemovedFront(c, at, amount);
    RemovedFront(s, start, amount);
    AdjustBefore(s, Removed(s, start, amount), Removed(c, at, amount), closed, at, at, i);
  }

  lemma RemoveBehind<T>(s: seq<T>, closed: bool, start: nat, amount: nat, c: seq<Ends<T>>, i: nat)
    requires start + amount <= |s| && c == Rebuilt(s, closed) && start <= i && i + amount < |c|
    ensures var t, cut := Removed(s, start, amount), Removed(c, start, amount);
            && i < |cut| <= |t| && AdjustedAt(cut, t, closed, start, start, i) == Ends(t[i], After(t, i))
  {
    hide AdjustedAt, Removed;
    var t, cut, k := Removed(s, start, amount), Removed(c, start, amount), i + amount;
    RemovedAt(c, start, amount, i);
    RemovedAt(s, start, amount, i);
    RemovedAt(s, start, amount, 0);
    if i + 1 < |t| {
      RemovedAt(s, start, amount, i + 1);
    }
    assert cut[i] == c[k] == Ends(s[k], After(s, k)) && s[k] == t[i];
    AdjustBehind(s, t, cut, closed, start, start, i, k);
  }

  /** Removing segments in range, taking as many curves out and adjusting gives the list for what is left. */
  lemma RemoveKeeps<T>(s: seq<T>, closed: bool, start: nat, end: nat)
    requires start < end <= |s|
    ensures var c, t, at := Rebuilt(s, closed), Removed(s, start, end - start), CutAt(|s|, closed, start, end);
            && at <= |c| && at <= |Removed(c, at, end - start)| == Count(|t|, closed)
            && Adjusted(Removed(c, at, end - start), t, closed, at, at) == Rebuilt(t, closed)
  {
    var c, t, at := Rebuilt(s, closed), Removed(s, start, end - start), CutAt(|s|, closed, start, end);
    RemovePlaces(|s|, closed, start, end);
    assert at <= start;
    hide AdjustedAt, Removed, CutAt;
    var cut := Removed(c, at, end - start);
    forall i | 0 <= i < |cut| ensures AdjustedAt(cut, t, closed, at, at, i) == Ends(t[i], After(t, i)) {
      if i < at {
        RemoveBefore(s, closed, start, end - start, c, at, i);
      } else {
        RemoveBehind(s, closed, start, end - start, c, i);
      }
    }
  }

  /** With an end beyond the last segment the list comes out right exactly in a closed path, or when all is
      removed: an open path keeps a curve too many. */
  lemma RemoveBeyond<T>(s: seq<T>, closed: bool, start: nat, end: nat)
    requires start < |s| < end
    ensures var c, t, at, amount := Rebuilt(s, closed), s[..start], CutAt(|s|, closed, start, end), |s| - start;
            && t == Removed(s, start, amount) && at <= |c| && at <= |Removed(c, at, amount)| <= |t|
            && (Adjusted(Removed(c, at, amount), t, closed, at, at) == Rebuilt(t, closed) <==> closed || start == 0)
  {
    var c, t, at, amount := Rebuilt(s, closed), s[..start], CutAt(|s|, closed, start, end), |s| - start;
    var cut := Removed(c, at, amount);
    if closed && start > 0 {
      hide Removed, AdjustedAt;
      forall i | 0 <= i < |cut| ensures AdjustedAt(cut, t, closed, at, at, i) == Ends(t[i], After(t, i)) {
        BeyondAt(s, start, c, at, i);
      }
    }
  }

  lemma BeyondAt<T>(s: seq<T>, start: nat, c: seq<Ends<T>>, at: nat, i: nat)
    requires 0 < start < |s| && c == Rebuilt(s, true) && start - 1 <= at <= start && i < start
    ensures AdjustedAt(Removed(c, at, |s| - start), s[..start], true, at, at, i) == Ends(s[i], After(s[..start], i))
  {
    var t, cut := s[..start], Removed(c, at, |s| - start);
    RemovedAt(c, at, |s| - start, i);
    hide Removed;
    if i < at {
      hide AdjustedAt;
      AdjustBefore(s, t, cut, true, at, at, i);
    }
  }

  /** Two segments, the second removed with a range that ends beyond it: one curve stays where there is none. */
  lemma BeyondExample()
    ensures var c, t := Rebuilt([1, 2], false), [1];
            CutAt(2, false, 1, 3) == 1
              && Adjusted(Removed(c, 1, 1), t, false, 1, 1) == [Ends(1, 1)] != Rebuilt(t, false)
  {
    assert Rebuilt([1, 2], false) == [Ends(1, 2)];
    assert Removed([Ends(1, 2)], 1, 1) == [Ends(1, 2)];
  }

  /** Closing adds the curve from the last segment to the first; opening takes it away. */
  lemma CloseKeeps<T>(s: seq<T>)
    ensures s != [] ==> Rebuilt(s, true) == Rebuilt(s, false) + [Ends(s[|s| - 1], s[0])]
    ensures Rebuilt(s, false) == Rebuilt(s, true)[..Count(|s|, false)]
  {
  }
}
