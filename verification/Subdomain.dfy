/** The subdomain order on names: label by label, as text, and as an order. */
module Subdomain {
  import opened Names
  import opened Labels

  /** The labels of parent are the last labels of child, ignoring case. */
  ghost predicate Below(parent: Bytes, child: Bytes) {
    forall k :: 0 <= k < |Starts(parent)| ==> SameLabel(parent, child, k)
  }

  /** IsSubDomain, for every two texts. */
  method IsSubDomain(parent: Bytes, child: Bytes) returns (r: bool)
    ensures r <==> Below(parent, child)
  {
    var n := CompareDomainName(parent, child);
    var labels := CountLabel(parent);
    r := n == labels;
    NoLabel(parent, child, labels);
    hide SameLabel;
  }

  // ----- Folding ---------------------------------------------------------------------------------

  lemma FoldConcat(a: Bytes, b: Bytes)
    ensures Fold(a + b) == Fold(a) + Fold(b)
  {
  }

  lemma FoldSlice(s: Bytes, i: nat, j: nat)
    requires i <= j <= |s|
    ensures Fold(s[i..j]) == Fold(s)[i..j]
  {
  }

  lemma FoldTwice(s: Bytes)
    ensures Fold(Fold(s)) == Fold(s)
  {
  }

  /** Folding keeps dots and backslashes where they are. */
  lemma FoldMarks(a: Bytes, b: Bytes, i: nat)
    requires SameText(a, b) && i < |a|
    ensures |a| == |b| && (a[i] == DOT <==> b[i] == DOT) && (a[i] == BACKSLASH <==> b[i] == BACKSLASH)
  {
    assert Fold(a)[i] == Fold(b)[i];
  }

  lemma {:induction false} FoldQuoted(a: Bytes, b: Bytes, i: nat)
    requires SameText(a, b) && i <= |a|
    ensures |a| == |b| && Quoted(a, 0, i) == Quoted(b, 0, i)
  {
    assert |Fold(a)| == |Fold(b)|;
    if i > 0 {
      FoldMarks(a, b, i - 1);
      FoldQuoted(a, b, i - 1);
    }
  }

  lemma {:induction false} FoldAfter(a: Bytes, b: Bytes, n: nat)
    requires SameText(a, b)
    ensures After(a, n) == After(b, n)
  {
    assert |Fold(a)| == |Fold(b)|;
    if n > 0 {
      FoldAfter(a, b, n - 1);
      if n - 1 < |a| {
        FoldMarks(a, b, n - 1);
        FoldQuoted(a, b, n - 1);
      }
    }
  }

  /** Names that differ in case only have their labels at the same places. */
  lemma FoldStarts(a: Bytes, b: Bytes)
    requires SameText(a, b)
    ensures |a| == |b| && Starts(a) == Starts(b)
  {
    assert |Fold(a)| == |Fold(b)|;
    FoldAfter(a, b, |a|);
    if |a| == 1 {
      FoldMarks(a, b, 0);
    }
  }

  // ----- A suffix that begins at a label -------------------------------------------------------------

  function Shift(st: seq<nat>, off: nat): (r: seq<nat>)
    ensures |r| == |st| && forall i :: 0 <= i < |r| ==> r[i] == st[i] + off
  {
    seq(|st|, i requires 0 <= i < |st| => st[i] + off)
  }

  lemma {:induction false} SuffixQuoted(s: Bytes, off: nat, i: nat)
    requires off + i <= |s|
    ensures Quoted(s, off, off + i) == Quoted(s[off..], 0, i)
  {
    if i > 0 {
      SuffixQuoted(s, off, i - 1);
    }
  }

  lemma SuffixSeparator(s: Bytes, off: nat, i: nat)
    requires off <= |s| && (off > 0 ==> s[off - 1] != BACKSLASH)
    ensures Separator(s, 0, off + i) == Separator(s[off..], 0, i)
  {
    if off + i < |s| {
      SuffixQuoted(s, off, i);
      QuotedLocal(s, off, off + i);
    }
  }

  lemma {:induction false} SuffixAfter(s: Bytes, off: nat, n: nat)
    requires off <= |s| && (off > 0 ==> s[off - 1] != BACKSLASH)
    ensures After(s, off + n) == After(s, off) + Shift(After(s[off..], n), off)
  {
    if n > 0 {
      SuffixAfter(s, off, n - 1);
      SuffixSeparator(s, off, n - 1);
      var less := After(s[off..], n - 1);
      assert Shift(less + [n], off) == Shift(less, off) + [off + n];
    }
  }

  lemma Assemble(starts: seq<nat>, before: seq<nat>, off: nat, rest: seq<nat>, sub: seq<nat>)
    requires starts == [0] + ((before + [off]) + Shift(rest, off)) && sub == [0] + rest
    ensures starts == ([0] + before) + Shift(sub, off)
  {
    assert Shift(sub, off) == [off] + Shift(rest, off);
  }

  /** The starts before off. */
  function Earlier(s: Bytes, off: nat): seq<nat> {
    if off == 0 then [] else [0] + After(s, off - 1)
  }

  lemma SuffixStarts(s: Bytes, off: nat)
    requires IsStart(s, off) && s[off..] != [DOT]
    ensures Starts(s) == Earlier(s, off) + Shift(Starts(s[off..]), off)
  {
    if off == 0 {
      assert s[off..] == s;
      hide Starts;
    } else {
      LaterStarts(s, off);
    }
  }

  lemma LaterStarts(s: Bytes, off: nat)
    requires off > 0 && IsStart(s, off) && s[off..] != [DOT]
    ensures Starts(s) == [0] + After(s, off - 1) + Shift(Starts(s[off..]), off)
  {
    AfterAll(s, off);
    hide Separator, Shift, Cuts, After;
    Assemble(Starts(s), After(s, off - 1), off, After(s[off..], |s[off..]|), Starts(s[off..]));
  }

  lemma AfterAll(s: Bytes, off: nat)
    requires off > 0 && IsStart(s, off)
    ensures After(s, |s|) == (After(s, off - 1) + [off]) + Shift(After(s[off..], |s[off..]|), off)
  {
    SuffixAfter(s, off, |s[off..]|);
    assert off + |s[off..]| == |s|;
    hide Shift, Quoted;
  }

  // ----- Labels and text agree -------------------------------------------------------------------------

  /** Counted from the right, a suffix that begins at a label has the labels of the whole. */
  lemma StartInside(s: Bytes, off: nat)
    requires IsStart(s, off)
    ensures off <= |s|
  {}

  lemma SuffixChunk(s: Bytes, off: nat, k: nat)
    requires IsStart(s, off) && s[off..] != [DOT] && k < |Starts(s[off..])|
    ensures k < |Starts(s)| && FromRight(s, k) == FromRight(s[off..], k)
  {
    hide Starts, Earlier, Separator, Cuts, Chunk, Shift, Quoted;
    StartInside(s, off);
    SuffixStarts(s, off);
    ShiftedChunk(s, off, Starts(s), Earlier(s, off), Starts(s[off..]), k);
  }

  lemma ShiftedChunk(s: Bytes, off: nat, st: seq<nat>, e: seq<nat>, sub: seq<nat>, k: nat)
    requires off <= |s| && Cuts(s, st) && Cuts(s[off..], sub) && k < |sub| && st == e + Shift(sub, off)
    ensures k < |st| && Chunk(s, st, |st| - 1 - k) == Chunk(s[off..], sub, |sub| - 1 - k)
  {
    var i := |sub| - 1 - k;
    assert st[|e| + i] == sub[i] + off;
    var end := if k > 0 then sub[i + 1] else |s| - off;
    if k > 0 {
      assert st[|e| + i + 1] == sub[i + 1] + off;
    }
    assert s[sub[i] + off..end + off] == s[off..][sub[i]..end];
  }

  lemma SameChunk(a: Bytes, b: Bytes, k: nat)
    requires SameText(a, b) && k < |Starts(a)|
    ensures Starts(a) == Starts(b) && SameText(Chunk(a, Starts(a), k), Chunk(b, Starts(b), k))
  {
    FoldStarts(a, b);
    hide Starts;
    var st := Starts(a);
    var end := if k + 1 < |st| then st[k + 1] else |a|;
    FoldSlice(a, st[k], end);
    FoldSlice(b, st[k], end);
  }

  lemma NotRoot(a: Bytes, b: Bytes)
    requires SameText(a, b) && a != [DOT]
    ensures b != [DOT]
  {
    assert Fold(a) == [DOT] ==> FoldByte(a[0]) == DOT;
  }

  lemma TextBelow(parent: Bytes, child: Bytes, off: nat)
    requires parent != [DOT] && IsStart(child, off) && SameText(parent, child[off..])
    ensures Below(parent, child)
  {
    hide Starts, SameText, Separator, Chunk, Quoted;
    StartInside(child, off);
    NotRoot(parent, child[off..]);
    FoldStarts(parent, child[off..]);
    forall k | 0 <= k < |Starts(parent)| ensures SameLabel(parent, child, k) {
      SameChunk(parent, child[off..], |Starts(parent)| - 1 - k);
      SuffixChunk(child, off, k);
    }
  }

  /** The text of the last n labels. */
  function Tail(s: Bytes, n: nat): Bytes
    requires 0 < n <= |Starts(s)|
  {
    s[Starts(s)[|Starts(s)| - n]..]
  }

  lemma {:induction false} SameTails(a: Bytes, b: Bytes, n: nat)
    requires 0 < n <= |Starts(a)| && n <= |Starts(b)| && forall k :: 0 <= k < n ==> SameLabel(a, b, k)
    ensures SameText(Tail(a, n), Tail(b, n))
  {
    assert SameLabel(a, b, n - 1);
    if n == 1 {
      hide Starts, SameText;
      LastTail(a);
      LastTail(b);
    } else {
      SameTails(a, b, n - 1);
      TailStep(a, n);
      TailStep(b, n);
      hide Starts, SameText;
      SameConcat(Chunk(a, Starts(a), |Starts(a)| - n), Chunk(b, Starts(b), |Starts(b)| - n), Tail(a, n - 1),
        Tail(b, n - 1));
    }
  }

  lemma LastTail(s: Bytes)
    requires 0 < |Starts(s)|
    ensures Tail(s, 1) == Chunk(s, Starts(s), |Starts(s)| - 1)
  {
    hide Starts;
  }

  lemma TailStep(s: Bytes, n: nat)
    requires 1 < n <= |Starts(s)|
    ensures Tail(s, n) == Chunk(s, Starts(s), |Starts(s)| - n) + Tail(s, n - 1)
  {
    hide Starts;
  }

  lemma SameConcat(a: Bytes, b: Bytes, c: Bytes, d: Bytes)
    requires SameText(a, b) && SameText(c, d)
    ensures SameText(a + c, b + d)
  {
    FoldConcat(a, c);
    FoldConcat(b, d);
  }

  lemma BelowText(parent: Bytes, child: Bytes) returns (off: nat)
    requires parent != [DOT] && Below(parent, child)
    ensures IsStart(child, off) && SameText(parent, child[off..])
  {
    var n, m := |Starts(parent)|, |Starts(child)|;
    assert SameLabel(parent, child, n - 1);
    SameTails(parent, child, n);
    hide Starts, SameText, SameLabel;
    assert Tail(parent, n) == parent;
    off := Starts(child)[m - n];
    assert off in Starts(child);
    StartsElements(child, off);
  }

  /** A name other than the root is above exactly the names that end in its text at a label start. */
  lemma BelowIsSuffix(parent: Bytes, child: Bytes)
    requires parent != [DOT]
    ensures Below(parent, child) <==> exists off: nat :: IsStart(child, off) && SameText(parent, child[off..])
  {
    hide Starts, SameText, SameLabel;
    if Below(parent, child) {
      var off := BelowText(parent, child);
    }
    if off: nat :| IsStart(child, off) && SameText(parent, child[off..]) {
      TextBelow(parent, child, off);
    }
  }

  // ----- The order ------------------------------------------------------------------------------------

  lemma BelowReflexive(a: Bytes)
    ensures Below(a, a)
  {
  }

  lemma BelowTransitive(a: Bytes, b: Bytes, c: Bytes)
    requires Below(a, b) && Below(b, c)
    ensures Below(a, c)
  {
    forall k | 0 <= k < |Starts(a)| ensures SameLabel(a, c, k) {
      assert SameLabel(a, b, k) && SameLabel(b, c, k);
    }
  }

  /** Two names below each other differ in case only. */
  lemma BelowAntisymmetric(a: Bytes, b: Bytes)
    requires Below(a, b) && Below(b, a)
    ensures SameText(a, b)
  {
    var n, m := |Starts(a)|, |Starts(b)|;
    if n > 0 {
      assert SameLabel(a, b, n - 1);
    }
    if m > 0 {
      assert SameLabel(b, a, m - 1);
      SameTails(a, b, n);
      assert Tail(a, n) == a && Tail(b, n) == b;
    }
  }

  // ----- The presentation form ---------------------------------------------------------------------

  /** Inside an escaped label nothing separates, and what follows it is not quoted. */
  lemma {:induction false} EscapeQuiet(l: Label, t: Bytes, i: nat)
    requires i <= |Escape(l)|
    ensures i < |Escape(l)| ==> !Separator(Escape(l) + t, 0, i)
    ensures i == |Escape(l)| ==> !Quoted(Escape(l) + t, 0, i)
    decreases |l|
  {
    if l != [] {
      var front, e := Escape(l[..|l| - 1]), EscapeByte(l[|l| - 1]);
      SeqAssoc(front, e, t);
      if i < |front| {
        EscapeQuiet(l[..|l| - 1], e + t, i);
      } else {
        EscapeQuiet(l[..|l| - 1], e + t, |front|);
        ByteQuiet(front, l[|l| - 1], t, i);
      }
    }
  }

  lemma ByteQuiet(front: Bytes, b: byte, t: Bytes, i: nat)
    requires |front| <= i <= |front| + |EscapeByte(b)|
    requires !Quoted(front + (EscapeByte(b) + t), 0, |front|)
    ensures var s := front + (EscapeByte(b) + t);
            if i < |front| + |EscapeByte(b)| then !Separator(s, 0, i) else !Quoted(s, 0, i)
  {
    var s, n := front + (EscapeByte(b) + t), |front|;
    assert forall k :: 0 <= k < |EscapeByte(b)| ==> s[n + k] == EscapeByte(b)[k];
    if Special(b) {
      assert s[n] == BACKSLASH && s[n + 1] == b;
      assert Quoted(s, 0, n + 1);
    }
  }

  lemma {:induction false} AfterNone(s: Bytes, n: nat)
    requires forall i :: 0 <= i < n ==> !Separator(s, 0, i)
    ensures After(s, n) == []
  {
    if n > 0 {
      AfterNone(s, n - 1);
    }
  }

  lemma {:induction false} TextLong(name: Domain)
    requires Valid(name) && name.Sub?
    ensures |Text(name)| >= 2 && |Escape(name.leaf)| > 0
  {
    var l := name.leaf;
    assert |EscapeByte(l[|l| - 1])| >= 1;
    assert |Escape(l)| >= 1;
  }

  /** The text of a name has a label start for each of its labels: after the first, those of its parent. */
  lemma PresentStarts(name: Domain)
    requires Valid(name) && name.Sub?
    ensures var off := |Escape(name.leaf)| + 1;
            Starts(Text(name)) == [0] + if name.parent.Root? then [] else Shift(Starts(Text(name.parent)), off)
  {
    hide Text, Starts, After, Quoted, Escape, Shift, Valid, Short;
    TextShape(name);
    var e, p := Escape(name.leaf), Text(name.parent);
    LeafQuiet(name.leaf, [DOT] + p);
    FirstStart(e, p, Text(name));
  }

  lemma TextShape(name: Domain)
    requires Valid(name) && name.Sub?
    ensures var e, p := Escape(name.leaf), Text(name.parent);
            Text(name) == e + ([DOT] + p) && |e| > 0 && |p| != 1 && (p == [] <==> name.parent.Root?)
  {
    hide Escape, Short;
    TextLong(name);
    if name.parent.Sub? {
      TextLong(name.parent);
    }
  }

  lemma LeafQuiet(l: Label, t: Bytes)
    ensures After(Escape(l) + t, |Escape(l)|) == [] && !Quoted(Escape(l) + t, 0, |Escape(l)|)
  {
    forall i | 0 <= i < |Escape(l)| ensures !Separator(Escape(l) + t, 0, i) {
      EscapeQuiet(l, t, i);
    }
    EscapeQuiet(l, t, |Escape(l)|);
    AfterNone(Escape(l) + t, |Escape(l)|);
  }

  lemma FirstStart(e: Bytes, p: Bytes, s: Bytes)
    requires s == e + ([DOT] + p) && |e| > 0 && |p| != 1
    requires After(s, |e|) == [] && !Quoted(s, 0, |e|)
    ensures Starts(s) == [0] + if p == [] then [] else Shift(Starts(p), |e| + 1)
  {
    assert s[|e|] == DOT && s[|e| + 1..] == p;
    if p != [] {
      OnlyEarlier(s, |e| + 1);
    } else {
      assert !Separator(s, 0, |e|);
    }
  }

  lemma OnlyEarlier(s: Bytes, off: nat)
    requires 0 < off < |s| - 1 && s[off - 1] == DOT && !Quoted(s, 0, off - 1) && After(s, off - 1) == []
    ensures Starts(s) == [0] + Shift(Starts(s[off..]), off)
  {
    SuffixStarts(s, off);
    assert Earlier(s, off) == [0];
    hide Starts, Shift, Earlier;
  }

  /** CountLabel of a presented name is the number of its labels, whatever octets they hold. */
  lemma {:induction false} PresentLabels(name: Domain)
    requires Valid(name)
    ensures |Starts(Present(name))| == LabelCount(name)
  {
    if name.Sub? {
      PresentStarts(name);
      PresentLabels(name.parent);
    }
  }
}
