/** Label positions in domain name texts, and the order they induce on names. */
module Labels {
  import opened Names

  // ----- Where labels start --------------------------------------------------------------------

  /** Reading from `from`, the byte at i follows an active backslash. */
  predicate Quoted(s: Bytes, from: nat, i: nat)
    requires i <= |s|
    decreases i
  {
    i > from && s[i - 1] == BACKSLASH && !Quoted(s, from, i - 1)
  }

  /** A byte is quoted exactly when an odd number of backslashes stands right before it. */
  lemma {:induction false} QuotedByRun(s: Bytes, from: nat, i: nat, n: nat)
    requires from + n <= i <= |s| && (forall k :: i - n <= k < i ==> s[k] == 92)
    requires i == from + n || s[i - n - 1] != 92
    ensures Quoted(s, from, i) <==> n % 2 == 1
    decreases n
  {
    if n > 0 {
      QuotedByRun(s, from, i - 1, n - 1);
    }
  }

  /** Reading from `from`, the byte at i is a dot that ends a label with more text to follow. */
  predicate Separator(s: Bytes, from: nat, i: nat) {
    i < |s| - 1 && s[i] == DOT && !Quoted(s, from, i)
  }

  /** NextLabel, for any text and offset: the position after the first separator at or after the offset. */
  method NextLabel(s: Bytes, offset: nat) returns (i: nat, end: bool)
    ensures !end ==> offset < i < |s| && Separator(s, offset, i - 1)
    ensures !end ==> forall k :: offset <= k < i - 1 ==> !Separator(s, offset, k)
    ensures end ==>
              i == (if offset < |s| - 1 then |s| else offset + 1)
              && forall k :: offset <= k ==> !Separator(s, offset, k)
  {
    var quote := false;
    i := offset;
    while i < |s| - 1
      invariant offset <= i && (i <= |s| - 1 || i == offset)
      invariant i <= |s| ==> quote == Quoted(s, offset, i)
      invariant forall k :: offset <= k < i ==> !Separator(s, offset, k)
    {
      if s[i] == BACKSLASH {
        quote := !quote;
      } else if s[i] == DOT {
        if !quote {
          return i + 1, false;
        }
        quote := !quote;
      } else {
        quote := false;
      }
      i := i + 1;
    }
    return i + 1, true;
  }

  /** The positions after separators among the first n bytes, in order. */
  function After(s: Bytes, n: nat): seq<nat> {
    if n == 0 then [] else if Separator(s, 0, n - 1) then After(s, n - 1) + [n] else After(s, n - 1)
  }

  /** st begins at 0, increases and stays inside s. */
  predicate Cuts(s: Bytes, st: seq<nat>) {
    && (forall k :: 0 <= k < |st| ==> st[k] <= |s| && (k > 0 ==> st[k] < |s|))
    && (forall j, k :: 0 <= j < k < |st| ==> st[j] < st[k])
    && (st != [] ==> st[0] == 0)
  }

  lemma {:induction false} AfterBounds(s: Bytes, n: nat)
    ensures forall k :: 0 <= k < |After(s, n)| ==> 0 < After(s, n)[k] <= n && After(s, n)[k] < |s|
    ensures forall j, k :: 0 <= j < k < |After(s, n)| ==> After(s, n)[j] < After(s, n)[k]
  {
    if n > 0 {
      AfterBounds(s, n - 1);
    }
  }

  /** Where the labels of s start; the root name has none. */
  function Starts(s: Bytes): (st: seq<nat>)
    ensures Cuts(s, st)
    ensures st == [] <==> s == [DOT]
  {
    AfterBounds(s, |s|);
    if s == [DOT] then [] else [0] + After(s, |s|)
  }

  /** Quoting read from a label start is quoting read from the beginning. */
  lemma {:induction false} QuotedLocal(s: Bytes, from: nat, i: nat)
    requires from <= i <= |s| && (from > 0 ==> s[from - 1] != BACKSLASH)
    ensures Quoted(s, from, i) == Quoted(s, 0, i)
    decreases i
  {
    if i > from {
      QuotedLocal(s, from, i - 1);
    }
  }

  /** Without separators in between nothing is added. */
  lemma {:induction false} AfterSkips(s: Bytes, off: nat, i: nat)
    requires off <= i && (off > 0 ==> off <= |s| && s[off - 1] != BACKSLASH)
    requires forall k :: off <= k < i ==> !Separator(s, off, k)
    ensures After(s, i) == After(s, off)
    decreases i
  {
    if i > off {
      AfterSkips(s, off, i - 1);
      if i - 1 < |s| {
        QuotedLocal(s, off, i - 1);
      }
      assert !Separator(s, off, i - 1);
    }
  }

  lemma AfterNext(s: Bytes, off: nat, i: nat)
    requires off < i < |s| && (off > 0 ==> s[off - 1] != BACKSLASH)
    requires Separator(s, off, i - 1) && forall k :: off <= k < i - 1 ==> !Separator(s, off, k)
    ensures After(s, i) == After(s, off) + [i] && s[i - 1] != BACKSLASH
  {
    AfterSkips(s, off, i - 1);
    QuotedLocal(s, off, i - 1);
  }

  lemma AfterEnd(s: Bytes, off: nat)
    requires off <= |s| && (off > 0 ==> s[off - 1] != BACKSLASH)
    requires forall k :: off <= k ==> !Separator(s, off, k)
    ensures After(s, |s|) == After(s, off)
  {
    AfterSkips(s, off, |s|);
  }

  /** Split returns the label starts. */
  method Split(s: Bytes) returns (idx: seq<nat>)
    ensures idx == Starts(s)
  {
    if s == [DOT] {
      return [];
    }
    idx := [0];
    var off, end := 0, false;
    while true
      invariant off <= |s| && idx == [0] + After(s, off) && (off > 0 ==> s[off - 1] != BACKSLASH)
      decreases |s| - off
    {
      var next;
      next, end := NextLabel(s, off);
      if end {
        AfterEnd(s, off);
        return;
      }
      AfterNext(s, off, next);
      off := next;
      idx := idx + [off];
    }
  }

  /** CountLabel returns how many there are, for every text. */
  method CountLabel(s: Bytes) returns (labels: nat)
    ensures labels == |Starts(s)|
  {
    if s == [DOT] {
      return 0;
    }
    labels := 0;
    var off, end := 0, false;
    while true
      invariant off <= |s| && labels == |After(s, off)| && (off > 0 ==> s[off - 1] != BACKSLASH)
      decreases |s| - off
    {
      var next;
      next, end := NextLabel(s, off);
      labels := labels + 1;
      if end {
        AfterEnd(s, off);
        return;
      }
      AfterNext(s, off, next);
      off := next;
    }
  }

  // ----- The labels themselves -------------------------------------------------------------------

  lemma {:induction false} AfterElements(s: Bytes, n: nat, p: nat)
    ensures p in After(s, n) <==> 0 < p <= n && Separator(s, 0, p - 1)
  {
    if n > 0 {
      AfterElements(s, n - 1, p);
    }
  }

  /** A label starts at the beginning and after every separator. */
  predicate IsStart(s: Bytes, p: nat) {
    s != [DOT] && (p == 0 || Separator(s, 0, p - 1))
  }

  lemma StartsElements(s: Bytes, p: nat)
    ensures p in Starts(s) <==> IsStart(s, p)
  {
    AfterElements(s, |s|, p);
  }

  /** Label k with the dot that follows it, for a text cut at st. */
  function Chunk(s: Bytes, st: seq<nat>, k: nat): Bytes
    requires Cuts(s, st) && k < |st|
  {
    s[st[k]..if k + 1 < |st| then st[k + 1] else |s|]
  }

  function Join(labels: seq<Bytes>): Bytes {
    if labels == [] then [] else if |labels| == 1 then labels[0]
    else Join(labels[..|labels| - 1]) + [DOT] + labels[|labels| - 1]
  }

  /** Where label k of the text ends: at the dot before the next one, the last at the final dot. */
  function LabelEnd(s: Bytes, k: nat): int
    requires k < |Starts(s)|
  {
    if k + 1 < |Starts(s)| then Starts(s)[k + 1] - 1 else if s != [] && s[|s| - 1] == DOT then |s| - 1 else |s|
  }

  ghost predicate IsLabel(s: Bytes, k: nat, l: Bytes) {
    k < |Starts(s)| && Starts(s)[k] <= LabelEnd(s, k) <= |s| && l == s[Starts(s)[k]..LabelEnd(s, k)]
  }

  /** SplitDomainName cuts the text at the label starts and drops the dots; joining with dots rebuilds it up
      to its final dot. The empty and the root name have no labels. */
  method SplitDomainName(s: Bytes) returns (labels: seq<Bytes>)
    ensures s == [] || s == [DOT] ==> labels == []
    ensures s != [] ==> |labels| == |Starts(s)|
    ensures forall k :: 0 <= k < |labels| ==> IsLabel(s, k, labels[k])
    ensures s != [] && s != [DOT] ==> Join(labels) == if s[|s| - 1] == DOT then s[..|s| - 1] else s
  {
    hide Starts, Join, IsLabel, Rebuilt, Cuts;
    if |s| == 0 {
      return [];
    }
    var idx := Split(s);
    var fqdnEnd := if s[|s| - 1] == DOT then |s| - 1 else |s|;
    if |idx| == 0 {
      NoStarts(s);
      return [];
    }
    var begin;
    labels, begin := CutLabels(s, idx);
    LastLabelEnd(s);
    JoinNext(s, labels, begin, fqdnEnd);
    LabelCut(s, |idx| - 1);
    labels := labels + [s[begin..fqdnEnd]];
    assert s[..|s|] == s;
  }

  /** Only the root has no label start. */
  lemma NoStarts(s: Bytes)
    ensures Starts(s) == [] <==> s == [DOT]
  {}

  lemma LastLabelEnd(s: Bytes)
    requires s != [] && Starts(s) != []
    ensures s != [DOT] && Starts(s)[|Starts(s)| - 1] <= LabelEnd(s, |Starts(s)| - 1) <= |s|
  {
    var p := Starts(s)[|Starts(s)| - 1];
    assert p in Starts(s);
    StartsElements(s, p);
  }

  lemma LabelCut(s: Bytes, k: nat)
    requires k < |Starts(s)| && Starts(s)[k] <= LabelEnd(s, k) <= |s|
    ensures IsLabel(s, k, s[Starts(s)[k]..LabelEnd(s, k)])
  {}

  /** The loop of SplitDomainName: all labels but the last, and where the last begins. */
  method CutLabels(s: Bytes, idx: seq<nat>) returns (labels: seq<Bytes>, begin: nat)
    requires idx == Starts(s) && idx != []
    ensures |labels| == |idx| - 1 && begin == idx[|idx| - 1] && Rebuilt(s, labels, begin)
    ensures forall k :: 0 <= k < |labels| ==> IsLabel(s, k, labels[k])
  {
    hide Starts, Join, IsLabel, Rebuilt, Cuts, LabelEnd;
    FirstLabel(s);
    labels, begin := [], 0;
    for i := 1 to |idx|
      invariant |labels| == i - 1 && begin == idx[i - 1] && Rebuilt(s, labels, begin)
      invariant forall k :: 0 <= k < |labels| ==> IsLabel(s, k, labels[k])
    {
      var end := idx[i];
      NextCut(s, labels, i);
      labels := labels + [s[begin..end - 1]];
      begin := end;
    }
  }

  lemma FirstLabel(s: Bytes)
    requires Starts(s) != []
    ensures Starts(s)[0] == 0 && Rebuilt(s, [], 0)
  {}

  /** Cutting off the label before start i. */
  lemma NextCut(s: Bytes, labels: seq<Bytes>, i: nat)
    requires 0 < i < |Starts(s)| && Rebuilt(s, labels, Starts(s)[i - 1])
    ensures var begin, end := Starts(s)[i - 1], Starts(s)[i];
            && begin < end <= |s| && IsLabel(s, i - 1, s[begin..end - 1])
            && Rebuilt(s, labels + [s[begin..end - 1]], end)
  {
    hide Starts, Join;
    DotBefore(s, i);
    JoinNext(s, labels, Starts(s)[i - 1], Starts(s)[i] - 1);
  }

  /** The labels so far, joined and followed by a dot, are the text before begin. */
  predicate Rebuilt(s: Bytes, labels: seq<Bytes>, begin: nat) {
    if labels == [] then begin == 0
    else 0 < begin <= |s| && s[begin - 1] == DOT && Join(labels) == s[..begin - 1]
  }

  lemma DotBefore(s: Bytes, k: nat)
    requires 0 < k < |Starts(s)|
    ensures 0 < Starts(s)[k] < |s| && s[Starts(s)[k] - 1] == DOT
  {
    var p := Starts(s)[k];
    assert p in Starts(s);
    StartsElements(s, p);
  }

  lemma JoinNext(s: Bytes, labels: seq<Bytes>, begin: nat, end: nat)
    requires begin <= end <= |s| && Rebuilt(s, labels, begin)
    ensures Join(labels + [s[begin..end]]) == s[..end]
  {
    var next := labels + [s[begin..end]];
    if labels != [] {
      assert next[..|next| - 1] == labels;
      assert s[..begin - 1] + [DOT] + s[begin..end] == s[..end];
    }
  }

  // ----- Case folding ------------------------------------------------------------------------------

  function FoldByte(b: byte): byte {
    if 65 <= b <= 90 then b + 32 else b
  }

  function Fold(s: Bytes): (r: Bytes)
    ensures |r| == |s| && forall i :: 0 <= i < |s| ==> r[i] == FoldByte(s[i])
  {
    seq(|s|, i requires 0 <= i < |s| => FoldByte(s[i]))
  }

  predicate SameText(a: Bytes, b: Bytes) {
    Fold(a) == Fold(b)
  }

  /** The same byte, or the two cases of one of the letters A to Z. */
  predicate SameByte(x: byte, y: byte) {
    x == y || (65 <= x <= 90 && y == x + 32) || (65 <= y <= 90 && x == y + 32)
  }

  /** Texts are the same when they are byte by byte the same up to the case of letters. */
  lemma SameTextBytes(a: Bytes, b: Bytes)
    ensures SameText(a, b) <==> |a| == |b| && forall i :: 0 <= i < |a| ==> SameByte(a[i], b[i])
  {
    forall i | 0 <= i < |a| && i < |b| ensures Fold(a)[i] == Fold(b)[i] <==> SameByte(a[i], b[i]) {
    }
    if |a| == |b| && forall i :: 0 <= i < |a| ==> SameByte(a[i], b[i]) {
      assert Fold(a) == Fold(b);
    }
  }

  /** equal compares from the end, ignoring case. */
  method Equal(a: Bytes, b: Bytes) returns (r: bool)
    ensures r <==> SameText(a, b)
    ensures r <==> |a| == |b| && forall i :: 0 <= i < |a| ==> SameByte(a[i], b[i])
  {
    SameTextBytes(a, b);
    if |a| != |b| {
      return false;
    }
    var i := |a|;
    while i > 0
      invariant 0 <= i <= |a| && forall k :: i <= k < |a| ==> Fold(a)[k] == Fold(b)[k]
    {
      i := i - 1;
      if FoldByte(a[i]) != FoldByte(b[i]) {
        assert Fold(a)[i] != Fold(b)[i];
        return false;
      }
    }
    return true;
  }

  // ----- Comparing from the right --------------------------------------------------------------------

  /** Label k counted from the right. */
  function FromRight(s: Bytes, k: nat): Bytes
    requires k < |Starts(s)|
  {
    Chunk(s, Starts(s), |Starts(s)| - 1 - k)
  }

  /** Counted from the right, label k is the same in both names, ignoring case. */
  ghost predicate SameLabel(a: Bytes, b: Bytes, k: nat) {
    k < |Starts(a)| && k < |Starts(b)| && SameText(FromRight(a, k), FromRight(b, k))
  }

  /** n is the length of the longest common label suffix. */
  ghost predicate CommonSuffix(a: Bytes, b: Bytes, n: nat) {
    (forall k :: 0 <= k < n ==> SameLabel(a, b, k)) && !SameLabel(a, b, n)
  }

  lemma LastLabel(s1: Bytes, s2: Bytes)
    requires s1 != [DOT] && s2 != [DOT]
    ensures var l1, l2 := Starts(s1), Starts(s2);
            && l1 != [] && l2 != [] && l1[|l1| - 1] <= |s1| && l2[|l2| - 1] <= |s2|
            && (SameLabel(s1, s2, 0) <==> SameText(s1[l1[|l1| - 1]..], s2[l2[|l2| - 1]..]))
  {
    hide Starts, SameText;
    var l1, l2 := Starts(s1), Starts(s2);
    assert s1[l1[|l1| - 1]..] == Chunk(s1, l1, |l1| - 1) && s2[l2[|l2| - 1]..] == Chunk(s2, l2, |l2| - 1);
  }

  lemma EarlierLabel(s1: Bytes, s2: Bytes, n: nat, i1: nat, j1: nat, i2: nat, j2: nat)
    requires 0 < n && i1 + n + 1 == j1 + n == |Starts(s1)| && i2 + n + 1 == j2 + n == |Starts(s2)|
    ensures var l1, l2 := Starts(s1), Starts(s2);
            && l1[i1] <= l1[j1] <= |s1| && l2[i2] <= l2[j2] <= |s2|
            && (SameLabel(s1, s2, n) <==> SameText(s1[l1[i1]..l1[j1]], s2[l2[i2]..l2[j2]]))
  {
    hide Starts, SameText;
    var l1, l2 := Starts(s1), Starts(s2);
    assert s1[l1[i1]..l1[j1]] == Chunk(s1, l1, |l1| - 1 - n) && s2[l2[i2]..l2[j2]] == Chunk(s2, l2, |l2| - 1 - n);
  }

  lemma RootHasNone(s1: Bytes, s2: Bytes)
    requires s1 == [DOT] || s2 == [DOT]
    ensures !SameLabel(s1, s2, 0)
  {}

  /** CompareDomainName, for every two texts. */
  method CompareDomainName(s1: Bytes, s2: Bytes) returns (n: nat)
    ensures CommonSuffix(s1, s2, n)
  {
    hide Starts, SameText, SameLabel, Cuts, Chunk;
    if s1 == [DOT] || s2 == [DOT] {
      RootHasNone(s1, s2);
      return 0;
    }
    var l1 := Split(s1);
    var l2 := Split(s2);
    LastLabel(s1, s2);
    var eq := Equal(s1[l1[|l1| - 1]..], s2[l2[|l2| - 1]..]);
    if !eq {
      return 0;
    }
    n := CompareEarlier(s1, s2, l1, l2);
  }

  /** The loop of CompareDomainName, entered with the last labels equal. */
  method CompareEarlier(s1: Bytes, s2: Bytes, l1: seq<nat>, l2: seq<nat>) returns (n: nat)
    requires l1 == Starts(s1) && l2 == Starts(s2) && l1 != [] && l2 != [] && SameLabel(s1, s2, 0)
    ensures CommonSuffix(s1, s2, n)
  {
    hide Starts, SameText, SameLabel, Cuts;
    var j1, i1, j2, i2 := |l1| - 1, |l1| - 2, |l2| - 1, |l2| - 2;
    n := 1;
    while i1 >= 0 && i2 >= 0
      invariant 1 <= n && j1 == |l1| - n && i1 == j1 - 1 && j2 == |l2| - n && i2 == j2 - 1 && 0 <= j1 && 0 <= j2
      invariant forall k :: 0 <= k < n ==> SameLabel(s1, s2, k)
    {
      EarlierLabel(s1, s2, n, i1, j1, i2, j2);
      var eq := Equal(s1[l1[i1]..l1[j1]], s2[l2[i2]..l2[j2]]);
      if !eq {
        return;
      }
      n := n + 1;
      j1, i1, j2, i2 := j1 - 1, i1 - 1, j2 - 1, i2 - 1;
    }
    NoLabel(s1, s2, n);
  }

  lemma NoLabel(s1: Bytes, s2: Bytes, n: nat)
    requires n >= |Starts(s1)| || n >= |Starts(s2)|
    ensures !SameLabel(s1, s2, n)
  {
  }
}
