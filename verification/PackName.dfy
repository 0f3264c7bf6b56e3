/** Packing a domain name into a message: in-place unescaping, counted labels, and the compression table. */
module PackName {
  import opened Names
  import opened UnpackName

  /** The compression table: absent, or a map from text suffixes to message offsets. */
  datatype Table = NoTable | Table(m: map<Bytes, nat>)

  /** Offsets in a table fit the 14 bits of a pointer. */
  ghost predicate TableOk(tbl: Table) {
    tbl.Table? ==> forall k :: k in tbl.m ==> tbl.m[k] < MAX_COMPRESSION_OFFSET
  }

  /** The text of a name whose labels need no escapes. */
  function Raw(name: Domain): Bytes {
    match name
    case Root => []
    case Sub(l, p) => l + ([DOT] + Raw(p))
  }

  /** The two octets of a pointer: its offset with the top two bits set. */
  function Pointer(p: nat): Bytes
    requires p < MAX_COMPRESSION_OFFSET
  {
    [192 + p / 256, p % 256]
  }

  /** A suffix not yet in the table is entered, unless it is the lone dot or its offset does not fit. */
  function Remember(tbl: Table, key: Bytes, off: nat): (tbl': Table)
    ensures TableOk(tbl) ==> TableOk(tbl')
  {
    if tbl.Table? && key != [DOT] && key !in tbl.m && off < MAX_COMPRESSION_OFFSET
    then Table(tbl.m[key := off]) else tbl
  }

  predicate Hit(tbl: Table, key: Bytes, compress: bool) {
    compress && tbl.Table? && key != [DOT] && key in tbl.m
  }

  /** What packing a name writes, the table it leaves, the octets it needs before the closing zero,
      and the labels it counts. */
  datatype Packed = Packed(bytes: Bytes, tbl: Table, need: nat, labels: nat)

  function AddLabel(l: Label, w: Packed): Packed
    requires |l| <= MAX_LABEL
  {
    Packed([|l|] + l + w.bytes, w.tbl, 1 + |l| + w.need, 1 + w.labels)
  }

  /** Reference packer over labels: a suffix found in the table becomes a pointer, every other suffix
      is remembered at the offset of its first label. */
  function Plan(name: Domain, tbl: Table, off: nat, compress: bool): (w: Packed)
    requires TableOk(tbl) && Short(name)
    ensures TableOk(w.tbl)
    decreases name
  {
    match name
    case Root => Packed([0], tbl, 0, 0)
    case Sub(l, p) =>
      var key := Raw(name);
      if Hit(tbl, key, compress) then Packed(Pointer(tbl.m[key]), tbl, 1 + |l|, 0)
      else AddLabel(l, Plan(p, Remember(tbl, key, off), off + 1 + |l|, compress))
  }

  /** One step of the reference packer: the closing zero, a pointer, or a label and the rest. */
  lemma PlanStep(name: Domain, tbl: Table, off: nat, compress: bool)
    requires TableOk(tbl) && Short(name)
    ensures name.Root? ==> Plan(name, tbl, off, compress) == Packed([0], tbl, 0, 0)
    ensures name.Sub? && Hit(tbl, Raw(name), compress) ==>
              Plan(name, tbl, off, compress) == Packed(Pointer(tbl.m[Raw(name)]), tbl, 1 + |name.leaf|, 0)
    ensures name.Sub? && !Hit(tbl, Raw(name), compress) ==>
              Plan(name, tbl, off, compress) ==
              AddLabel(name.leaf, Plan(name.parent, Remember(tbl, Raw(name), off), off + 1 + |name.leaf|, compress))
  {}

  // ----- Facts about parsing used by the packer ----------------------------------

  lemma {:induction false} ParseShort(s: Bytes, cur: Label, first: bool)
    ensures Parse(s, cur, first).Parsed? ==> Short(Parse(s, cur, first).name)
    decreases |s|
  {
    if s != [] {
      if s[0] == BACKSLASH {
        if |s| > 1 {
          var (b, n) := Unescape(s);
          ParseShort(s[n..], cur + [b], false);
        }
      } else if s[0] == DOT {
        ParseShort(s[1..], [], false);
      } else {
        ParseShort(s[1..], cur + [s[0]], false);
      }
    }
  }

  ghost predicate NoEscapes(s: Bytes) {
    forall k :: 0 <= k < |s| ==> s[k] != BACKSLASH
  }

  ghost predicate EndsInDot(s: Bytes) {
    s != [] ==> s[|s| - 1] == DOT
  }

  /** Without escapes a parsed text is the raw text of its labels. */
  lemma {:induction false} ParseRaw(s: Bytes, cur: Label, first: bool)
    requires NoEscapes(s) && EndsInDot(s) && (s == [] ==> cur == [])
    ensures var r := Parse(s, cur, first); r.Parsed? ==> !r.dropped && Raw(r.name) == cur + s
    decreases |s|
  {
    if s != [] {
      var rest := s[1..];
      assert s == [s[0]] + rest;
      if s[0] == DOT {
        ParseRaw(rest, [], false);
        assert [] + rest == rest;
      } else {
        ParseRaw(rest, cur + [s[0]], false);
        SeqAssoc(cur, [s[0]], rest);
      }
    }
  }

  // ----- The packer ------------------------------------------------------------------

  /** Moves bs[from + k..ls] down by k, one byte at a time. */
  method ShiftLeft(bs: array<byte>, from: nat, ls: nat, k: nat)
    requires from + k <= ls <= bs.Length
    modifies bs
    ensures bs[..from] == old(bs[..from])
    ensures bs[from..ls - k] == old(bs[from + k..ls])
  {
    for j := from to ls - k
      invariant forall x :: from <= x < j ==> bs[x] == old(bs[x + k])
      invariant forall x :: 0 <= x < from || j <= x < bs.Length ==> bs[x] == old(bs[x])
    {
      bs[j] := bs[j + k];
    }
  }

  /** Replaces three digits at bs[i] by the byte they stand for and closes the gap. */
  method ReplaceDigits(bs: array<byte>, i: nat, ls: nat)
    requires i + 3 <= ls <= bs.Length && IsDigit(bs[i]) && IsDigit(bs[i + 1]) && IsDigit(bs[i + 2])
    modifies bs
    ensures bs[..i] == old(bs[..i])
    ensures bs[i] == old(Value(bs[i..i + 3]))
    ensures bs[i + 1..ls - 2] == old(bs[i + 3..ls])
  {
    ghost var tail := bs[i + 3..ls];
    bs[i] := Value(bs[i..i + 3]);
    assert bs[i + 3..ls] == tail;
    ShiftLeft(bs, i + 1, ls, 2);
  }

  lemma SliceAt(a: Bytes, i: nat, ls: nat, u: Bytes)
    requires i <= ls <= |a| && a[i..ls] == u
    ensures forall k :: 0 <= k < |u| ==> a[i + k] == u[k]
    ensures forall k :: 0 <= k <= |u| ==> a[i + k..ls] == u[k..]
    ensures |u| >= 3 ==> a[i..i + 3] == u[..3]
  {}

  /** Replaces the escape at bs[i] by the byte it stands for and closes the gap. */
  method UnescapeAt(bs: array<byte>, i: nat, ls: nat) returns (ls': nat)
    requires i + 2 <= ls <= bs.Length && bs[i] == BACKSLASH
    modifies bs
    ensures i < ls' < ls
    ensures bs[..i] == old(bs[..i])
    ensures var (b, n) := Unescape(old(bs[i..ls]));
            bs[i] == b && bs[i + 1..ls'] == old(bs[i..ls])[n..]
  {
    ghost var t := bs[i..ls];
    ghost var u := t[1..];
    assert u == bs[i + 1..ls];
    ShiftLeft(bs, i, ls, 1);
    ls' := ls - 1;
    SliceAt(bs[..], i, ls', u);
    assert bs[i] == u[0] == t[1] && bs[i + 1..ls'] == u[1..] == t[2..];
    if i + 2 < ls' && IsDigit(bs[i]) && IsDigit(bs[i + 1]) && IsDigit(bs[i + 2]) {
      assert bs[i..i + 3] == u[..3] == t[1..4];
      assert bs[i + 3..ls'] == u[3..] == t[4..];
      assert IsDigit(t[1]) && IsDigit(t[2]) && IsDigit(t[3]);
      ReplaceDigits(bs, i, ls');
      ls' := ls' - 2;
    } else if i + 2 < ls' {
      assert bs[i + 1] == u[1] == t[2] && bs[i + 2] == u[2] == t[3];
    }
  }

  /** Two states of a message agree below n. */
  ghost predicate Same(a: Bytes, b: Bytes, n: nat) {
    |a| == |b| && forall x :: 0 <= x < n && x < |a| ==> b[x] == a[x]
  }

  /** Writes one counted label octet by octet; fails when the message is too short for it. */
  method EmitLabel(msg: array<byte>, off: nat, bs: array<byte>, begin: nat, end: nat) returns (ok: bool)
    requires msg != bs && begin <= end <= bs.Length && end - begin <= MAX_LABEL
    modifies msg
    ensures ok <==> off + 1 + (end - begin) <= msg.Length
    ensures Same(old(msg[..]), msg[..], off)
    ensures ok ==> msg[off..off + 1 + (end - begin)] == [end - begin] + bs[begin..end]
  {
    if off + 1 > msg.Length {
      return false;
    }
    msg[off] := end - begin;
    for j := begin to end
      invariant off + 1 + (j - begin) <= msg.Length
      invariant forall x :: 0 <= x < off ==> msg[x] == old(msg[x])
      invariant msg[off] == end - begin
      invariant forall x :: begin <= x < j ==> msg[off + 1 + (x - begin)] == bs[x]
    {
      if off + 1 + (j - begin) + 1 > msg.Length {
        return false;
      }
      msg[off + 1 + (j - begin)] := bs[j];
    }
    ok := true;
  }

  datatype Goal = Fails | Writes(bytes: Bytes, tbl: Table, need: nat, labels: nat, dropped: bool)

  /** What the loop ends with, from the octets and labels already emitted, the text left and the label
      under construction. */
  ghost function Outlook(acc: Bytes, labels: nat, rest: Bytes, cur: Label, first: bool, tbl: Table, off: nat,
                         compress: bool): Goal
    requires TableOk(tbl)
  {
    ParseShort(rest, cur, first);
    match Parse(rest, cur, first)
    case Malformed => Fails
    case Parsed(name, dropped) =>
      var w := Plan(name, tbl, off, compress);
      Writes(acc + w.bytes, w.tbl, |acc| + w.need, labels + w.labels, dropped)
  }

  /** What each outlook means for the caller. There is no error when only the closing zero has no room:
      the offset returned is then one past the end. */
  ghost predicate Returned(g: Goal, off: nat, after: Bytes, loose: bool, off1: nat, labels: nat, err: Error,
                           tbl: Table) {
    match g
    case Fails => loose || (err != NoError && off1 == |after|)
    case Writes(bytes, tbl', need, n, dropped) =>
      if off + need + (if dropped then 1 else 0) > |after| then err == ErrBuf && off1 == |after|
      else
        && err == NoError && off1 == off + |bytes| <= |after| + 1 && labels == n && tbl == tbl'
        && if off1 <= |after| then after[off..off1] == bytes else after[off..] + [0] == bytes
  }

  /** What packing the text s does. The lone dot is one empty label, and no further zero follows it. */
  ghost function Expected(s: Bytes, tbl: Table, off: nat, compress: bool): Goal
    requires TableOk(tbl)
  {
    if s == [DOT] then Writes([0], tbl, 1, 1, false) else Outlook([], 0, s, [], true, tbl, off, compress)
  }

  /** Without a table every text is tracked; with one, the texts without escapes and without an empty
      first label are. */
  ghost predicate Tracked(s: Bytes, tbl: Table) {
    tbl.NoTable? || (NoEscapes(s) && (s != [] && s[0] == DOT ==> s == [DOT]))
  }

  /** After an escape the label under construction is either closed later or dropped. */
  lemma {:induction false} ParseOpen(s: Bytes, cur: Label)
    requires cur != []
    ensures var r := Parse(s, cur, false); r.Parsed? ==> r.name.Sub? || r.dropped
    decreases |s|
  {
    if s != [] && s[0] != DOT && !(s[0] == BACKSLASH && |s| == 1) {
      var (b, n) := if s[0] == BACKSLASH then Unescape(s) else (s[0], 1);
      ParseOpen(s[n..], cur + [b]);
    }
  }

  /** One escape: the same outlook from the shortened text, and when no octet is left for its label,
      no way to succeed. */
  lemma OutlookEscape(acc: Bytes, labels: nat, rest: Bytes, cur: Label, first: bool, tbl: Table, off: nat,
                      compress: bool)
    requires TableOk(tbl) && |rest| >= 2 && rest[0] == BACKSLASH && EndsInDot(rest)
    ensures var (b, n) := Unescape(rest);
            && Outlook(acc, labels, rest, cur, first, tbl, off, compress)
               == Outlook(acc, labels, rest[n..], cur + [b], false, tbl, off, compress)
            && EndsInDot(rest[n..])
    ensures var g := Outlook(acc, labels, rest, cur, first, tbl, off, compress);
            g.Writes? ==> g.need + (if g.dropped then 1 else 0) >= |acc| + 1
  {
    var (b, n) := Unescape(rest);
    ParseOpen(rest[n..], cur + [b]);
  }

  lemma OutlookLabel(acc: Bytes, labels: nat, rest: Bytes, cur: Label, first: bool, tbl: Table, key: Bytes, off: nat,
                     compress: bool)
    returns (g: Goal)
    requires TableOk(tbl) && EndsInDot(rest)
    requires rest != [] && rest[0] == DOT && (cur != [] || first) && |cur| <= MAX_LABEL
    requires tbl.NoTable? || (NoEscapes(rest) && key == cur + rest)
    ensures g == Outlook(acc, labels, rest, cur, first, tbl, off, compress)
    ensures g.Writes? ==> g.need >= |acc| + 1 + |cur|
    ensures g.Writes? && Hit(tbl, key, compress) ==>
              g == Writes(acc + Pointer(tbl.m[key]), tbl, |acc| + 1 + |cur|, labels, false)
    ensures !Hit(tbl, key, compress) ==>
              g == Outlook(acc + ([|cur|] + cur), labels + 1, rest[1..], [], false,
                           Remember(tbl, key, off), off + 1 + |cur|, compress)
  {
    ParseShort(rest, cur, first);
    ParseShort(rest[1..], [], false);
    g := Outlook(acc, labels, rest, cur, first, tbl, off, compress);
    var r := Parse(rest[1..], [], false);
    if r.Parsed? {
      if tbl.Table? {
        ParseRaw(rest, cur, first);
      }
      if !Hit(tbl, key, compress) {
        SeqAssoc(acc, [|cur|] + cur, Plan(r.name, Remember(tbl, key, off), off + 1 + |cur|, compress).bytes);
      }
    }
  }

  /** What closing the label cur at off leaves in the message m: the label, or on a hit a pointer. */
  ghost predicate Closed(m: Bytes, off: nat, cur: Label, key: Bytes, tbl: Table, compress: bool,
                         off1: nat, err: Error, hit: bool, tbl': Table)
    requires TableOk(tbl) && |cur| <= MAX_LABEL
  {
    && TableOk(tbl')
    && (off + 1 + |cur| > |m| ==> err == ErrBuf)
    && (off + 1 + |cur| <= |m| ==> hit == Hit(tbl, key, compress) && (err == NoError || (hit && cur == [])))
    && (err == NoError ==> off <= off1 <= |m| && m[off..off1] == if hit then Pointer(tbl.m[key]) else [|cur|] + cur)
    && tbl' == if err != NoError || hit then tbl else Remember(tbl, key, off)
  }

  /** Emits the label bs[begin..i] at off, and follows or extends the table under its key. */
  method CloseLabel(msg: array<byte>, off: nat, bs: array<byte>, begin: nat, i: nat, key: Bytes, tbl: Table,
                    compress: bool)
    returns (off1: nat, err: Error, hit: bool, tbl': Table)
    requires msg != bs && begin <= i <= bs.Length && i - begin <= MAX_LABEL && TableOk(tbl)
    modifies msg
    ensures Same(old(msg[..]), msg[..], off)
    ensures Closed(msg[..], off, old(bs[begin..i]), key, tbl, compress, off1, err, hit, tbl')
    ensures tbl' == (if err == NoError && tbl.Table? && key != [46] && key !in tbl.m && off < 16384
                     then Table(tbl.m[key := off]) else tbl)
    ensures err == NoError && hit ==>
              off1 == off + 2 && key in tbl.m && 256 * (msg[off] as int) + msg[off + 1] == 0xC000 + tbl.m[key]
    ensures err == NoError && !hit ==> off1 == off + 1 + (i - begin) && msg[off] == i - begin
  {
    off1, err, hit, tbl' := off, ErrBuf, false, tbl;
    var ok := EmitLabel(msg, off, bs, begin, i);
    if ok {
      off1, err := off + 1 + (i - begin), NoError;
      if tbl.Table? && key != [DOT] {
        if key !in tbl.m {
          if off < MAX_COMPRESSION_OFFSET {
            tbl' := Table(tbl.m[key := off]);
          }
        } else if compress {
          hit := true;
          if off + 2 > msg.Length {
            err := Panic;
          } else {
            var p := tbl.m[key];
            msg[off], msg[off + 1] := 192 + p / 256, p % 256;
            off1 := off + 2;
          }
        }
      }
    }
  }

  // ----- The loop over the text, step by step ------------------------------------------

  /** The variables of the loop: the position, end and label start in the unescaped text, whether the
      byte before was an escaped dot, the text used for table keys, and what has been packed. */
  datatype Cursor = Cursor(i: nat, ls: nat, begin: nat, escapedDot: bool, roBs: Bytes, bsFresh: bool,
                           off: nat, labels: nat, tbl: Table)

  /** Where the loop stands in the text t; in a keyed run the keys are exactly the text left. */
  ghost predicate Reading(keyed: bool, t: Bytes, c: Cursor) {
    && c.begin <= c.i <= c.ls <= |t| == |c.roBs| && c.ls > 0
    && (c.i == c.begin ==> !c.escapedDot && (c.i > 0 ==> t[c.i - 1] == DOT))
    && (c.i > c.begin && t[c.i - 1] == DOT ==> c.escapedDot)
    && EndsInDot(t[c.i..c.ls])
    && (keyed ==> Keyed(t[c.begin..c.i], t[c.i..c.ls], c))
  }

  ghost predicate Keyed(cur: Label, rest: Bytes, c: Cursor) {
    && c.begin <= |c.roBs| && c.roBs[c.begin..] == cur + rest
    && NoEscapes(rest) && c.bsFresh
    && (c.i == 0 && rest != [] && rest[0] == DOT ==> rest == [DOT])
  }

  /** The octets acc have been written in m at start, and dropped bytes leave room for one more. */
  ghost predicate Writing(m: Bytes, start: nat, c: Cursor, acc: Bytes) {
    && c.off == start + |acc| && TableOk(c.tbl)
    && (acc == [] || (c.off <= |m| && m[start..c.off] == acc))
    && (c.i == c.ls && c.begin < c.i ==> c.off < |m|)
    && (c.i > 0 && c.begin == c.i ==> acc != [])
  }

  ghost function View(t: Bytes, c: Cursor, acc: Bytes, compress: bool): Goal
    requires c.begin <= c.i <= c.ls <= |t| && TableOk(c.tbl)
  {
    Outlook(acc, c.labels, t[c.i..c.ls], t[c.begin..c.i], c.i == 0, c.tbl, c.off, compress)
  }

  /** An escape becomes one more byte of the label under construction. */
  lemma EscapeStep(t: Bytes, t': Bytes, c: Cursor, c': Cursor, acc: Bytes, compress: bool)
    requires Reading(false, t, c) && TableOk(c.tbl) && c.i + 2 <= c.ls && t[c.i] == BACKSLASH
    requires |t'| == |t| && c.i < c'.ls < c.ls && t'[..c.i] == t[..c.i]
    requires var (b, n) := Unescape(t[c.i..c.ls]); t'[c.i] == b && t'[c.i + 1..c'.ls] == t[c.i..c.ls][n..]
    requires c' == c.(ls := c'.ls, escapedDot := t'[c.i] == DOT, bsFresh := false, i := c.i + 1)
    ensures Reading(false, t', c') && View(t', c', acc, compress) == View(t, c, acc, compress)
    ensures var g := View(t, c, acc, compress); g.Writes? ==> g.need + (if g.dropped then 1 else 0) >= |acc| + 1
  {
    var rest, cur := t[c.i..c.ls], t[c.begin..c.i];
    OutlookEscape(acc, c.labels, rest, cur, c.i == 0, c.tbl, c.off, compress);
    assert cur == t[..c.i][c.begin..];
    assert t'[c.begin..c.i + 1] == cur + [t'[c.i]];
  }

  lemma PlainStep(t: Bytes, c: Cursor, c': Cursor, acc: Bytes, compress: bool, keyed: bool)
    requires Reading(keyed, t, c) && TableOk(c.tbl) && c.i < c.ls && t[c.i] != BACKSLASH && t[c.i] != DOT
    requires c' == c.(escapedDot := false, i := c.i + 1)
    ensures Reading(keyed, t, c') && c'.i < c'.ls && View(t, c', acc, compress) == View(t, c, acc, compress)
  {
    var rest, cur := t[c.i..c.ls], t[c.begin..c.i];
    assert t[c.i + 1..c.ls] == rest[1..];
    assert t[c.begin..c.i + 1] == cur + [t[c.i]];
    assert cur + [t[c.i]] + rest[1..] == cur + rest;
  }

  predicate BadDot(t: Bytes, c: Cursor)
    requires c.i < |t|
  {
    (c.i > 0 && t[c.i - 1] == DOT && !c.escapedDot) || c.i - c.begin > MAX_LABEL
  }

  /** A doubled dot or a label of more than 63 octets cannot succeed. */
  lemma BadDotFails(t: Bytes, c: Cursor, acc: Bytes, compress: bool)
    requires Reading(false, t, c) && TableOk(c.tbl) && c.i < c.ls && t[c.i] == DOT && BadDot(t, c)
    ensures View(t, c, acc, compress) == Fails
  {}

  lemma AfterDot(t: Bytes, c: Cursor, c': Cursor, acc: Bytes, compress: bool, keyed: bool)
    requires Reading(keyed, t, c) && c.i < c.ls && t[c.i] == DOT && TableOk(c'.tbl)
    requires c' == Cursor(c.i + 1, c.ls, c.i + 1, false, c'.roBs, c'.bsFresh, c'.off, c'.labels, c'.tbl)
             && |c'.roBs| == |t|
    requires keyed ==> c'.roBs == c.roBs && c'.bsFresh
    ensures Reading(keyed, t, c')
    ensures View(t, c', acc, compress) ==
            Outlook(acc, c'.labels, t[c.i..c.ls][1..], [], false, c'.tbl, c'.off, compress)
  {
    var rest := t[c.i..c.ls];
    assert t[c'.i..c'.ls] == rest[1..];
    assert t[c'.begin..c'.i] == [];
    if keyed {
      assert c'.roBs[c'.begin..] == c.roBs[c.begin..][c.i + 1 - c.begin..] == rest[1..];
    }
  }

  /** Any other dot closes the label. It ends the name when there is no room for it, or at a pointer. */
  lemma DotEnds(t: Bytes, c: Cursor, acc: Bytes, compress: bool, keyed: bool, m: Bytes, m': Bytes, start: nat,
                key: Bytes, off1: nat, err: Error, hit: bool, tbl': Table)
    requires Reading(keyed, t, c) && Writing(m, start, c, acc) && c.i < c.ls && t[c.i] == DOT && !BadDot(t, c)
    requires keyed || c.tbl.NoTable?
    requires keyed ==> key == c.roBs[c.begin..]
    requires Same(m, m', c.off)
    requires Closed(m', c.off, t[c.begin..c.i], key, c.tbl, compress, off1, err, hit, tbl') && (err != NoError || hit)
    ensures var end := if err != NoError then |m| else off1;
            Returned(View(t, c, acc, compress), start, m', compress && c.tbl.Table?, end, c.labels, err, tbl')
  {
    var rest, cur := t[c.i..c.ls], t[c.begin..c.i];
    var g := OutlookLabel(acc, c.labels, rest, cur, c.i == 0, c.tbl, key, c.off, compress);
    if err == NoError {
      Extend(m, m', start, c.off, off1, acc);
    }
  }

  /** Otherwise the name goes on after the label. */
  lemma DotGoesOn(t: Bytes, c: Cursor, acc: Bytes, compress: bool, keyed: bool, key: Bytes)
    requires Reading(keyed, t, c) && TableOk(c.tbl) && c.i < c.ls && t[c.i] == DOT && !BadDot(t, c)
    requires keyed || c.tbl.NoTable?
    requires keyed ==> key == c.roBs[c.begin..]
    requires !Hit(c.tbl, key, compress)
    ensures var rest, cur := t[c.i..c.ls], t[c.begin..c.i];
            View(t, c, acc, compress) ==
            Outlook(acc + ([|cur|] + cur), c.labels + 1, rest[1..], [], false, Remember(c.tbl, key, c.off),
              c.off + 1 + |cur|, compress)
  {
    var rest, cur := t[c.i..c.ls], t[c.begin..c.i];
    var g := OutlookLabel(acc, c.labels, rest, cur, c.i == 0, c.tbl, key, c.off, compress);
  }

  lemma Extend(m: Bytes, m': Bytes, start: nat, off: nat, off1: nat, acc: Bytes)
    requires Same(m, m', off) && off == start + |acc| && off <= off1 <= |m|
    requires acc == [] || m[start..off] == acc
    ensures m'[start..off1] == acc + m'[off..off1]
  {
    if acc != [] {
      assert m'[start..off] == m[start..off];
    }
    assert m'[start..off1] == m'[start..off] + m'[off..off1];
  }

  /** The loop after a closed label. */
  lemma NextLabel(t: Bytes, c: Cursor, c': Cursor, acc: Bytes, acc': Bytes, compress: bool, keyed: bool, m: Bytes,
                  m': Bytes, start: nat, key: Bytes)
    requires Reading(keyed, t, c) && Writing(m, start, c, acc) && c.i < c.ls && t[c.i] == DOT && !BadDot(t, c)
    requires keyed ==> key == c.roBs[c.begin..] && c'.roBs == c.roBs && c'.bsFresh
    requires Same(m, m', c.off)
    requires c' == Cursor(c.i + 1, c.ls, c.i + 1, false, c'.roBs, c'.bsFresh, c'.off, c.labels + 1, c'.tbl)
             && |c'.roBs| == |t|
    requires Closed(m', c.off, t[c.begin..c.i], key, c.tbl, compress, c'.off, NoError, false, c'.tbl)
    requires var cur := t[c.begin..c.i]; acc' == acc + ([|cur|] + cur)
    ensures Reading(keyed, t, c') && Writing(m', start, c', acc')
    ensures keyed || c.tbl.NoTable? ==> View(t, c', acc', compress) == View(t, c, acc, compress)
  {
    hide Outlook;
    if keyed || c.tbl.NoTable? {
      DotGoesOn(t, c, acc, compress, keyed, key);
    }
    WriteLabel(m, m', start, c.off, c'.off, t[c.begin..c.i], acc, acc');
    AfterDot(t, c, c', acc', compress, keyed);
  }

  lemma WriteLabel(m: Bytes, m': Bytes, start: nat, off: nat, off1: nat, cur: Label, acc: Bytes, acc': Bytes)
    requires Same(m, m', off) && off == start + |acc| && off <= off1 <= |m| && |cur| <= MAX_LABEL
    requires acc == [] || m[start..off] == acc
    requires m'[off..off1] == [|cur|] + cur && acc' == acc + ([|cur|] + cur)
    ensures off1 == off + 1 + |cur| == start + |acc'| && m'[start..off1] == acc'
  {
    Extend(m, m', start, off, off1, acc);
  }

  /** The loop's variables once the label has been closed. */
  function AfterClose(c: Cursor, len: nat, roBs: Bytes, compress: bool, off1: nat, err: Error, hit: bool,
                      tbl': Table): Cursor {
    if err != NoError then c.(off := len, tbl := tbl')
    else if hit then c.(off := off1, tbl := tbl')
    else Cursor(c.i + 1, c.ls, c.i + 1, false, roBs, c.bsFresh || compress, off1, c.labels + 1, tbl')
  }

  lemma DotOutcome(t: Bytes, c: Cursor, c': Cursor, acc: Bytes, acc': Bytes, compress: bool, keyed: bool, m: Bytes,
                   m': Bytes, start: nat, roBs: Bytes, off1: nat, err: Error, hit: bool, tbl': Table)
    requires Reading(keyed, t, c) && Writing(m, start, c, acc) && c.i < c.ls && t[c.i] == DOT && !BadDot(t, c)
    requires |roBs| == |t| && roBs == if compress && !c.bsFresh then t else c.roBs
    requires Same(m, m', c.off)
    requires Closed(m', c.off, t[c.begin..c.i], roBs[c.begin..], c.tbl, compress, off1, err, hit, tbl')
    requires c' == AfterClose(c, |m|, roBs, compress, off1, err, hit, tbl')
    requires var cur := t[c.begin..c.i]; acc' == acc + ([|cur|] + cur)
    ensures err == NoError && !hit ==> Reading(keyed, t, c') && Writing(m', start, c', acc')
    ensures keyed || c.tbl.NoTable? ==>
              var g := View(t, c, acc, compress);
              if err != NoError || hit then Returned(g, start, m', compress && c.tbl.Table?, c'.off, c'.labels, err,
                c'.tbl)
              else View(t, c', acc', compress) == g
  {
    if err == NoError && !hit {
      NextLabel(t, c, c', acc, acc', compress, keyed, m, m', start, roBs[c.begin..]);
    } else if keyed || c.tbl.NoTable? {
      DotEnds(t, c, acc, compress, keyed, m, m', start, roBs[c.begin..], off1, err, hit, tbl');
    }
  }

  method DotCase(msg: array<byte>, start: nat, bs: array<byte>, c: Cursor, compress: bool,
                 ghost t: Bytes, ghost acc: Bytes, ghost keyed: bool, ghost m: Bytes)
    returns (early: bool, err: Error, c': Cursor, ghost acc': Bytes)
    requires msg != bs && bs[..] == t && msg[..] == m
    requires Reading(keyed, t, c) && Writing(m, start, c, acc) && c.i < c.ls && t[c.i] == DOT && !BadDot(t, c)
    modifies msg
    ensures Same(m, msg[..], start)
    ensures TableOk(c'.tbl) && c'.tbl.Table? == c.tbl.Table?
    ensures err != NoError ==> early && c'.off == msg.Length
    ensures !early ==> Reading(keyed, t, c') && Writing(msg[..], start, c', acc') && c'.ls - c'.i < c.ls - c.i
    ensures keyed || c.tbl.NoTable? ==>
              var g := View(t, c, acc, compress);
              if early then Returned(g, start, msg[..], compress && c.tbl.Table?, c'.off, c'.labels, err, c'.tbl)
              else View(t, c', acc', compress) == g
  {
    hide Outlook, View, Returned, EndsInDot, NoEscapes;
    var roBs: Bytes := if compress && !c.bsFresh then bs[..] else c.roBs;
    var key: Bytes := roBs[c.begin..];
    ghost var cur := t[c.begin..c.i];
    assert bs[c.begin..c.i] == cur;
    acc' := acc + ([|cur|] + cur);
    var off1, hit, tbl';
    off1, err, hit, tbl' := CloseLabel(msg, c.off, bs, c.begin, c.i, key, c.tbl, compress);
    early, c' := err != NoError || hit, AfterClose(c, msg.Length, roBs, compress, off1, err, hit, tbl');
    DotOutcome(t, c, c', acc, acc', compress, keyed, m, msg[..], start, roBs, off1, err, hit, tbl');
  }

  method CopyOf(s: Bytes) returns (bs: array<byte>)
    ensures fresh(bs) && bs[..] == s
  {
    bs := new byte[|s|](j requires 0 <= j < |s| => s[j]);
  }

  method EscapeCase(msg: array<byte>, start: nat, bs: array<byte>, c: Cursor, ghost t: Bytes, ghost acc: Bytes,
                    ghost compress: bool)
    returns (early: bool, c': Cursor)
    requires msg != bs && bs[..] == t && Reading(false, t, c) && Writing(msg[..], start, c, acc)
    requires c.i < c.ls && t[c.i] == BACKSLASH
    modifies bs
    ensures c'.tbl == c.tbl && c'.labels == c.labels
    ensures var g := View(t, c, acc, compress);
            if early then c'.off == msg.Length
              && Returned(g, start, msg[..], false, msg.Length, c.labels, ErrBuf, c.tbl)
            else Reading(false, bs[..], c') && Writing(msg[..], start, c', acc) && c'.ls - c'.i < c.ls - c.i
                 && View(bs[..], c', acc, compress) == g
  {
    assert t[c.i..c.ls][c.ls - c.i - 1] == DOT;
    var ls := UnescapeAt(bs, c.i, c.ls);
    c' := c.(ls := ls, escapedDot := bs[c.i] == DOT, bsFresh := false, i := c.i + 1);
    EscapeStep(t, bs[..], c, c', acc, compress);
    early := c.off + 1 > msg.Length;
    if early {
      c' := c.(off := msg.Length);
    }
  }

  /** One turn of the loop. */
  method Step(msg: array<byte>, start: nat, bs: array<byte>, c: Cursor, compress: bool,
              ghost t: Bytes, ghost acc: Bytes, ghost keyed: bool, ghost m: Bytes)
    returns (early: bool, err: Error, c': Cursor, ghost acc': Bytes)
    requires msg != bs && bs[..] == t && msg[..] == m
    requires Reading(keyed, t, c) && Writing(m, start, c, acc) && c.i < c.ls
    modifies msg, bs
    ensures Same(m, msg[..], start)
    ensures TableOk(c'.tbl) && c'.tbl.Table? == c.tbl.Table?
    ensures err != NoError ==> early && c'.off == msg.Length
    ensures !early ==> Reading(keyed, bs[..], c') && Writing(msg[..], start, c', acc') && c'.ls - c'.i < c.ls - c.i
    ensures keyed || c.tbl.NoTable? ==>
              var g := View(t, c, acc, compress);
              if early then Returned(g, start, msg[..], compress && c.tbl.Table?, c'.off, c'.labels, err, c'.tbl)
              else View(bs[..], c', acc', compress) == g
  {
    hide Outlook;
    early, err, acc' := false, NoError, acc;
    if bs[c.i] == BACKSLASH {
      assert t[c.i..c.ls][0] == BACKSLASH;
      early, c' := EscapeCase(msg, start, bs, c, t, acc, compress);
      err := if early then ErrBuf else NoError;
    } else if bs[c.i] == DOT {
      if BadDot(bs[..], c) {
        BadDotFails(t, c, acc, compress);
        return true, ErrRdata, c.(off := msg.Length), acc;
      }
      early, err, c', acc' := DotCase(msg, start, bs, c, compress, t, acc, keyed, m);
    } else {
      c' := c.(escapedDot := false, i := c.i + 1);
      PlainStep(t, c, c', acc, compress, keyed);
    }
  }

  /** The loop over the text. It ends early on an error or at a pointer; otherwise all labels but not the
      closing zero have been written. */
  method PackLoop(s: Bytes, msg: array<byte>, start: nat, tbl: Table, compress: bool, ghost before: Bytes)
    returns (early: bool, c: Cursor, err: Error, ghost acc: Bytes)
    requires TableOk(tbl) && s != [] && EndsInDot(s) && before == msg[..]
    modifies msg
    ensures TableOk(c.tbl)
    ensures Same(before, msg[..], start)
    ensures err != NoError ==> early && c.off == msg.Length
    ensures !early ==> Writing(msg[..], start, c, acc) && c.begin <= c.i == c.ls && c.ls > 0
    ensures Tracked(s, tbl) ==>
              var g := Outlook([], 0, s, [], true, tbl, start, compress);
              if early then Returned(g, start, msg[..], compress && tbl.Table?, c.off, c.labels, err, c.tbl)
              else g == Writes(acc + [0], c.tbl, |acc|, c.labels, c.begin < c.i)
  {
    hide Outlook;
    ghost var goal := Outlook([], 0, s, [], true, tbl, start, compress);
    ghost var keyed := tbl.Table? && Tracked(s, tbl);
    var bs := CopyOf(s);
    early, err, acc := false, NoError, [];
    c := Cursor(0, |s|, 0, false, s, true, start, 0, tbl);
    assert s[0..|s|] == s && s[0..0] == [] && [] + s == s;
    while c.i < c.ls
      invariant !early && err == NoError
      invariant Reading(keyed, bs[..], c) && Writing(msg[..], start, c, acc)
      invariant c.tbl.Table? == tbl.Table? && Same(before, msg[..], start)
      invariant Tracked(s, tbl) ==> View(bs[..], c, acc, compress) == goal
      decreases c.ls - c.i
    {
      early, err, c, acc := Step(msg, start, bs, c, compress, bs[..], acc, keyed, msg[..]);
      if early {
        return;
      }
    }
    ViewEnd(bs[..], c, acc, compress);
  }

  lemma ViewEnd(t: Bytes, c: Cursor, acc: Bytes, compress: bool)
    requires c.begin <= c.i == c.ls <= |t| && TableOk(c.tbl)
    ensures View(t, c, acc, compress) == Writes(acc + [0], c.tbl, |acc|, c.labels, c.begin < c.i)
  {}

  /** The closing zero, when there is room for it. */
  lemma CloseName(m: Bytes, m': Bytes, start: nat, c: Cursor, acc: Bytes)
    requires Writing(m, start, c, acc) && c.begin <= c.i == c.ls && c.ls > 0
    requires |m'| == |m| && m' == if c.off < |m| then m[c.off := 0] else m
    ensures start <= |m|
    ensures Returned(Writes(acc + [0], c.tbl, |acc|, c.labels, c.begin < c.i), start, m', false, c.off + 1, c.labels,
            NoError, c.tbl)
    ensures Same(m, m', start)
  {
    if c.off < |m| {
      assert m'[start..c.off + 1] == m'[start..c.off] + [0];
      assert acc != [] ==> m'[start..c.off] == m[start..c.off];
    } else {
      assert acc != [] ==> m'[start..] == m[start..c.off];
    }
  }

  /** packDomainName. An empty text packs to nothing and a text without a closing dot is refused. Every other
      tracked text packs exactly as the reference packer says, or fails without room for its labels; nothing
      before the start is touched. */
  method PackDomainName(s: Bytes, msg: array<byte>, start: nat, tbl: Table, compress: bool)
    returns (off1: nat, labels: nat, err: Error, tbl': Table)
    requires TableOk(tbl)
    modifies msg
    ensures TableOk(tbl')
    ensures Same(old(msg[..]), msg[..], start)
    ensures s == [] ==> off1 == start && labels == 0 && err == NoError && tbl' == tbl && msg[..] == old(msg[..])
    ensures s != [] && !EndsInDot(s) ==> off1 == msg.Length && err == ErrFqdn && tbl' == tbl && msg[..] == old(msg[..])
    ensures s != [] && EndsInDot(s) && Tracked(s, tbl) ==>
              Returned(Expected(s, tbl, start, compress), start, msg[..], compress && tbl.Table?, off1, labels, err,
                tbl')
  {
    if |s| == 0 {
      return start, 0, NoError, tbl;
    }
    if s[|s| - 1] != DOT {
      return msg.Length, 0, ErrFqdn, tbl;
    }
    if s == [DOT] {
      // The one turn the loop takes on the lone dot, after which no zero is added.
      if start + 1 > msg.Length {
        return msg.Length, 0, ErrBuf, tbl;
      }
      msg[start] := 0;
      return start + 1, 1, NoError, tbl;
    }
    ghost var acc;
    var early, c;
    early, c, err, acc := PackLoop(s, msg, start, tbl, compress, msg[..]);
    off1, labels, tbl' := c.off, c.labels, c.tbl;
    if early {
      return;
    }
    ghost var m := msg[..];
    if off1 < msg.Length {
      msg[off1] := 0;
    }
    CloseName(m, msg[..], start, c, acc);
    off1 := off1 + 1;
  }
}
