/** Decoding a domain name out of a message, following compression pointers. */
module UnpackName {
  import opened Names

  const MAX_POINTERS := 10

  datatype Decoded =
    | Name(name: Domain, next: nat, hops: nat)
    | Bad(err: Error)

  /** The offset held by a two-octet pointer. */
  function Target(c: byte, c1: byte): nat
    requires c >= 192
  {
    (c - 192) * 256 + c1
  }

  /** Reference decoder: the name found at off, following at most `fuel` pointers, the offset just
      after its own octets, and the number of pointers followed. */
  function Decode(msg: Bytes, off: nat, fuel: nat): Decoded
    decreases fuel, |msg| - off
  {
    if off >= |msg| then Bad(ErrBuf)
    else
      var c := msg[off];
      if c == 0 then Name(Root, off + 1, 0)
      else if c < 64 then
        if off + 1 + c > |msg| then Bad(ErrBuf)
        else
          match Decode(msg, off + 1 + c, fuel)
          case Bad(e) => Bad(e)
          case Name(p, next, hops) => Name(Sub(msg[off + 1..off + 1 + c], p), next, hops)
      else if c >= 192 then
        if off + 1 >= |msg| then Bad(ErrBuf)
        else if fuel == 0 then Bad(ErrPointers)
        else
          match Decode(msg, Target(c, msg[off + 1]), fuel - 1)
          case Bad(e) => Bad(e)
          case Name(p, _, hops) => Name(p, off + 2, hops + 1)
      else Bad(ErrRdata)
  }

  /** A pointer is followed to the offset in its low 14 bits, the first octet the more significant. */
  lemma PointerFollowed(msg: Bytes, off: nat, fuel: nat)
    requires off + 1 < |msg| && msg[off] >= 192 && fuel > 0
    ensures var target: nat := 256 * (msg[off] as int - 192) + msg[off + 1];
            Decode(msg, off, fuel) ==
            match Decode(msg, target, fuel - 1)
            case Bad(e) => Bad(e)
            case Name(p, _, hops) => Name(p, off + 2, hops + 1)
  {}

  /** Behind a header of twelve octets and the name a., the octets C0 0C are that name. */
  lemma PointerExample(header: Bytes)
    requires |header| == 12
    ensures var m := header + [1, 97, 0] + [0xC0, 0x0C];
            Decode(m, 12, 10) == Name(Sub([97], Root), 15, 0) && Decode(m, 15, 10) == Name(Sub([97], Root), 17, 1)
  {
    var m := header + [1, 97, 0] + [0xC0, 0x0C];
    assert m[12] == 1 && m[14] == 0 && m[13..14] == [97] && m[15] == 192 && m[16] == 12;
    assert Decode(m, 14, 10) == Name(Root, 15, 0) && Decode(m, 14, 9) == Name(Root, 15, 0);
    PointerFollowed(m, 15, 10);
  }

  // ----- What is refused ---------------------------------------------------------

  /** From a label to the octets behind it. */
  predicate LabelStep(msg: Bytes, a: nat, b: nat) {
    a < |msg| && 1 <= msg[a] <= 63 && b == a + 1 + msg[a] <= |msg|
  }

  /** From a pointer to where it points. */
  predicate JumpStep(msg: Bytes, a: nat, b: nat) {
    a + 1 < |msg| && msg[a] >= 192 && b == 256 * (msg[a] as int - 192) + msg[a + 1]
  }

  /** The offsets visited one after the other, through so many pointers. */
  ghost predicate Trail(msg: Bytes, path: seq<nat>, jumps: nat) {
    && path != []
    && if |path| == 1 then jumps == 0
       else
         || (LabelStep(msg, path[0], path[1]) && Trail(msg, path[1..], jumps))
         || (jumps > 0 && JumpStep(msg, path[0], path[1]) && Trail(msg, path[1..], jumps - 1))
  }

  /** Why the octet at off goes no further when all pointers but `left` have been followed. */
  ghost predicate StuckAt(msg: Bytes, off: nat, left: nat, err: Error) {
    if off >= |msg| then err == ErrBuf
    else if msg[off] <= 63 then err == ErrBuf && off + 1 + msg[off] > |msg|
    else if msg[off] <= 191 then err == ErrRdata
    else if off + 1 == |msg| then err == ErrBuf
    else err == ErrPointers && left == 0
  }

  /** A refused name is refused for where its labels and pointers lead: out of the message, to an octet of neither
      kind, or to one pointer too many. */
  lemma {:induction false} Refused(msg: Bytes, off: nat, fuel: nat) returns (path: seq<nat>, jumps: nat)
    requires Decode(msg, off, fuel).Bad?
    ensures Trail(msg, path, jumps) && path != [] && path[0] == off && jumps <= fuel
    ensures StuckAt(msg, path[|path| - 1], fuel - jumps, Decode(msg, off, fuel).err)
    decreases fuel, |msg| - off
  {
    hide Trail;
    path, jumps := [off], 0;
    TrailAlone(msg, off);
    if off < |msg| {
      var c := msg[off];
      if 1 <= c <= 63 && off + 1 + c <= |msg| {
        path, jumps := Refused(msg, off + 1 + c, fuel);
        path := TrailBefore(msg, off, path, jumps);
      } else if c >= 192 && off + 1 < |msg| && fuel > 0 {
        path, jumps := Refused(msg, 256 * (c as int - 192) + msg[off + 1], fuel - 1);
        path := TrailBefore(msg, off, path, jumps);
        jumps := jumps + 1;
      }
    }
  }

  lemma TrailAlone(msg: Bytes, off: nat)
    ensures Trail(msg, [off], 0)
  {}

  /** One offset more in front. */
  lemma TrailBefore(msg: Bytes, off: nat, path: seq<nat>, jumps: nat) returns (more: seq<nat>)
    requires Trail(msg, path, jumps)
    ensures path != [] && more == [off] + path && more[|more| - 1] == path[|path| - 1]
    ensures LabelStep(msg, off, path[0]) ==> Trail(msg, more, jumps)
    ensures JumpStep(msg, off, path[0]) ==> Trail(msg, more, jumps + 1)
  {
    more := [off] + path;
    assert more[1..] == path && more[1] == path[0];
  }

  // ----- The unfolding relation ------------------------------------------------

  /** A range of octets that lies below `end` and keeps clear of the two octets at `hole`. */
  predicate Clear(lo: int, hi: int, hole: int, end: nat) {
    hi <= end && (hi <= hole || hole + 2 <= lo)
  }

  /** The octets of msg from off unfold (section 4.1.4 of RFC 1035) to exactly this name through
      exactly `hops` pointers, and only octets below `end` outside the hole are looked at. */
  ghost predicate Spells(msg: Bytes, hole: int, end: nat, off: nat, name: Domain, hops: nat)
    decreases name, hops
  {
    end <= |msg| && off < end && Clear(off, off + 1, hole, end) &&
    var c := msg[off];
    if c == 0 then name.Root? && hops == 0
    else if c < 64 then
      && name.Sub?
      && Clear(off, off + 1 + c, hole, end)
      && name.leaf == msg[off + 1..off + 1 + c]
      && Spells(msg, hole, end, off + 1 + c, name.parent, hops)
    else
      && c >= 192 && hops > 0
      && Clear(off, off + 2, hole, end)
      && Spells(msg, hole, end, Target(c, msg[off + 1]), name, hops - 1)
  }

  /** No hole. */
  const NOWHERE := -2

  /** A spelled name is decoded whenever the fuel covers its pointers, and runs out otherwise. */
  lemma {:induction false} SpelledIsDecoded(msg: Bytes, hole: int, end: nat, off: nat, name: Domain, hops: nat,
                                            fuel: nat)
    requires Spells(msg, hole, end, off, name, hops)
    ensures hops <= fuel ==>
              var d := Decode(msg, off, fuel);
              d.Name? && d.name == name && d.hops == hops && off < d.next <= end
    ensures hops > fuel ==> Decode(msg, off, fuel) == Bad(ErrPointers)
    decreases name, hops
  {
    var c := msg[off];
    if c == 0 {
    } else if c < 64 {
      SpelledIsDecoded(msg, hole, end, off + 1 + c, name.parent, hops, fuel);
    } else if fuel > 0 {
      SpelledIsDecoded(msg, hole, end, Target(c, msg[off + 1]), name, hops - 1, fuel - 1);
    }
  }

  /** Conversely, whatever the decoder accepts is spelled out by the message. */
  lemma {:induction false} DecodedIsSpelled(msg: Bytes, off: nat, fuel: nat)
    requires Decode(msg, off, fuel).Name?
    ensures var d := Decode(msg, off, fuel); Spells(msg, NOWHERE, |msg|, off, d.name, d.hops)
    decreases fuel, |msg| - off
  {
    var c := msg[off];
    if c == 0 {
    } else if c < 64 {
      DecodedIsSpelled(msg, off + 1 + c, fuel);
    } else {
      DecodedIsSpelled(msg, Target(c, msg[off + 1]), fuel - 1);
    }
  }

  /** On success the decoder has moved forward, stays inside the message, took at most `fuel`
      pointers, and every label fits the length octet. */
  lemma {:induction false} DecodeBounds(msg: Bytes, off: nat, fuel: nat)
    requires Decode(msg, off, fuel).Name?
    ensures var d := Decode(msg, off, fuel);
            off < d.next <= |msg| && d.hops <= fuel && Valid(d.name)
    decreases fuel, |msg| - off
  {
    var c := msg[off];
    if c == 0 {
    } else if c < 64 {
      DecodeBounds(msg, off + 1 + c, fuel);
    } else {
      DecodeBounds(msg, Target(c, msg[off + 1]), fuel - 1);
    }
  }

  lemma {:induction false} BadIsError(msg: Bytes, off: nat, fuel: nat)
    ensures Decode(msg, off, fuel) != Bad(NoError)
    decreases fuel, |msg| - off
  {
    if off < |msg| {
      var c := msg[off];
      if 0 < c < 64 && off + 1 + c <= |msg| {
        BadIsError(msg, off + 1 + c, fuel);
      } else if c >= 192 && off + 1 < |msg| && fuel > 0 {
        BadIsError(msg, Target(c, msg[off + 1]), fuel - 1);
      }
    }
  }

  ghost predicate Agree(a: Bytes, b: Bytes, hole: int, end: nat) {
    && end <= |a| && end <= |b|
    && forall i {:trigger a[i]} {:trigger b[i]} :: 0 <= i < end && !(hole <= i < hole + 2) ==> a[i] == b[i]
  }

  /** Names survive every write that stays out of the octets they are spelled with. */
  lemma {:induction false} SpellsStable(a: Bytes, b: Bytes, hole: int, end: nat, off: nat, name: Domain, hops: nat)
    requires Spells(a, hole, end, off, name, hops)
    requires Agree(a, b, hole, end)
    ensures Spells(b, hole, end, off, name, hops)
    decreases name, hops
  {
    var c := a[off];
    assert b[off] == c;
    if c == 0 {
    } else if c < 64 {
      assert a[off + 1..off + 1 + c] == b[off + 1..off + 1 + c];
      SpellsStable(a, b, hole, end, off + 1 + c, name.parent, hops);
    } else {
      assert b[off + 1] == a[off + 1];
      SpellsStable(a, b, hole, end, Target(c, a[off + 1]), name, hops - 1);
    }
  }

  /** The region looked at can be described more generously. */
  lemma {:induction false} SpellsWiden(msg: Bytes, hole: int, end: nat, hole': int, end': nat, off: nat, name: Domain,
                                       hops: nat)
    requires Spells(msg, hole, end, off, name, hops)
    requires end <= end' <= |msg|
    requires hole' == hole || hole' + 2 <= 0 || end <= hole'
    ensures Spells(msg, hole', end', off, name, hops)
    decreases name, hops
  {
    var c := msg[off];
    if c == 0 {
    } else if c < 64 {
      SpellsWiden(msg, hole, end, hole', end', off + 1 + c, name.parent, hops);
    } else {
      SpellsWiden(msg, hole, end, hole', end', Target(c, msg[off + 1]), name, hops - 1);
    }
  }

  // ----- The decoder itself ----------------------------------------------------

  datatype Outcome = Done(text: Bytes, octets: int, next: nat) | Failed(err: Error)

  /** What the loop ends with, from the text read so far and the moved length limit, the offset to
      go on at, the pointers followed, and the offset after the first of them. The text stands for
      |s| - (maxLen - 255) octets: each octet that escaping added has moved the limit too. */
  ghost function Finish(msg: Bytes, s: Bytes, maxLen: int, off: nat, ptr: nat, off1: nat): Outcome
    requires ptr <= MAX_POINTERS
  {
    match Decode(msg, off, MAX_POINTERS - ptr)
    case Bad(e) => Failed(e)
    case Name(p, next, _) =>
      Done(s + Text(p), |s| - (maxLen - MAX_NAME_OCTETS) + Octets(p), if ptr == 0 then next else off1)
  }

  /** One counted label: escaped, closed by a dot, and the limit moved. */
  method AppendLabel(msg: Bytes, s: Bytes, maxLen: int, off: nat, next: nat, ghost ptr: nat, ghost off1: nat)
    returns (s': Bytes, maxLen': int)
    requires 0 < off < next <= |msg| && 0 < msg[off - 1] < 64 && next == off + msg[off - 1]
    requires ptr <= MAX_POINTERS
    ensures Finish(msg, s', maxLen', next, ptr, off1) == Finish(msg, s, maxLen, off - 1, ptr, off1)
  {
    var t, extra := AppendEscaped(s, msg, off, next);
    ghost var rest := Decode(msg, next, MAX_POINTERS - ptr);
    if rest.Name? {
      Assoc(s, Escape(msg[off..next]), [DOT], Text(rest.name));
    }
    s', maxLen' := t + [DOT], maxLen + extra;
  }

  lemma Assoc(a: Bytes, b: Bytes, c: Bytes, d: Bytes)
    ensures a + (b + (c + d)) == a + b + c + d
  {}

  lemma FinishPointer(msg: Bytes, s: Bytes, maxLen: int, off: nat, ptr: nat, off1: nat, target: nat, off1': nat)
    requires 0 < off < |msg| && msg[off - 1] >= 192 && target == Target(msg[off - 1], msg[off])
    requires ptr <= MAX_POINTERS && off1' == if ptr == 0 then off + 1 else off1
    ensures ptr == MAX_POINTERS ==> Finish(msg, s, maxLen, off - 1, ptr, off1) == Failed(ErrPointers)
    ensures ptr < MAX_POINTERS ==>
              Finish(msg, s, maxLen, off - 1, ptr, off1) == Finish(msg, s, maxLen, target, ptr + 1, off1')
  {}

  /** What a caller gets for each outcome: the moving length limit amounts to 255 octets. */
  ghost predicate Returned(msg: Bytes, o: Outcome, s: Bytes, off1: nat, err: Error) {
    match o
    case Failed(e) => s == [] && off1 == |msg| && err == e != NoError
    case Done(text, octets, next) =>
      if octets > MAX_NAME_OCTETS then s == text && off1 == |msg| && err == ErrLongDomain
      else s == (if text == [] then [DOT] else text) && off1 == next && err == NoError
  }

  /** The loop of UnpackDomainName. */
  method UnpackLoop(msg: Bytes, start: nat) returns (s: Bytes, off1: nat, err: Error)
    ensures Returned(msg, Finish(msg, [], MAX_NAME_OCTETS, start, 0, 0), s, off1, err)
  {
    ghost var goal := Finish(msg, [], MAX_NAME_OCTETS, start, 0, 0);
    s, off1 := [], 0;
    var off: nat := start;
    var maxLen, ptr := MAX_NAME_OCTETS, 0;
    while true
      invariant 0 <= ptr <= MAX_POINTERS
      invariant goal == Finish(msg, s, maxLen, off, ptr, off1)
      decreases MAX_POINTERS - ptr, |msg| - off
    {
      if off >= |msg| {
        return [], |msg|, ErrBuf;
      }
      var c := msg[off];
      off := off + 1;
      if c < 64 {
        if c == 0 {
          break;
        }
        if off + c > |msg| {
          return [], |msg|, ErrBuf;
        }
        s, maxLen := AppendLabel(msg, s, maxLen, off, off + c, ptr, off1);
        off := off + c;
      } else if c >= 192 {
        if off >= |msg| {
          return [], |msg|, ErrBuf;
        }
        var c1 := msg[off];
        FinishPointer(msg, s, maxLen, off, ptr, off1, Target(c, c1), if ptr == 0 then off + 1 else off1);
        off := off + 1;
        if ptr == 0 {
          off1 := off;
        }
        ptr := ptr + 1;
        if ptr > MAX_POINTERS {
          return [], |msg|, ErrPointers;
        }
        off := Target(c, c1);
      } else {
        return [], |msg|, ErrRdata;
      }
    }
    if ptr == 0 {
      off1 := off;
    }
    assert s + [] == s;
    if |s| == 0 {
      s := [DOT];
    } else if |s| >= maxLen {
      return s, |msg|, ErrLongDomain;
    }
    err := NoError;
  }

  /** UnpackDomainName is total on every buffer and offset. It fails exactly as the reference
      decoder with ten pointers fails, rejects a name exactly when its wire form exceeds 255 octets,
      and otherwise returns the escaped text of the decoded name. */
  method UnpackDomainName(msg: Bytes, start: nat) returns (s: Bytes, off1: nat, err: Error)
    ensures match Decode(msg, start, 10)
            case Bad(e) => s == [] && off1 == |msg| && err == e != NoError
            case Name(name, next, _) =>
              if Octets(name) > 255 then s == Text(name) && off1 == |msg| && err == ErrLongDomain
              else s == Present(name) && off1 == next && err == NoError && start < off1 <= |msg|
  {
    s, off1, err := UnpackLoop(msg, start);
    var d := Decode(msg, start, MAX_POINTERS);
    if d.Name? {
      DecodeBounds(msg, start, MAX_POINTERS);
      assert [] + Text(d.name) == Text(d.name);
      if d.name.Sub? {
        TextEndsInDot(d.name);
      }
    }
  }

  lemma EscapeNext(msg: Bytes, lo: nat, j: nat)
    requires lo <= j < |msg|
    ensures Escape(msg[lo..j + 1]) == Escape(msg[lo..j]) + EscapeByte(msg[j])
  {
    assert msg[lo..j + 1][..j - lo] == msg[lo..j];
  }

  /** The escaping loop: appends msg[lo..hi] escaped, and counts the octets escaping added. */
  method AppendEscaped(s: Bytes, msg: Bytes, lo: nat, hi: nat) returns (t: Bytes, extra: nat)
    requires lo <= hi <= |msg|
    ensures t == s + Escape(msg[lo..hi])
    ensures |t| == |s| + (hi - lo) + extra
  {
    t, extra := s, 0;
    for j := lo to hi
      invariant t == s + Escape(msg[lo..j])
      invariant |t| == |s| + (j - lo) + extra
    {
      var b := msg[j];
      var e: Bytes;
      if Special(b) {
        e := [BACKSLASH, b];
        extra := extra + 1;
      } else if b < 32 || b >= 127 {
        e := [BACKSLASH] + Digits(b);
        extra := extra + 3;
      } else {
        e := [b];
      }
      EscapeNext(msg, lo, j);
      SeqAssoc(s, Escape(msg[lo..j]), e);
      t := t + e;
    }
  }
}
