/** Domain names: their labels, their presentation text, their wire form, and the parser of the text. */
module Names {

  type byte = x: int | 0 <= x < 256
  type Bytes = seq<byte>
  type Label = Bytes

  /** A name is the root, or a label under a parent name. */
  datatype Domain = Root | Sub(leaf: Label, parent: Domain)

  const DOT: byte := 46
  const BACKSLASH: byte := 92
  const ZERO: byte := 48
  const MAX_LABEL := 63
  const MAX_NAME_OCTETS := 255

  // The two-octet pointer form carries 14 bits.
  const MAX_COMPRESSION_OFFSET := 16384

  datatype Error =
    | NoError
    | ErrBuf
    | ErrFqdn
    | ErrRdata
    | ErrLongDomain
    | ErrPointers
    | ErrOverflow
    | ErrTruncated
    | Panic  // an index out of range, which stops the program

  lemma SeqAssoc(a: Bytes, b: Bytes, c: Bytes)
    ensures a + b + c == a + (b + c)
  {}

  // ----- Escaping ------------------------------------------------------------

  /** The bytes that presentation form writes with a plain backslash: . ( ) ; space @ " \ */
  predicate Special(b: byte) {
    b == DOT || b == 40 || b == 41 || b == 59 || b == 32 || b == 64 || b == 34 || b == BACKSLASH
  }

  predicate IsDigit(b: byte) {
    ZERO <= b <= ZERO + 9
  }

  lemma DigitSum(b: byte)
    ensures b / 100 * 100 + b / 10 % 10 * 10 + b % 10 == b
  {}

  /** Three decimal digits, the value a \DDD escape carries. */
  function Digits(b: byte): (r: Bytes)
    ensures |r| == 3 && IsDigit(r[0]) && IsDigit(r[1]) && IsDigit(r[2])
    ensures Value(r) == b
  {
    DigitSum(b);
    [ZERO + b / 100, ZERO + b / 10 % 10, ZERO + b % 10]
  }

  /** The byte three digits stand for; the sum is reduced to one byte, as byte arithmetic does. */
  function Value(d: Bytes): byte
    requires |d| >= 3 && IsDigit(d[0]) && IsDigit(d[1]) && IsDigit(d[2])
  {
    ((d[0] - ZERO) * 100 + (d[1] - ZERO) * 10 + (d[2] - ZERO)) % 256
  }

  function EscapeByte(b: byte): Bytes {
    if Special(b) then [BACKSLASH, b]
    else if b < 32 || b >= 127 then [BACKSLASH] + Digits(b)
    else [b]
  }

  /** How each byte is written: a backslash before one of . ( ) ; space @ " \ and three digits for what cannot be
      printed. */
  lemma EscapedByte(b: byte)
    ensures EscapeByte(b) == [92, b] <==> b in {32, 34, 40, 41, 46, 59, 64, 92}
    ensures EscapeByte(b) == [b] <==> 33 <= b <= 126 && b !in {34, 40, 41, 46, 59, 64, 92}
    ensures b < 32 || b > 126 ==>
              var r := EscapeByte(b);
              && |r| == 4 && r[0] == 92 && 48 <= r[1] <= 57 && 48 <= r[2] <= 57 && 48 <= r[3] <= 57
              && 100 * (r[1] - 48) + 10 * (r[2] - 48) + (r[3] - 48) == b
  {}

  function Escape(l: Label): Bytes {
    if l == [] then [] else Escape(l[..|l| - 1]) + EscapeByte(l[|l| - 1])
  }

  /** Every label escaped and closed by a dot. */
  function Text(name: Domain): Bytes {
    match name
    case Root => []
    case Sub(l, p) => Escape(l) + ([DOT] + Text(p))
  }

  /** The presentation form; the root name is a lone dot. */
  function Present(name: Domain): Bytes {
    if name.Root? then [DOT] else Text(name)
  }

  // ----- Wire form -----------------------------------------------------------

  ghost predicate Short(name: Domain) {
    name.Sub? ==> |name.leaf| <= MAX_LABEL && Short(name.parent)
  }

  /** Labels of 1 to 63 octets, as section 2.3.4 of RFC 1035 has them. */
  ghost predicate Valid(name: Domain): (v: bool)
    ensures v ==> Short(name)
  {
    name.Sub? ==> 1 <= |name.leaf| <= MAX_LABEL && Valid(name.parent)
  }

  /** Octets of the wire form, the closing zero included. */
  function Octets(name: Domain): nat {
    match name
    case Root => 1
    case Sub(l, p) => 1 + |l| + Octets(p)
  }

  function LabelCount(name: Domain): nat {
    match name
    case Root => 0
    case Sub(_, p) => 1 + LabelCount(p)
  }

  // ----- Parsing presentation text -------------------------------------------

  /** What the packer reads out of a text: the closed labels, and whether bytes after the last
      closing dot were dropped (they are, when the final dot is itself escaped). */
  datatype Parsed = Parsed(name: Domain, dropped: bool) | Malformed

  /** The byte an escape at the front of s stands for, and how many bytes of s it takes. */
  function Unescape(s: Bytes): (r: (byte, nat))
    requires |s| >= 2 && s[0] == BACKSLASH
    ensures 2 <= r.1 <= |s|
  {
    if |s| >= 4 && IsDigit(s[1]) && IsDigit(s[2]) && IsDigit(s[3])
    then (Value(s[1..4]), 4)
    else (s[1], 2)
  }

  /** Reads s, with cur the label under construction and first true before anything was read.
      An unescaped dot closes a label; an empty label is accepted only at the very start. */
  function Parse(s: Bytes, cur: Label, first: bool): Parsed
    decreases |s|
  {
    if s == [] then Parsed(Root, cur != [])
    else if s[0] == BACKSLASH then
      if |s| == 1 then Malformed
      else var (b, n) := Unescape(s); Parse(s[n..], cur + [b], false)
    else if s[0] == DOT then
      if (cur == [] && !first) || |cur| > MAX_LABEL then Malformed
      else
        match Parse(s[1..], [], false)
        case Malformed => Malformed
        case Parsed(p, dropped) => Parsed(Sub(cur, p), dropped)
    else Parse(s[1..], cur + [s[0]], false)
  }

  lemma {:induction false} ParseEscapedByte(b: byte, rest: Bytes, cur: Label, first: bool)
    ensures Parse(EscapeByte(b) + rest, cur, first) == Parse(rest, cur + [b], false)
  {
    var s := EscapeByte(b) + rest;
    if Special(b) {
      assert s[2..] == rest;
    } else if b < 32 || b >= 127 {
      assert s[4..] == rest;
      assert s[1..4] == Digits(b);
    } else {
      assert s[1..] == rest;
    }
  }

  lemma {:induction false} ParseEscaped(l: Label, rest: Bytes, cur: Label, first: bool)
    requires l != []
    ensures Parse(Escape(l) + rest, cur, first) == Parse(rest, cur + l, false)
    decreases |l|
  {
    var m := |l| - 1;
    var front, b := l[..m], l[m];
    var tail := EscapeByte(b) + rest;
    SeqAssoc(Escape(front), EscapeByte(b), rest);
    assert front + [b] == l;
    SeqAssoc(cur, front, [b]);
    ParseEscapedByte(b, rest, cur + front, first && m == 0);
    if m == 0 {
      assert Escape(front) + tail == tail;
      assert cur + front == cur;
    } else {
      ParseEscaped(front, tail, cur, first);
    }
  }

  /** Parsing undoes presenting, for labels made of any bytes at all. */
  lemma {:induction false} ParseText(name: Domain, first: bool)
    requires Valid(name)
    ensures Parse(Text(name), [], first) == Parsed(name, false)
  {
    hide Escape, Short;
    if name.Sub? {
      var rest := [DOT] + Text(name.parent);
      ParseEscaped(name.leaf, rest, [], first);
      assert [] + name.leaf == name.leaf;
      assert rest[1..] == Text(name.parent);
      ParseText(name.parent, false);
    }
  }

  // ----- What is refused -----------------------------------------------------

  /** Two dots back to back. */
  ghost predicate TwoDots(s: Bytes) {
    exists i :: 1 <= i < |s| && s[i - 1] == 46 == s[i]
  }

  /** Sixty-four bytes without a dot. */
  ghost predicate LongLabel(s: Bytes) {
    exists i, j :: 0 <= i && j == i + 64 <= |s| && Dotless(s, i, j)
  }

  ghost predicate Dotless(s: Bytes, i: nat, j: nat) {
    forall k :: i <= k < j && k < |s| ==> s[k] != 46
  }

  lemma TwoDotsStep(s: Bytes)
    requires s != []
    ensures TwoDots(s) <==> (|s| > 1 && s[0] == 46 == s[1]) || TwoDots(s[1..])
  {
    var t := s[1..];
    if TwoDots(s) {
      var i :| 1 <= i < |s| && s[i - 1] == 46 == s[i];
      assert i > 1 ==> t[i - 2] == 46 == t[i - 1];
    }
    if TwoDots(t) {
      var i :| 1 <= i < |t| && t[i - 1] == 46 == t[i];
      assert s[i] == 46 == s[i + 1];
    }
    if |s| > 1 && s[0] == 46 == s[1] {
      assert s[1 - 1] == 46 == s[1];
    }
  }

  /** A dot parts the bytes before it from those behind it. */
  lemma LongLabelStep(cur: Bytes, s: Bytes)
    requires 46 !in cur && s != [] && s[0] == 46
    ensures LongLabel(cur + s) <==> |cur| >= 64 || LongLabel(s[1..])
  {
    var all, t, n := cur + s, s[1..], |cur| + 1;
    assert all[|cur|] == 46;
    assert forall k :: 0 <= k < |t| ==> all[n + k] == t[k];
    if LongLabel(all) {
      var i, j :| 0 <= i && j == i + 64 <= |all| && Dotless(all, i, j);
      if i > |cur| {
        assert Dotless(t, i - n, j - n);
      }
    }
    if |cur| >= 64 {
      assert Dotless(all, 0, 64);
    }
    if LongLabel(t) {
      var i, j :| 0 <= i && j == i + 64 <= |t| && Dotless(t, i, j);
      forall k | n + i <= k < n + j && k < |all| ensures all[k] != 46 {
        assert all[k] == t[k - n];
      }
      assert Dotless(all, n + i, n + j);
    }
  }

  /** A text without escapes that ends in a dot is refused exactly when two dots follow each other in it or a label
      is longer than 63 bytes. */
  lemma {:induction false} ParseRefuses(s: Bytes, cur: Label, first: bool)
    requires 92 !in s && 46 !in cur && (if s == [] then cur == [] else s[|s| - 1] == 46)
    ensures Parse(s, cur, first).Malformed? <==>
            (cur == [] && !first && s != [] && s[0] == 46) || TwoDots(s) || LongLabel(cur + s)
    decreases |s|
  {
    hide LongLabel;
    if s == [] {
      NothingRefused();
      assert cur + s == [];
    } else {
      TwoDotsStep(s);
      hide TwoDots;
      if s[0] == 46 {
        LongLabelStep(cur, s);
        assert [] + s[1..] == s[1..];
        ParseRefuses(s[1..], [], false);
      } else {
        assert cur + [s[0]] + s[1..] == cur + s;
        ParseRefuses(s[1..], cur + [s[0]], false);
      }
    }
  }

  lemma NothingRefused()
    ensures !LongLabel([]) && !TwoDots([])
  {}

  /** Three digits above 255 are reduced to one byte; fewer than three stand for themselves. */
  lemma EscapeOverflow()
    ensures Parse([92, 50, 53, 54, 46], [], true) == Parsed(Sub([0], Root), false)
    ensures Parse([92, 50, 53, 46], [], true) == Parsed(Sub([50, 53], Root), false)
  {
    OneLabel([0]);
    OneLabel([50, 53]);
    var s: Bytes, t: Bytes, u: Bytes := [92, 50, 53, 54, 46], [92, 50, 53, 46], [53, 46];
    assert s[1..4] == [50, 53, 54] && Unescape(s) == (0, 4) && s[4..] == [46] && [] + [0] == [0];
    assert Parse(s, [], true) == Parse([46], [0], false);
    assert Unescape(t) == (50, 2) && t[2..] == u && u[1..] == [46] && [50] + [53] == [50, 53] && [] + [50] == [50];
    assert Parse(t, [], true) == Parse(u, [50], false);
    assert Parse(u, [50], false) == Parse([46], [50, 53], false);
  }

  lemma OneLabel(l: Label)
    requires 1 <= |l| <= 63
    ensures Parse([46], l, false) == Parsed(Sub(l, Root), false)
  {
    assert [46][1..] == [];
  }

  lemma TextEndsInDot(name: Domain)
    requires name.Sub?
    ensures Text(name) != [] && Text(name)[|Text(name)| - 1] == DOT
  {
    if name.parent.Sub? {
      TextEndsInDot(name.parent);
    }
  }
}
