/** The NSEC type bitmap: blocks of (window, length, octets), one bit per type (section 4.1.2 of RFC 4034). */
module Nsec {
  import opened Names

  // ----- Bits ----------------------------------------------------------------------------------

  /** Bit i of v, counted from the least significant. */
  predicate LowBit(v: nat, i: nat) {
    if i == 0 then v % 2 == 1 else LowBit(v / 2, i - 1)
  }

  /** v | 1 << i */
  function Or(v: nat, i: nat): nat {
    if i == 0 then v / 2 * 2 + 1 else Or(v / 2, i - 1) * 2 + v % 2
  }

  lemma {:induction false} OrBits(v: nat, i: nat, j: nat)
    ensures LowBit(Or(v, i), j) <==> j == i || LowBit(v, j)
  {
    if i > 0 && j > 0 {
      OrBits(v / 2, i - 1, j - 1);
    }
  }

  lemma {:induction false} OrRoom(v: nat, i: nat, n: nat)
    requires i < n && v < Pow2(n)
    ensures Or(v, i) < Pow2(n)
  {
    assert Pow2(n) == 2 * Pow2(n - 1) && v / 2 < Pow2(n - 1);
    if i > 0 {
      OrRoom(v / 2, i - 1, n - 1);
      hide Or, Pow2;
    }
  }

  function Pow2(n: nat): nat {
    if n == 0 then 1 else 2 * Pow2(n - 1)
  }

  /** Bit k of an octet, counted from the most significant as the bitmap does. */
  predicate Bit(b: byte, k: nat)
    requires k < 8
  {
    LowBit(b, 7 - k)
  }

  /** b |= byte(1 << (7 - k)) */
  function SetBit(b: byte, k: nat): byte
    requires k < 8
  {
    assert Pow2(8) == 256;
    OrRoom(b, 7 - k, 8);
    Or(b, 7 - k)
  }

  lemma SetBitBits(b: byte, k: nat)
    requires k < 8
    ensures forall j :: 0 <= j < 8 ==> (Bit(SetBit(b, k), j) <==> j == k || Bit(b, j))
  {
    forall j | 0 <= j < 8 ensures Bit(SetBit(b, k), j) <==> j == k || Bit(b, j) {
      OrBits(b, 7 - k, 7 - j);
    }
  }

  /** The bit in plain arithmetic. */
  lemma BitValue(b: byte, k: nat)
    requires k < 8
    ensures Bit(b, k) <==> b / [128, 64, 32, 16, 8, 4, 2, 1][k] % 2 == 1
  {
    LowBitValue(b, 7 - k);
  }

  lemma {:induction false} LowBitValue(v: nat, i: nat)
    requires i < 8
    ensures LowBit(v, i) <==> v / [1, 2, 4, 8, 16, 32, 64, 128][i] % 2 == 1
  {
    if i > 0 {
      LowBitValue(v / 2, i - 1);
      HalfWeight(v, i);
    }
  }

  lemma HalfWeight(v: nat, i: nat)
    requires 0 < i < 8
    ensures v / 2 / [1, 2, 4, 8, 16, 32, 64, 128][i - 1] == v / [1, 2, 4, 8, 16, 32, 64, 128][i]
  {}

  lemma {:induction false} OrZero(i: nat)
    requires i < 8
    ensures Or(0, i) == [1, 2, 4, 8, 16, 32, 64, 128][i]
  {
    if i > 0 {
      OrZero(i - 1);
    }
  }

  /** The octet of a lone bit, the first being the most significant. */
  lemma SetBitValue(k: nat)
    requires k < 8
    ensures SetBit(0, k) == [128, 64, 32, 16, 8, 4, 2, 1][k]
  {
    OrZero(7 - k);
  }

  /** An octet is determined by its bits. */
  lemma {:induction false} LowBitsDetermine(v: nat, w: nat, n: nat)
    requires v < Pow2(n) && w < Pow2(n) && forall i :: 0 <= i < n ==> (LowBit(v, i) <==> LowBit(w, i))
    ensures v == w
  {
    if n > 0 {
      assert LowBit(v, 0) <==> LowBit(w, 0);
      forall i | 0 <= i < n - 1 ensures LowBit(v / 2, i) <==> LowBit(w / 2, i) {
        assert LowBit(v, i + 1) <==> LowBit(w, i + 1);
      }
      assert Pow2(n) == 2 * Pow2(n - 1);
      LowBitsDetermine(v / 2, w / 2, n - 1);
    }
  }

  lemma BitsDetermine(b: byte, c: byte)
    requires forall k :: 0 <= k < 8 ==> (Bit(b, k) <==> Bit(c, k))
    ensures b == c
  {
    assert Pow2(8) == 256;
    forall i | 0 <= i < 8 ensures LowBit(b, i) <==> LowBit(c, i) {
      assert Bit(b, 7 - i) <==> Bit(c, 7 - i);
    }
    LowBitsDetermine(b, c, 8);
  }

  // ----- Blocks --------------------------------------------------------------------------------

  /** A block of the bitmap: where it starts, its window, and the number of its octets. */
  datatype Block = Block(start: nat, window: nat, length: nat)

  ghost predicate BlockAt(m: Bytes, b: Block) {
    && 1 <= b.length <= 32 && b.start + 2 + b.length <= |m|
    && m[b.start] == b.window && m[b.start + 1] == b.length
  }

  /** The octets from start to end are these blocks, with increasing windows. */
  ghost predicate Layout(m: Bytes, start: nat, blocks: seq<Block>, end: nat) {
    && (forall i :: 0 <= i < |blocks| ==> BlockAt(m, blocks[i]))
    && (forall i, j :: 0 <= i < j < |blocks| ==> blocks[i].window < blocks[j].window)
    && (blocks != [] ==> blocks[0].start == start)
    && (forall i, j :: 0 <= i && j == i + 1 < |blocks| ==> blocks[j].start == After(blocks[i]))
    && end == if blocks == [] then start else After(blocks[|blocks| - 1])
  }

  function After(b: Block): nat {
    b.start + 2 + b.length
  }

  /** The block has room for type t. */
  predicate Covers(b: Block, t: nat) {
    b.window == t / 256 && t % 256 / 8 < b.length
  }

  /** The bit of type t is set in the block. */
  predicate Has(m: Bytes, b: Block, t: nat) {
    Covers(b, t) && b.start + 2 + t % 256 / 8 < |m| && Bit(m[b.start + 2 + t % 256 / 8], t % 8)
  }

  predicate Increasing(ts: seq<nat>) {
    forall i, j :: 0 <= i < j < |ts| ==> ts[i] < ts[j]
  }

  lemma NoElements(b: seq<nat>)
    requires forall t: nat :: t !in b
    ensures b == []
  {
    assert forall x :: x in multiset(b) ==> x in b;
    assert multiset(b) == multiset{};
    assert |multiset(b)| == |b|;
  }

  /** A strictly increasing list is determined by its elements. */
  lemma {:induction false} IncreasingUnique(a: seq<nat>, b: seq<nat>)
    requires Increasing(a) && Increasing(b) && forall t: nat :: t in a <==> t in b
    ensures a == b
    decreases |a|
  {
    if a == [] {
      NoElements(b);
    } else {
      assert a[0] in b;
      assert b[0] in a;
      assert a[0] == b[0];
      var a', b' := a[1..], b[1..];
      forall t: nat ensures t in a' <==> t in b' {
        assert t in a <==> t == a[0] || t in a';
        assert t in b <==> t == b[0] || t in b';
        assert a[0] !in a' && b[0] !in b';
      }
      IncreasingUnique(a', b');
      assert a == [a[0]] + a' && b == [b[0]] + b';
    }
  }

  // ----- Unpacking -------------------------------------------------------------------------------

  /** The octets from off to the end of the message are well-formed blocks with windows above last. */
  predicate WellFormed(m: Bytes, off: nat, last: int)
    decreases |m| - off
  {
    off >= |m| ||
    (off + 2 <= |m| && m[off] > last && 1 <= m[off + 1] <= 32 && off + 2 + m[off + 1] <= |m|
     && WellFormed(m, off + 2 + m[off + 1], m[off]))
  }

  /** A laid out bitmap is accepted from every one of its blocks on. */
  lemma {:induction false} LayoutWellFormed(m: Bytes, start: nat, blocks: seq<Block>, i: nat)
    requires Layout(m, start, blocks, |m|) && i <= |blocks|
    ensures var off := if i < |blocks| then blocks[i].start else |m|;
            WellFormed(m, off, if i == 0 then -1 else blocks[i - 1].window)
    decreases |blocks| - i
  {
    if i < |blocks| {
      LayoutWellFormed(m, start, blocks, i + 1);
      assert BlockAt(m, blocks[i]);
    }
  }

  /** All types of the list lie below n. */
  predicate Below(ts: seq<nat>, n: nat) {
    forall i :: 0 <= i < |ts| ==> ts[i] < n
  }

  /** The eight bits of one octet, as types counted from base. */
  method AppendOctet(nsec: seq<nat>, b: byte, base: nat) returns (r: seq<nat>)
    requires Increasing(nsec) && Below(nsec, base)
    ensures Increasing(r) && Below(r, base + 8)
    ensures forall t: nat :: t in r <==> t in nsec || (base <= t < base + 8 && Bit(b, t - base))
  {
    r := nsec;
    for k := 0 to 8
      invariant Increasing(r) && Below(r, base + k)
      invariant forall t: nat :: t in r <==> t in nsec || (base <= t < base + k && Bit(b, t - base))
    {
      if Bit(b, k) {
        r := r + [base + k];
      }
    }
  }

  /** The octets of one block. */
  method AppendBlock(nsec: seq<nat>, m: Bytes, b: Block) returns (r: seq<nat>)
    requires BlockAt(m, b) && Increasing(nsec) && Below(nsec, b.window * 256)
    ensures Increasing(r) && Below(r, (b.window + 1) * 256)
    ensures forall t: nat :: t in r <==> t in nsec || Has(m, b, t)
  {
    r := nsec;
    for j := 0 to b.length
      invariant Increasing(r) && Below(r, b.window * 256 + j * 8)
      invariant forall t: nat :: t in r <==> t in nsec || (Has(m, b, t) && t % 256 / 8 < j)
    {
      ghost var r0 := r;
      var base := b.window * 256 + j * 8;
      r := AppendOctet(r, m[b.start + 2 + j], base);
      forall t: nat ensures t in r <==> t in nsec || (Has(m, b, t) && t % 256 / 8 < j + 1) {
        OctetTypes(m, b, j, t);
      }
    }
  }

  lemma OctetTypes(m: Bytes, b: Block, j: nat, t: nat)
    requires BlockAt(m, b) && j < b.length
    ensures var base := b.window * 256 + j * 8;
            (base <= t < base + 8 && Bit(m[b.start + 2 + j], t - base)) <==> Has(m, b, t) && t % 256 / 8 == j
  {
    var base := b.window * 256 + j * 8;
    if base <= t < base + 8 {
      assert t / 256 == b.window && t % 256 == j * 8 + (t - base) && t % 8 == t - base;
    }
  }

  lemma LayoutExtend(m: Bytes, start: nat, blocks: seq<Block>, off: nat, b: Block)
    requires Layout(m, start, blocks, off) && BlockAt(m, b) && b.start == off
    requires blocks != [] ==> blocks[|blocks| - 1].window < b.window
    ensures Layout(m, start, blocks + [b], After(b))
  {}

  /** unpackDataNsec: accepts exactly the well-formed bitmaps, and returns the types whose bits are set, each
      once and in increasing order. */
  method UnpackDataNsec(m: Bytes, start: nat) returns (nsec: seq<nat>, off: nat, err: Error, ghost blocks: seq<Block>)
    requires start <= |m|
    ensures err == NoError <==> WellFormed(m, start, -1)
    ensures err == NoError ==> off == |m| && Layout(m, start, blocks, |m|)
    ensures Increasing(nsec)
    ensures err == NoError ==> forall t: nat :: t in nsec <==> exists i :: 0 <= i < |blocks| && Has(m, blocks[i], t)
  {
    hide Layout, Has, Increasing;
    nsec, off, err, blocks := [], start, NoError, [];
    var lastwindow: int := -1;
    NothingUnpacked(m, start);
    while off < |m|
      invariant start <= off <= |m| && err == NoError && -1 <= lastwindow
      invariant Layout(m, start, blocks, off)
      invariant blocks == [] ==> lastwindow == -1
      invariant blocks != [] ==> lastwindow == blocks[|blocks| - 1].window
      invariant WellFormed(m, start, -1) <==> WellFormed(m, off, lastwindow)
      invariant Increasing(nsec) && Below(nsec, (lastwindow + 1) * 256)
      invariant forall t: nat :: t in nsec <==> exists i :: 0 <= i < |blocks| && Has(m, blocks[i], t)
    {
      if off + 2 > |m| {
        return nsec, |m|, ErrOverflow, blocks;
      }
      var window, length := m[off], m[off + 1];
      if window <= lastwindow || length == 0 || length > 32 || off + 2 + length > |m| {
        return nsec, |m|, ErrRdata, blocks;
      }
      var b := Block(off, window, length);
      ghost var nsec0, blocks0 := nsec, blocks;
      nsec := AppendBlock(nsec, m, b);
      LayoutExtend(m, start, blocks, off, b);
      blocks := blocks + [b];
      forall t: nat ensures t in nsec <==> exists i :: 0 <= i < |blocks| && Has(m, blocks[i], t) {
        HasExtended(m, blocks0, b, t);
      }
      off := off + 2 + length;
      lastwindow := window;
    }
  }

  lemma NothingUnpacked(m: Bytes, start: nat)
    ensures Layout(m, start, [], start) && Increasing([])
  {}

  lemma HasExtended(m: Bytes, blocks: seq<Block>, b: Block, t: nat)
    ensures (exists i :: 0 <= i < |blocks + [b]| && Has(m, (blocks + [b])[i], t)) <==>
            (exists i :: 0 <= i < |blocks| && Has(m, blocks[i], t)) || Has(m, b, t)
  {
    var bs := blocks + [b];
    assert bs[|blocks|] == b;
    assert forall i :: 0 <= i < |blocks| ==> bs[i] == blocks[i];
  }

  // ----- Packing -----------------------------------------------------------------------------------

  function Window(t: nat): nat {
    t / 256
  }

  /** Octets a block needs to reach type t. */
  function Length(t: nat): (n: nat)
    ensures 1 <= n <= 32
  {
    t % 256 / 8 + 1
  }

  /** The order the packer insists on: the octet numbers never fall. */
  predicate Ordered(ts: seq<nat>) {
    forall i, j :: 0 <= i <= j < |ts| ==> ts[i] / 8 <= ts[j] / 8
  }

  /** Octets the bitmap of an ordered list takes. */
  function Need(ts: seq<nat>): int {
    if ts == [] then 0
    else
      var t, front := ts[|ts| - 1], ts[..|ts| - 1];
      if front != [] && Window(front[|front| - 1]) == Window(t)
      then Need(front) + Length(t) - Length(front[|front| - 1])
      else Need(front) + 2 + Length(t)
  }

  /** The blocks an ordered list is laid out in from start on: one for each window, as long as its last type needs. */
  function BlocksOf(ts: seq<nat>, start: nat): seq<Block> {
    if ts == [] then []
    else
      var t, bs := ts[|ts| - 1], BlocksOf(ts[..|ts| - 1], start);
      if bs == [] then [Block(start, Window(t), Length(t))]
      else
        var b := bs[|bs| - 1];
        if b.window == Window(t) then bs[|bs| - 1 := Block(b.start, Window(t), Length(t))]
        else bs + [Block(After(b), Window(t), Length(t))]
  }

  lemma LengthGrows(s: nat, t: nat)
    requires s / 8 <= t / 8 && Window(s) == Window(t)
    ensures Length(s) <= Length(t)
  {}

  lemma {:induction false} NeedGrows(ts: seq<nat>, k: nat)
    requires Ordered(ts) && k <= |ts|
    ensures Ordered(ts[..k]) && Need(ts[..k]) <= Need(ts)
    decreases |ts|
  {
    hide Window, Length;
    if k < |ts| {
      var front, t := ts[..|ts| - 1], ts[|ts| - 1];
      assert front[..k] == ts[..k];
      NeedGrows(front, k);
      if front != [] && Window(front[|front| - 1]) == Window(t) {
        LengthGrows(front[|front| - 1], t);
      }
    } else {
      assert ts[..k] == ts;
    }
  }

  function Types(ts: seq<nat>): set<nat> {
    set t | t in ts
  }

  lemma TypesAppend(ts: seq<nat>, t: nat)
    ensures Types(ts + [t]) == Types(ts) + {t}
  {}

  /** In each block a bit is set exactly when it was set before or its type is in the list. */
  ghost predicate Bits(m0: Bytes, m: Bytes, blocks: seq<Block>, types: set<nat>) {
    forall i, t: nat :: 0 <= i < |blocks| && Covers(blocks[i], t) ==>
      (Has(m, blocks[i], t) <==> Has(m0, blocks[i], t) || t in types)
  }

  lemma BitsAt(m0: Bytes, m: Bytes, blocks: seq<Block>, types: set<nat>, i: nat, t: nat)
    requires Bits(m0, m, blocks, types) && i < |blocks| && Covers(blocks[i], t)
    ensures Has(m, blocks[i], t) <==> Has(m0, blocks[i], t) || t in types
  {}

  ghost predicate Covered(blocks: seq<Block>, types: set<nat>) {
    forall t :: t in types ==> exists i :: 0 <= i < |blocks| && Covers(blocks[i], t)
  }

  /** What a run of the packer has made of the buffer m0. */
  ghost predicate Packed(m0: Bytes, m: Bytes, start: nat, blocks: seq<Block>, end: nat, types: set<nat>) {
    && |m| == |m0| && start <= end <= |m| && Layout(m, start, blocks, end)
    && (forall x :: (0 <= x < start || end <= x < |m|) ==> m[x] == m0[x])
    && Bits(m0, m, blocks, types) && Covered(blocks, types)
  }

  /** The three octets the packer writes for t in the block at off. */
  function Written(m: Bytes, off: nat, t: nat): (r: Bytes)
    requires off + 2 + Length(t) <= |m| && t < 0x1_0000
    ensures |r| == |m| && r[off] == Window(t) && r[off + 1] == Length(t)
    ensures forall x :: 0 <= x < |m| && x != off && x != off + 1 && x != off + 1 + Length(t) ==> r[x] == m[x]
  {
    var m1 := m[off := Window(t)][off + 1 := Length(t)];
    m1[off + 1 + Length(t) := SetBit(m1[off + 1 + Length(t)], t % 8)]
  }

  /** Writing t changes, in the octets after the block header, only the bit of t. */
  lemma WrittenBits(m: Bytes, off: nat, t: nat, x: nat, k: nat)
    requires off + 2 + Length(t) <= |m| && t < 0x1_0000 && off + 2 <= x < |m| && k < 8
    ensures Bit(Written(m, off, t)[x], k) <==> Bit(m[x], k) || (x == off + 1 + Length(t) && k == t % 8)
  {
    hide SetBit, Bit;
    if x == off + 1 + Length(t) {
      SetBitBits(m[x], t % 8);
    }
  }

  /** Has depends only on the octets of the block. */
  lemma HasSame(m: Bytes, m': Bytes, b: Block, t: nat)
    requires var x := b.start + 2 + t % 256 / 8; |m| == |m'| && (Covers(b, t) && x < |m| ==> m[x] == m'[x])
    ensures Has(m, b, t) <==> Has(m', b, t)
  {}

  /** Blocks before the one written to keep their bits. */
  lemma EarlierBits(m0: Bytes, m: Bytes, start: nat, blocks: seq<Block>, end: nat, types: set<nat>, t: nat, off: nat,
                    n: nat, i: nat, u: nat)
    requires Packed(m0, m, start, blocks, end, types) && t < 0x1_0000 && off + 2 + Length(t) <= |m|
    requires n <= |blocks| && (forall k :: 0 <= k < n ==> After(blocks[k]) <= off && blocks[k].window < Window(t))
    requires i < n && Covers(blocks[i], u)
    ensures Has(Written(m, off, t), blocks[i], u) <==> Has(m0, blocks[i], u) || u in types + {t}
  {
    hide Bit, SetBit;
    BitsAt(m0, m, blocks, types, i, u);
    HasSame(m, Written(m, off, t), blocks[i], u);
  }

  /** In an ordered layout earlier blocks end before later ones start. */
  lemma {:induction false} Earlier(m: Bytes, start: nat, blocks: seq<Block>, end: nat, i: nat, j: nat)
    requires Layout(m, start, blocks, end) && i < j < |blocks|
    ensures After(blocks[i]) <= blocks[j].start
    decreases j - i
  {
    if i + 1 < j {
      Earlier(m, start, blocks, end, i, j - 1);
    }
  }

  lemma BeforeEnd(m: Bytes, start: nat, blocks: seq<Block>, end: nat)
    requires Layout(m, start, blocks, end)
    ensures forall i :: 0 <= i < |blocks| ==> start <= blocks[i].start && After(blocks[i]) <= end
  {
    forall i | 0 <= i < |blocks| ensures start <= blocks[i].start && After(blocks[i]) <= end {
      if i + 1 < |blocks| {
        Earlier(m, start, blocks, end, i, |blocks| - 1);
      }
      if i > 0 {
        assert blocks[0].start == start;
        Earlier(m, start, blocks, end, 0, i);
      }
    }
  }

  lemma LayoutKept(m: Bytes, m': Bytes, start: nat, blocks: seq<Block>, end: nat)
    requires Layout(m, start, blocks, end) && |m'| == |m| && end <= |m| && forall x :: 0 <= x < end ==> m'[x] == m[x]
    ensures Layout(m', start, blocks, end)
  {
    BeforeEnd(m, start, blocks, end);
    forall k | 0 <= k < |blocks| ensures BlockAt(m', blocks[k]) {
      assert BlockAt(m, blocks[k]);
    }
  }

  /** A type in a window above all others starts a new block. */
  lemma NewBlock(m0: Bytes, m: Bytes, start: nat, blocks: seq<Block>, end: nat, types: set<nat>, t: nat)
    requires Packed(m0, m, start, blocks, end, types) && t < 0x1_0000 && end + 2 + Length(t) <= |m|
    requires blocks != [] ==> blocks[|blocks| - 1].window < Window(t)
    ensures var b := Block(end, Window(t), Length(t));
            Packed(m0, Written(m, end, t), start, blocks + [b], After(b), types + {t})
  {
    hide Bits, Covered, Written, Window, Length;
    var b, m' := Block(end, Window(t), Length(t)), Written(m, end, t);
    BeforeEnd(m, start, blocks, end);
    LayoutKept(m, m', start, blocks, end);
    LayoutExtend(m', start, blocks, end, b);
    assert forall k :: 0 <= k < |blocks| ==> blocks[k].window < Window(t);
    NewBlockBits(m0, m, start, blocks, end, types, t);
    NewCovered(blocks, types, end, t);
    assert forall x :: (0 <= x < start || After(b) <= x < |m|) ==> m'[x] == m0[x];
  }

  lemma NewBlockBits(m0: Bytes, m: Bytes, start: nat, blocks: seq<Block>, end: nat, types: set<nat>, t: nat)
    requires Packed(m0, m, start, blocks, end, types) && t < 0x1_0000 && end + 2 + Length(t) <= |m|
    requires forall k :: 0 <= k < |blocks| ==> blocks[k].window < Window(t)
    ensures Bits(m0, Written(m, end, t), blocks + [Block(end, Window(t), Length(t))], types + {t})
  {
    hide Has, Covers, Written, Window, Length, Layout;
    var b, m' := Block(end, Window(t), Length(t)), Written(m, end, t);
    var blocks', types' := blocks + [b], types + {t};
    assert forall k :: 0 <= k < |blocks| ==> After(blocks[k]) <= end by { BeforeEnd(m, start, blocks, end); }
    forall i, u: nat | 0 <= i < |blocks'| && Covers(blocks'[i], u)
      ensures Has(m', blocks'[i], u) <==> Has(m0, blocks'[i], u) || u in types'
    {
      if i < |blocks| {
        EarlierBits(m0, m, start, blocks, end, types, t, end, |blocks|, i, u);
      } else {
        NewBits(m0, m, start, blocks, end, types, t, u);
      }
    }
  }

  lemma NewBits(m0: Bytes, m: Bytes, start: nat, blocks: seq<Block>, end: nat, types: set<nat>, t: nat, u: nat)
    requires Packed(m0, m, start, blocks, end, types) && t < 0x1_0000 && end + 2 + Length(t) <= |m|
    requires forall k :: 0 <= k < |blocks| ==> blocks[k].window < Window(t)
    requires Covers(Block(end, Window(t), Length(t)), u)
    ensures Has(Written(m, end, t), Block(end, Window(t), Length(t)), u) <==>
              Has(m0, Block(end, Window(t), Length(t)), u) || u in types + {t}
  {
    hide Bit, SetBit, Written;
    WrittenBits(m, end, t, end + 2 + u % 256 / 8, u % 8);
    assert u !in types;
    assert m[end + 2 + u % 256 / 8] == m0[end + 2 + u % 256 / 8];
    SameType(t, u);
  }

  /** Window, octet and bit determine the type. */
  lemma SameType(t: nat, u: nat)
    requires Window(t) == Window(u)
    ensures t == u <==> t % 256 / 8 == u % 256 / 8 && t % 8 == u % 8
  {}

  lemma NewCovered(blocks: seq<Block>, types: set<nat>, off: nat, t: nat)
    requires Covered(blocks, types)
    ensures Covered(blocks + [Block(off, Window(t), Length(t))], types + {t})
  {
    var b := Block(off, Window(t), Length(t));
    var bs := blocks + [b];
    forall u | u in types + {t} ensures exists i :: 0 <= i < |bs| && Covers(bs[i], u) {
      if u == t {
        assert Covers(bs[|blocks|], u);
      } else {
        var i :| 0 <= i < |blocks| && Covers(blocks[i], u);
        assert Covers(bs[i], u);
      }
    }
  }

  lemma WidenLayout(m: Bytes, m': Bytes, start: nat, blocks: seq<Block>, end: nat, t: nat)
    requires Layout(m, start, blocks, end) && blocks != [] && |m'| == |m| && t < 0x1_0000
    requires var b := blocks[|blocks| - 1]; b.window == Window(t) && b.start + 2 + Length(t) <= |m|
    requires var b := blocks[|blocks| - 1]; m' == Written(m, b.start, t)
    ensures var b := blocks[|blocks| - 1];
            Layout(m', start, blocks[|blocks| - 1 := b.(length := Length(t))], b.start + 2 + Length(t))
  {
    hide Written;
    var n := |blocks| - 1;
    var blocks' := blocks[n := blocks[n].(length := Length(t))];
    forall k | 0 <= k < |blocks'| ensures BlockAt(m', blocks'[k]) {
      assert BlockAt(m, blocks[k]);
      if k < n {
        Earlier(m, start, blocks, end, k, n);
      }
    }
  }

  /** A type in the last window, at or after its last octet, widens the last block. */
  lemma WidenBlock(m0: Bytes, m: Bytes, start: nat, blocks: seq<Block>, end: nat, types: set<nat>, t: nat)
    requires Packed(m0, m, start, blocks, end, types) && t < 0x1_0000 && blocks != []
    requires var b := blocks[|blocks| - 1];
             b.window == Window(t) && b.length <= Length(t) && b.start + 2 + Length(t) <= |m|
    ensures var b := blocks[|blocks| - 1];
            Packed(m0, Written(m, b.start, t), start, blocks[|blocks| - 1 := b.(length := Length(t))],
              b.start + 2 + Length(t), types + {t})
  {
    hide Bits, Covered, Written, Window, Length;
    var n := |blocks| - 1;
    var b := blocks[n];
    var m' := Written(m, b.start, t);
    WidenLayout(m, m', start, blocks, end, t);
    BeforeEnd(m, start, blocks, end);
    WidenBlockBits(m0, m, start, blocks, end, types, t);
    WidenCovered(blocks, types, t);
    assert forall x :: (0 <= x < start || b.start + 2 + Length(t) <= x < |m|) ==> m'[x] == m0[x];
  }

  lemma WidenBlockBits(m0: Bytes, m: Bytes, start: nat, blocks: seq<Block>, end: nat, types: set<nat>, t: nat)
    requires Packed(m0, m, start, blocks, end, types) && t < 0x1_0000 && blocks != []
    requires var b := blocks[|blocks| - 1];
             b.window == Window(t) && b.length <= Length(t) && b.start + 2 + Length(t) <= |m|
    ensures var n := |blocks| - 1; var b := blocks[n];
            Bits(m0, Written(m, b.start, t), blocks[n := b.(length := Length(t))], types + {t})
  {
    hide Has, Covers, Written, Window, Length;
    var n := |blocks| - 1;
    var b := blocks[n];
    var m', blocks', types' := Written(m, b.start, t), blocks[n := b.(length := Length(t))], types + {t};
    forall k | 0 <= k < n ensures After(blocks[k]) <= b.start {
      Earlier(m, start, blocks, end, k, n);
    }
    forall i, u: nat | 0 <= i < |blocks'| && Covers(blocks'[i], u)
      ensures Has(m', blocks'[i], u) <==> Has(m0, blocks'[i], u) || u in types'
    {
      if i < n {
        EarlierBits(m0, m, start, blocks, end, types, t, b.start, n, i, u);
      } else {
        WidenedBits(m0, m, start, blocks, end, types, t, u);
      }
    }
  }

  lemma WidenedBits(m0: Bytes, m: Bytes, start: nat, blocks: seq<Block>, end: nat, types: set<nat>, t: nat, u: nat)
    requires Packed(m0, m, start, blocks, end, types) && t < 0x1_0000 && blocks != []
    requires var b := blocks[|blocks| - 1];
             b.window == Window(t) && b.length <= Length(t) && b.start + 2 + Length(t) <= |m|
    requires Covers(blocks[|blocks| - 1].(length := Length(t)), u)
    ensures var b := blocks[|blocks| - 1]; var b' := b.(length := Length(t));
            Has(Written(m, b.start, t), b', u) <==> Has(m0, b', u) || u in types + {t}
  {
    hide Bit, SetBit, Written;
    var n := |blocks| - 1;
    var b := blocks[n];
    var x := b.start + 2 + u % 256 / 8;
    WrittenBits(m, b.start, t, x, u % 8);
    SameType(t, u);
    if u % 256 / 8 < b.length {
      BitsAt(m0, m, blocks, types, n, u);
    } else {
      assert m[x] == m0[x];
      assert forall i :: 0 <= i < |blocks| ==> !Covers(blocks[i], u);
      assert u !in types;
    }
  }

  lemma WidenCovered(blocks: seq<Block>, types: set<nat>, t: nat)
    requires Covered(blocks, types) && blocks != []
    requires blocks[|blocks| - 1].window == Window(t) && blocks[|blocks| - 1].length <= Length(t)
    ensures var n := |blocks| - 1; Covered(blocks[n := blocks[n].(length := Length(t))], types + {t})
  {
    var n := |blocks| - 1;
    var bs := blocks[n := blocks[n].(length := Length(t))];
    forall u | u in types + {t} ensures exists i :: 0 <= i < |bs| && Covers(bs[i], u) {
      if u == t {
        assert Covers(bs[n], u);
      } else {
        var i :| 0 <= i < |blocks| && Covers(blocks[i], u);
        assert Covers(bs[i], u);
      }
    }
  }

  /** Sets window, length and bit of type t in the block at off. */
  method WriteType(msg: array<byte>, off: nat, t: nat)
    requires off + 2 + Length(t) <= msg.Length && t < 0x1_0000
    modifies msg
    ensures msg[..] == Written(old(msg[..]), off, t)
  {
    hide SetBit;
    var length := Length(t);
    msg[off] := Window(t);
    msg[off + 1] := length;
    msg[off + 1 + length] := SetBit(msg[off + 1 + length], t % 8);
  }

  /** packDataNsec: succeeds exactly when the list is ordered by octet and its bitmap fits, and then lays out
      blocks in which a bit is set when its type is listed or was set in the buffer before. */
  method PackDataNsec(bitmap: seq<nat>, msg: array<byte>, start: nat)
    returns (off: nat, err: Error, ghost blocks: seq<Block>)
    requires forall i :: 0 <= i < |bitmap| ==> bitmap[i] < 0x1_0000
    requires start <= msg.Length
    modifies msg
    ensures err == NoError <==> Ordered(bitmap) && start + Need(bitmap) <= msg.Length
    ensures err == NoError ==> off == start + Need(bitmap) && blocks == BlocksOf(bitmap, start)
    ensures err == NoError ==> Packed(old(msg[..]), msg[..], start, blocks, off, Types(bitmap))
    ensures err != NoError ==> off == msg.Length
  {
    hide Packed, Written, Window, Length, Need, Types, Ordered, BlocksOf;
    off, err, blocks := start, NoError, [];
    EmptyPacked(msg[..], start);
    NoBlocks(start);
    if |bitmap| == 0 {
      return;
    }
    ghost var m0 := msg[..];
    var lastwindow, lastlength: nat := 0, 0;
    assert bitmap[..0] == [];
    for j := 0 to |bitmap|
      invariant Ordered(bitmap[..j]) && start + Need(bitmap[..j]) == if j == 0 then start else off + 2 + lastlength
      invariant Packed(m0, msg[..], start, blocks, if j == 0 then start else off + 2 + lastlength, Types(bitmap[..j]))
      invariant j == 0 ==> off == start && lastwindow == 0 && lastlength == 0 && blocks == []
      invariant j > 0 ==> lastwindow == Window(bitmap[j - 1]) && lastlength == Length(bitmap[j - 1])
      invariant j > 0 ==> blocks != [] && blocks[|blocks| - 1] == Block(off, lastwindow, lastlength)
      invariant j > 0 ==> off + 2 + lastlength <= msg.Length
      invariant blocks == BlocksOf(bitmap[..j], start)
    {
      var t := bitmap[j];
      var window, length := Window(t), Length(t);
      NextTypes(bitmap, j);
      NextNeed(bitmap, j);
      NextBlocks(bitmap, j, start);
      ghost var end: nat, m, first := if j == 0 then start else off + 2 + lastlength, msg[..], j == 0;
      if window > lastwindow && lastlength != 0 {
        off := off + lastlength + 2;
        lastlength := 0;
      }
      if window < lastwindow || length < lastlength {
        return msg.Length, ErrRdata, blocks;
      }
      if off + 2 + length > msg.Length {
        return msg.Length, ErrOverflow, blocks;
      }
      WriteType(msg, off, t);
      if lastlength == 0 {
        NewBlock(m0, m, start, blocks, end, Types(bitmap[..j]), t);
        blocks := blocks + [Block(off, window, length)];
      } else {
        WidenBlock(m0, m, start, blocks, end, Types(bitmap[..j]), t);
        blocks := blocks[|blocks| - 1 := Block(off, window, length)];
      }
      lastwindow, lastlength := window, length;
    }
    assert bitmap[..|bitmap|] == bitmap;
    off := off + lastlength + 2;
  }

  lemma EmptyPacked(m: Bytes, start: nat)
    requires start <= |m|
    ensures Packed(m, m, start, [], start, Types([])) && Need([]) == 0 && Ordered([])
  {}

  lemma NoBlocks(start: nat)
    ensures BlocksOf([], start) == []
  {}

  lemma NextBlocks(bitmap: seq<nat>, j: nat, start: nat)
    requires j < |bitmap|
    ensures var t, bs := bitmap[j], BlocksOf(bitmap[..j], start);
            BlocksOf(bitmap[..j + 1], start) ==
            if bs == [] then [Block(start, Window(t), Length(t))]
            else if bs[|bs| - 1].window == Window(t)
            then bs[|bs| - 1 := Block(bs[|bs| - 1].start, Window(t), Length(t))]
            else bs + [Block(After(bs[|bs| - 1]), Window(t), Length(t))]
  {
    assert bitmap[..j + 1][..j] == bitmap[..j];
  }

  lemma NextTypes(bitmap: seq<nat>, j: nat)
    requires j < |bitmap|
    ensures Types(bitmap[..j + 1]) == Types(bitmap[..j]) + {bitmap[j]}
  {
    TypesAppend(bitmap[..j], bitmap[j]);
    assert bitmap[..j + 1] == bitmap[..j] + [bitmap[j]];
  }

  /** How the order and the need grow by one more type. */
  lemma NextNeed(bitmap: seq<nat>, j: nat)
    requires j < |bitmap| && Ordered(bitmap[..j])
    ensures j == 0 ==> Ordered(bitmap[..j + 1]) && Need(bitmap[..j + 1]) == 2 + Length(bitmap[j])
    ensures j > 0 ==> Ordered(bitmap[..j + 1]) ==
                      (Window(bitmap[j - 1]) < Window(bitmap[j]) ||
                       (Window(bitmap[j - 1]) == Window(bitmap[j]) && Length(bitmap[j - 1]) <= Length(bitmap[j])))
    ensures j > 0 ==>
              Need(bitmap[..j + 1]) == Need(bitmap[..j]) +
                if Window(bitmap[j - 1]) == Window(bitmap[j]) then Length(bitmap[j]) - Length(bitmap[j - 1])
                  else 2 + Length(bitmap[j])
    ensures Ordered(bitmap) ==> Ordered(bitmap[..j + 1]) && Need(bitmap[..j + 1]) <= Need(bitmap)
  {
    hide Window, Length, Ordered;
    var t, front, next := bitmap[j], bitmap[..j], bitmap[..j + 1];
    assert next[..j] == front && next == front + [t];
    if j > 0 {
      assert front[j - 1] == bitmap[j - 1];
      OrderedAppend(front, t);
      OctetOrder(bitmap[j - 1], t);
    } else {
      OrderedOne(next);
    }
    if Ordered(bitmap) {
      NeedGrows(bitmap, j + 1);
    }
  }

  lemma OrderedOne(ts: seq<nat>)
    requires |ts| == 1
    ensures Ordered(ts)
  {}

  lemma OctetOrder(s: nat, t: nat)
    ensures s / 8 <= t / 8 <==> Window(s) < Window(t) || (Window(s) == Window(t) && Length(s) <= Length(t))
  {}

  lemma OrderedAppend(ts: seq<nat>, t: nat)
    requires Ordered(ts) && ts != []
    ensures Ordered(ts + [t]) <==> ts[|ts| - 1] / 8 <= t / 8
  {
    var next := ts + [t];
    assert next[|ts| - 1] == ts[|ts| - 1] && next[|ts|] == t;
    assert forall i :: 0 <= i < |ts| ==> ts[i] / 8 <= ts[|ts| - 1] / 8;
  }

  // ----- Round trip ------------------------------------------------------------------------------------

  /** A bit that was set in the buffer before, inside the octets of a block. */
  ghost predicate Stray(m0: Bytes, blocks: seq<Block>, t: nat) {
    exists i :: 0 <= i < |blocks| && Has(m0, blocks[i], t)
  }

  /** Two layouts of the same octets are the same. */
  lemma {:induction false} LayoutUnique(m: Bytes, start: nat, a: seq<Block>, b: seq<Block>, end: nat, n: nat)
    requires Layout(m, start, a, end) && Layout(m, start, b, end) && n <= |a| && n <= |b|
    ensures a[..n] == b[..n]
  {
    if n > 0 {
      LayoutUnique(m, start, a, b, end, n - 1);
      assert BlockAt(m, a[n - 1]) && BlockAt(m, b[n - 1]);
      if n > 1 {
        assert a[n - 2] == a[..n - 1][n - 2] == b[..n - 1][n - 2] == b[n - 2];
      }
      assert a[n - 1] == b[n - 1];
      assert a[..n] == a[..n - 1] + [a[n - 1]] && b[..n] == b[..n - 1] + [b[n - 1]];
    }
  }

  /** Where a block of a layout starts, and that it starts before the end. */
  lemma BlockStart(m: Bytes, start: nat, b: seq<Block>, end: nat, n: nat)
    requires Layout(m, start, b, end) && n < |b|
    ensures b[n].start < end && b[n].start == if n == 0 then start else After(b[..n][n - 1])
  {
    BeforeEnd(m, start, b, end);
    if n > 0 {
      assert b[..n][n - 1] == b[n - 1];
    }
  }

  lemma LayoutSameLength(m: Bytes, start: nat, a: seq<Block>, b: seq<Block>, end: nat)
    requires Layout(m, start, a, end) && Layout(m, start, b, end) && |a| <= |b|
    ensures a == b
  {
    LayoutUnique(m, start, a, b, end, |a|);
    assert a[..|a|] == a;
    assert b[..|b|] == b;
    if |a| < |b| {
      BlockStart(m, start, b, end, |a|);
    }
  }

  /** In the packed bitmap the set bits are those of the types listed and the stray ones. */
  lemma PackedTypes(m0: Bytes, m: Bytes, start: nat, blocks: seq<Block>, end: nat, types: set<nat>, t: nat)
    requires Packed(m0, m, start, blocks, end, types)
    ensures (exists i :: 0 <= i < |blocks| && Has(m, blocks[i], t)) <==> t in types || Stray(m0, blocks, t)
  {
    if t in types {
      var i :| 0 <= i < |blocks| && Covers(blocks[i], t);
      BitsAt(m0, m, blocks, types, i, t);
    }
    if Stray(m0, blocks, t) {
      var i :| 0 <= i < |blocks| && Has(m0, blocks[i], t);
      BitsAt(m0, m, blocks, types, i, t);
      assert Has(m, blocks[i], t);
    }
    if i :| 0 <= i < |blocks| && Has(m, blocks[i], t) {
      BitsAt(m0, m, blocks, types, i, t);
    }
  }

  /** Packing finds no bit set in the octets it uses but those of listed types. */
  ghost predicate Clean(m0: Bytes, bitmap: seq<nat>, start: nat) {
    forall t: nat :: Stray(m0, BlocksOf(bitmap, start), t) ==> t in bitmap
  }

  /** packDataNsec and then unpackDataNsec on the octets written. What comes back is the increasing list of the
      listed types and the stray bits of the old buffer. It is the list itself exactly when that is increasing and
      the buffer had no stray bit of another type; over octets that were zero there is none. */
  method PackUnpackNsec(bitmap: seq<nat>, msg: array<byte>, start: nat) returns (back: seq<nat>, err: Error)
    requires forall i :: 0 <= i < |bitmap| ==> bitmap[i] < 0x1_0000
    requires start <= msg.Length && Ordered(bitmap) && start + Need(bitmap) <= msg.Length
    modifies msg
    ensures err == NoError && Increasing(back)
    ensures forall t: nat :: t in back <==> t in bitmap || Stray(old(msg[..]), BlocksOf(bitmap, start), t)
    ensures back == bitmap <==> Increasing(bitmap) && Clean(old(msg[..]), bitmap, start)
    ensures (forall x :: start <= x < start + Need(bitmap) && x < msg.Length ==> old(msg[x]) == 0) ==>
              Clean(old(msg[..]), bitmap, start)
  {
    hide Packed, Need, Has, Layout, WellFormed, Ordered, Increasing, BlocksOf;
    ghost var m0 := msg[..];
    var off;
    ghost var blocks, blocks';
    off, err, blocks := PackDataNsec(bitmap, msg, start);
    var cut := msg[..off];
    PackedCut(m0, msg[..], start, blocks, off, Types(bitmap));
    var off';
    back, off', err, blocks' := UnpackDataNsec(cut, start);
    SameBlocks(cut, start, blocks, blocks');
    forall t: nat ensures t in back <==> t in bitmap || Stray(m0, blocks, t) {
      PackedTypes(m0, msg[..], start, blocks, off, Types(bitmap), t);
      HasCut(msg[..], start, blocks, off, t);
    }
    if Increasing(bitmap) && Clean(m0, bitmap, start) {
      IncreasingUnique(back, bitmap);
    }
    if forall x :: start <= x < start + Need(bitmap) && x < |m0| ==> m0[x] == 0 {
      forall t: nat ensures !Stray(m0, blocks, t) {
        NoStray(m0, msg[..], start, blocks, off, Types(bitmap), t);
      }
    }
  }

  /** The type that a bit of an octet of a window stands for. */
  lemma TypeAt(w: nat, x: nat, k: nat)
    requires x < 32 && k < 8
    ensures var t := w * 256 + x * 8 + k; t / 256 == w && t % 256 == x * 8 + k && t % 256 / 8 == x && t % 8 == k
  {
    var r := x * 8 + k;
    assert r < 256 && r / 8 == x;
    assert w * 256 + r == 8 * (32 * w + x) + k;
  }

  lemma PackedHeader(m0: Bytes, m: Bytes, start: nat, blocks: seq<Block>, end: nat, types: set<nat>)
    requires Packed(m0, m, start, blocks, end, types)
    ensures |m| == |m0| && forall i :: 0 <= i < |blocks| ==> BlockAt(m, blocks[i])
  {}

  /** Over zeros, an octet of a packed bitmap is the one whose bits are the listed types among its eight. */
  lemma PackedOctet(m0: Bytes, m: Bytes, blocks: seq<Block>, end: nat, types: set<nat>, i: nat, x: nat, v: byte)
    requires Packed(m0, m, 0, blocks, end, types) && i < |blocks| && x < blocks[i].length
    requires m0[blocks[i].start + 2 + x] == 0
    requires forall k :: 0 <= k < 8 ==> (Bit(v, k) <==> blocks[i].window * 256 + x * 8 + k in types)
    ensures m[blocks[i].start + 2 + x] == v
  {
    hide Bit, Layout, Covered;
    var b := blocks[i];
    PackedHeader(m0, m, 0, blocks, end, types);
    forall k | 0 <= k < 8 ensures Bit(m[b.start + 2 + x], k) <==> Bit(v, k) {
      var t := b.window * 256 + x * 8 + k;
      TypeAt(b.window, x, k);
      BitsAt(m0, m, blocks, types, i, t);
      ZeroBits(k);
    }
    BitsDetermine(m[b.start + 2 + x], v);
  }

  /** The bit of type k of a window as an octet. */
  lemma LoneBit(k: nat, j: nat)
    requires k < 8 && j < 8
    ensures Bit([128, 64, 32, 16, 8, 4, 2, 1][k], j) <==> j == k
  {
    SetBitValue(k);
    SetBitBits(0, k);
    ZeroBits(j);
  }

  /** A single type over zeros: its window, the length up to its octet, zeros, and its bit, the most significant
      for a type divisible by eight. */
  method PackLone(t: nat) returns (out: Bytes)
    requires t < 0x1_0000
    ensures |out| == 3 + t % 256 / 8 && out[0] == t / 256 && out[1] == t % 256 / 8 + 1
    ensures forall x :: 2 <= x < |out| - 1 ==> out[x] == 0
    ensures out[|out| - 1] == [128, 64, 32, 16, 8, 4, 2, 1][t % 8]
  {
    var n := t % 256 / 8;
    var msg := new byte[3 + n](_ => 0);
    ghost var m0 := msg[..];
    hide Packed, Bit;
    assert [t][..0] == [] && Need([t]) == 3 + n && BlocksOf([t], 0) == [Block(0, t / 256, n + 1)];
    OrderedOne([t]);
    var off, err;
    ghost var blocks;
    off, err, blocks := PackDataNsec([t], msg, 0);
    out := msg[..];
    PackedHeader(m0, out, 0, blocks, off, Types([t]));
    forall x | 2 <= x < |out|
      ensures out[x] == if x == |out| - 1 then [128, 64, 32, 16, 8, 4, 2, 1][t % 8] else 0
    {
      LoneOctet(m0, out, t, x - 2);
    }
  }

  lemma LoneOctet(m0: Bytes, m: Bytes, t: nat, x: nat)
    requires t < 0x1_0000 && Packed(m0, m, 0, [Block(0, t / 256, t % 256 / 8 + 1)], |m|, Types([t]))
    requires |m| == 3 + t % 256 / 8 && x <= t % 256 / 8 && m0[2 + x] == 0
    ensures m[2 + x] == if x == t % 256 / 8 then [128, 64, 32, 16, 8, 4, 2, 1][t % 8] else 0
  {
    hide Packed, Bit;
    var v: byte := if x == t % 256 / 8 then [128, 64, 32, 16, 8, 4, 2, 1][t % 8] else 0;
    var w := t / 256;
    forall k | 0 <= k < 8 ensures Bit(v, k) <==> w * 256 + x * 8 + k in Types([t]) {
      LoneBit(t % 8, k);
      ZeroBits(k);
      TypeAt(w, x, k);
    }
    PackedOctet(m0, m, [Block(0, w, t % 256 / 8 + 1)], |m|, Types([t]), 0, x, v);
  }

  /** The octet 1 has only its last bit set. */
  lemma OneBit(k: nat)
    requires k < 8
    ensures Bit(1, k) <==> k == 7
  {
    if k < 7 {
      ZeroLow(6 - k);
    }
  }

  lemma StrayBit(t: nat)
    ensures BlocksOf([1], 0) == [Block(0, 0, 1)] && (Stray([0, 0, 1], BlocksOf([1], 0), t) <==> t == 7)
  {
    var m, bs: seq<Block> := [0, 0, 1], [Block(0, 0, 1)];
    assert [1][..0] == [];
    assert BlocksOf([1], 0) == bs;
    OneBit(t % 8);
    assert Has(m, bs[0], t) <==> t == 7;
  }

  /** Type 1 alone, packed over an octet with the bit of type 7 set, comes back with type 7. */
  method StrayExample() returns (back: seq<nat>)
    ensures back == [1, 7]
  {
    var msg := new byte[3];
    msg[0], msg[1], msg[2] := 0, 0, 1;
    assert msg[..] == [0, 0, 1];
    assert [1][..0] == [];
    var err;
    back, err := PackUnpackNsec([1], msg, 0);
    forall t: nat ensures t in back <==> t in [1, 7] {
      StrayBit(t);
    }
    IncreasingUnique(back, [1, 7]);
  }

  lemma PackedCut(m0: Bytes, m: Bytes, start: nat, blocks: seq<Block>, end: nat, types: set<nat>)
    requires Packed(m0, m, start, blocks, end, types)
    ensures start <= end <= |m| && Layout(m, start, blocks, end)
    ensures Layout(m[..end], start, blocks, end) && WellFormed(m[..end], start, -1)
  {
    BeforeEnd(m, start, blocks, end);
    forall k | 0 <= k < |blocks| ensures BlockAt(m[..end], blocks[k]) {
      assert BlockAt(m, blocks[k]);
    }
    LayoutWellFormed(m[..end], start, blocks, 0);
  }

  lemma SameBlocks(m: Bytes, start: nat, a: seq<Block>, b: seq<Block>)
    requires Layout(m, start, a, |m|) && Layout(m, start, b, |m|)
    ensures a == b
  {
    if |a| <= |b| {
      LayoutSameLength(m, start, a, b, |m|);
    } else {
      LayoutSameLength(m, start, b, a, |m|);
    }
  }

  lemma HasCut(m: Bytes, start: nat, blocks: seq<Block>, end: nat, t: nat)
    requires Layout(m, start, blocks, end) && end <= |m|
    ensures forall i :: 0 <= i < |blocks| ==> (Has(m[..end], blocks[i], t) <==> Has(m, blocks[i], t))
  {
    BeforeEnd(m, start, blocks, end);
  }

  lemma NoStray(m0: Bytes, m: Bytes, start: nat, blocks: seq<Block>, end: nat, types: set<nat>, t: nat)
    requires Packed(m0, m, start, blocks, end, types)
    requires forall x :: start <= x < end ==> m0[x] == 0
    ensures !Stray(m0, blocks, t)
  {
    BeforeEnd(m, start, blocks, end);
    ZeroBits(t % 8);
  }

  lemma {:induction false} ZeroBits(k: nat)
    requires k < 8
    ensures !Bit(0, k)
  {
    ZeroLow(7 - k);
  }

  lemma {:induction false} ZeroLow(i: nat)
    ensures !LowBit(0, i)
  {
    if i > 0 {
      ZeroLow(i - 1);
    }
  }
}
