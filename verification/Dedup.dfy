/** Removing duplicate records from an answer, in place. */
module Dedup {
  /** What identifies a record, apart from its TTL: its text with the name in lower case. */
  datatype Key = Key(text: string)

  /** A record: its key and its TTL. */
  class RR {
    const key: Key
    var ttl: nat

    constructor (k: Key, t: nat)
      ensures key == k && ttl == t
    {
      key := k;
      ttl := t;
    }
  }

  // ----- Specification ---------------------------------------------------------------------------

  predicate Occurs(s: seq<RR>, k: Key) {
    exists i :: 0 <= i < |s| && s[i].key == k
  }

  /** The records whose key does not occur before them, in order. */
  function Firsts(s: seq<RR>): seq<RR> {
    if s == [] then []
    else
      var front, last := s[..|s| - 1], s[|s| - 1];
      Firsts(front) + if Occurs(front, last.key) then [] else [last]
  }

  /** The TTL a record came with. */
  function Ttl(given: map<RR, nat>, r: RR): nat {
    if r in given then given[r] else 0
  }

  /** m is the smallest of the TTLs that the records with key k came with. */
  ghost predicate Smallest(s: seq<RR>, given: map<RR, nat>, k: Key, m: nat) {
    && (exists i :: 0 <= i < |s| && s[i].key == k && Ttl(given, s[i]) == m)
    && (forall i :: 0 <= i < |s| && s[i].key == k ==> m <= Ttl(given, s[i]))
  }

  /** The records kept have every key once, and each is one of the given. */
  lemma {:induction false} FirstsKeys(s: seq<RR>)
    ensures forall k :: Occurs(Firsts(s), k) <==> Occurs(s, k)
    ensures forall i, j :: 0 <= i < j < |Firsts(s)| ==> Firsts(s)[i].key != Firsts(s)[j].key
    ensures |Firsts(s)| <= |s|
  {
    if s != [] {
      var front, last := s[..|s| - 1], s[|s| - 1];
      FirstsKeys(front);
      assert s == front + [last] && Firsts(front) + [] == Firsts(front);
      forall k ensures Occurs(Firsts(s), k) <==> Occurs(s, k) {
        OccursAppend(front, last, k);
        OccursAppend(Firsts(front), last, k);
      }
      if !Occurs(front, last.key) {
        forall i | 0 <= i < |Firsts(front)| ensures Firsts(front)[i].key != last.key {
          assert !Occurs(Firsts(front), last.key);
        }
      }
    }
  }

  lemma OccursAppend(s: seq<RR>, r: RR, k: Key)
    ensures Occurs(s + [r], k) <==> Occurs(s, k) || r.key == k
  {
    var t := s + [r];
    if r.key == k {
      assert t[|s|].key == k;
    }
    if i :| 0 <= i < |s| && s[i].key == k {
      assert t[i].key == k;
    }
  }

  lemma {:induction false} FirstsInside(s: seq<RR>)
    ensures forall r :: r in Firsts(s) ==> r in s
  {
    if s != [] {
      FirstsInside(s[..|s| - 1]);
    }
  }

  /** The records kept stand in the given order, and each is the first of its key. */
  lemma {:induction false} FirstsPlaces(s: seq<RR>) returns (at: seq<nat>)
    ensures |at| == |Firsts(s)| && forall i, j :: 0 <= i < j < |at| ==> at[i] < at[j]
    ensures forall i :: 0 <= i < |at| ==> at[i] < |s| && s[at[i]] == Firsts(s)[i]
    ensures forall i, k :: 0 <= i < |at| && 0 <= k < at[i] ==> s[k].key != s[at[i]].key
  {
    at := [];
    if s != [] {
      var front, last := s[..|s| - 1], s[|s| - 1];
      at := FirstsPlaces(front);
      assert s == front + [last];
      if !Occurs(front, last.key) {
        at := at + [|s| - 1];
      }
    }
  }

  /** All different: nothing is left out. */
  lemma {:induction false} FirstsAll(s: seq<RR>)
    requires |Firsts(s)| == |s|
    ensures Firsts(s) == s
  {
    if s != [] {
      var front, last := s[..|s| - 1], s[|s| - 1];
      FirstsKeys(front);
      FirstsAll(front);
      assert s == front + [last];
      hide Occurs;
    }
  }

  /** Once every key has occurred, the rest adds nothing. */
  lemma {:induction false} FirstsDone(s: seq<RR>, n: nat)
    requires n <= |s| && forall k :: Occurs(s, k) ==> Occurs(s[..n], k)
    ensures Firsts(s) == Firsts(s[..n])
  {
    if n == |s| {
      assert s[..n] == s;
    } else {
      var front, last := s[..|s| - 1], s[|s| - 1];
      assert front[..n] == s[..n] && s == front + [last];
      OccursAppend(front, last, last.key);
      forall k | Occurs(front, k) ensures Occurs(front[..n], k) {
        OccursAppend(front, last, k);
      }
      OccursLonger(front, n, last.key);
      FirstsDone(front, n);
    }
  }

  lemma OccursLonger(s: seq<RR>, n: nat, k: Key)
    requires n <= |s| && Occurs(s[..n], k)
    ensures Occurs(s, k)
  {
    var i :| 0 <= i < n && s[..n][i].key == k;
    assert s[i].key == k;
  }

  // ----- First pass: the map of first occurrences and their TTLs ------------------------------------

  /** m holds the first record of every key that occurs in s. */
  ghost predicate Mapped(s: seq<RR>, m: map<Key, RR>) {
    && (forall k :: k in m <==> Occurs(s, k))
    && (forall k :: k in m ==> m[k].key == k && m[k] in s)
    && (forall a :: 0 <= a < |Firsts(s)| ==> Firsts(s)[a].key in m && m[Firsts(s)[a].key] == Firsts(s)[a])
    && |m| == |Firsts(s)|
  }

  lemma MappedNext(s: seq<RR>, m: map<Key, RR>, r: RR)
    requires Mapped(s, m)
    ensures Mapped(s + [r], if r.key in m then m else m[r.key := r])
  {
    var t := s + [r];
    assert t[..|t| - 1] == s;
    forall k ensures Occurs(t, k) <==> Occurs(s, k) || r.key == k {
      OccursAppend(s, r, k);
    }
    var f, n := Firsts(s), if r.key in m then m else m[r.key := r];
    assert Firsts(t) == f + if r.key in m then [] else [r];
    forall a | 0 <= a < |Firsts(t)| ensures Firsts(t)[a].key in n && n[Firsts(t)[a].key] == Firsts(t)[a] {
      if a < |f| {
        assert f[a].key in m && m[f[a].key] == f[a];
      }
    }
  }

  /** Every head of a key has the smallest TTL of that key so far. */
  ghost predicate Shortest(s: seq<RR>, given: map<RR, nat>, m: map<Key, RR>)
    reads m.Values
  {
    forall k :: k in m ==> Smallest(s, given, k, m[k].ttl)
  }

  /** Records that head no key still have the TTL they came with. */
  ghost predicate Untouched(given: map<RR, nat>, m: map<Key, RR>)
    reads given.Keys
  {
    forall r :: r in given && !(r.key in m && m[r.key] == r) ==> r.ttl == given[r]
  }

  lemma SmallestLonger(s: seq<RR>, given: map<RR, nat>, r: RR, k: Key, m: nat)
    requires Smallest(s, given, k, m) && (r.key == k ==> m <= Ttl(given, r))
    ensures Smallest(s + [r], given, k, m)
  {
    var t := s + [r];
    var a :| 0 <= a < |s| && s[a].key == k && Ttl(given, s[a]) == m;
    assert t[a].key == k && Ttl(given, t[a]) == m;
  }

  lemma SmallestLast(s: seq<RR>, given: map<RR, nat>, r: RR, m: nat)
    requires Occurs(s, r.key) ==> Smallest(s, given, r.key, m) && Ttl(given, r) <= m
    ensures Smallest(s + [r], given, r.key, Ttl(given, r))
  {
    var t := s + [r];
    assert t[|s|] == r;
    forall i | 0 <= i < |t| && t[i].key == r.key ensures Ttl(given, r) <= Ttl(given, t[i]) {
      if i < |s| {
        assert s[i].key == r.key;
        assert Occurs(s, r.key);
      }
    }
  }

  lemma SmallestBound(s: seq<RR>, given: map<RR, nat>, r: RR, m: nat)
    requires Smallest(s, given, r.key, m) && r in s
    ensures m <= Ttl(given, r)
  {
    var a :| 0 <= a < |s| && s[a] == r;
  }

  lemma Head(s: seq<RR>, given: map<RR, nat>, r: RR, m: map<Key, RR>)
    requires r.key in m && r in given && m[r.key] in given
    requires Mapped(s, m) && Shortest(s, given, m) && Untouched(given, m)
    ensures var f := m[r.key];
            && f.key == r.key && Smallest(s, given, r.key, f.ttl) && Occurs(s, r.key)
            && (if r == f then f.ttl <= given[r] else r.ttl == given[r])
            && forall k :: k in m && k != r.key ==> m[k] != f && Smallest(s, given, k, m[k].ttl)
  {
    var f := m[r.key];
    assert f.key == r.key && f in s;
    SmallestBound(s, given, f, f.ttl);
  }

  /** A duplicate: the shorter TTL wins. */
  method Shorten(ghost s: seq<RR>, ghost given: map<RR, nat>, r: RR, m: map<Key, RR>)
    requires r.key in m && r in given && m[r.key] in given
    requires Mapped(s, m) && Shortest(s, given, m) && Untouched(given, m)
    modifies m[r.key]
    ensures Shortest(s + [r], given, m) && Untouched(given, m)
  {
    hide Mapped, Smallest, Occurs;
    var f := m[r.key];
    ghost var least := f.ttl;
    Head(s, given, r, m);
    if f.ttl > r.ttl {
      f.ttl := r.ttl;
      SmallestLast(s, given, r, least);
    } else {
      SmallestLonger(s, given, r, r.key, least);
    }
    forall k | k in m && k != r.key ensures Smallest(s + [r], given, k, m[k].ttl) {
      SmallestLonger(s, given, r, k, m[k].ttl);
    }
  }

  /** A new key. */
  lemma Enter(s: seq<RR>, given: map<RR, nat>, r: RR, m: map<Key, RR>)
    requires r.key !in m && r in given
    requires Mapped(s, m) && Shortest(s, given, m) && Untouched(given, m)
    ensures Shortest(s + [r], given, m[r.key := r]) && Untouched(given, m[r.key := r])
  {
    assert !Occurs(s, r.key);
    hide Mapped, Smallest, Occurs;
    SmallestLast(s, given, r, 0);
    forall k | k in m && k != r.key ensures Smallest(s + [r], given, k, m[k].ttl) {
      SmallestLonger(s, given, r, k, m[k].ttl);
    }
  }

  /** Between two records of the first pass. */
  ghost predicate Collected(s: seq<RR>, given: map<RR, nat>, m: map<Key, RR>)
    reads m.Values, given.Keys
  {
    Mapped(s, m) && Shortest(s, given, m) && Untouched(given, m)
  }

  ghost predicate Recorded(s: seq<RR>, given: map<RR, nat>) {
    forall r :: r in s ==> r in given
  }

  lemma HeadRecorded(s: seq<RR>, i: nat, given: map<RR, nat>, m: map<Key, RR>, k: Key)
    requires i <= |s| && Mapped(s[..i], m) && k in m && Recorded(s, given)
    ensures m[k] in s && m[k] in given
  {
  }

  /** One record of the first pass. */
  method Visit(ghost s: seq<RR>, ghost i: nat, ghost given: map<RR, nat>, r: RR, m: map<Key, RR>)
    returns (n: map<Key, RR>)
    requires i < |s| && r == s[i] && Recorded(s, given) && Collected(s[..i], given, m)
    modifies if r.key in m then {m[r.key]} else {}
    ensures Collected(s[..i + 1], given, n)
  {
    hide Mapped, Shortest, Untouched;
    assert r in s && s[..i + 1] == s[..i] + [r];
    MappedNext(s[..i], m, r);
    if r.key in m {
      HeadRecorded(s, i, given, m, r.key);
      Shorten(s[..i], given, r, m);
      return m;
    }
    Enter(s[..i], given, r, m);
    return m[r.key := r];
  }

  function Keys(s: seq<RR>): (keys: seq<Key>)
    ensures |keys| == |s| && forall i :: 0 <= i < |s| ==> keys[i] == s[i].key
  {
    seq(|s|, i requires 0 <= i < |s| => s[i].key)
  }

  lemma KeysNext(s: seq<RR>, i: nat)
    requires i < |s|
    ensures Keys(s[..i + 1]) == Keys(s[..i]) + [s[i].key]
  {}

  /** The first pass of Dedup: notes the first record of every key and gives it the shortest TTL. */
  method Collect(rrs: array<RR>, ghost given: map<RR, nat>) returns (keys: seq<Key>, m: map<Key, RR>)
    requires Recorded(rrs[..], given) && given.Keys <= (set r | r in rrs[..])
             && forall r :: r in given ==> given[r] == r.ttl
    modifies rrs[..]
    ensures keys == Keys(rrs[..]) && Collected(rrs[..], given, m)
  {
    ghost var s := rrs[..];
    hide Collected, Recorded;
    keys, m := [], map[];
    StartCollect(given);
    assert s[..0] == [];
    for i := 0 to rrs.Length
      invariant keys == Keys(s[..i]) && Collected(s[..i], given, m)
    {
      keys := keys + [rrs[i].key];
      KeysNext(s, i);
      HeadsInside(s, i, given, m, rrs[i].key);
      m := Visit(s, i, given, rrs[i], m);
    }
    assert s[..rrs.Length] == s;
  }

  lemma HeadsInside(s: seq<RR>, i: nat, given: map<RR, nat>, m: map<Key, RR>, k: Key)
    requires i <= |s| && Collected(s[..i], given, m)
    ensures k in m ==> m[k] in s
  {
  }

  lemma StartCollect(given: map<RR, nat>)
    requires forall r :: r in given ==> given[r] == r.ttl
    ensures Collected([], given, map[])
  {
  }

  // ----- Second pass: moving the first occurrences to the front ---------------------------------------

  /** The keys whose first record is still to come. */
  ghost predicate ToCome(s: seq<RR>, i: nat, rest: map<Key, RR>)
    requires i <= |s|
  {
    forall k :: k in rest <==> Occurs(s, k) && !Occurs(s[..i], k)
  }

  lemma ToComeNext(s: seq<RR>, i: nat, rest: map<Key, RR>)
    requires i < |s| && ToCome(s, i, rest)
    ensures s[i].key in rest <==> !Occurs(s[..i], s[i].key)
    ensures ToCome(s, i + 1, rest - {s[i].key})
    ensures Firsts(s[..i + 1]) == Firsts(s[..i]) + if s[i].key in rest then [s[i]] else []
  {
    var k0 := s[i].key;
    assert Occurs(s, k0);
    assert s[..i + 1] == s[..i] + [s[i]] && s[..i + 1][..i] == s[..i];
    forall k ensures Occurs(s[..i + 1], k) <==> Occurs(s[..i], k) || k0 == k {
      OccursAppend(s[..i], s[i], k);
    }
  }

  lemma ToComeNone(s: seq<RR>, i: nat, rest: map<Key, RR>)
    requires i <= |s| && ToCome(s, i, rest) && (rest == map[] || i == |s|)
    ensures Firsts(s) == Firsts(s[..i])
  {
    if i == |s| {
      assert s[..i] == s;
    } else {
      forall k | Occurs(s, k) ensures Occurs(s[..i], k) {
        assert k !in rest;
      }
      FirstsDone(s, i);
    }
  }

  /** Between two records of the second pass. */
  ghost predicate Compacted(now: seq<RR>, s: seq<RR>, i: nat, j: nat, rest: map<Key, RR>) {
    |now| == |s| && j <= i <= |s| && now[..j] == Firsts(s[..i]) && now[i..] == s[i..] && ToCome(s, i, rest)
  }

  lemma CompactKeep(now: seq<RR>, s: seq<RR>, i: nat, j: nat, rest: map<Key, RR>)
    requires i < |s| && Compacted(now, s, i, j, rest)
    ensures now[i] == s[i]
    ensures s[i].key in rest ==> Compacted(now[j := now[i]], s, i + 1, j + 1, rest - {s[i].key})
    ensures s[i].key !in rest ==> Compacted(now, s, i + 1, j, rest)
  {
    ToComeNext(s, i, rest);
    assert now[i] == now[i..][0];
    hide ToCome, Firsts;
    if s[i].key in rest {
      var next := now[j := now[i]];
      assert next[..j + 1] == now[..j] + [s[i]];
      assert next[i + 1..] == now[i..][1..] == s[i + 1..];
    } else {
      assert rest - {s[i].key} == rest;
      assert now[i + 1..] == now[i..][1..] == s[i + 1..];
    }
  }

  /** The second pass of Dedup. */
  method Compact(rrs: array<RR>, keys: seq<Key>, m: map<Key, RR>) returns (j: nat)
    requires keys == Keys(rrs[..]) && ToCome(rrs[..], 0, m)
    modifies rrs
    ensures j <= rrs.Length && rrs[..j] == Firsts(old(rrs[..]))
  {
    ghost var s := rrs[..];
    var rest := m;
    j := 0;
    StartFirsts(s);
    assert s[0..] == s && Compacted(rrs[..], s, 0, 0, rest);
    hide ToCome, Firsts;
    for i := 0 to rrs.Length
      invariant j <= i && Compacted(rrs[..], s, i, j, rest)
    {
      hide Compacted;
      CompactKeep(rrs[..], s, i, j, rest);
      if keys[i] in rest {
        rest := rest - {keys[i]};
        rrs[j] := rrs[i];
        j := j + 1;
      }
      if rest == map[] {
        CompactDone(rrs[..], s, i + 1, j, rest);
        return;
      }
    }
    CompactDone(rrs[..], s, rrs.Length, j, rest);
  }

  lemma CompactDone(now: seq<RR>, s: seq<RR>, i: nat, j: nat, rest: map<Key, RR>)
    requires Compacted(now, s, i, j, rest) && (rest == map[] || i == |s|)
    ensures j <= |now| && now[..j] == Firsts(s)
  {
    ToComeNone(s, i, rest);
  }

  lemma StartFirsts(s: seq<RR>)
    ensures Firsts(s[..0]) == []
  {
  }

  /** The TTLs that the records come with. */
  ghost function Came(rrs: array<RR>): map<RR, nat>
    reads rrs, rrs[..]
  {
    map r | r in rrs[..] :: r.ttl
  }

  /** The kept records have the smallest TTL of their key; the others have what they came with. */
  ghost predicate Resolved(s: seq<RR>, given: map<RR, nat>, kept: seq<RR>)
    reads kept, given.Keys
  {
    && (forall a :: 0 <= a < |kept| ==> Smallest(s, given, kept[a].key, kept[a].ttl))
    && (forall r :: r in given && r !in kept ==> r.ttl == given[r])
  }

  lemma CollectedResolved(s: seq<RR>, given: map<RR, nat>, m: map<Key, RR>)
    requires Collected(s, given, m)
    ensures ToCome(s, 0, m) && |m| == |Firsts(s)| && Resolved(s, given, Firsts(s))
  {
    FirstsKeys(s);
  }

  /** Dedup: keeps the first record of every key, in order, with the smallest TTL of its duplicates, and
      changes no other record. */
  method Dedup(rrs: array<RR>) returns (j: nat)
    modifies rrs, rrs[..]
    ensures j <= rrs.Length && rrs[..j] == Firsts(old(rrs[..]))
    ensures Resolved(old(rrs[..]), old(Came(rrs)), rrs[..j])
  {
    ghost var s, given := rrs[..], Came(rrs);
    assert Recorded(s, given) && given.Keys <= (set r | r in s) && forall r :: r in given ==> given[r] == r.ttl;
    hide Collected, Came, Recorded, Resolved, Firsts, ToCome;
    var keys, m := Collect(rrs, given);
    assert rrs[..] == s;
    j := Finish(rrs, keys, m, given);
  }

  /** After the first pass: done when all keys differ, else the second pass. */
  method Finish(rrs: array<RR>, keys: seq<Key>, m: map<Key, RR>, ghost given: map<RR, nat>) returns (j: nat)
    requires keys == Keys(rrs[..]) && Collected(rrs[..], given, m)
    modifies rrs
    ensures j <= rrs.Length && rrs[..j] == Firsts(old(rrs[..]))
    ensures Resolved(old(rrs[..]), given, rrs[..j])
  {
    hide Collected, Resolved, Firsts, ToCome, Keys;
    ghost var s := rrs[..];
    CollectedResolved(s, given, m);
    if |m| == rrs.Length {
      FirstsAll(s);
      assert rrs[..rrs.Length] == s;
      return rrs.Length;
    }
    j := CompactResolved(rrs, keys, m, given);
  }

  /** Moving records leaves their TTLs alone. */
  method CompactResolved(rrs: array<RR>, keys: seq<Key>, m: map<Key, RR>, ghost given: map<RR, nat>) returns (j: nat)
    requires keys == Keys(rrs[..]) && ToCome(rrs[..], 0, m) && Resolved(rrs[..], given, Firsts(rrs[..]))
    modifies rrs
    ensures j <= rrs.Length && rrs[..j] == Firsts(old(rrs[..]))
    ensures Resolved(old(rrs[..]), given, rrs[..j])
  {
    hide Firsts, ToCome, Smallest;
    ghost var kept, s := Firsts(rrs[..]), rrs[..];
    FirstsInside(s);
    assert forall a :: 0 <= a < |kept| ==> kept[a] in s;
    j := Compact(rrs, keys, m);
    assert forall r :: r in s ==> r.ttl == old(r.ttl);
    assert forall r :: r in given ==> r.ttl == old(r.ttl);
    assert forall a :: 0 <= a < |kept| ==> kept[a].ttl == old(kept[a].ttl);
    assert Resolved(s, given, kept);
  }
}
