/** Which messages come back from packing and unpacking, worked out before they are packed. */
module Forecast {
  import opened Names
  import opened UnpackName
  import opened PackName
  import opened Compression
  import opened RoundTrip
  import opened ReadRecord
  import opened WriteRecord
  import opened ReadBack
  import opened Depths
  import opened Message

  /** How far packing has come: the table, the pointers that the name of each key takes, the offset, and the most
      pointers a name has taken. */
  datatype Lay = Lay(tbl: Table, depth: map<Bytes, nat>, off: nat, longest: nat)

  function Max(a: nat, b: nat): nat {
    if a < b then b else a
  }

  function Skip(st: Lay, n: nat): Lay {
    st.(off := st.off + n)
  }

  ghost function AfterName(st: Lay, s: Bytes, compress: bool): Lay {
    var name := NameOf(s);
    if TableOk(st.tbl) && Short(name) then
      var w, h := Plan(name, st.tbl, st.off, compress), PointersOf(name, st.tbl, st.depth, compress);
      Lay(w.tbl, Deepen(st.depth, w.tbl, h), st.off + |w.bytes|, Max(st.longest, h))
    else st
  }

  ghost function AfterItem(st: Lay, item: Item, compress: bool): Lay {
    match item
    case DataItem(b) => Skip(st, |b|)
    case NameItem(s, compressible) => AfterName(st, s, compress && compressible)
  }

  ghost function AfterItems(st: Lay, items: seq<Item>, compress: bool): Lay {
    if items == [] then st else AfterItem(AfterItems(st, items[..|items| - 1], compress), items[|items| - 1], compress)
  }

  ghost function AfterRecord(st: Lay, rec: Record, compress: bool): Lay {
    AfterItems(Skip(AfterName(st, rec.owner, compress), 10), rec.items, compress)
  }

  ghost function AfterRecords(st: Lay, recs: seq<Record>, compress: bool): Lay {
    if recs == [] then st else AfterRecord(AfterRecords(st, recs[..|recs| - 1], compress), recs[|recs| - 1], compress)
  }

  ghost function AfterQuestions(st: Lay, qs: seq<Question>, compress: bool): Lay {
    if qs == [] then st
    else Skip(AfterName(AfterQuestions(st, qs[..|qs| - 1], compress), qs[|qs| - 1].name, compress), 4)
  }

  ghost function QuestionLay(dns: Outgoing, compress: bool): Lay {
    AfterQuestions(Lay(StartTable(compress), map[], HEADER_SIZE, 0), dns.question, compress)
  }

  ghost function MessageLay(dns: Outgoing, compress: bool): Lay {
    var answered := AfterRecords(QuestionLay(dns, compress), dns.answer, compress);
    AfterRecords(AfterRecords(answered, dns.ns, compress), dns.extra, compress)
  }

  /** The most pointers that a name of the message is going to take. */
  ghost function LongestChain(dns: Outgoing, compress: bool): nat {
    MessageLay(dns, compress).longest
  }

  // ----- The forecast is right -----------------------------------------------------------------------

  /** The forecast has come from st to n, which is where packing is too; few says whether the names between take few
      pointers. */
  ghost predicate Reached(m: Bytes, st: Lay, n: Lay, end: nat, tbl: Table, few: bool) {
    && n.tbl == tbl && n.off == end && n.tbl.Table? == st.tbl.Table? && DepthOk(m, n.tbl, n.depth)
    && (n.longest <= MAX_POINTERS <==> st.longest <= MAX_POINTERS && few)
  }

  lemma NameForecast(m: Bytes, st: Lay, s: Bytes, compress: bool, end: nat, tbl: Table)
    requires DepthOk(m, st.tbl, st.depth) && Accepted(s, st.tbl.Table?) && TableOk(st.tbl) && Short(NameOf(s))
    requires PackedAs(NameOf(s), st.tbl, st.off, compress, m, end, tbl)
    ensures Reached(m, st, AfterName(st, s, compress), end, tbl, NameFew(m, st.off, NameOf(s)))
  {
    hide NameOf, Accepted, Plan, Spells, DepthOk, Deepen, PointersOf, NameFew, At, Packs, Tracked;
    var name := NameOf(s);
    AcceptedPacks(s, st.tbl);
    NameTakes(name, st.tbl, st.depth, st.off, compress, m);
    DepthKept(name, st.tbl, st.depth, st.off, compress, m);
    PackedTable(name, st.tbl, st.off, compress);
    FewExactly(m, st.off, |m|, name, PointersOf(name, st.tbl, st.depth, compress));
  }

  lemma PackedTable(name: Domain, tbl: Table, off: nat, compress: bool)
    requires TableOk(tbl) && Short(name)
    ensures Plan(name, tbl, off, compress).tbl.Table? == tbl.Table?
  {
    PlanTable(name, tbl, off, compress);
  }

  lemma ItemForecast(m: Bytes, st: Lay, item: Item, compress: bool, end: nat, tbl: Table)
    requires DepthOk(m, st.tbl, st.depth) && AcceptedItem(item, st.tbl.Table?)
    requires ItemLaid(m, st.off, end, item, st.tbl, tbl, compress)
    ensures Reached(m, st, AfterItem(st, item, compress), end, tbl, ItemFew(m, st.off, item))
  {
    hide NameOf, Accepted, DepthOk, AfterName, NameFew, PackedAs;
    match item
    case DataItem(_) =>
    case NameItem(s, compressible) => NameForecast(m, st, s, compress && compressible, end, tbl);
  }

  lemma {:induction false} ItemsForecast(m: Bytes, st: Lay, items: seq<Item>, compress: bool, cuts: seq<nat>,
                                         ts: seq<Table>, k: nat)
    requires DepthOk(m, st.tbl, st.depth) && AcceptedItems(items, st.tbl.Table?)
             && ItemsLaid(m, cuts, items, ts, compress)
    requires st.off == cuts[0] && st.tbl == ts[0] && k <= |items|
    ensures Reached(m, st, AfterItems(st, items[..k], compress), cuts[k], ts[k],
                    forall i :: 0 <= i < k ==> ItemFew(m, cuts[i], items[i]))
  {
    hide ItemLaid, AcceptedItem, AfterItem, ItemFew, DepthOk;
    if k > 0 {
      ItemsForecast(m, st, items, compress, cuts, ts, k - 1);
      assert items[..k][..k - 1] == items[..k - 1];
      ItemForecast(m, AfterItems(st, items[..k - 1], compress), items[k - 1], compress, cuts[k], ts[k]);
    }
  }

  lemma RecordForecast(m: Bytes, st: Lay, rec: Record, end: nat, e: nat, cuts: seq<nat>, tbl: Table, ts: seq<Table>,
                       compress: bool, flat: bool)
    requires DepthOk(m, st.tbl, st.depth) && AcceptedRecord(rec, st.tbl.Table?)
    requires RecordHeld(m, st.off, end, rec, e, cuts, flat)
             && RecordLaid(m, st.off, rec, e, cuts, st.tbl, tbl, ts, compress)
    ensures Reached(m, st, AfterRecord(st, rec, compress), end, tbl, RecordFew(m, st.off, rec, cuts))
  {
    hide NameOf, Accepted, AfterName, NameFew, PackedAs, DepthOk, NameHeld, ItemHeld, FixedPart, AcceptedItem,
         ItemLaid, ItemFew, AfterItems;
    NameForecast(m, st, rec.owner, compress, e, ts[0]);
    var n := AfterName(st, rec.owner, compress);
    ItemsForecast(m, Skip(n, 10), rec.items, compress, cuts, ts, |rec.items|);
    assert rec.items[..|rec.items|] == rec.items;
  }

  lemma RecordInForecast(layouts: Layouts, m: Bytes, st: Lay, rec: Record, end: nat, tbl: Table, compress: bool,
                         flat: bool)
    requires DepthOk(m, st.tbl, st.depth) && AcceptedRecord(rec, st.tbl.Table?) && GoodRecord(layouts, rec)
    requires RecordLaidIn(m, st.off, end, rec, st.tbl, tbl, compress, flat)
    ensures Reached(m, st, AfterRecord(st, rec, compress), end, tbl, RecordFewIn(m, st.off, end, rec, flat))
  {
    hide DepthOk, AcceptedRecord, GoodRecord, RecordHeld, RecordLaid, AfterRecord, RecordFew, RecordAt, HeaderAt,
         FewRecord;
    var e: nat, cuts: seq<nat>, ts: seq<Table> :|
      RecordHeld(m, st.off, end, rec, e, cuts, flat) && RecordLaid(m, st.off, rec, e, cuts, st.tbl, tbl, ts, compress);
    RecordForecast(m, st, rec, end, e, cuts, tbl, ts, compress, flat);
    RecordReads(layouts, m, st.off, end, rec, e, cuts, flat);
    RecordInReads(layouts, m, st.off, end, rec, flat);
  }

  lemma {:induction false} SectionForecast(layouts: Layouts, m: Bytes, st: Lay, recs: seq<Record>, compress: bool,
                                           cuts: seq<nat>, ts: seq<Table>, flat: bool, k: nat)
    requires DepthOk(m, st.tbl, st.depth) && Packable(recs, st.tbl.Table?)
             && SectionLaid(m, cuts, recs, ts, compress, flat)
    requires (forall i :: 0 <= i < |recs| ==> GoodRecord(layouts, recs[i])) && st.off == cuts[0] && st.tbl == ts[0]
             && k <= |recs|
    ensures Reached(m, st, AfterRecords(st, recs[..k], compress), cuts[k], ts[k],
                    forall i :: 0 <= i < k ==> RecordFewIn(m, cuts[i], cuts[i + 1], recs[i], flat))
  {
    hide RecordLaidIn, AcceptedRecord, AfterRecord, RecordFewIn, DepthOk, GoodRecord;
    if k > 0 {
      SectionForecast(layouts, m, st, recs, compress, cuts, ts, flat, k - 1);
      assert recs[..k][..k - 1] == recs[..k - 1];
      RecordInForecast(layouts, m, AfterRecords(st, recs[..k - 1], compress), recs[k - 1], cuts[k], ts[k], compress,
        flat);
    }
  }

  lemma {:induction false} QuestionsForecast(m: Bytes, st: Lay, qs: seq<Question>, compress: bool, cuts: seq<nat>,
                                             ts: seq<Table>, k: nat)
    requires DepthOk(m, st.tbl, st.depth) && (forall i :: 0 <= i < |qs| ==> Accepted(qs[i].name, st.tbl.Table?))
    requires QuestionsLaid(m, cuts, qs, ts, compress) && st.off == cuts[0] && st.tbl == ts[0] && k <= |qs|
    ensures Reached(m, st, AfterQuestions(st, qs[..k], compress), cuts[k], ts[k],
                    forall i :: 0 <= i < k ==> NameFew(m, cuts[i], NameOf(qs[i].name)))
  {
    hide PackedAs, Accepted, AfterName, NameFew, DepthOk, NameOf;
    if k > 0 {
      QuestionsForecast(m, st, qs, compress, cuts, ts, k - 1);
      assert qs[..k][..k - 1] == qs[..k - 1];
      assert QuestionLaid(m, cuts[k - 1], cuts[k], qs[k - 1], ts[k - 1], ts[k], compress);
      NameForecast(m, AfterQuestions(st, qs[..k - 1], compress), qs[k - 1].name, compress, cuts[k] - 4, ts[k]);
    }
  }

  lemma SectionWhole(layouts: Layouts, m: Bytes, st: Lay, recs: seq<Record>, compress: bool, cuts: seq<nat>,
                     ts: seq<Table>, flat: bool)
    requires DepthOk(m, st.tbl, st.depth) && Packable(recs, st.tbl.Table?)
             && SectionLaid(m, cuts, recs, ts, compress, flat)
    requires (forall i :: 0 <= i < |recs| ==> GoodRecord(layouts, recs[i])) && st.off == cuts[0] && st.tbl == ts[0]
    ensures Reached(m, st, AfterRecords(st, recs, compress), cuts[|recs|], ts[|recs|], SectionFew(m, cuts, recs, flat))
  {
    hide RecordLaidIn, AcceptedRecord, AfterRecords, RecordFewIn, DepthOk, GoodRecord;
    SectionForecast(layouts, m, st, recs, compress, cuts, ts, flat, |recs|);
    assert recs[..|recs|] == recs;
  }

  lemma QuestionsWhole(m: Bytes, st: Lay, qs: seq<Question>, compress: bool, cuts: seq<nat>, ts: seq<Table>)
    requires DepthOk(m, st.tbl, st.depth) && (forall i :: 0 <= i < |qs| ==> Accepted(qs[i].name, st.tbl.Table?))
    requires QuestionsLaid(m, cuts, qs, ts, compress) && st.off == cuts[0] && st.tbl == ts[0]
    ensures Reached(m, st, AfterQuestions(st, qs, compress), cuts[|qs|], ts[|qs|], QuestionsFew(m, cuts, qs))
  {
    hide QuestionLaid, Accepted, AfterQuestions, NameFew, DepthOk, NameOf;
    QuestionsForecast(m, st, qs, compress, cuts, ts, |qs|);
    assert qs[..|qs|] == qs;
  }

  /** The names of a packed message take few pointers exactly when the forecast says so. */
  lemma MessageForecast(layouts: Layouts, m: Bytes, dns: Outgoing, pl: Places, tb: Tables, compress: bool)
    requires GoodMessage(layouts, dns) && PackableMessage(dns, compress)
    requires MessageHeld(m, dns, pl, !compress) && Laid(m, dns, pl, tb, compress)
    ensures MessageFew(m, dns, pl, !compress) <==> LongestChain(dns, compress) <= MAX_POINTERS
    ensures QuestionsFew(m, pl.q, dns.question) <==> QuestionLay(dns, compress).longest <= MAX_POINTERS
  {
    hide QuestionsLaid, SectionLaid, QuestionsHeld, SectionHeld, HeaderOctets, AfterQuestions, AfterRecords,
         QuestionsFew, SectionFew, Packable, Accepted, GoodRecord, GoodQuestion, EntryAt;
    SizesMatch(m, dns, pl, tb, compress);
    var st := Lay(StartTable(compress), map[], HEADER_SIZE, 0);
    QuestionsWhole(m, st, dns.question, compress, pl.q, tb.q);
    var s1 := QuestionLay(dns, compress);
    SectionWhole(layouts, m, s1, dns.answer, compress, pl.an, tb.an, !compress);
    var s2 := AfterRecords(s1, dns.answer, compress);
    SectionWhole(layouts, m, s2, dns.ns, compress, pl.ns, tb.ns, !compress);
    var s3 := AfterRecords(s2, dns.ns, compress);
    SectionWhole(layouts, m, s3, dns.extra, compress, pl.ex, tb.ex, !compress);
  }

  lemma SizesMatch(m: Bytes, dns: Outgoing, pl: Places, tb: Tables, compress: bool)
    requires MessageHeld(m, dns, pl, !compress) && Laid(m, dns, pl, tb, compress)
    ensures |pl.q| == |tb.q| == |dns.question| + 1 && |pl.an| == |tb.an| == |dns.answer| + 1
    ensures |pl.ns| == |tb.ns| == |dns.ns| + 1 && |pl.ex| == |tb.ex| == |dns.extra| + 1
  {
    hide QuestionLaid, RecordLaidIn, QuestionHeld, RecordIn, HeaderOctets;
  }

  /** Pack followed by Unpack gives the message back exactly when the longest chain of pointers worked out for it
      beforehand has at most ten. */
  method PackUnpackForecast(layouts: Layouts, dns: Outgoing, uncompressedLen: nat, compress: bool, buf: array<byte>)
    returns (out: Bytes, back: Incoming, err: Error)
    requires GoodMessage(layouts, dns) && PackableMessage(dns, compress) && uncompressedLen >= RoomForMessage(dns)
    modifies buf
    ensures var few, fewQuestions :=
              LongestChain(dns, compress) <= MAX_POINTERS, QuestionLay(dns, compress).longest <= MAX_POINTERS;
            ComesBack(dns, few, fewQuestions, back, err)
  {
    hide MessageHeld, MessageFew, Laid, QuestionsFew, GoodMessage, PackableMessage, ComesBack, StopsAtRefused,
         LongestChain, QuestionLay, RoomForMessage;
    ghost var pl, tb;
    out, back, err, pl, tb := PackUnpack(layouts, dns, uncompressedLen, compress, buf);
    MessageForecast(layouts, out, dns, pl, tb, compress);
  }
}
