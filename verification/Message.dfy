/** Whole messages: packing header, questions and the three record sections over one compression table, and
    unpacking them again. */
module Message {
  import opened Names
  import opened UnpackName
  import opened PackName
  import opened Compression
  import opened RoundTrip
  import opened ReadRecord
  import opened WriteRecord
  import opened ReadBack

  const HEADER_SIZE := 12

  /** A question to be packed: its name is a text. */
  datatype Question = Question(name: Bytes, qtype: nat, qclass: nat)

  /** A message to be packed; bits is the second header word. */
  datatype Outgoing = Outgoing(
    id: nat, bits: nat, question: seq<Question>, answer: seq<Record>, ns: seq<Record>, extra: seq<Record>)

  /** Where the questions and the records of each section begin and end in a packed message. */
  datatype Places = Places(q: seq<nat>, an: seq<nat>, ns: seq<nat>, ex: seq<nat>)

  /** The compression table before each question and record, and after the last. */
  datatype Tables = Tables(q: seq<Table>, an: seq<Table>, ns: seq<Table>, ex: seq<Table>)

  datatype ReadQuestion = ReadQuestion(name: Bytes, qtype: nat, qclass: nat)

  datatype Incoming = Incoming(
    id: nat, bits: nat, question: seq<ReadQuestion>, answer: seq<RR>, ns: seq<RR>, extra: seq<RR>)

  // ----- Reading -----------------------------------------------------------------------------------

  /** unpackQuestion: a question cut short after its name or type is accepted with zeros. */
  function QuestionAt(m: Bytes, off: nat): Read<ReadQuestion> {
    match NameAt(m, off)
    case Fault(e) => Fault(e)
    case Got(s, o) =>
      if o == |m| then Got(ReadQuestion(s, 0, 0), o)
      else if o + 2 > |m| then Fault(ErrOverflow)
      else if o + 4 > |m| then Got(ReadQuestion(s, U16(m, o), 0), |m|)
      else Got(ReadQuestion(s, U16(m, o), U16(m, o + 2)), o + 4)
  }

  function QuestionsAt(l: nat, m: Bytes, off: nat): Read<seq<ReadQuestion>> {
    if l == 0 then Got([], off)
    else
      match QuestionAt(m, off)
      case Fault(e) => Fault(e)
      case Got(q, o) =>
        if o == off then Got([], off)
        else
          match QuestionsAt(l - 1, m, o)
          case Fault(e) => Fault(e)
          case Got(qs, next) => Got([q] + qs, next)
  }

  /** The questions read before the loop stops, at a fault or after the last one. */
  function QuestionsBefore(l: nat, m: Bytes, off: nat): (qs: seq<ReadQuestion>)
    ensures |qs| <= l
    ensures QuestionsAt(l, m, off).Got? ==> qs == QuestionsAt(l, m, off).value
    ensures QuestionsAt(l, m, off).Fault? ==> |qs| < l
  {
    if l == 0 then []
    else
      match QuestionAt(m, off)
      case Fault(_) => []
      case Got(q, o) => if o == off then [] else [q] + QuestionsBefore(l - 1, m, o)
  }

  lemma BeforeStep(l: nat, m: Bytes, off: nat, dst: seq<ReadQuestion>)
    requires l > 0
    ensures match QuestionAt(m, off)
            case Fault(_) => dst + QuestionsBefore(l, m, off) == dst
            case Got(q, o) =>
              dst + QuestionsBefore(l, m, off) == if o == off then dst else dst + [q] + QuestionsBefore(l - 1, m, o)
  {
    match QuestionAt(m, off)
    case Fault(_) =>
    case Got(q, o) =>
      if o != off {
        assert dst + ([q] + QuestionsBefore(l - 1, m, o)) == dst + [q] + QuestionsBefore(l - 1, m, o);
      }
  }

  function PrependQuestions(dst: seq<ReadQuestion>, s: Read<seq<ReadQuestion>>): Read<seq<ReadQuestion>> {
    match s
    case Fault(e) => Fault(e)
    case Got(qs, next) => Got(dst + qs, next)
  }

  lemma QuestionsStep(l: nat, m: Bytes, off: nat, dst: seq<ReadQuestion>)
    requires l > 0
    ensures match QuestionAt(m, off)
            case Fault(e) => PrependQuestions(dst, QuestionsAt(l, m, off)) == Fault(e)
            case Got(q, o) =>
              PrependQuestions(dst, QuestionsAt(l, m, off)) ==
              if o == off then Got(dst, off) else PrependQuestions(dst + [q], QuestionsAt(l - 1, m, o))
  {
    match QuestionAt(m, off)
    case Fault(_) =>
    case Got(q, o) =>
      if o == off {
        assert dst + [] == dst;
      } else {
        var rest := QuestionsAt(l - 1, m, o);
        assert rest.Got? ==> dst + ([q] + rest.value) == dst + [q] + rest.value;
      }
  }

  /** Questions read one behind the other, each moving on: question i between cuts i and i + 1. */
  ghost predicate QuestionRow(m: Bytes, cuts: seq<nat>, qs: seq<ReadQuestion>) {
    && |cuts| == |qs| + 1
    && forall i :: 0 <= i < |qs| ==> cuts[i + 1] != cuts[i] && QuestionAt(m, cuts[i]) == Got(qs[i], cuts[i + 1])
  }

  lemma QuestionRowBefore(m: Bytes, off: nat, q: ReadQuestion, cuts: seq<nat>, qs: seq<ReadQuestion>)
    requires QuestionRow(m, cuts, qs) && off != cuts[0] && QuestionAt(m, off) == Got(q, cuts[0])
    ensures QuestionRow(m, [off] + cuts, [q] + qs)
  {
    hide QuestionAt;
    var cs, all := [off] + cuts, [q] + qs;
    forall i | 0 <= i < |all| ensures cs[i + 1] != cs[i] && QuestionAt(m, cs[i]) == Got(all[i], cs[i + 1]) {
      if i > 0 {
        assert cs[i] == cuts[i - 1] && cs[i + 1] == cuts[i] && all[i] == qs[i - 1];
      }
    }
  }

  /** The questions are read in a row up to the claimed number or the end of the message; those before a bad one
      are kept. */
  lemma {:induction false} QuestionsInRow(l: nat, m: Bytes, off: nat) returns (cuts: seq<nat>, qs: seq<ReadQuestion>)
    ensures |qs| <= l && QuestionRow(m, cuts, qs) && cuts[0] == off && QuestionsBefore(l, m, off) == qs
    ensures match QuestionsAt(l, m, off)
            case Got(value, next) =>
              && value == qs && next == cuts[|qs|]
              && (|qs| == l || (QuestionAt(m, next).Got? && QuestionAt(m, next).next == next))
            case Fault(e) => |qs| < l && QuestionAt(m, cuts[|qs|]) == Fault(e)
    decreases l
  {
    hide QuestionAt;
    cuts, qs := [off], [];
    if l > 0 {
      var q := QuestionAt(m, off);
      if q.Got? && q.next != off {
        cuts, qs := QuestionsInRow(l - 1, m, q.next);
        QuestionRowBefore(m, off, q.value, cuts, qs);
        cuts, qs := [off] + cuts, [q.value] + qs;
      }
    }
  }

  lemma QuestionFault(m: Bytes, off: nat)
    ensures QuestionAt(m, off) != Fault(NoError)
  {
    BadIsError(m, off, MAX_POINTERS);
  }

  /** The question loop of Unpack. The questions read before a fault stay in the message. */
  method UnpackQuestions(l: nat, m: Bytes) returns (qs: seq<ReadQuestion>, off: nat, err: Error)
    ensures qs == QuestionsBefore(l, m, HEADER_SIZE)
    ensures match QuestionsAt(l, m, HEADER_SIZE)
            case Fault(e) => err == e != NoError
            case Got(value, next) => qs == value && off == next && err == NoError
  {
    hide QuestionAt;
    ghost var goal := QuestionsAt(l, m, HEADER_SIZE);
    ghost var all := QuestionsBefore(l, m, HEADER_SIZE);
    qs, off, err := [], HEADER_SIZE, NoError;
    assert [] + all == all && (goal.Got? ==> [] + goal.value == goal.value);
    for i := 0 to l
      invariant PrependQuestions(qs, QuestionsAt(l - i, m, off)) == goal
      invariant qs + QuestionsBefore(l - i, m, off) == all
    {
      QuestionsStep(l - i, m, off, qs);
      BeforeStep(l - i, m, off, qs);
      match QuestionAt(m, off)
      case Fault(e) =>
        QuestionFault(m, off);
        return qs, off, e;
      case Got(q, o) =>
        if o == off {
          return;
        }
        qs, off := qs + [q], o;
    }
    assert qs + [] == qs;
  }

  /** A question in octets: type and class behind the name, each the more significant octet first; where the message
      ends early they are zero. */
  lemma QuestionInOctets(m: Bytes, off: nat)
    requires QuestionAt(m, off).Got?
    ensures NameAt(m, off).Got?
    ensures var q, o := QuestionAt(m, off).value, NameAt(m, off).next;
            && q.name == NameAt(m, off).value
            && (o + 2 <= |m| ==> q.qtype == 256 * (m[o] as int) + m[o + 1])
            && (o + 4 <= |m| ==> q.qclass == 256 * (m[o + 2] as int) + m[o + 3] && QuestionAt(m, off).next == o + 4)
            && (o == |m| ==> q.qtype == 0) && (o + 4 > |m| ==> q.qclass == 0)
  {
    hide Decode;
  }

  /** The TC bit is the second lowest of the third octet of the header. */
  lemma TruncatedBit(m: Bytes)
    requires |m| >= 12
    ensures Truncated(256 * (m[2] as int) + m[3]) <==> m[2] / 2 % 2 == 1
  {}

  predicate Truncated(bits: nat) {
    bits / 512 % 2 == 1
  }

  /** The sections from a point on: one that fails leaves itself and the later ones empty. */
  ghost predicate ExtraRead(layouts: Layouts, m: Bytes, off: nat, dns: Incoming, err: Error)
    requires |m| >= HEADER_SIZE
  {
    match SectionAt(layouts, 256 * (m[10] as int) + m[11], m, off)
    case Fault(e) => dns.extra == [] && err == Final(dns.bits, m, |m|, e)
    case Got(ex, next) => dns.extra == ex && err == Final(dns.bits, m, next, NoError)
  }

  ghost predicate NsRead(layouts: Layouts, m: Bytes, off: nat, dns: Incoming, err: Error)
    requires |m| >= HEADER_SIZE
  {
    match SectionAt(layouts, 256 * (m[8] as int) + m[9], m, off)
    case Fault(e) => dns.ns == dns.extra == [] && err == Final(dns.bits, m, |m|, e)
    case Got(ns, next) => dns.ns == ns && ExtraRead(layouts, m, next, dns, err)
  }

  ghost predicate AnswerRead(layouts: Layouts, m: Bytes, off: nat, dns: Incoming, err: Error)
    requires |m| >= HEADER_SIZE
  {
    match SectionAt(layouts, 256 * (m[6] as int) + m[7], m, off)
    case Fault(e) => dns.answer == dns.ns == dns.extra == [] && err == Final(dns.bits, m, |m|, e)
    case Got(an, next) => dns.answer == an && NsRead(layouts, m, next, dns, err)
  }

  ghost predicate SectionsRead(layouts: Layouts, m: Bytes, dns: Incoming, err: Error)
    requires |m| >= HEADER_SIZE
  {
    match QuestionsAt(256 * (m[4] as int) + m[5], m, 12)
    case Fault(e) =>
      && dns.question == QuestionsBefore(256 * (m[4] as int) + m[5], m, 12)
      && dns.answer == dns.ns == dns.extra == [] && err == e
    case Got(qs, next) => dns.question == qs && AnswerRead(layouts, m, next, dns, err)
  }

  /** Msg.Unpack into a fresh message. A question that fails leaves those before it and no sections; a section that
      fails leaves itself and the later ones empty; a message that is used up to its end and has the TC bit set is
      reported as truncated. */
  method Unpack(layouts: Layouts, m: Bytes) returns (dns: Incoming, err: Error)
    ensures |m| < 12 ==> err == ErrOverflow
    ensures |m| == 12 ==> err == NoError && dns.question == [] && dns.answer == dns.ns == dns.extra == []
    ensures |m| >= 12 ==> dns.id == 256 * (m[0] as int) + m[1] && dns.bits == 256 * (m[2] as int) + m[3]
    ensures |m| > 12 ==> SectionsRead(layouts, m, dns, err)
  {
    hide SectionAt, QuestionsAt, QuestionsBefore, Final;
    if |m| < HEADER_SIZE {
      return Incoming(0, 0, [], [], [], []), ErrOverflow;
    }
    dns := Incoming(U16(m, 0), U16(m, 2), [], [], [], []);
    if |m| == HEADER_SIZE {
      return dns, NoError;
    }
    var qs, off;
    qs, off, err := UnpackQuestions(U16(m, 4), m);
    dns := dns.(question := qs);
    if err != NoError {
      return;
    }
    var rs;
    rs, off, err := UnpackRRSlice(layouts, U16(m, 6), m, off);
    dns := dns.(answer := rs);
    if err == NoError {
      rs, off, err := UnpackRRSlice(layouts, U16(m, 8), m, off);
      dns := dns.(ns := rs);
    }
    if err == NoError {
      rs, off, err := UnpackRRSlice(layouts, U16(m, 10), m, off);
      dns := dns.(extra := rs);
    }
    err := Final(dns.bits, m, off, err);
  }

  function Final(bits: nat, m: Bytes, off: nat, err: Error): Error {
    if off == |m| && Truncated(bits) then ErrTruncated else err
  }

  // ----- What a packed message holds ---------------------------------------------------------------

  ghost predicate QuestionHeld(m: Bytes, off: nat, end: nat, q: Question, flat: bool) {
    && end <= |m| && off + 4 <= end && NameHeld(m, NOWHERE, off, end - 4, NameOf(q.name), flat)
    && At(m, end - 4, Be16(q.qtype) + Be16(q.qclass))
  }

  ghost predicate RecordIn(m: Bytes, off: nat, end: nat, rec: Record, flat: bool) {
    exists e: nat, cuts: seq<nat> :: RecordHeld(m, off, end, rec, e, cuts, flat)
  }

  lemma QuestionKept(a: Bytes, b: Bytes, off: nat, end: nat, q: Question, flat: bool)
    requires QuestionHeld(a, off, end, q, flat) && Agree(a, b, NOWHERE, end)
    ensures QuestionHeld(b, off, end, q, flat)
  {
    hide NameHeld;
    HeldKept(a, b, NOWHERE, NOWHERE, off, end - 4, NameOf(q.name), flat);
    assert b[end - 4..end] == a[end - 4..end];
  }

  lemma RecordHeldKept(a: Bytes, b: Bytes, off: nat, end: nat, rec: Record, e: nat, cuts: seq<nat>, flat: bool)
    requires RecordHeld(a, off, end, rec, e, cuts, flat) && Agree(a, b, NOWHERE, end)
    ensures RecordHeld(b, off, end, rec, e, cuts, flat)
  {
    hide NameHeld, ItemHeld, FixedPart, NameOf;
    HeldKept(a, b, NOWHERE, NOWHERE, off, e, NameOf(rec.owner), flat);
    ItemsKept(a, b, NOWHERE, NOWHERE, cuts, rec.items, flat);
    assert b[e..e + 10] == a[e..e + 10];
  }

  lemma RecordKept(a: Bytes, b: Bytes, off: nat, end: nat, rec: Record, flat: bool)
    requires RecordIn(a, off, end, rec, flat) && Agree(a, b, NOWHERE, end)
    ensures RecordIn(b, off, end, rec, flat)
  {
    hide RecordHeld;
    var e: nat, cuts: seq<nat> :| RecordHeld(a, off, end, rec, e, cuts, flat);
    RecordHeldKept(a, b, off, end, rec, e, cuts, flat);
  }

  ghost predicate Ascending(cuts: seq<nat>) {
    forall i, j :: 0 <= i <= j < |cuts| ==> cuts[i] <= cuts[j]
  }

  ghost predicate QuestionsHeld(m: Bytes, cuts: seq<nat>, qs: seq<Question>, flat: bool) {
    && |cuts| == |qs| + 1 && Ascending(cuts)
    && forall i :: 0 <= i < |qs| ==> QuestionHeld(m, cuts[i], cuts[i + 1], qs[i], flat)
  }

  ghost predicate SectionHeld(m: Bytes, cuts: seq<nat>, recs: seq<Record>, flat: bool) {
    && |cuts| == |recs| + 1 && Ascending(cuts)
    && forall i :: 0 <= i < |recs| ==> RecordIn(m, cuts[i], cuts[i + 1], recs[i], flat)
  }

  lemma QuestionsKept(a: Bytes, b: Bytes, cuts: seq<nat>, qs: seq<Question>, flat: bool)
    requires QuestionsHeld(a, cuts, qs, flat) && Agree(a, b, NOWHERE, cuts[|qs|])
    ensures QuestionsHeld(b, cuts, qs, flat)
  {
    hide QuestionHeld;
    forall i | 0 <= i < |qs| ensures QuestionHeld(b, cuts[i], cuts[i + 1], qs[i], flat) {
      assert cuts[i + 1] <= cuts[|qs|];
      QuestionKept(a, b, cuts[i], cuts[i + 1], qs[i], flat);
    }
  }

  lemma SectionKept(a: Bytes, b: Bytes, cuts: seq<nat>, recs: seq<Record>, flat: bool)
    requires SectionHeld(a, cuts, recs, flat) && Agree(a, b, NOWHERE, cuts[|recs|])
    ensures SectionHeld(b, cuts, recs, flat)
  {
    hide RecordIn;
    forall i | 0 <= i < |recs| ensures RecordIn(b, cuts[i], cuts[i + 1], recs[i], flat) {
      assert cuts[i + 1] <= cuts[|recs|];
      RecordKept(a, b, cuts[i], cuts[i + 1], recs[i], flat);
    }
  }

  /** The question's name is packed with one table and leaves the other. */
  ghost predicate QuestionLaid(m: Bytes, off: nat, end: nat, q: Question, tbl: Table, tbl': Table, compress: bool) {
    TableOk(tbl) && Short(NameOf(q.name)) && off + 4 <= end
      && PackedAs(NameOf(q.name), tbl, off, compress, m, end - 4, tbl')
  }

  /** The questions are packed one after the other, the table going from each to the next. */
  ghost predicate QuestionsLaid(m: Bytes, cuts: seq<nat>, qs: seq<Question>, ts: seq<Table>, compress: bool) {
    && |cuts| == |ts| == |qs| + 1
    && forall i :: 0 <= i < |qs| ==> QuestionLaid(m, cuts[i], cuts[i + 1], qs[i], ts[i], ts[i + 1], compress)
  }

  lemma LaidKept(a: Bytes, b: Bytes, cuts: seq<nat>, qs: seq<Question>, ts: seq<Table>, compress: bool)
    requires QuestionsLaid(a, cuts, qs, ts, compress) && Ascending(cuts) && Agree(a, b, NOWHERE, cuts[|qs|])
    ensures QuestionsLaid(b, cuts, qs, ts, compress)
  {
    hide Plan, NameOf, At;
    forall i | 0 <= i < |qs| ensures QuestionLaid(b, cuts[i], cuts[i + 1], qs[i], ts[i], ts[i + 1], compress) {
      assert QuestionLaid(a, cuts[i], cuts[i + 1], qs[i], ts[i], ts[i + 1], compress) && cuts[i + 1] <= cuts[|qs|];
      AtKept(a, b, cuts[i], Plan(NameOf(qs[i].name), ts[i], cuts[i], compress).bytes);
    }
  }

  lemma LaidExtended(m: Bytes, cuts: seq<nat>, qs: seq<Question>, ts: seq<Table>, end: nat, q: Question, tbl: Table,
                     compress: bool)
    requires QuestionsLaid(m, cuts, qs, ts, compress) && QuestionLaid(m, cuts[|qs|], end, q, ts[|qs|], tbl, compress)
    ensures QuestionsLaid(m, cuts + [end], qs + [q], ts + [tbl], compress)
  {
    hide QuestionLaid;
  }

  lemma QuestionsExtended(m: Bytes, cuts: seq<nat>, qs: seq<Question>, end: nat, q: Question, flat: bool)
    requires QuestionsHeld(m, cuts, qs, flat) && cuts[|qs|] <= end && QuestionHeld(m, cuts[|qs|], end, q, flat)
    ensures QuestionsHeld(m, cuts + [end], qs + [q], flat)
  {
    hide QuestionHeld;
  }

  /** The record's names are packed with one table and leave the other. */
  ghost predicate RecordLaidIn(m: Bytes, off: nat, end: nat, rec: Record, tbl: Table, tbl': Table, compress: bool,
                               flat: bool) {
    exists e: nat, cuts: seq<nat>, ts: seq<Table> ::
      RecordHeld(m, off, end, rec, e, cuts, flat) && RecordLaid(m, off, rec, e, cuts, tbl, tbl', ts, compress)
  }

  /** And so are those of a section, the table going from each record to the next. */
  ghost predicate SectionLaid(m: Bytes, cuts: seq<nat>, recs: seq<Record>, ts: seq<Table>, compress: bool, flat: bool) {
    && |cuts| == |ts| == |recs| + 1
    && forall i :: 0 <= i < |recs| ==> RecordLaidIn(m, cuts[i], cuts[i + 1], recs[i], ts[i], ts[i + 1], compress, flat)
  }

  lemma RecordLaidInKept(a: Bytes, b: Bytes, off: nat, end: nat, rec: Record, tbl: Table, tbl': Table, compress: bool,
                         flat: bool)
    requires RecordLaidIn(a, off, end, rec, tbl, tbl', compress, flat) && Agree(a, b, NOWHERE, end)
    ensures RecordLaidIn(b, off, end, rec, tbl, tbl', compress, flat)
  {
    hide RecordLaid, NameHeld, ItemHeld, FixedPart, NameOf;
    var e: nat, cuts: seq<nat>, ts: seq<Table> :|
      RecordHeld(a, off, end, rec, e, cuts, flat) && RecordLaid(a, off, rec, e, cuts, tbl, tbl', ts, compress);
    RecordHeldKept(a, b, off, end, rec, e, cuts, flat);
    RecordLaidKept(a, b, off, rec, e, cuts, tbl, tbl', ts, compress);
  }

  lemma SectionLaidKept(a: Bytes, b: Bytes, cuts: seq<nat>, recs: seq<Record>, ts: seq<Table>, compress: bool,
                        flat: bool)
    requires SectionLaid(a, cuts, recs, ts, compress, flat) && Ascending(cuts) && Agree(a, b, NOWHERE, cuts[|recs|])
    ensures SectionLaid(b, cuts, recs, ts, compress, flat)
  {
    hide RecordLaidIn;
    forall i | 0 <= i < |recs|
      ensures RecordLaidIn(b, cuts[i], cuts[i + 1], recs[i], ts[i], ts[i + 1], compress, flat)
    {
      assert cuts[i + 1] <= cuts[|recs|];
      RecordLaidInKept(a, b, cuts[i], cuts[i + 1], recs[i], ts[i], ts[i + 1], compress, flat);
    }
  }

  lemma SectionLaidExtended(m: Bytes, cuts: seq<nat>, recs: seq<Record>, ts: seq<Table>, end: nat, rec: Record,
                            tbl: Table, compress: bool, flat: bool)
    requires SectionLaid(m, cuts, recs, ts, compress, flat)
    requires RecordLaidIn(m, cuts[|recs|], end, rec, ts[|recs|], tbl, compress, flat)
    ensures SectionLaid(m, cuts + [end], recs + [rec], ts + [tbl], compress, flat)
  {
    hide RecordLaidIn;
  }

  lemma SectionExtended(m: Bytes, cuts: seq<nat>, recs: seq<Record>, end: nat, rec: Record, flat: bool)
    requires SectionHeld(m, cuts, recs, flat) && cuts[|recs|] <= end && RecordIn(m, cuts[|recs|], end, rec, flat)
    ensures SectionHeld(m, cuts + [end], recs + [rec], flat)
  {
    hide RecordIn;
  }

  // ----- Packing -----------------------------------------------------------------------------------------

  function RoomForQuestions(qs: seq<Question>): nat {
    if qs == [] then 0 else RoomForQuestions(qs[..|qs| - 1]) + Octets(NameOf(qs[|qs| - 1].name)) + 4
  }

  function RoomFor(recs: seq<Record>): nat {
    if recs == [] then 0
    else var rec := recs[|recs| - 1]; RoomFor(recs[..|recs| - 1]) + (Octets(NameOf(rec.owner)) + 10 + Sizes(rec.items))
  }

  ghost predicate Packable(recs: seq<Record>, keyed: bool) {
    forall i :: 0 <= i < |recs| ==> AcceptedRecord(recs[i], keyed) && Sizes(recs[i].items) <= 0xFFFF
  }

  lemma {:induction false} RoomPrefix(recs: seq<Record>, i: nat)
    requires i <= |recs|
    ensures RoomFor(recs[..i]) <= RoomFor(recs)
    decreases |recs|
  {
    if i < |recs| {
      assert recs[..|recs| - 1][..i] == recs[..i];
      RoomPrefix(recs[..|recs| - 1], i);
    } else {
      assert recs[..i] == recs;
    }
  }

  lemma RoomStep(recs: seq<Record>, i: nat)
    requires i < |recs|
    ensures RoomFor(recs[..i + 1]) == RoomFor(recs[..i]) + (Octets(NameOf(recs[i].owner)) + 10 + Sizes(recs[i].items))
    ensures RoomFor(recs[..i + 1]) <= RoomFor(recs)
  {
    assert recs[..i + 1][..i] == recs[..i];
    RoomPrefix(recs, i + 1);
  }

  /** One more record behind a packed section. */
  method PackNext(rec: Record, msg: array<byte>, off: nat, tbl: Table, compress: bool,
                  ghost recs: seq<Record>, ghost cuts: seq<nat>, ghost ts: seq<Table>, ghost flat: bool)
    returns (off1: nat, err: Error, tbl': Table)
    requires flat ==> !compress
    requires AcceptedRecord(rec, tbl.Table?) && Sizes(rec.items) <= 0xFFFF && Sound(msg[..], NOWHERE, off, tbl)
    requires off + Octets(NameOf(rec.owner)) + 10 + Sizes(rec.items) <= msg.Length
    requires SectionHeld(msg[..], cuts, recs, flat) && cuts[|recs|] == off
    requires SectionLaid(msg[..], cuts, recs, ts, compress, flat) && ts[|recs|] == tbl
    modifies msg
    ensures Same(old(msg[..]), msg[..], off)
    ensures err == NoError && off <= off1 <= off + Octets(NameOf(rec.owner)) + 10 + Sizes(rec.items)
    ensures Sound(msg[..], NOWHERE, off1, tbl') && tbl'.Table? == tbl.Table?
    ensures SectionHeld(msg[..], cuts + [off1], recs + [rec], flat)
    ensures SectionLaid(msg[..], cuts + [off1], recs + [rec], ts + [tbl'], compress, flat)
  {
    hide RecordIn, RecordLaidIn, Sound, RecordHeld, RecordLaid, Sizes, NameOf, AcceptedRecord;
    SectionCuts(msg[..], cuts, recs, flat);
    ghost var a := msg[..];
    ghost var e, ecuts, ets;
    off1, err, tbl', e, ecuts, ets := PackRR(rec, 0, msg, off, tbl, compress, flat);
    RecordEnds(msg[..], off, off1, rec, e, ecuts, flat);
    LaidIn(msg[..], off, off1, rec, e, ecuts, tbl, tbl', ets, compress, flat);
    SectionKept(a, msg[..], cuts, recs, flat);
    SectionExtended(msg[..], cuts, recs, off1, rec, flat);
    SectionLaidKept(a, msg[..], cuts, recs, ts, compress, flat);
    SectionLaidExtended(msg[..], cuts, recs, ts, off1, rec, tbl', compress, flat);
  }

  lemma LaidIn(m: Bytes, off: nat, end: nat, rec: Record, e: nat, cuts: seq<nat>, tbl: Table, tbl': Table,
               ts: seq<Table>, compress: bool, flat: bool)
    requires RecordHeld(m, off, end, rec, e, cuts, flat) && RecordLaid(m, off, rec, e, cuts, tbl, tbl', ts, compress)
    ensures RecordLaidIn(m, off, end, rec, tbl, tbl', compress, flat)
  {}

  /** One section of records. */
  method PackSection(recs: seq<Record>, msg: array<byte>, start: nat, tbl: Table, compress: bool, ghost flat: bool)
    returns (off: nat, err: Error, tbl': Table, ghost cuts: seq<nat>, ghost ts: seq<Table>)
    requires flat ==> !compress
    requires Packable(recs, tbl.Table?) && Sound(msg[..], NOWHERE, start, tbl) && start + RoomFor(recs) <= msg.Length
    modifies msg
    ensures Same(old(msg[..]), msg[..], start)
    ensures err == NoError && tbl'.Table? == tbl.Table? && Sound(msg[..], NOWHERE, off, tbl')
            && SectionHeld(msg[..], cuts, recs, flat)
    ensures cuts[0] == start && cuts[|recs|] == off <= start + RoomFor(recs)
    ensures SectionLaid(msg[..], cuts, recs, ts, compress, flat) && ts[0] == tbl && ts[|recs|] == tbl'
  {
    hide RecordIn, RecordLaidIn, Sound, Sizes, NameOf, AcceptedRecord, RoomFor;
    off, err, tbl', cuts, ts := start, NoError, tbl, [start], [tbl];
    RoomNone(recs);
    for i := 0 to |recs|
      invariant err == NoError && start <= off <= start + RoomFor(recs[..i]) && start + RoomFor(recs[..i]) <= msg.Length
      invariant Same(old(msg[..]), msg[..], start) && tbl'.Table? == tbl.Table?
      invariant Sound(msg[..], NOWHERE, off, tbl') && SectionHeld(msg[..], cuts, recs[..i], flat)
      invariant SectionLaid(msg[..], cuts, recs[..i], ts, compress, flat) && ts[0] == tbl && ts[i] == tbl'
      invariant cuts[0] == start && cuts[i] == off
    {
      RoomStep(recs, i);
      off, err, tbl' := PackNext(recs[i], msg, off, tbl', compress, recs[..i], cuts, ts, flat);
      assert recs[..i] + [recs[i]] == recs[..i + 1];
      cuts, ts := cuts + [off], ts + [tbl'];
    }
    assert recs[..|recs|] == recs;
  }

  lemma RoomNone(recs: seq<Record>)
    ensures RoomFor(recs[..0]) == 0
  {}

  lemma RecordEnds(m: Bytes, off: nat, end: nat, rec: Record, e: nat, cuts: seq<nat>, flat: bool)
    requires RecordHeld(m, off, end, rec, e, cuts, flat)
    ensures off <= end && RecordIn(m, off, end, rec, flat)
  {
    WalkStable(m, m, off, e);
  }

  method PackQuestion(q: Question, msg: array<byte>, off: nat, tbl: Table, compress: bool, ghost flat: bool)
    returns (off1: nat, err: Error, tbl': Table)
    requires flat ==> !compress
    requires Accepted(q.name, tbl.Table?) && Sound(msg[..], NOWHERE, off, tbl)
             && off + Octets(NameOf(q.name)) + 4 <= msg.Length
    modifies msg
    ensures Same(old(msg[..]), msg[..], off)
    ensures err == NoError && off < off1 <= off + Octets(NameOf(q.name)) + 4
    ensures QuestionHeld(msg[..], off, off1, q, flat) && Sound(msg[..], NOWHERE, off1, tbl')
            && tbl'.Table? == tbl.Table?
    ensures QuestionLaid(msg[..], off, off1, q, tbl, tbl', compress)
  {
    hide NameHeld, Entry, Be16, Plan, NameOf;
    off1, err, tbl' := PackText(q.name, msg, off, tbl, compress, NOWHERE, flat);
    ghost var a, e := msg[..], off1;
    off1, err := PackOctets(msg, off1, Be16(q.qtype) + Be16(q.qclass));
    HeldKept(a, msg[..], NOWHERE, NOWHERE, off, e, NameOf(q.name), flat);
    SoundKept(a, msg[..], NOWHERE, e, NOWHERE, off1, tbl');
    AtKept(a, msg[..], off, Plan(NameOf(q.name), tbl, off, compress).bytes);
  }

  lemma {:induction false} QuestionRoomPrefix(qs: seq<Question>, i: nat)
    requires i <= |qs|
    ensures RoomForQuestions(qs[..i]) <= RoomForQuestions(qs)
    decreases |qs|
  {
    if i < |qs| {
      assert qs[..|qs| - 1][..i] == qs[..i];
      QuestionRoomPrefix(qs[..|qs| - 1], i);
    } else {
      assert qs[..i] == qs;
    }
  }

  lemma QuestionRoomStep(qs: seq<Question>, i: nat)
    requires i < |qs|
    ensures RoomForQuestions(qs[..i + 1]) == RoomForQuestions(qs[..i]) + Octets(NameOf(qs[i].name)) + 4
    ensures RoomForQuestions(qs[..i + 1]) <= RoomForQuestions(qs)
  {
    assert qs[..i + 1][..i] == qs[..i];
    QuestionRoomPrefix(qs, i + 1);
  }

  /** One more question behind those packed. */
  method PackNextQuestion(q: Question, msg: array<byte>, off: nat, tbl: Table, compress: bool,
                          ghost qs: seq<Question>, ghost cuts: seq<nat>, ghost ts: seq<Table>, ghost flat: bool)
    returns (off1: nat, err: Error, tbl': Table)
    requires flat ==> !compress
    requires Accepted(q.name, tbl.Table?) && Sound(msg[..], NOWHERE, off, tbl)
             && off + Octets(NameOf(q.name)) + 4 <= msg.Length
    requires QuestionsHeld(msg[..], cuts, qs, flat) && cuts[|qs|] == off
    requires QuestionsLaid(msg[..], cuts, qs, ts, compress) && ts[|qs|] == tbl
    modifies msg
    ensures Same(old(msg[..]), msg[..], off)
    ensures err == NoError && off < off1 <= off + Octets(NameOf(q.name)) + 4
    ensures Sound(msg[..], NOWHERE, off1, tbl') && tbl'.Table? == tbl.Table?
            && QuestionsHeld(msg[..], cuts + [off1], qs + [q], flat)
    ensures QuestionsLaid(msg[..], cuts + [off1], qs + [q], ts + [tbl'], compress)
  {
    hide QuestionHeld, QuestionLaid, Sound, NameOf, Accepted;
    ghost var a := msg[..];
    off1, err, tbl' := PackQuestion(q, msg, off, tbl, compress, flat);
    QuestionsKept(a, msg[..], cuts, qs, flat);
    QuestionsExtended(msg[..], cuts, qs, off1, q, flat);
    LaidKept(a, msg[..], cuts, qs, ts, compress);
    LaidExtended(msg[..], cuts, qs, ts, off1, q, tbl', compress);
  }

  method PackQuestions(qs: seq<Question>, msg: array<byte>, start: nat, tbl: Table, compress: bool, ghost flat: bool)
    returns (off: nat, err: Error, tbl': Table, ghost cuts: seq<nat>, ghost ts: seq<Table>)
    requires flat ==> !compress
    requires forall i :: 0 <= i < |qs| ==> Accepted(qs[i].name, tbl.Table?)
    requires Sound(msg[..], NOWHERE, start, tbl) && start + RoomForQuestions(qs) <= msg.Length
    modifies msg
    ensures Same(old(msg[..]), msg[..], start)
    ensures err == NoError && tbl'.Table? == tbl.Table? && Sound(msg[..], NOWHERE, off, tbl')
            && QuestionsHeld(msg[..], cuts, qs, flat)
    ensures cuts[0] == start && cuts[|qs|] == off <= start + RoomForQuestions(qs)
    ensures QuestionsLaid(msg[..], cuts, qs, ts, compress) && ts[0] == tbl && ts[|qs|] == tbl'
  {
    hide QuestionHeld, QuestionLaid, Sound, NameOf, Accepted, RoomForQuestions;
    off, err, tbl', cuts, ts := start, NoError, tbl, [start], [tbl];
    NoQuestionRoom(qs);
    for i := 0 to |qs|
      invariant err == NoError && start <= off <= start + RoomForQuestions(qs[..i])
                && start + RoomForQuestions(qs[..i]) <= msg.Length
      invariant Same(old(msg[..]), msg[..], start) && tbl'.Table? == tbl.Table?
      invariant Sound(msg[..], NOWHERE, off, tbl') && QuestionsHeld(msg[..], cuts, qs[..i], flat)
      invariant QuestionsLaid(msg[..], cuts, qs[..i], ts, compress) && ts[0] == tbl && ts[i] == tbl'
      invariant cuts[0] == start && cuts[i] == off
    {
      QuestionRoomStep(qs, i);
      off, err, tbl' := PackNextQuestion(qs[i], msg, off, tbl', compress, qs[..i], cuts, ts, flat);
      assert qs[..i] + [qs[i]] == qs[..i + 1];
      cuts, ts := cuts + [off], ts + [tbl'];
    }
    assert qs[..|qs|] == qs;
  }

  lemma NoQuestionRoom(qs: seq<Question>)
    ensures RoomForQuestions(qs[..0]) == 0
  {}

  function HeaderOctets(dns: Outgoing): (b: Bytes)
    ensures |b| == HEADER_SIZE
  {
    Be16(dns.id) + Be16(dns.bits) + Be16(|dns.question|) + Be16(|dns.answer|) + Be16(|dns.ns|) + Be16(|dns.extra|)
  }

  /** What can be packed: texts of names, which with compression hold no escapes, and rdata of at most 65535 octets. */
  ghost predicate PackableMessage(dns: Outgoing, keyed: bool) {
    && (forall i :: 0 <= i < |dns.question| ==> Accepted(dns.question[i].name, keyed))
    && Packable(dns.answer, keyed) && Packable(dns.ns, keyed) && Packable(dns.extra, keyed)
  }

  function RoomForMessage(dns: Outgoing): nat {
    HEADER_SIZE + RoomForQuestions(dns.question) + RoomFor(dns.answer) + RoomFor(dns.ns) + RoomFor(dns.extra)
  }

  /** The message holds everything in order: header, questions, and the three sections back to back up to
      its end. */
  ghost predicate MessageHeld(m: Bytes, dns: Outgoing, pl: Places, flat: bool) {
    && At(m, 0, HeaderOctets(dns))
    && QuestionsHeld(m, pl.q, dns.question, flat) && pl.q[0] == HEADER_SIZE
    && SectionHeld(m, pl.an, dns.answer, flat) && pl.an[0] == pl.q[|dns.question|]
    && SectionHeld(m, pl.ns, dns.ns, flat) && pl.ns[0] == pl.an[|dns.answer|]
    && SectionHeld(m, pl.ex, dns.extra, flat) && pl.ex[0] == pl.ns[|dns.ns|]
    && pl.ex[|dns.extra|] == |m|
  }

  function StartTable(compress: bool): Table {
    if compress then Table(map[]) else NoTable
  }

  /** Every name is laid out as the reference packer has it, the table going through the whole message. */
  ghost predicate Laid(m: Bytes, dns: Outgoing, pl: Places, tb: Tables, compress: bool) {
    && QuestionsLaid(m, pl.q, dns.question, tb.q, compress) && tb.q[0] == StartTable(compress)
    && SectionLaid(m, pl.an, dns.answer, tb.an, compress, !compress) && tb.an[0] == tb.q[|dns.question|]
    && SectionLaid(m, pl.ns, dns.ns, tb.ns, compress, !compress) && tb.ns[0] == tb.an[|dns.answer|]
    && SectionLaid(m, pl.ex, dns.extra, tb.ex, compress, !compress) && tb.ex[0] == tb.ns[|dns.ns|]
  }

  /** packBufferWithCompressionMap: packing never fails in a buffer of the uncompressed length, whatever was
      in it before, and the result holds the message. */
  method Pack(dns: Outgoing, uncompressedLen: nat, compress: bool, buf: array<byte>)
    returns (out: Bytes, err: Error, ghost pl: Places, ghost tb: Tables)
    requires PackableMessage(dns, compress) && uncompressedLen >= RoomForMessage(dns)
    modifies buf
    ensures err == NoError && |out| <= RoomForMessage(dns) && MessageHeld(out, dns, pl, !compress)
    ensures Laid(out, dns, pl, tb, compress)
    ensures |out| >= 12 && 256 * (out[0] as int) + out[1] == dns.id % 0x1_0000
    ensures 256 * (out[2] as int) + out[3] == dns.bits % 0x1_0000
    ensures 256 * (out[4] as int) + out[5] == |dns.question| % 0x1_0000
    ensures 256 * (out[6] as int) + out[7] == |dns.answer| % 0x1_0000
    ensures 256 * (out[8] as int) + out[9] == |dns.ns| % 0x1_0000
    ensures 256 * (out[10] as int) + out[11] == |dns.extra| % 0x1_0000
  {
    ghost var flat := !compress;
    hide QuestionsHeld, QuestionsLaid, SectionHeld, SectionLaid, Entry, HeaderOctets, RoomFor, RoomForQuestions,
         Packable, Accepted;
    var tbl := StartTable(compress);
    var msg := buf;
    var packLen := uncompressedLen + 1;
    if buf.Length < packLen {
      msg := new byte[packLen];
    }
    var off;
    ghost var q, an, ns, ex, tq, tan, tns, tex;
    off, err := PackOctets(msg, 0, HeaderOctets(dns));
    ghost var m0 := msg[..];
    off, err, tbl, q, tq := PackQuestions(dns.question, msg, off, tbl, compress, flat);
    ghost var m1 := msg[..];
    off, err, tbl, an, tan := PackSection(dns.answer, msg, off, tbl, compress, flat);
    ghost var m2 := msg[..];
    off, err, tbl, ns, tns := PackSection(dns.ns, msg, off, tbl, compress, flat);
    ghost var m3 := msg[..];
    off, err, tbl, ex, tex := PackSection(dns.extra, msg, off, tbl, compress, flat);
    out := msg[..off];
    pl, tb := Places(q, an, ns, ex), Tables(tq, tan, tns, tex);
    HeldTogether(dns, m0, m1, m2, m3, msg[..], out, pl, flat);
    LaidTogether(dns, m1, m2, m3, msg[..], out, pl, tb, compress);
    HeaderWords(out, dns);
  }

  /** The header of a packed message, octet by octet. */
  lemma HeaderWords(m: Bytes, dns: Outgoing)
    requires At(m, 0, HeaderOctets(dns))
    ensures |m| >= 12 && 256 * (m[0] as int) + m[1] == dns.id % 0x1_0000
    ensures 256 * (m[2] as int) + m[3] == dns.bits % 0x1_0000
    ensures 256 * (m[4] as int) + m[5] == |dns.question| % 0x1_0000
    ensures 256 * (m[6] as int) + m[7] == |dns.answer| % 0x1_0000
    ensures 256 * (m[8] as int) + m[9] == |dns.ns| % 0x1_0000
    ensures 256 * (m[10] as int) + m[11] == |dns.extra| % 0x1_0000
  {
    hide Be16, At;
    var f1 := Be16(dns.id);
    var f2 := f1 + Be16(dns.bits);
    var f3 := f2 + Be16(|dns.question|);
    var f4 := f3 + Be16(|dns.answer|);
    var f5 := f4 + Be16(|dns.ns|);
    WordOctets(m, 0, f5, |dns.extra|);
    WordOctets(m, 0, f4, |dns.ns|);
    WordOctets(m, 0, f3, |dns.answer|);
    WordOctets(m, 0, f2, |dns.question|);
    WordOctets(m, 0, f1, dns.bits);
    assert [] + f1 == f1;
    WordOctets(m, 0, [], dns.id);
  }

  /** The octets behind the name of a held question: type and class, the more significant octet first. */
  lemma QuestionOctets(m: Bytes, off: nat, end: nat, q: Question, flat: bool)
    requires QuestionHeld(m, off, end, q, flat)
    ensures Walk(m, off) == Some(end - 4) && end <= |m|
    ensures 256 * (m[end - 4] as int) + m[end - 3] == q.qtype % 0x1_0000
    ensures 256 * (m[end - 2] as int) + m[end - 1] == q.qclass % 0x1_0000
  {
    hide Be16, At;
    WordOctets(m, end - 4, Be16(q.qtype), q.qclass);
    assert [] + Be16(q.qtype) == Be16(q.qtype);
    WordOctets(m, end - 4, [], q.qtype);
  }

  /** Every part written is still there when the last one has been. */
  lemma HeldTogether(dns: Outgoing, m0: Bytes, m1: Bytes, m2: Bytes, m3: Bytes, m4: Bytes, out: Bytes, pl: Places,
                     flat: bool)
    requires At(m0, 0, HeaderOctets(dns)) && QuestionsHeld(m1, pl.q, dns.question, flat) && pl.q[0] == HEADER_SIZE
    requires SectionHeld(m2, pl.an, dns.answer, flat) && pl.an[0] == pl.q[|dns.question|]
    requires SectionHeld(m3, pl.ns, dns.ns, flat) && pl.ns[0] == pl.an[|dns.answer|]
    requires SectionHeld(m4, pl.ex, dns.extra, flat) && pl.ex[0] == pl.ns[|dns.ns|]
    requires Same(m0, m1, pl.q[0]) && Same(m1, m2, pl.an[0]) && Same(m2, m3, pl.ns[0]) && Same(m3, m4, pl.ex[0])
    requires pl.ex[|dns.extra|] <= |m4| && out == m4[..pl.ex[|dns.extra|]]
    ensures MessageHeld(out, dns, pl, flat)
  {
    hide QuestionsHeld, SectionHeld, HeaderOctets;
    HeldCuts(m1, pl.q, dns.question, flat);
    SectionCuts(m2, pl.an, dns.answer, flat);
    SectionCuts(m3, pl.ns, dns.ns, flat);
    SectionCuts(m4, pl.ex, dns.extra, flat);
    AtKept(m0, out, 0, HeaderOctets(dns));
    QuestionsKept(m1, out, pl.q, dns.question, flat);
    SectionKept(m2, out, pl.an, dns.answer, flat);
    SectionKept(m3, out, pl.ns, dns.ns, flat);
    SectionKept(m4, out, pl.ex, dns.extra, flat);
  }

  lemma LaidTogether(dns: Outgoing, m1: Bytes, m2: Bytes, m3: Bytes, m4: Bytes, out: Bytes, pl: Places, tb: Tables,
                     compress: bool)
    requires QuestionsLaid(m1, pl.q, dns.question, tb.q, compress) && tb.q[0] == StartTable(compress)
    requires SectionLaid(m2, pl.an, dns.answer, tb.an, compress, !compress) && tb.an[0] == tb.q[|dns.question|]
    requires SectionLaid(m3, pl.ns, dns.ns, tb.ns, compress, !compress) && tb.ns[0] == tb.an[|dns.answer|]
    requires SectionLaid(m4, pl.ex, dns.extra, tb.ex, compress, !compress) && tb.ex[0] == tb.ns[|dns.ns|]
    requires QuestionsHeld(m1, pl.q, dns.question, !compress) && SectionHeld(m2, pl.an, dns.answer, !compress)
    requires SectionHeld(m3, pl.ns, dns.ns, !compress) && SectionHeld(m4, pl.ex, dns.extra, !compress)
    requires pl.an[0] == pl.q[|dns.question|] && pl.ns[0] == pl.an[|dns.answer|] && pl.ex[0] == pl.ns[|dns.ns|]
    requires Same(m1, m2, pl.an[0]) && Same(m2, m3, pl.ns[0]) && Same(m3, m4, pl.ex[0])
    requires pl.ex[|dns.extra|] <= |m4| && out == m4[..pl.ex[|dns.extra|]]
    ensures Laid(out, dns, pl, tb, compress)
  {
    hide QuestionsHeld, SectionHeld, QuestionLaid, RecordLaidIn;
    HeldCuts(m1, pl.q, dns.question, !compress);
    SectionCuts(m2, pl.an, dns.answer, !compress);
    SectionCuts(m3, pl.ns, dns.ns, !compress);
    SectionCuts(m4, pl.ex, dns.extra, !compress);
    LaidKept(m1, out, pl.q, dns.question, tb.q, compress);
    SectionLaidKept(m2, out, pl.an, dns.answer, tb.an, compress, !compress);
    SectionLaidKept(m3, out, pl.ns, dns.ns, tb.ns, compress, !compress);
    SectionLaidKept(m4, out, pl.ex, dns.extra, tb.ex, compress, !compress);
  }

  lemma HeldCuts(m: Bytes, cuts: seq<nat>, qs: seq<Question>, flat: bool)
    requires QuestionsHeld(m, cuts, qs, flat)
    ensures |cuts| == |qs| + 1 && Ascending(cuts) && cuts[0] <= cuts[|qs|]
  {}

  lemma SectionCuts(m: Bytes, cuts: seq<nat>, recs: seq<Record>, flat: bool)
    requires SectionHeld(m, cuts, recs, flat)
    ensures |cuts| == |recs| + 1 && Ascending(cuts) && cuts[0] <= cuts[|recs|]
  {}

  // ----- Reading back ----------------------------------------------------------------------------------------

  function ReadQuestions(qs: seq<Question>): seq<ReadQuestion> {
    if qs == [] then []
    else [ReadQuestion(Present(NameOf(qs[0].name)), qs[0].qtype, qs[0].qclass)] + ReadQuestions(qs[1..])
  }

  function RRsOf(recs: seq<Record>): seq<RR> {
    if recs == [] then [] else [RROf(recs[0])] + RRsOf(recs[1..])
  }

  ghost predicate GoodQuestion(q: Question) {
    Readable(q.name) && q.qtype < 0x1_0000 && q.qclass < 0x1_0000
  }

  ghost predicate FewQuestions(qs: seq<Question>, flat: bool) {
    forall i :: 0 <= i < |qs| ==> Few(NameOf(qs[i].name), flat)
  }

  ghost predicate FewRecords(recs: seq<Record>, flat: bool) {
    forall i :: 0 <= i < |recs| ==> FewRecord(recs[i], flat)
  }

  /** The names of the message cannot take too many pointers: it is not compressed, or none has more than ten labels. */
  ghost predicate FewPointers(dns: Outgoing, flat: bool) {
    FewQuestions(dns.question, flat) && FewRecords(dns.answer, flat) && FewRecords(dns.ns, flat)
      && FewRecords(dns.extra, flat)
  }

  /** No question, no record of a section, and so no name of the message takes too many pointers, as the octets
      of the packed message have them. */
  ghost predicate QuestionsFew(m: Bytes, cuts: seq<nat>, qs: seq<Question>)
    requires |cuts| == |qs| + 1
  {
    forall i :: 0 <= i < |qs| ==> NameFew(m, cuts[i], NameOf(qs[i].name))
  }

  ghost predicate RecordFewIn(m: Bytes, off: nat, end: nat, rec: Record, flat: bool) {
    exists e: nat, cuts: seq<nat> :: RecordHeld(m, off, end, rec, e, cuts, flat) && RecordFew(m, off, rec, cuts)
  }

  ghost predicate SectionFew(m: Bytes, cuts: seq<nat>, recs: seq<Record>, flat: bool)
    requires |cuts| == |recs| + 1
  {
    forall i :: 0 <= i < |recs| ==> RecordFewIn(m, cuts[i], cuts[i + 1], recs[i], flat)
  }

  ghost predicate MessageFew(m: Bytes, dns: Outgoing, pl: Places, flat: bool)
    requires MessageHeld(m, dns, pl, flat)
  {
    QuestionsFew(m, pl.q, dns.question) && SectionFew(m, pl.an, dns.answer, flat) && SectionFew(m, pl.ns, dns.ns, flat)
      && SectionFew(m, pl.ex, dns.extra, flat)
  }

  lemma QuestionReads(m: Bytes, off: nat, end: nat, q: Question, flat: bool)
    requires QuestionHeld(m, off, end, q, flat) && GoodQuestion(q)
    ensures var read := ReadQuestion(Present(NameOf(q.name)), q.qtype, q.qclass);
            ReadsAs(QuestionAt(m, off), read, end, NameFew(m, off, NameOf(q.name))) && off < end
    ensures Few(NameOf(q.name), flat) ==> NameFew(m, off, NameOf(q.name))
  {
    hide NameHeld, Be16, NameAt, NameOf, NameFew;
    HeldNameReads(m, off, end - 4, NameOf(q.name), flat);
    WordReads(m, end - 4, Be16(q.qtype), q.qclass);
    assert [] + Be16(q.qtype) == Be16(q.qtype);
    WordReads(m, end - 4, [], q.qtype);
  }

  lemma {:induction false} QuestionsRead(m: Bytes, cuts: seq<nat>, qs: seq<Question>, flat: bool)
    requires QuestionsHeld(m, cuts, qs, flat) && forall i :: 0 <= i < |qs| ==> GoodQuestion(qs[i])
    ensures ReadsAs(QuestionsAt(|qs|, m, cuts[0]), ReadQuestions(qs), cuts[|qs|], QuestionsFew(m, cuts, qs))
    ensures FewQuestions(qs, flat) ==> QuestionsFew(m, cuts, qs)
    decreases |qs|
  {
    hide QuestionHeld, QuestionAt, NameOf, NameFew, Few;
    if qs != [] {
      assert QuestionHeld(m, cuts[0], cuts[1], qs[0], flat);
      QuestionReads(m, cuts[0], cuts[1], qs[0], flat);
      var tail, rest := cuts[1..], qs[1..];
      assert forall i :: 0 <= i < |rest| ==> rest[i] == qs[i + 1];
      assert forall i :: 0 <= i < |tail| ==> tail[i] == cuts[i + 1];
      QuestionsRead(m, tail, rest, flat);
      QuestionsFewTail(m, cuts, qs);
    }
  }

  lemma QuestionsFewTail(m: Bytes, cuts: seq<nat>, qs: seq<Question>)
    requires |cuts| == |qs| + 1 && qs != []
    ensures QuestionsFew(m, cuts, qs) <==>
              NameFew(m, cuts[0], NameOf(qs[0].name)) && QuestionsFew(m, cuts[1..], qs[1..])
  {
    hide NameFew, NameOf;
    var c, t := cuts[1..], qs[1..];
    assert forall i :: 0 <= i < |t| ==> t[i] == qs[i + 1] && c[i] == cuts[i + 1];
    if NameFew(m, cuts[0], NameOf(qs[0].name)) && QuestionsFew(m, c, t) {
      forall i | 0 <= i < |qs| ensures NameFew(m, cuts[i], NameOf(qs[i].name)) {
        assert i > 0 ==> NameFew(m, c[i - 1], NameOf(t[i - 1].name));
      }
    }
    if QuestionsFew(m, cuts, qs) {
      forall i | 0 <= i < |t| ensures NameFew(m, c[i], NameOf(t[i].name)) {
        assert NameFew(m, cuts[i + 1], NameOf(qs[i + 1].name));
      }
    }
  }

  /** Question k is the first whose name takes too many pointers. */
  ghost predicate FirstRefused(m: Bytes, cuts: seq<nat>, qs: seq<Question>, k: nat)
    requires |cuts| == |qs| + 1
  {
    && k < |qs| && !NameFew(m, cuts[k], NameOf(qs[k].name))
    && forall i :: 0 <= i < k ==> NameFew(m, cuts[i], NameOf(qs[i].name))
  }

  /** Of held questions, those before the first refused one are read. */
  lemma {:induction false} ReadBefore(m: Bytes, cuts: seq<nat>, qs: seq<Question>, flat: bool) returns (k: nat)
    requires QuestionsHeld(m, cuts, qs, flat) && (forall i :: 0 <= i < |qs| ==> GoodQuestion(qs[i]))
    requires !QuestionsFew(m, cuts, qs)
    ensures FirstRefused(m, cuts, qs, k) && QuestionsBefore(|qs|, m, cuts[0]) == ReadQuestions(qs[..k])
    decreases |qs|
  {
    hide QuestionHeld, QuestionAt, NameOf, NameFew, Few, GoodQuestion;
    assert QuestionHeld(m, cuts[0], cuts[1], qs[0], flat);
    QuestionReads(m, cuts[0], cuts[1], qs[0], flat);
    if !NameFew(m, cuts[0], NameOf(qs[0].name)) {
      k := 0;
    } else {
      var tail, rest := cuts[1..], qs[1..];
      assert forall i :: 0 <= i < |rest| ==> rest[i] == qs[i + 1];
      assert forall i :: 0 <= i < |tail| ==> tail[i] == cuts[i + 1];
      QuestionsFewTail(m, cuts, qs);
      var j := ReadBefore(m, tail, rest, flat);
      k := j + 1;
      forall i | 0 <= i < k ensures NameFew(m, cuts[i], NameOf(qs[i].name)) {
        assert i > 0 ==> NameFew(m, tail[i - 1], NameOf(rest[i - 1].name));
      }
      assert qs[..k][1..] == rest[..j];
    }
  }

  lemma SectionFewTail(m: Bytes, cuts: seq<nat>, recs: seq<Record>, flat: bool)
    requires |cuts| == |recs| + 1 && recs != []
    ensures SectionFew(m, cuts, recs, flat) <==>
              RecordFewIn(m, cuts[0], cuts[1], recs[0], flat) && SectionFew(m, cuts[1..], recs[1..], flat)
  {
    hide RecordFewIn;
    var c, t := cuts[1..], recs[1..];
    assert forall i :: 0 <= i < |t| ==> t[i] == recs[i + 1];
    assert forall i :: 0 <= i < |c| ==> c[i] == cuts[i + 1];
    if RecordFewIn(m, cuts[0], cuts[1], recs[0], flat) && SectionFew(m, c, t, flat) {
      forall i | 0 <= i < |recs| ensures RecordFewIn(m, cuts[i], cuts[i + 1], recs[i], flat) {
        assert i > 0 ==> RecordFewIn(m, c[i - 1], c[i], t[i - 1], flat);
      }
    }
    if SectionFew(m, cuts, recs, flat) {
      forall i | 0 <= i < |t| ensures RecordFewIn(m, c[i], c[i + 1], t[i], flat) {
        assert RecordFewIn(m, cuts[i + 1], cuts[i + 2], recs[i + 1], flat);
      }
    }
  }

  /** A held section is read back in order, record by record, exactly when none of its names takes too many
      pointers. */
  lemma {:induction false} SectionReads(layouts: Layouts, m: Bytes, cuts: seq<nat>, recs: seq<Record>, flat: bool)
    requires SectionHeld(m, cuts, recs, flat) && forall i :: 0 <= i < |recs| ==> GoodRecord(layouts, recs[i])
    ensures ReadsAs(SectionAt(layouts, |recs|, m, cuts[0]), RRsOf(recs), cuts[|recs|], SectionFew(m, cuts, recs, flat))
    ensures FewRecords(recs, flat) ==> SectionFew(m, cuts, recs, flat)
    decreases |recs|
  {
    hide RecordIn, RecordAt, GoodRecord, RecordFewIn, FewRecord, SectionHeld, SectionFew;
    SectionCuts(m, cuts, recs, flat);
    if recs == [] {
      NoneFew(m, cuts, recs, flat);
    } else {
      SectionTail(m, cuts, recs, flat);
      RecordInReads(layouts, m, cuts[0], cuts[1], recs[0], flat);
      var rest := recs[1..];
      assert forall i :: 0 <= i < |rest| ==> rest[i] == recs[i + 1];
      SectionReads(layouts, m, cuts[1..], rest, flat);
      SectionFewTail(m, cuts, recs, flat);
    }
  }

  lemma SectionTail(m: Bytes, cuts: seq<nat>, recs: seq<Record>, flat: bool)
    requires SectionHeld(m, cuts, recs, flat) && recs != []
    ensures RecordIn(m, cuts[0], cuts[1], recs[0], flat) && SectionHeld(m, cuts[1..], recs[1..], flat)
  {
    hide RecordIn;
    var tail, rest := cuts[1..], recs[1..];
    assert forall i :: 0 <= i < |rest| ==> rest[i] == recs[i + 1];
    assert forall i :: 0 <= i < |tail| ==> tail[i] == cuts[i + 1];
  }

  lemma NoneFew(m: Bytes, cuts: seq<nat>, recs: seq<Record>, flat: bool)
    requires |cuts| == |recs| + 1 && recs == []
    ensures SectionFew(m, cuts, recs, flat)
  {}

  lemma RecordInReads(layouts: Layouts, m: Bytes, off: nat, end: nat, rec: Record, flat: bool)
    requires RecordIn(m, off, end, rec, flat) && GoodRecord(layouts, rec)
    ensures ReadsAs(RecordAt(layouts, m, off), RROf(rec), end, RecordFewIn(m, off, end, rec, flat)) && off < end
    ensures FewRecord(rec, flat) ==> RecordFewIn(m, off, end, rec, flat)
  {
    hide RecordAt, GoodRecord, RecordHeld, RecordFew, FewRecord;
    var e: nat, cuts: seq<nat> :| RecordHeld(m, off, end, rec, e, cuts, flat);
    RecordReads(layouts, m, off, end, rec, e, cuts, flat);
    if RecordFewIn(m, off, end, rec, flat) {
      var e': nat, cuts': seq<nat> :| RecordHeld(m, off, end, rec, e', cuts', flat) && RecordFew(m, off, rec, cuts');
      RecordReads(layouts, m, off, end, rec, e', cuts', flat);
    }
  }

  /** A message all of whose names are readable and whose records have the shape of their types. */
  ghost predicate GoodMessage(layouts: Layouts, dns: Outgoing) {
    && dns.id < 0x1_0000 && dns.bits < 0x1_0000
    && |dns.question| < 0x1_0000 && |dns.answer| < 0x1_0000 && |dns.ns| < 0x1_0000 && |dns.extra| < 0x1_0000
    && (forall i :: 0 <= i < |dns.question| ==> GoodQuestion(dns.question[i]))
    && (forall i :: 0 <= i < |dns.answer| ==> GoodRecord(layouts, dns.answer[i]))
    && (forall i :: 0 <= i < |dns.ns| ==> GoodRecord(layouts, dns.ns[i]))
    && (forall i :: 0 <= i < |dns.extra| ==> GoodRecord(layouts, dns.extra[i]))
  }

  lemma HeaderReads(m: Bytes, dns: Outgoing)
    requires At(m, 0, HeaderOctets(dns)) && dns.id < 0x1_0000 && dns.bits < 0x1_0000
    requires |dns.question| < 0x1_0000 && |dns.answer| < 0x1_0000 && |dns.ns| < 0x1_0000 && |dns.extra| < 0x1_0000
    ensures |m| >= HEADER_SIZE && 256 * (m[0] as int) + m[1] == dns.id && 256 * (m[2] as int) + m[3] == dns.bits
    ensures 256 * (m[4] as int) + m[5] == |dns.question| && 256 * (m[6] as int) + m[7] == |dns.answer|
    ensures 256 * (m[8] as int) + m[9] == |dns.ns| && 256 * (m[10] as int) + m[11] == |dns.extra|
  {
    hide HeaderOctets;
    HeaderWords(m, dns);
  }

  function IncomingOf(dns: Outgoing): Incoming {
    Incoming(dns.id, dns.bits, ReadQuestions(dns.question), RRsOf(dns.answer), RRsOf(dns.ns), RRsOf(dns.extra))
  }

  /** A message with the TC bit and anything in it is reported as truncated, whole as it may be. */
  predicate ReportedTruncated(dns: Outgoing) {
    Truncated(dns.bits) && !(dns.question == [] && dns.answer == [] && dns.ns == [] && dns.extra == [])
  }

  /** What comes back of a packed message: the message itself when no name takes more than ten pointers. Otherwise
      it is not the message, and the error is the decoder's, or the report of a truncated message. */
  ghost predicate ComesBack(dns: Outgoing, few: bool, fewQuestions: bool, back: Incoming, err: Error) {
    if few then back == IncomingOf(dns) && err == if ReportedTruncated(dns) then ErrTruncated else NoError
    else back != IncomingOf(dns) && err == if fewQuestions && Truncated(dns.bits) then ErrTruncated else ErrPointers
  }

  /** The questions given back are those before the first refused one. */
  ghost predicate StopsAtRefused(m: Bytes, cuts: seq<nat>, qs: seq<Question>, back: seq<ReadQuestion>)
    requires |cuts| == |qs| + 1
  {
    exists k: nat :: FirstRefused(m, cuts, qs, k) && back == ReadQuestions(qs[..k])
  }

  /** Pack followed by Unpack, for every good message in any buffer: the message comes back if and only if none of
      its names, as packed, takes more than ten pointers. Without compression, and with at most ten labels in every
      name, that is always so. */
  method PackUnpack(layouts: Layouts, dns: Outgoing, uncompressedLen: nat, compress: bool, buf: array<byte>)
    returns (out: Bytes, back: Incoming, err: Error, ghost pl: Places, ghost tb: Tables)
    requires GoodMessage(layouts, dns) && PackableMessage(dns, compress) && uncompressedLen >= RoomForMessage(dns)
    modifies buf
    ensures MessageHeld(out, dns, pl, !compress) && Laid(out, dns, pl, tb, compress)
    ensures ComesBack(dns, MessageFew(out, dns, pl, !compress), QuestionsFew(out, pl.q, dns.question), back, err)
    ensures FewPointers(dns, !compress) ==> MessageFew(out, dns, pl, !compress)
    ensures !QuestionsFew(out, pl.q, dns.question) ==> StopsAtRefused(out, pl.q, dns.question, back.question)
  {
    ghost var flat := !compress;
    hide GoodRecord, GoodQuestion, QuestionsHeld, SectionHeld, HeaderOctets, SectionAt, QuestionsAt, RRsOf,
         ReadQuestions, RoomForMessage, PackableMessage, Laid,
         QuestionsBefore;
    out, err, pl, tb := Pack(dns, uncompressedLen, compress, buf);
    HeaderReads(out, dns);
    HeldCuts(out, pl.q, dns.question, flat);
    QuestionsRead(out, pl.q, dns.question, flat);
    SectionReads(layouts, out, pl.an, dns.answer, flat);
    SectionReads(layouts, out, pl.ns, dns.ns, flat);
    SectionReads(layouts, out, pl.ex, dns.extra, flat);
    NothingButHeader(out, dns, pl, flat);
    ReadLengths(dns);
    if !QuestionsFew(out, pl.q, dns.question) {
      ghost var k := ReadBefore(out, pl.q, dns.question, flat);
    }
    back, err := Unpack(layouts, out);
  }

  lemma {:induction false} RRsLength(recs: seq<Record>)
    ensures |RRsOf(recs)| == |recs|
  {
    if recs != [] {
      RRsLength(recs[1..]);
    }
  }

  lemma {:induction false} QuestionsLength(qs: seq<Question>)
    ensures |ReadQuestions(qs)| == |qs|
  {
    if qs != [] {
      QuestionsLength(qs[1..]);
    }
  }

  lemma ReadLengths(dns: Outgoing)
    ensures |ReadQuestions(dns.question)| == |dns.question|
    ensures |RRsOf(dns.answer)| == |dns.answer| && |RRsOf(dns.ns)| == |dns.ns| && |RRsOf(dns.extra)| == |dns.extra|
  {
    QuestionsLength(dns.question);
    RRsLength(dns.answer);
    RRsLength(dns.ns);
    RRsLength(dns.extra);
  }

  /** A message of twelve octets is one without questions and records. */
  lemma NothingButHeader(m: Bytes, dns: Outgoing, pl: Places, flat: bool)
    requires MessageHeld(m, dns, pl, flat)
    ensures |m| == HEADER_SIZE <==> dns.question == [] && dns.answer == [] && dns.ns == [] && dns.extra == []
    ensures |m| == HEADER_SIZE ==> IncomingOf(dns) == Incoming(dns.id, dns.bits, [], [], [], [])
  {
    hide HeaderOctets, RecordIn, QuestionHeld;
    HeldCuts(m, pl.q, dns.question, flat);
    SectionCuts(m, pl.an, dns.answer, flat);
    SectionCuts(m, pl.ns, dns.ns, flat);
    SectionCuts(m, pl.ex, dns.extra, flat);
    if |m| == HEADER_SIZE {
      NoQuestions(m, pl.q, dns.question, flat);
      NoRecords(m, pl.an, dns.answer, flat);
      NoRecords(m, pl.ns, dns.ns, flat);
      NoRecords(m, pl.ex, dns.extra, flat);
    }
  }

  lemma NoQuestions(m: Bytes, cuts: seq<nat>, qs: seq<Question>, flat: bool)
    requires QuestionsHeld(m, cuts, qs, flat) && cuts[0] == cuts[|qs|]
    ensures qs == []
  {
    assert qs != [] ==> QuestionHeld(m, cuts[0], cuts[1], qs[0], flat);
  }

  lemma NoRecords(m: Bytes, cuts: seq<nat>, recs: seq<Record>, flat: bool)
    requires SectionHeld(m, cuts, recs, flat) && cuts[0] == cuts[|recs|]
    ensures recs == []
  {
    hide RecordIn;
    if recs != [] {
      RecordNotEmpty(m, cuts[0], cuts[1], recs[0], flat);
    }
  }

  lemma RecordNotEmpty(m: Bytes, off: nat, end: nat, rec: Record, flat: bool)
    requires RecordIn(m, off, end, rec, flat)
    ensures off < end
  {
    var e: nat, cuts: seq<nat> :| RecordHeld(m, off, end, rec, e, cuts, flat);
    WalkStable(m, m, off, e);
  }

  // ----- A message that is refused --------------------------------------------------------------------------

  /** Questions for a., a.a., and so on up to k labels. */
  function NestedQuestions(k: nat): (qs: seq<Question>)
    ensures |qs| == k && forall i :: 0 <= i < k ==> qs[i] == NestedQuestion(i)
  {
    seq(k, i requires 0 <= i < k => NestedQuestion(i))
  }

  function NestedQuestion(i: nat): Question {
    Question(TextOf(Nested(i + 1)), 1, 1)
  }

  lemma NestedGood(layouts: Layouts, k: nat)
    requires k <= 127
    ensures var dns := Outgoing(0, 0, NestedQuestions(k), [], [], []);
            GoodMessage(layouts, dns) && PackableMessage(dns, true)
  {
    var qs := NestedQuestions(k);
    hide Nested, NameOf, Accepted, Octets, TextOf;
    forall i | 0 <= i < k ensures GoodQuestion(qs[i]) && Accepted(qs[i].name, true) {
      PlainAccepted(Nested(i + 1));
    }
  }

  /** Question n of these takes n pointers, each to the question before. */
  lemma {:induction false} NestedHops(m: Bytes, k: nat, cuts: seq<nat>, ts: seq<Table>, n: nat)
    requires k <= 127 && n < k && QuestionsLaid(m, cuts, NestedQuestions(k), ts, true) && cuts[0] == HEADER_SIZE
             && ts[0] == Table(map[])
    ensures cuts[n] <= HEADER_SIZE + 8 * n && cuts[n + 1] <= cuts[n] + 8 && ts[n + 1].Table?
    ensures forall key :: key in ts[n + 1].m ==> |key| <= 2 * (n + 1)
    ensures Raw(Nested(n + 1)) in ts[n + 1].m && ts[n + 1].m[Raw(Nested(n + 1))] == cuts[n]
    ensures Spells(m, NOWHERE, |m|, cuts[n], Nested(n + 1), n)
  {
    hide Spells, Plan, Raw, NameOf, Nested;
    if n > 0 {
      NestedHops(m, k, cuts, ts, n - 1);
    }
    var p := cuts[n];
    PlainAccepted(Nested(n + 1));
    assert QuestionLaid(m, p, cuts[n + 1], NestedQuestions(k)[n], ts[n], ts[n + 1], true);
    var w := ChainOctets(n + 1, ts[n], p);
    ChainLink(n + 1, m, w, p, if n == 0 then 0 else cuts[n - 1]);
  }

  /** The messages of nested questions come back exactly up to eleven of them: with twelve, in 107 octets, the last
      name takes eleven pointers. */
  method ChainMessage(layouts: Layouts, k: nat, buf: array<byte>) returns (out: Bytes, back: Incoming, err: Error)
    requires k <= 127
    modifies buf
    ensures err == if k <= 11 then NoError else ErrPointers
    ensures back == IncomingOf(Outgoing(0, 0, NestedQuestions(k), [], [], [])) <==> k <= 11
  {
    hide QuestionsLaid, MessageHeld, RoomForMessage, IncomingOf, GoodMessage, PackableMessage, NameFew,
         StopsAtRefused, Nested;
    NestedGood(layouts, k);
    var dns := Outgoing(0, 0, NestedQuestions(k), [], [], []);
    ghost var pl, tb;
    out, back, err, pl, tb := PackUnpack(layouts, dns, RoomForMessage(dns), true, buf);
    ChainFew(out, k, pl, tb, dns);
  }

  lemma ChainFew(m: Bytes, k: nat, pl: Places, tb: Tables, dns: Outgoing)
    requires k <= 127 && dns == Outgoing(0, 0, NestedQuestions(k), [], [], [])
    requires MessageHeld(m, dns, pl, false) && Laid(m, dns, pl, tb, true)
    ensures MessageFew(m, dns, pl, false) <==> k <= 11
    ensures QuestionsFew(m, pl.q, dns.question) <==> k <= 11
  {
    hide NameFew, NameOf, QuestionHeld, QuestionLaid, HeaderOctets, Nested;
    forall i | 0 <= i < k ensures NameFew(m, pl.q[i], NameOf(dns.question[i].name)) <==> i <= MAX_POINTERS {
      PlainAccepted(Nested(i + 1));
      NestedHops(m, k, pl.q, tb.q, i);
      FewExactly(m, pl.q[i], |m|, Nested(i + 1), i);
    }
    if k > 11 {
      assert !NameFew(m, pl.q[11], NameOf(dns.question[11].name));
    }
  }
}
