/** Incoming zone transfers: where the receiver stops in a stream of messages. */
module Transfer {
  datatype RR = Soa(serial: nat) | Data(id: nat)

  datatype Message = Message(id: nat, rcode: nat, answer: seq<RR>)

  /** One read from the connection. */
  datatype Read = Failed | Got(message: Message)

  datatype Fault = NoFault | ReadFault | IdFault | RcodeFault | SoaFault

  datatype Envelope = Envelope(rrs: seq<RR>, fault: Fault)

  predicate SoaFirst(rrs: seq<RR>) {
    |rrs| > 0 && rrs[0].Soa?
  }

  predicate SoaLast(rrs: seq<RR>) {
    |rrs| > 0 && rrs[|rrs| - 1].Soa?
  }

  // ----- Full transfers --------------------------------------------------------------------------

  /** What is wrong with a message, if anything; the response code and the leading SOA count at first. */
  function AxfrFault(id: nat, r: Read, first: bool): Fault {
    if r.Failed? then ReadFault
    else if r.message.id != id then IdFault
    else if first && r.message.rcode != 0 then RcodeFault
    else if first && !SoaFirst(r.message.answer) then SoaFault
    else NoFault
  }

  function Answer(r: Read): seq<RR> {
    if r.Failed? then [] else r.message.answer
  }

  /** The envelopes sent for the reads, up to the one that ends the transfer; a connection that has no more
      to give counts as a failed read. */
  function Axfr(id: nat, input: seq<Read>, first: bool): seq<Envelope> {
    if input == [] then [Envelope([], ReadFault)]
    else
      var f, rrs := AxfrFault(id, input[0], first), Answer(input[0]);
      if f != NoFault || (SoaLast(rrs) && !(first && |rrs| == 1)) then [Envelope(rrs, f)]
      else [Envelope(rrs, NoFault)] + Axfr(id, input[1..], false)
  }

  lemma AxfrNext(id: nat, input: seq<Read>, i: nat, first: bool)
    requires i < |input|
    ensures var f, rrs := AxfrFault(id, input[i], first), Answer(input[i]);
            Axfr(id, input[i..], first) ==
              if f != NoFault || (SoaLast(rrs) && !(first && |rrs| == 1)) then [Envelope(rrs, f)]
              else [Envelope(rrs, NoFault)] + Axfr(id, input[i + 1..], false)
  {
    assert input[i..][1..] == input[i + 1..];
  }

  lemma AxfrNone(id: nat, input: seq<Read>, first: bool)
    ensures Axfr(id, input[|input|..], first) == [Envelope([], ReadFault)]
  {
  }

  /** inAxfr sends exactly these envelopes. */
  method InAxfr(id: nat, input: seq<Read>) returns (sent: seq<Envelope>)
    ensures sent == Axfr(id, input, true)
    ensures Verdicts(sent, id, input, false)
  {
    var first := true;
    sent := [];
    AxfrJudged(id, input);
    hide Axfr, Verdicts;
    for i := 0 to |input|
      invariant Axfr(id, input, true) == sent + Axfr(id, input[i..], first)
    {
      AxfrNext(id, input, i, first);
      var rrs := Answer(input[i]);
      if input[i].Failed? {
        return sent + [Envelope([], ReadFault)];
      }
      if input[i].message.id != id {
        return sent + [Envelope(rrs, IdFault)];
      }
      if first {
        if input[i].message.rcode != 0 {
          return sent + [Envelope(rrs, RcodeFault)];
        }
        if !SoaFirst(rrs) {
          return sent + [Envelope(rrs, SoaFault)];
        }
        first := false;
        if |rrs| == 1 {
          sent := sent + [Envelope(rrs, NoFault)];
          continue;
        }
      }
      if SoaLast(rrs) {
        return sent + [Envelope(rrs, NoFault)];
      }
      sent := sent + [Envelope(rrs, NoFault)];
    }
    AxfrNone(id, input, first);
    return sent + [Envelope([], ReadFault)];
  }

  /** Whatever is read, the answers are delivered in order and without fault up to the last envelope, and that
      one ends the transfer for a reason: a fault of its own read, or a final SOA. */
  lemma {:induction false} AxfrInOrder(id: nat, input: seq<Read>, first: bool, i: nat)
    requires i < |Axfr(id, input, first)|
    ensures |Axfr(id, input, first)| <= |input| + 1
    ensures var e := Axfr(id, input, first)[i];
            && (i < |input| ==> e.rrs == Answer(input[i])) && (i == |input| ==> e == Envelope([], ReadFault))
            && (i < |Axfr(id, input, first)| - 1 ==>
                  e.fault == NoFault && AxfrFault(id, input[i], first && i == 0) == NoFault)
            && (i == |Axfr(id, input, first)| - 1 && e.fault == NoFault ==> SoaLast(e.rrs))
            && (i < |input| ==> e.fault == AxfrFault(id, input[i], first && i == 0))
  {
    if input != [] {
      var rest := Axfr(id, input[1..], false);
      if i > 0 {
        AxfrInOrder(id, input[1..], false, i - 1);
      } else if |Axfr(id, input, first)| > 1 {
        AxfrInOrder(id, input[1..], false, 0);
      }
    }
  }

  /** The fault of the envelope for a read, in the fields of the message: none exactly for an answer to the question
      that, where it counts, has response code zero and begins with an SOA. */
  ghost predicate Judged(e: Envelope, id: nat, r: Read, checkRcode: bool, checkSoa: bool) {
    match r
    case Failed => e == Envelope([], ReadFault)
    case Got(m) =>
      var foreign, refused, headless := m.id != id, m.rcode != 0, m.answer == [] || m.answer[0].Data?;
      && e.rrs == m.answer
      && (e.fault == IdFault <==> foreign)
      && (e.fault == RcodeFault <==> !foreign && checkRcode && refused)
      && (e.fault == SoaFault <==> !foreign && !(checkRcode && refused) && checkSoa && headless)
      && (e.fault == NoFault <==> !foreign && !(checkRcode && refused) && !(checkSoa && headless))
  }

  /** A full transfer in message fields: every envelope carries the answer and the verdict on its own message, only the
      first message is held to its response code and leading SOA, and the transfer ends at the first fault or at
      the first message that ends in an SOA, other than a first one that holds nothing else. */
  lemma {:induction false} AxfrFields(id: nat, input: seq<Read>, first: bool, i: nat)
    requires i < |Axfr(id, input, first)|
    ensures var es := Axfr(id, input, first);
            if i < |input| then Judged(es[i], id, input[i], first && i == 0, first && i == 0)
            else i == |input| == |es| - 1 && es[i] == Envelope([], ReadFault)
    ensures var es := Axfr(id, input, first);
            i == |es| - 1 <==>
            es[i].fault != NoFault
            || (var a := es[i].rrs; |a| > 0 && a[|a| - 1].Soa? && !(first && i == 0 && |a| == 1))
  {
    if input != [] && i > 0 {
      AxfrFields(id, input[1..], false, i - 1);
    }
  }

  /** Every envelope is judged by its own message; later response codes count in an incremental transfer only. */
  ghost predicate Verdicts(es: seq<Envelope>, id: nat, input: seq<Read>, always: bool) {
    forall i :: 0 <= i < |es| && i < |input| ==> Judged(es[i], id, input[i], always || i == 0, i == 0)
  }

  lemma AxfrJudged(id: nat, input: seq<Read>)
    ensures Verdicts(Axfr(id, input, true), id, input, false)
  {
    var es := Axfr(id, input, true);
    hide Axfr, Judged;
    forall i | 0 <= i < |es| && i < |input| ensures Judged(es[i], id, input[i], i == 0, i == 0) {
      AxfrFields(id, input, true, i);
    }
  }

  // ----- Streams ---------------------------------------------------------------------------------------

  /** The records of the messages, one after another. */
  function Stream(ms: seq<seq<RR>>): seq<RR> {
    if ms == [] then [] else ms[0] + Stream(ms[1..])
  }

  /** A way to send records in messages: the first and the last message hold something. */
  predicate Split(ms: seq<seq<RR>>) {
    |ms| > 0 && ms[0] != [] && ms[|ms| - 1] != []
  }

  /** The messages as they are read, without faults. */
  function Sent(id: nat, ms: seq<seq<RR>>): seq<Read> {
    seq(|ms|, i requires 0 <= i < |ms| => Got(Message(id, 0, ms[i])))
  }

  /** Every message delivered once, in order, and no fault. */
  function Delivered(ms: seq<seq<RR>>): seq<Envelope> {
    seq(|ms|, i requires 0 <= i < |ms| => Envelope(ms[i], NoFault))
  }

  lemma SentFirst(id: nat, ms: seq<seq<RR>>, rest: seq<Read>)
    requires ms != []
    ensures var r := Sent(id, ms) + rest;
            r != [] && r[0] == Got(Message(id, 0, ms[0])) && r[1..] == Sent(id, ms[1..]) + rest
    ensures Delivered(ms) == [Envelope(ms[0], NoFault)] + Delivered(ms[1..])
  {
  }

  lemma {:induction false} StreamLast(ms: seq<seq<RR>>)
    requires ms != [] && ms[|ms| - 1] != []
    ensures Stream(ms) != [] && Stream(ms)[|Stream(ms)| - 1] == ms[|ms| - 1][|ms[|ms| - 1]| - 1]
  {
    if |ms| > 1 {
      StreamLast(ms[1..]);
    }
  }

  /** A zone: an SOA, other records, and the SOA again (section 2.2 of RFC 5936). */
  predicate WholeZone(rrs: seq<RR>) {
    |rrs| >= 2 && rrs[0].Soa? && rrs[|rrs| - 1] == rrs[0] && forall i :: 0 < i < |rrs| - 1 ==> rrs[i].Data?
  }

  /** After the first message only the record at the end is an SOA. */
  predicate EndsInSoa(rrs: seq<RR>) {
    |rrs| > 0 && rrs[|rrs| - 1].Soa? && forall i :: 0 <= i < |rrs| - 1 ==> rrs[i].Data?
  }

  lemma {:induction false} AxfrRest(id: nat, ms: seq<seq<RR>>, rest: seq<Read>)
    requires |ms| > 0 && ms[|ms| - 1] != [] && EndsInSoa(Stream(ms))
    ensures Axfr(id, Sent(id, ms) + rest, false) == Delivered(ms)
  {
    SentFirst(id, ms, rest);
    StreamLast(ms);
    if |ms| > 1 {
      StreamLast(ms[1..]);
      TailEnds(ms);
      AxfrRest(id, ms[1..], rest);
    } else {
      assert ms[1..] == [] && Stream(ms) == ms[0];
    }
  }

  /** Cutting the first message off leaves the end of the stream where it is. */
  lemma TailEnds(ms: seq<seq<RR>>)
    requires |ms| > 1 && Stream(ms[1..]) != [] && EndsInSoa(Stream(ms))
    ensures EndsInSoa(Stream(ms[1..])) && !SoaLast(ms[0])
  {
    var all, tail := Stream(ms), Stream(ms[1..]);
    assert all == ms[0] + tail;
    hide Stream;
    assert forall i :: 0 <= i < |tail| ==> tail[i] == all[|ms[0]| + i];
    if ms[0] != [] {
      assert ms[0][|ms[0]| - 1] == all[|ms[0]| - 1];
    }
  }

  /** However a zone is split into messages, the receiver delivers each once, in order, and stops at the one
      that holds the final SOA without reading on. */
  lemma AxfrComplete(id: nat, ms: seq<seq<RR>>, rest: seq<Read>)
    requires Split(ms) && WholeZone(Stream(ms))
    ensures Axfr(id, Sent(id, ms) + rest, true) == Delivered(ms)
  {
    SentFirst(id, ms, rest);
    FirstRecord(ms);
    if |ms| == 1 {
      assert Stream(ms) == ms[0] && ms[1..] == [];
    } else {
      StreamLast(ms[1..]);
      ZoneRest(ms);
      AxfrRest(id, ms[1..], rest);
      hide WholeZone, EndsInSoa, Stream;
    }
  }

  /** Behind the first message of a zone only the final SOA is left. */
  lemma ZoneRest(ms: seq<seq<RR>>)
    requires |ms| > 1 && ms[0] != [] && Stream(ms[1..]) != [] && WholeZone(Stream(ms))
    ensures EndsInSoa(Stream(ms[1..])) && (|ms[0]| > 1 ==> !SoaLast(ms[0]))
  {
    var all, tail := Stream(ms), Stream(ms[1..]);
    assert forall i :: 0 <= i < |tail| ==> tail[i] == all[|ms[0]| + i];
    assert ms[0][|ms[0]| - 1] == all[|ms[0]| - 1];
  }

  lemma FirstRecord(ms: seq<seq<RR>>)
    requires Split(ms)
    ensures Stream(ms) != [] && ms[0][0] == Stream(ms)[0]
  {
  }

  // ----- Incremental transfers ----------------------------------------------------------------------

  /** What the receiver keeps while it reads: still taken for a full transfer, and how often the server's
      serial was seen. */
  datatype Seen = Seen(axfr: bool, n: nat)

  function Note(s: Seen, rr: RR, serial: nat): Seen {
    if rr.Data? then s
    else if rr.serial == serial then s.(n := s.n + 1)
    else s.(axfr := false)
  }

  /** The record ends the transfer. */
  predicate Ends(s: Seen, rr: RR, serial: nat) {
    rr.Soa? && rr.serial == serial && ((s.axfr && s.n == 1) || s.n == 2)
  }

  datatype Scanned = Stopped | Going(seen: Seen)

  function Scan(rrs: seq<RR>, s: Seen, serial: nat): Scanned {
    if rrs == [] then Going(s)
    else if Ends(s, rrs[0], serial) then Stopped
    else Scan(rrs[1..], Note(s, rrs[0], serial), serial)
  }

  function IxfrFault(id: nat, r: Read, first: bool): Fault {
    if r.Failed? then ReadFault
    else if r.message.id != id then IdFault
    else if r.message.rcode != 0 then RcodeFault
    else if first && !SoaFirst(r.message.answer) then SoaFault
    else NoFault
  }

  /** The envelopes sent from the given point of an incremental transfer on. */
  function Ixfr(id: nat, input: seq<Read>, serial: nat, s: Seen): seq<Envelope> {
    if input == [] then [Envelope([], ReadFault)]
    else
      var f, rrs := IxfrFault(id, input[0], false), Answer(input[0]);
      if f != NoFault then [Envelope(rrs, f)]
      else match Scan(rrs, s, serial)
        case Stopped => [Envelope(rrs, NoFault)]
        case Going(t) => [Envelope(rrs, NoFault)] + Ixfr(id, input[1..], serial, t)
  }

  /** And from the start, asking for changes since serial qser. */
  function IxfrFrom(id: nat, qser: nat, input: seq<Read>): seq<Envelope> {
    if input == [] then [Envelope([], ReadFault)]
    else
      var f, rrs := IxfrFault(id, input[0], true), Answer(input[0]);
      if f != NoFault || qser >= rrs[0].serial then [Envelope(rrs, f)]
      else Ixfr(id, input, rrs[0].serial, Seen(true, 0))
  }

  /** The inner loop of inIxfr. */
  method ScanAnswer(rrs: seq<RR>, serial: nat, axfr: bool, n: nat) returns (stop: bool, axfr': bool, n': nat)
    ensures Scan(rrs, Seen(axfr, n), serial) == if stop then Stopped else Going(Seen(axfr', n'))
    ensures !stop && n > 0 ==> n' > 0
    ensures !stop && SoaFirst(rrs) && rrs[0].serial == serial ==> n' > 0
  {
    axfr', n' := axfr, n;
    for i := 0 to |rrs|
      invariant Scan(rrs, Seen(axfr, n), serial) == Scan(rrs[i..], Seen(axfr', n'), serial)
      invariant n' >= n && (i > 0 && SoaFirst(rrs) && rrs[0].serial == serial ==> n' > 0)
    {
      assert rrs[i..][1..] == rrs[i + 1..];
      if rrs[i].Soa? {
        if rrs[i].serial == serial {
          n' := n' + 1;
          if (axfr' && n' == 2) || n' == 3 {
            return true, axfr', n';
          }
        } else if axfr' {
          axfr' := false;
        }
      }
    }
    return false, axfr', n';
  }

  /** What is still to be sent: until the server's serial has been seen, everything. */
  function Outlook(id: nat, qser: nat, input: seq<Read>, serial: nat, s: Seen): seq<Envelope> {
    if s.n == 0 then IxfrFrom(id, qser, input) else Ixfr(id, input, serial, s)
  }

  /** One message of an incremental transfer: its envelope, and whether it ends the transfer. */
  method Receive(id: nat, qser: nat, r: Read, serial: nat, axfr: bool, n: nat, ghost rest: seq<Read>)
    returns (e: Envelope, done: bool, serial': nat, axfr': bool, n': nat)
    requires n == 0 ==> axfr
    ensures Outlook(id, qser, [r] + rest, serial, Seen(axfr, n)) ==
            [e] + if done then [] else Outlook(id, qser, rest, serial', Seen(axfr', n'))
    ensures !done ==> n' > 0
  {
    assert ([r] + rest)[1..] == rest;
    serial', axfr', n' := serial, axfr, n;
    var rrs := Answer(r);
    if r.Failed? {
      return Envelope([], ReadFault), true, serial', axfr', n';
    }
    if r.message.id != id {
      return Envelope(rrs, IdFault), true, serial', axfr', n';
    }
    if r.message.rcode != 0 {
      return Envelope(rrs, RcodeFault), true, serial', axfr', n';
    }
    if n == 0 {
      if !SoaFirst(rrs) {
        return Envelope(rrs, SoaFault), true, serial', axfr', n';
      }
      serial' := rrs[0].serial;
      if qser >= serial' {
        return Envelope(rrs, NoFault), true, serial', axfr', n';
      }
    }
    done, axfr', n' := ScanAnswer(rrs, serial', axfr, n);
    e := Envelope(rrs, NoFault);
  }

  /** inIxfr sends exactly these envelopes. */
  method InIxfr(id: nat, qser: nat, input: seq<Read>) returns (sent: seq<Envelope>)
    ensures sent == IxfrFrom(id, qser, input)
    ensures Verdicts(sent, id, input, true)
  {
    hide *;
    var serial, axfr, n := 0, true, 0;
    sent := [];
    ghost var goal := IxfrFrom(id, qser, input);
    IxfrJudged(id, qser, input);
    OutlookEnds(id, qser, input);
    for i := 0 to |input|
      invariant goal == sent + Outlook(id, qser, input[i..], serial, Seen(axfr, n))
      invariant n == 0 ==> axfr
    {
      assert input[i..] == [input[i]] + input[i + 1..];
      var e, done;
      e, done, serial, axfr, n := Receive(id, qser, input[i], serial, axfr, n, input[i + 1..]);
      Append(sent, e, if done then [] else Outlook(id, qser, input[i + 1..], serial, Seen(axfr, n)));
      sent := sent + [e];
      if done {
        assert sent + [] == sent;
        return;
      }
    }
    return sent + [Envelope([], ReadFault)];
  }

  lemma Append(a: seq<Envelope>, e: Envelope, b: seq<Envelope>)
    ensures a + ([e] + b) == (a + [e]) + b
  {
  }

  lemma OutlookEnds(id: nat, qser: nat, input: seq<Read>)
    ensures input[0..] == input && Outlook(id, qser, input, 0, Seen(true, 0)) == IxfrFrom(id, qser, input)
    ensures forall serial, s :: Outlook(id, qser, input[|input|..], serial, s) == [Envelope([], ReadFault)]
  {
  }

  /** The same for incremental transfers: the last envelope has a fault of its own read, or ends the scan. */
  lemma {:induction false} IxfrInOrder(id: nat, input: seq<Read>, serial: nat, s: Seen, i: nat)
    requires i < |Ixfr(id, input, serial, s)|
    ensures |Ixfr(id, input, serial, s)| <= |input| + 1
    ensures var e := Ixfr(id, input, serial, s)[i];
            && (i < |input| ==> e == Envelope(Answer(input[i]), IxfrFault(id, input[i], false)))
            && (i == |input| ==> e == Envelope([], ReadFault))
            && (i < |Ixfr(id, input, serial, s)| - 1 ==> e.fault == NoFault)
            && (i == |Ixfr(id, input, serial, s)| - 1 && e.fault == NoFault ==> Soa(serial) in e.rrs)
  {
    if input != [] {
      var rrs := Answer(input[0]);
      var t := Scan(rrs, s, serial);
      if t.Stopped? {
        StoppedBySoa(rrs, s, serial);
      } else if i > 0 {
        IxfrInOrder(id, input[1..], serial, t.seen, i - 1);
      } else if |Ixfr(id, input, serial, s)| > 1 {
        IxfrInOrder(id, input[1..], serial, t.seen, 0);
      }
    }
  }

  lemma {:induction false} StoppedBySoa(rrs: seq<RR>, s: Seen, serial: nat)
    requires Scan(rrs, s, serial).Stopped?
    ensures Soa(serial) in rrs
  {
    if !Ends(s, rrs[0], serial) {
      StoppedBySoa(rrs[1..], Note(s, rrs[0], serial), serial);
    }
  }

  lemma {:induction false} ScanConcat(a: seq<RR>, b: seq<RR>, s: Seen, serial: nat)
    ensures Scan(a + b, s, serial) ==
            match Scan(a, s, serial)
            case Stopped => Stopped
            case Going(t) => Scan(b, t, serial)
  {
    if a == [] {
      assert a + b == b;
    } else {
      assert (a + b)[1..] == a[1..] + b;
      ScanConcat(a[1..], b, Note(s, a[0], serial), serial);
    }
  }

  /** Reading the stream record by record stops at its last record and not before. */
  predicate StopsAtEnd(rrs: seq<RR>, s: Seen, serial: nat) {
    |rrs| > 0 && Scan(rrs[..|rrs| - 1], s, serial).Going? && Scan(rrs, s, serial).Stopped?
  }

  /** Then, however it is split, the receiver delivers every message and stops at the last one. */
  lemma {:induction false} IxfrRest(id: nat, ms: seq<seq<RR>>, rest: seq<Read>, serial: nat, s: Seen)
    requires |ms| > 0 && ms[|ms| - 1] != [] && StopsAtEnd(Stream(ms), s, serial)
    ensures Ixfr(id, Sent(id, ms) + rest, serial, s) == Delivered(ms)
  {
    SentFirst(id, ms, rest);
    if |ms| == 1 {
      assert Stream(ms) == ms[0] && ms[1..] == [];
    } else {
      StreamLast(ms[1..]);
      var all, tail := Stream(ms), Stream(ms[1..]);
      assert all[..|all| - 1] == ms[0] + tail[..|tail| - 1];
      ScanConcat(ms[0], tail[..|tail| - 1], s, serial);
      ScanConcat(ms[0], tail, s, serial);
      IxfrRest(id, ms[1..], rest, serial, Scan(ms[0], s, serial).seen);
    }
  }

  /** The records an incremental transfer has seen by message i. */
  function Answers(input: seq<Read>): seq<RR> {
    if input == [] then [] else Answers(input[..|input| - 1]) + Answer(input[|input| - 1])
  }

  /** Record p ends a transfer: the server's SOA for the third time, or for the second with no other SOA before. */
  ghost predicate EndsAt(rrs: seq<RR>, serial: nat, p: nat) {
    && p < |rrs| && rrs[p] == Soa(serial)
    && (multiset(rrs[..p])[Soa(serial)] == 2
        || (multiset(rrs[..p])[Soa(serial)] == 1 && forall k :: 0 <= k < p ==> rrs[k].Data? || rrs[k].serial == serial))
  }

  /** The receiver's notes on the records so far: how often the server's SOA came, and whether another one did. */
  ghost predicate Notes(s: Seen, rrs: seq<RR>, serial: nat) {
    && s.n == multiset(rrs)[Soa(serial)]
    && (s.axfr <==> forall k :: 0 <= k < |rrs| ==> rrs[k].Data? || rrs[k].serial == serial)
  }

  lemma NotesNext(s: Seen, rrs: seq<RR>, serial: nat, rr: RR)
    requires Notes(s, rrs, serial)
    ensures Notes(Note(s, rr, serial), rrs + [rr], serial)
    ensures Ends(s, rr, serial) <==> EndsAt(rrs + [rr], serial, |rrs|)
  {
    var more := rrs + [rr];
    assert more[..|rrs|] == rrs;
    assert more[|rrs|] == rr && forall k :: 0 <= k < |rrs| ==> more[k] == rrs[k];
  }

  lemma EndsAtPrefix(a: seq<RR>, b: seq<RR>, serial: nat, p: nat)
    requires p < |a|
    ensures EndsAt(a + b, serial, p) <==> EndsAt(a, serial, p)
  {
    assert (a + b)[..p] == a[..p];
    assert forall k :: 0 <= k < |a| ==> (a + b)[k] == a[k];
  }

  /** Scanning on stops exactly when one of the records scanned ends the transfer. */
  lemma {:induction false} ScanFrom(before: seq<RR>, rrs: seq<RR>, s: Seen, serial: nat)
    requires Notes(s, before, serial)
    ensures Scan(rrs, s, serial).Stopped? <==>
            exists p :: |before| <= p < |before + rrs| && EndsAt(before + rrs, serial, p)
    ensures Scan(rrs, s, serial).Going? ==> Notes(Scan(rrs, s, serial).seen, before + rrs, serial)
    decreases |rrs|
  {
    if rrs == [] {
      assert before + rrs == before;
    } else {
      var more := before + [rrs[0]];
      NotesNext(s, before, serial, rrs[0]);
      hide Notes, Note, Ends, EndsAt;
      assert before + rrs == more + rrs[1..];
      EndsAtPrefix(more, rrs[1..], serial, |before|);
      if !Ends(s, rrs[0], serial) {
        ScanFrom(more, rrs[1..], Note(s, rrs[0], serial), serial);
      }
    }
  }

  /** The receiver goes on exactly until the server's SOA has come three times, or twice with no other SOA before. */
  lemma ScanExactly(rrs: seq<RR>, serial: nat)
    ensures Scan(rrs, Seen(true, 0), serial).Stopped? <==> exists p :: 0 <= p < |rrs| && EndsAt(rrs, serial, p)
  {
    assert [] + rrs == rrs;
    ScanFrom([], rrs, Seen(true, 0), serial);
  }

  /** The first of the messages that are left: its verdict, and whether it is the last one read. */
  lemma IxfrHead(id: nat, input: seq<Read>, serial: nat, s: Seen)
    requires input != []
    ensures var es, t := Ixfr(id, input, serial, s), Scan(Answer(input[0]), s, serial);
            && es != [] && Judged(es[0], id, input[0], true, false)
            && if es[0].fault != NoFault || t.Stopped? then |es| == 1
               else es[1..] == Ixfr(id, input[1..], serial, t.seen) && |es| > 1
  {
    hide Scan;
    var es, t := Ixfr(id, input, serial, s), Scan(Answer(input[0]), s, serial);
    if es[0].fault == NoFault && t.Going? && |input| > 1 {
      assert Ixfr(id, input[1..], serial, t.seen) != [];
    }
  }

  /** An incremental transfer in message fields, from a message on that is not the first. */
  lemma {:induction false} IxfrFields(id: nat, input: seq<Read>, serial: nat, s: Seen, i: nat)
    requires i < |Ixfr(id, input, serial, s)|
    ensures var es := Ixfr(id, input, serial, s);
            if i < |input| then
              && Judged(es[i], id, input[i], true, false)
              && (i == |es| - 1 <==> es[i].fault != NoFault || Scan(Answers(input[..i + 1]), s, serial).Stopped?)
            else i == |input| == |es| - 1 && es[i] == Envelope([], ReadFault)
    decreases |input|
  {
    if input != [] {
      IxfrHead(id, input, serial, s);
      var es, rrs := Ixfr(id, input, serial, s), Answer(input[0]);
      var t := Scan(rrs, s, serial);
      hide *;
      if i < |input| {
        AnswersCut(input, i);
      }
      if i > 0 {
        IxfrFields(id, input[1..], serial, t.seen, i - 1);
        assert es[i] == es[1..][i - 1];
        if i < |input| {
          ScanConcat(rrs, Answers(input[1..][..i]), s, serial);
        }
      }
    }
  }

  lemma {:induction false} AnswersFirst(input: seq<Read>)
    requires input != []
    ensures Answers(input) == Answer(input[0]) + Answers(input[1..])
  {
    if |input| > 1 {
      AnswersFirst(input[..|input| - 1]);
      assert input[..|input| - 1][1..] == input[1..][..|input| - 2];
    } else {
      assert input[..0] == [] && input[1..] == [];
    }
  }

  lemma AnswersCut(input: seq<Read>, i: nat)
    requires i < |input|
    ensures Answers(input[..i + 1]) == Answer(input[0]) + Answers(input[1..][..i])
    ensures i == 0 ==> Answers(input[..i + 1]) == Answer(input[0])
  {
    AnswersFirst(input[..i + 1]);
    assert input[..i + 1][1..] == input[1..][..i];
  }

  /** An incremental transfer in message fields: every message is held to its response code and the first one to a
      leading SOA as well. It ends at the first fault, at a first message that has nothing newer, or at the
      message by which the server's SOA has come three times, or twice with no other SOA before. */
  lemma IxfrFromFields(id: nat, qser: nat, input: seq<Read>, i: nat)
    requires i < |IxfrFrom(id, qser, input)|
    ensures var es := IxfrFrom(id, qser, input);
            if i < |input| then Judged(es[i], id, input[i], true, i == 0)
            else i == |input| == |es| - 1 && es[i] == Envelope([], ReadFault)
    ensures var es := IxfrFrom(id, qser, input);
            i < |input| && es[i].fault != NoFault ==> i == |es| - 1
    ensures var es := IxfrFrom(id, qser, input);
            i < |input| && es[i].fault == NoFault ==>
              && input[0].Got? && input[0].message.answer != [] && input[0].message.answer[0].Soa?
              && var serial, rrs := input[0].message.answer[0].serial, Answers(input[..i + 1]);
              (i == |es| - 1 <==> qser >= serial || exists p :: 0 <= p < |rrs| && EndsAt(rrs, serial, p))
  {
    if input != [] {
      var f, rrs := IxfrFault(id, input[0], true), Answer(input[0]);
      if f == NoFault && qser < rrs[0].serial {
        IxfrFields(id, input, rrs[0].serial, Seen(true, 0), i);
        if i < |input| {
          ScanExactly(Answers(input[..i + 1]), rrs[0].serial);
        }
        hide Answers, Scan, EndsAt;
      }
    }
  }

  lemma IxfrJudged(id: nat, qser: nat, input: seq<Read>)
    ensures Verdicts(IxfrFrom(id, qser, input), id, input, true)
  {
    var es := IxfrFrom(id, qser, input);
    hide IxfrFrom, Judged;
    forall i | 0 <= i < |es| && i < |input| ensures Judged(es[i], id, input[i], true, i == 0) {
      IxfrFromFields(id, qser, input, i);
    }
  }

  // ----- The streams of section 4 of RFC 1995 ---------------------------------------------------------

  /** From one version to the next: the old SOA, what is deleted, the new SOA, what is added. */
  datatype Diff = Diff(prior: nat, gone: seq<RR>, next: nat, come: seq<RR>)

  predicate AllData(rrs: seq<RR>) {
    forall i :: 0 <= i < |rrs| ==> rrs[i].Data?
  }

  function DiffRecords(d: Diff): seq<RR> {
    [Soa(d.prior)] + d.gone + ([Soa(d.next)] + d.come)
  }

  function DiffsRecords(ds: seq<Diff>): seq<RR> {
    if ds == [] then [] else DiffRecords(ds[0]) + DiffsRecords(ds[1..])
  }

  /** Differences that lead from one version to another which none of them starts from. */
  predicate Chain(ds: seq<Diff>, from: nat, latest: nat) {
    && ds != [] && ds[0].prior == from != latest && AllData(ds[0].gone) && AllData(ds[0].come)
    && if |ds| == 1 then ds[0].next == latest else Chain(ds[1..], ds[0].next, latest)
  }

  /** The differences between the server's SOA and the same SOA again. */
  function Incremental(ds: seq<Diff>, latest: nat): seq<RR> {
    [Soa(latest)] + DiffsRecords(ds) + [Soa(latest)]
  }

  lemma {:induction false} ScanData(rrs: seq<RR>, s: Seen, serial: nat)
    requires AllData(rrs)
    ensures Scan(rrs, s, serial) == Going(s)
  {
    if rrs != [] {
      ScanData(rrs[1..], s, serial);
    }
  }

  lemma ScanSoa(serial: nat, rrs: seq<RR>, s: Seen, latest: nat)
    requires AllData(rrs) && !Ends(s, Soa(serial), latest)
    ensures Scan([Soa(serial)] + rrs, s, latest) == Going(Note(s, Soa(serial), latest))
  {
    assert ([Soa(serial)] + rrs)[1..] == rrs;
    ScanData(rrs, Note(s, Soa(serial), latest), latest);
  }

  /** A difference sequence is never where the receiver stops. */
  lemma ScanDiff(d: Diff, s: Seen, latest: nat)
    requires AllData(d.gone) && AllData(d.come) && d.prior != latest && s.n == 1
    ensures Scan(DiffRecords(d), s, latest) == Going(Seen(false, if d.next == latest then 2 else 1))
  {
    ScanSoa(d.prior, d.gone, s, latest);
    ScanSoa(d.next, d.come, Seen(false, 1), latest);
    ScanConcat([Soa(d.prior)] + d.gone, [Soa(d.next)] + d.come, s, latest);
  }

  lemma {:induction false} ScanDiffs(ds: seq<Diff>, from: nat, latest: nat, s: Seen)
    requires Chain(ds, from, latest) && s.n == 1
    ensures Scan(DiffsRecords(ds), s, latest) == Going(Seen(false, 2))
    decreases |ds|
  {
    ScanDiff(ds[0], s, latest);
    ScanConcat(DiffRecords(ds[0]), DiffsRecords(ds[1..]), s, latest);
    if |ds| > 1 {
      assert ds[1].prior == ds[0].next;
      ScanDiffs(ds[1..], ds[0].next, latest, Seen(false, 1));
    } else {
      assert ds[1..] == [];
    }
  }

  lemma IncrementalStops(ds: seq<Diff>, from: nat, latest: nat)
    requires Chain(ds, from, latest)
    ensures StopsAtEnd(Incremental(ds, latest), Seen(true, 0), latest)
  {
    var rrs, body := Incremental(ds, latest), DiffsRecords(ds);
    ScanSoa(latest, [], Seen(true, 0), latest);
    assert [Soa(latest)] + [] == [Soa(latest)];
    ScanDiffs(ds, from, latest, Seen(true, 1));
    ScanConcat([Soa(latest)], body, Seen(true, 0), latest);
    ScanConcat([Soa(latest)] + body, [Soa(latest)], Seen(true, 0), latest);
    assert rrs[..|rrs| - 1] == [Soa(latest)] + body;
  }

  lemma WholeZoneStops(rrs: seq<RR>)
    requires WholeZone(rrs)
    ensures StopsAtEnd(rrs, Seen(true, 0), rrs[0].serial)
  {
    var latest, body := rrs[0].serial, rrs[1..|rrs| - 1];
    ScanSoa(latest, body, Seen(true, 0), latest);
    assert rrs[..|rrs| - 1] == [Soa(latest)] + body;
    assert rrs == rrs[..|rrs| - 1] + [Soa(latest)];
    ScanConcat(rrs[..|rrs| - 1], [Soa(latest)], Seen(true, 0), latest);
  }

  /** An answer to a request for changes: the whole zone, or the differences since some older version. */
  ghost predicate IxfrStream(rrs: seq<RR>) {
    WholeZone(rrs) || exists ds, from, latest :: Chain(ds, from, latest) && rrs == Incremental(ds, latest)
  }

  /** However the answer is split into messages: unless the serial asked from is at least the server's as a
      number, the receiver delivers every message once, in order, and stops at the one that holds the final
      SOA; if it is, the receiver stops after the first message, which is right only when there is no other. */
  lemma IxfrComplete(id: nat, qser: nat, ms: seq<seq<RR>>, rest: seq<Read>)
    requires Split(ms) && IxfrStream(Stream(ms))
    ensures Stream(ms)[0].Soa?
    ensures IxfrFrom(id, qser, Sent(id, ms) + rest) == Delivered(ms) <==> qser < Stream(ms)[0].serial || |ms| == 1
    ensures qser >= Stream(ms)[0].serial ==> IxfrFrom(id, qser, Sent(id, ms) + rest) == Delivered(ms[..1])
  {
    IxfrStreamStops(Stream(ms));
    FirstRecord(ms);
    hide IxfrStream, StopsAtEnd, Scan;
    SentFirst(id, ms, rest);
    if qser < Stream(ms)[0].serial {
      IxfrRest(id, ms, rest, Stream(ms)[0].serial, Seen(true, 0));
    } else {
      assert ms[..1][1..] == [];
      SentFirst(id, ms[..1], rest);
      assert |Delivered(ms)| == |ms| && |Delivered(ms[..1])| == 1;
      assert |ms| == 1 ==> ms[..1] == ms;
    }
  }

  lemma IxfrStreamStops(rrs: seq<RR>)
    requires IxfrStream(rrs)
    ensures rrs != [] && rrs[0].Soa? && StopsAtEnd(rrs, Seen(true, 0), rrs[0].serial)
  {
    if WholeZone(rrs) {
      WholeZoneStops(rrs);
    } else {
      var ds, from, latest :| Chain(ds, from, latest) && rrs == Incremental(ds, latest);
      IncrementalStops(ds, from, latest);
    }
  }

  /** Serial b is newer than a in the arithmetic of section 3.2 of RFC 1982. */
  predicate Newer(a: nat, b: nat) {
    (a < b && b - a < 0x8000_0000) || (a > b && a - b > 0x8000_0000)
  }

  /** A newer serial that has wrapped around is taken for no change. */
  lemma WrappedSerial(id: nat, qser: nat, ms: seq<seq<RR>>, rest: seq<Read>)
    requires Split(ms) && IxfrStream(Stream(ms)) && |ms| > 1 && Stream(ms)[0].Soa? && Newer(qser, Stream(ms)[0].serial)
    ensures IxfrFrom(id, qser, Sent(id, ms) + rest) == Delivered(ms) <==> qser < Stream(ms)[0].serial
  {
    IxfrComplete(id, qser, ms, rest);
  }

  lemma WrapExample()
    ensures var ms := [[Soa(1), Soa(0xFFFF_FFFF)], [Data(5), Soa(1), Data(6), Soa(1)]];
            Newer(0xFFFF_FFFF, 1) && IxfrFrom(0, 0xFFFF_FFFF, Sent(0, ms)) == Delivered(ms[..1]) != Delivered(ms)
  {
    var ms := [[Soa(1), Soa(0xFFFF_FFFF)], [Data(5), Soa(1), Data(6), Soa(1)]];
    var d := Diff(0xFFFF_FFFF, [Data(5)], 1, [Data(6)]);
    assert DiffsRecords([d]) == DiffRecords(d) + DiffsRecords([]);
    assert Chain([d], 0xFFFF_FFFF, 1);
    assert ms[1..][1..] == [];
    assert Stream(ms) == Incremental([d], 1);
    IxfrComplete(0, 0xFFFF_FFFF, ms, []);
    assert Sent(0, ms) + [] == Sent(0, ms);
  }
}
