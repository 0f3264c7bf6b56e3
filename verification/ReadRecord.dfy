/** Unpacking resource records: the header, the typed rdata, and a counted section of records. */
module ReadRecord {
  import opened Names
  import opened UnpackName

  /** What the generated rdata code does with one field: a fixed number of octets, a domain name (which may
      be compressed when packed), or all octets up to the end of the record. */
  datatype Kind = Fixed(n: nat) | DomainName(compressible: bool) | Rest

  datatype Value = Data(bytes: Bytes) | NameText(text: Bytes)

  datatype RR = RR(owner: Bytes, rrtype: nat, rclass: nat, ttl: nat, data: seq<Value>)

  /** The rdata layout of every known type; any other type is one opaque field. */
  type Layouts = map<nat, seq<Kind>>

  function LayoutOf(layouts: Layouts, rrtype: nat): seq<Kind> {
    if rrtype in layouts then layouts[rrtype] else [Rest]
  }

  // ----- Integers and names at an offset ---------------------------------------------------

  function U16(m: Bytes, off: nat): (v: nat)
    requires off + 2 <= |m|
    ensures v < 0x1_0000
  {
    256 * (m[off] as int) + m[off + 1]
  }

  function U32(m: Bytes, off: nat): nat
    requires off + 4 <= |m|
  {
    U16(m, off) * 0x1_0000 + U16(m, off + 2)
  }

  datatype Read<T> = Got(value: T, next: nat) | Fault(err: Error)

  /** What UnpackDomainName returns. */
  function NameAt(m: Bytes, off: nat): Read<Bytes> {
    match Decode(m, off, MAX_POINTERS)
    case Bad(e) => Fault(e)
    case Name(name, next, _) =>
      if Octets(name) > MAX_NAME_OCTETS then Fault(ErrLongDomain) else Got(Present(name), next)
  }

  // ----- The record header ------------------------------------------------------------------

  datatype Header = Header(name: Bytes, rrtype: nat, rclass: nat, ttl: nat, rdlength: nat)

  const NO_HEADER := Header([], 0, 0, 0, 0)

  /** unpackHeader: at the very end of the message it yields an empty header and no error. */
  function HeaderAt(m: Bytes, off: nat): Read<Header> {
    if off == |m| then Got(NO_HEADER, off)
    else
      match NameAt(m, off)
      case Fault(e) => Fault(e)
      case Got(name, o) =>
        if o + 10 > |m| then Fault(ErrOverflow)
        else
          var h := Header(name, U16(m, o), U16(m, o + 2), U32(m, o + 4), U16(m, o + 8));
          if o + 10 + h.rdlength > |m| then Fault(ErrOverflow) else Got(h, o + 10)
  }

  /** Where a header read finds its fields: behind the name, each the more significant octet first. */
  lemma HeaderInOctets(m: Bytes, off: nat)
    requires off < |m| && HeaderAt(m, off).Got?
    ensures NameAt(m, off).Got? && HeaderAt(m, off).next == NameAt(m, off).next + 10 <= |m|
    ensures var h, o := HeaderAt(m, off).value, NameAt(m, off).next;
            && h.name == NameAt(m, off).value && h.rrtype == 256 * (m[o] as int) + m[o + 1]
            && h.rclass == 256 * (m[o + 2] as int) + m[o + 3]
            && h.ttl ==
               0x100_0000 * (m[o + 4] as int) + 0x1_0000 * (m[o + 5] as int) + 256 * (m[o + 6] as int) + m[o + 7]
            && h.rdlength == 256 * (m[o + 8] as int) + m[o + 9]
  {}

  // ----- The rdata ------------------------------------------------------------------------------

  function FieldAt(k: Kind, m: Bytes, off: nat): Read<Value> {
    match k
    case Fixed(n) => if off + n > |m| then Fault(ErrOverflow) else Got(Data(m[off..off + n]), off + n)
    case DomainName(_) =>
      (match NameAt(m, off)
       case Fault(e) => Fault(e)
       case Got(s, next) => Got(NameText(s), next))
    case Rest => if off > |m| then Fault(ErrOverflow) else Got(Data(m[off..]), |m|)
  }

  /** The value a field has in a freshly made record. */
  function Default(k: Kind): Value {
    match k
    case Fixed(n) => Data(seq(n, _ => 0))
    case DomainName(_) => NameText([])
    case Rest => Data([])
  }

  function Defaults(ks: seq<Kind>): seq<Value> {
    if ks == [] then [] else [Default(ks[0])] + Defaults(ks[1..])
  }

  /** The fields one after the other. When a field other than the last ends the message, the rest keep the
      values of a fresh record. */
  function FieldsAt(ks: seq<Kind>, m: Bytes, off: nat): Read<seq<Value>> {
    if ks == [] then Got([], off)
    else
      match FieldAt(ks[0], m, off)
      case Fault(e) => Fault(e)
      case Got(v, o) =>
        if |ks| > 1 && o == |m| then Got([v] + Defaults(ks[1..]), o)
        else
          match FieldsAt(ks[1..], m, o)
          case Fault(e) => Fault(e)
          case Got(vs, next) => Got([v] + vs, next)
  }

  function RdataAt(ks: seq<Kind>, m: Bytes, off: nat, rdlength: nat): Read<seq<Value>> {
    if rdlength == 0 then Got(Defaults(ks), off) else FieldsAt(ks, m, off)
  }

  /** UnpackRR: the rdata is read from the message cut off at the end the header announces, and must
      end exactly there. */
  function RecordAt(layouts: Layouts, m: Bytes, off: nat): Read<RR> {
    match HeaderAt(m, off)
    case Fault(e) => Fault(e)
    case Got(h, o) =>
      if o + h.rdlength > |m| then Fault(ErrOverflow)
      else
        match RdataAt(LayoutOf(layouts, h.rrtype), m[..o + h.rdlength], o, h.rdlength)
        case Fault(e) => Fault(e)
        case Got(vs, next) =>
          if next != o + h.rdlength then Fault(ErrRdata) else Got(RR(h.name, h.rrtype, h.rclass, h.ttl, vs), next)
  }

  /** Every record read takes at least eleven octets, all of them inside the message, except the empty
      one found at the very end. */
  lemma RecordBounds(layouts: Layouts, m: Bytes, off: nat)
    requires RecordAt(layouts, m, off).Got?
    ensures var next := RecordAt(layouts, m, off).next;
            if off == |m| then next == off else off + 11 <= next <= |m|
  {
    if off != |m| {
      DecodeBounds(m, off, MAX_POINTERS);
    }
  }

  /** A record read before the end of the message takes its name, ten octets and as many as those announce. */
  lemma RecordSpan(layouts: Layouts, m: Bytes, off: nat)
    requires off < |m| && RecordAt(layouts, m, off).Got?
    ensures HeaderAt(m, off).Got? && NameAt(m, off).Got? && NameAt(m, off).next + 10 <= |m|
    ensures var r, o := RecordAt(layouts, m, off), NameAt(m, off).next;
            && r.next == o + 10 + 256 * (m[o + 8] as int) + m[o + 9] <= |m|
            && r.value.owner == NameAt(m, off).value && r.value.rrtype == 256 * (m[o] as int) + m[o + 1]
            && r.value.rclass == 256 * (m[o + 2] as int) + m[o + 3] && r.value.ttl == HeaderAt(m, off).value.ttl
  {
    HeaderInOctets(m, off);
    hide FieldsAt, NameAt;
  }

  lemma {:induction false} FieldsFault(ks: seq<Kind>, m: Bytes, off: nat)
    ensures FieldsAt(ks, m, off) != Fault(NoError)
  {
    if ks != [] {
      BadIsError(m, off, MAX_POINTERS);
      var v := FieldAt(ks[0], m, off);
      if v.Got? {
        FieldsFault(ks[1..], m, v.next);
      }
    }
  }

  lemma RecordFault(layouts: Layouts, m: Bytes, off: nat)
    ensures RecordAt(layouts, m, off) != Fault(NoError)
  {
    hide FieldsAt;
    BadIsError(m, off, MAX_POINTERS);
    var h := HeaderAt(m, off);
    if h.Got? && h.next + h.value.rdlength <= |m| {
      FieldsFault(LayoutOf(layouts, h.value.rrtype), m[..h.next + h.value.rdlength], h.next);
    }
  }

  // ----- A section ------------------------------------------------------------------------------

  /** The records of a section that claims l of them: fewer are returned when the message ends first, and
      none when one of them is bad. */
  function SectionAt(layouts: Layouts, l: nat, m: Bytes, off: nat): Read<seq<RR>>
    decreases l
  {
    if l == 0 then Got([], off)
    else
      match RecordAt(layouts, m, off)
      case Fault(e) => Fault(e)
      case Got(r, o) =>
        if o == off then Got([], off)
        else
          match SectionAt(layouts, l - 1, m, o)
          case Fault(e) => Fault(e)
          case Got(rs, next) => Got([r] + rs, next)
  }

  /** Header counts cannot inflate a section: whatever is claimed, at most one record per eleven octets
      comes back, and never more than claimed. */
  lemma {:induction false} SectionBounded(layouts: Layouts, l: nat, m: Bytes, off: nat)
    requires SectionAt(layouts, l, m, off).Got? && off <= |m|
    ensures var s := SectionAt(layouts, l, m, off);
            |s.value| <= l && off + 11 * |s.value| <= s.next <= |m|
    decreases l
  {
    hide RecordAt;
    if l > 0 {
      RecordBounds(layouts, m, off);
      var r := RecordAt(layouts, m, off);
      if r.next != off {
        SectionBounded(layouts, l - 1, m, r.next);
      }
    }
  }

  /** The first records from off on are read one behind the other, each moving on: record i between cuts i and i + 1. */
  ghost predicate InRow(layouts: Layouts, m: Bytes, cuts: seq<nat>, rs: seq<RR>) {
    && |cuts| == |rs| + 1
    && forall i :: 0 <= i < |rs| ==> cuts[i + 1] != cuts[i] && RecordAt(layouts, m, cuts[i]) == Got(rs[i], cuts[i + 1])
  }

  lemma InRowBefore(layouts: Layouts, m: Bytes, off: nat, r: RR, cuts: seq<nat>, rs: seq<RR>)
    requires InRow(layouts, m, cuts, rs) && off != cuts[0] && RecordAt(layouts, m, off) == Got(r, cuts[0])
    ensures InRow(layouts, m, [off] + cuts, [r] + rs)
  {
    hide RecordAt;
    var cs, all := [off] + cuts, [r] + rs;
    forall i | 0 <= i < |all| ensures cs[i + 1] != cs[i] && RecordAt(layouts, m, cs[i]) == Got(all[i], cs[i + 1]) {
      if i > 0 {
        assert cs[i] == cuts[i - 1] && cs[i + 1] == cuts[i] && all[i] == rs[i - 1];
      }
    }
  }

  /** A section is all or nothing: either every record up to the claimed number, or up to the end of the message, is
      read in a row and returned, or one of them is bad and nothing but its error is returned. */
  lemma {:induction false} SectionInRow(layouts: Layouts, l: nat, m: Bytes, off: nat)
    returns (cuts: seq<nat>, rs: seq<RR>)
    ensures |rs| <= l && InRow(layouts, m, cuts, rs) && cuts[0] == off
    ensures match SectionAt(layouts, l, m, off)
            case Got(value, next) =>
              && value == rs && next == cuts[|rs|]
              && (|rs| == l || (RecordAt(layouts, m, next).Got? && RecordAt(layouts, m, next).next == next))
            case Fault(e) => |rs| < l && RecordAt(layouts, m, cuts[|rs|]) == Fault(e)
    decreases l
  {
    hide RecordAt;
    cuts, rs := [off], [];
    if l > 0 {
      var r := RecordAt(layouts, m, off);
      if r.Got? && r.next != off {
        cuts, rs := SectionInRow(layouts, l - 1, m, r.next);
        InRowBefore(layouts, m, off, r.value, cuts, rs);
        cuts, rs := [off] + cuts, [r.value] + rs;
      }
    }
  }

  function Prepend(dst: seq<RR>, s: Read<seq<RR>>): Read<seq<RR>> {
    match s
    case Fault(e) => Fault(e)
    case Got(rs, next) => Got(dst + rs, next)
  }

  lemma SectionStep(layouts: Layouts, l: nat, m: Bytes, off: nat, dst: seq<RR>)
    requires l > 0
    ensures match RecordAt(layouts, m, off)
            case Fault(e) => Prepend(dst, SectionAt(layouts, l, m, off)) == Fault(e)
            case Got(r, o) =>
              Prepend(dst, SectionAt(layouts, l, m, off)) ==
              if o == off then Got(dst, off) else Prepend(dst + [r], SectionAt(layouts, l - 1, m, o))
  {
    match RecordAt(layouts, m, off)
    case Fault(_) =>
    case Got(r, o) =>
      if o == off {
        assert dst + [] == dst;
      } else {
        var rest := SectionAt(layouts, l - 1, m, o);
        assert rest.Got? ==> dst + ([r] + rest.value) == dst + [r] + rest.value;
      }
  }

  /** unpackRRslice: the records and the offset after them, or on an error no records and the end of the
      message; the count claimed only bounds the loop. */
  method UnpackRRSlice(layouts: Layouts, l: nat, m: Bytes, start: nat) returns (dst: seq<RR>, off: nat, err: Error)
    ensures match SectionAt(layouts, l, m, start)
            case Fault(e) => dst == [] && off == |m| && err == e != NoError
            case Got(rs, next) => dst == rs && off == next && err == NoError
  {
    hide RecordAt;
    ghost var goal := SectionAt(layouts, l, m, start);
    dst, off, err := [], start, NoError;
    assert goal.Got? ==> [] + goal.value == goal.value;
    for i := 0 to l
      invariant Prepend(dst, SectionAt(layouts, l - i, m, off)) == goal
    {
      SectionStep(layouts, l - i, m, off, dst);
      match RecordAt(layouts, m, off)
      case Fault(e) =>
        RecordFault(layouts, m, off);
        return [], |m|, e;
      case Got(r, o) =>
        if o == off {
          return;
        }
        dst, off := dst + [r], o;
    }
    assert dst + [] == dst;
  }
}
