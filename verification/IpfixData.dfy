/**
 Data records: the sequences of a table are run over every record of a data set. The host is little-endian, and
 what is stored as a number there is the big-endian value of the field.
 */
module IpfixData {
  import opened Bytes
  import opened IpfixDecoder
  import opened IpfixElements
  import opened IpfixLayout
  import opened IpfixTemplate

  // ---------------------------------------------------------------- what one sequence stores

  /** The bytes of a number on the host. */
  function ToLE(n: nat, v: nat): (s: seq<byte>)
    ensures |s| == n
  {
    if n == 0 then [] else [v % 0x100] + ToLE(n - 1, v / 0x100)
  }

  function Limit(n: nat): nat {
    if n == 0 then 1 else 0x100 * Limit(n - 1)
  }

  lemma {:induction false} ToLEValue(n: nat, v: nat)
    requires v < Limit(n)
    ensures LE(ToLE(n, v)) == v
  {
    if n > 0 {
      ToLEValue(n - 1, v / 0x100);
      assert ToLE(n, v)[1..] == ToLE(n - 1, v / 0x100);
    }
  }

  lemma {:induction false} BELimit(s: seq<byte>)
    ensures BE(s) < Limit(|s|)
  {
    if |s| > 0 {
      BELimit(s[..|s| - 1]);
    }
  }

  lemma {:induction false} LimitRises(m: nat, n: nat)
    requires m <= n
    ensures Limit(m) <= Limit(n)
    decreases n
  {
    if m < n {
      LimitRises(m, n - 1);
    }
  }

  lemma Limit8()
    ensures Limit(2) == U16 && Limit(4) == U32 && Limit(8) == U64
  {
    assert Limit(0) == 1;
    assert Limit(1) == 0x100;
    assert Limit(2) == U16;
    assert Limit(4) == U32 by { assert Limit(3) == 0x1000000; }
    assert Limit(5) == 0x100_0000_0000;
    assert Limit(6) == 0x1_0000_0000_0000;
    assert Limit(7) == 0x100_0000_0000_0000;
  }

  /** The number that a sequence makes of its field; counters are multiplied by the sampling rate, in 64 bits. */
  function Number(op: Op, f: seq<byte>, rate: nat): nat {
    if op.IsCounter() then BE(f) * rate % U64 else BE(f)
  }

  /** What it stores in the output record. */
  function Stored(op: Op, f: seq<byte>, rate: nat): (s: seq<byte>)
    requires |f| == op.Reads()
    ensures |s| == op.Writes()
  {
    match op
    case Move128 => ToLE(8, BE(f[..8])) + ToLE(8, BE(f[8..]))
    case Nop => []
    case SaveIcmp => []
    case Time64Mili => []
    case _ => if op.IsZero() then Zeros(op.Writes()) else ToLE(op.Writes(), Number(op, f, rate))
  }

  /** Whether it also leaves the number beside the output record. */
  predicate Keeps(op: Op) {
    op.IsCounter() || op.Time64Mili?
  }

  /** A field that is stored as one number reads back as that number. */
  lemma StoredIsNumber(op: Op, f: seq<byte>, rate: nat)
    requires |f| == op.Reads() && 0 < op.Writes() && !op.IsZero() && !op.Move128?
    ensures LE(Stored(op, f, rate)) == Number(op, f, rate)
  {
    BELimit(f);
    LimitRises(|f|, op.Writes());
    Limit8();
    hide Limit, BE;
    assert op.IsCounter() ==> op.Writes() == 8;
    ToLEValue(op.Writes(), Number(op, f, rate));
  }

  /** An IPv6 address is stored as two numbers. */
  lemma StoredIsAddress(f: seq<byte>, rate: nat)
    requires |f| == 16
    ensures var s := Stored(Move128, f, rate); LE(s[..8]) == BE(f[..8]) && LE(s[8..]) == BE(f[8..])
  {
    BELimit(f[..8]);
    BELimit(f[8..]);
    ToLEValue(8, BE(f[..8]));
    ToLEValue(8, BE(f[8..]));
    var s := Stored(Move128, f, rate);
    assert s[..8] == ToLE(8, BE(f[..8])) && s[8..] == ToLE(8, BE(f[8..]));
  }

  // ---------------------------------------------------------------- all sequences of a table

  ghost predicate Reads(seqs: seq<Sequence>, input: nat) {
    forall i :: 0 <= i < |seqs| ==> seqs[i].input + seqs[i].op.Reads() <= input
  }

  ghost predicate InBounds(seqs: seq<Sequence>, input: nat, output: nat) {
    Reads(seqs, input) && forall i :: 0 <= i < |seqs| ==> End(seqs[i]) <= output
  }

  function FieldOf(s: Sequence, inp: seq<byte>): (f: seq<byte>)
    requires s.input + s.op.Reads() <= |inp|
    ensures |f| == s.op.Reads()
  {
    inp[s.input..s.input + s.op.Reads()]
  }

  /** The output record after the sequences. */
  ghost function Run(seqs: seq<Sequence>, inp: seq<byte>, rate: nat, out: seq<byte>): (r: seq<byte>)
    requires InBounds(seqs, |inp|, |out|)
    ensures |r| == |out|
  {
    if |seqs| == 0 then out
    else
      var s := seqs[|seqs| - 1];
      Store(Run(seqs[..|seqs| - 1], inp, rate, out), s.output, Stored(s.op, FieldOf(s, inp), rate))
  }

  /** What is left on a stack: the number of the last sequence that keeps one there. */
  ghost function Left(seqs: seq<Sequence>, inp: seq<byte>, rate: nat, stack: Stack): nat
    requires Reads(seqs, |inp|)
  {
    if |seqs| == 0 then 0
    else
      var s := seqs[|seqs| - 1];
      if s.stack == stack && Keeps(s.op) then Number(s.op, FieldOf(s, inp), rate)
      else Left(seqs[..|seqs| - 1], inp, rate, stack)
  }

  /** Bytes that no sequence writes stay. */
  lemma {:induction false} RunKeeps(seqs: seq<Sequence>, inp: seq<byte>, rate: nat, out: seq<byte>, at: nat, other: seq<byte>)
    requires InBounds(seqs, |inp|, |out|) && Has(out, at, other)
    requires forall i :: 0 <= i < |seqs| ==> End(seqs[i]) <= at || at + |other| <= seqs[i].output
    ensures Has(Run(seqs, inp, rate, out), at, other)
  {
    hide Has, Store, Stored;
    if |seqs| > 0 {
      var n := |seqs| - 1;
      RunKeeps(seqs[..n], inp, rate, out, at, other);
      StoreKeeps(Run(seqs[..n], inp, rate, out), seqs[n].output, Stored(seqs[n].op, FieldOf(seqs[n], inp), rate), at, other);
    }
  }

  /** Every sequence leaves what it stores, as their outputs do not overlap. */
  lemma {:induction false} RunHas(seqs: seq<Sequence>, inp: seq<byte>, rate: nat, out: seq<byte>, i: nat)
    requires InBounds(seqs, |inp|, |out|) && i < |seqs|
    requires forall i, j :: 0 <= i < j < |seqs| ==> End(seqs[i]) <= seqs[j].output
    ensures Has(Run(seqs, inp, rate, out), seqs[i].output, Stored(seqs[i].op, FieldOf(seqs[i], inp), rate))
  {
    hide Has, Store, Stored;
    var n := |seqs| - 1;
    var b, s := Run(seqs[..n], inp, rate, out), seqs[n];
    if i == n {
      StoreHas(b, s.output, Stored(s.op, FieldOf(s, inp), rate));
    } else {
      RunHas(seqs[..n], inp, rate, out, i);
      StoreKeeps(b, s.output, Stored(s.op, FieldOf(s, inp), rate),
                 seqs[i].output, Stored(seqs[i].op, FieldOf(seqs[i], inp), rate));
    }
  }

  // ---------------------------------------------------------------- the interpreter

  /** A number goes to the output record, in one or two words. */
  method StoreNumber(out: array<byte>, at: nat, n: nat, v: nat)
    requires at + n <= out.Length
    modifies out
    ensures out[..] == Store(old(out[..]), at, ToLE(n, v))
  {
    var b := ToLE(n, v);
    forall k | 0 <= k < n {
      out[at + k] := b[k];
    }
    assert out[..at] == old(out[..at]);
    assert out[at..at + n] == b;
    assert out[at + n..] == old(out[at + n..]);
  }

  method StoreZeros(out: array<byte>, at: nat, n: nat)
    requires at + n <= out.Length
    modifies out
    ensures out[..] == Store(old(out[..]), at, Zeros(n))
  {
    forall k | 0 <= k < n {
      out[at + k] := 0;
    }
    assert out[..at] == old(out[..at]);
    assert out[at..at + n] == Zeros(n);
    assert out[at + n..] == old(out[at + n..]);
  }

  /** The switch over the sequence's id. */
  method Move(s: Sequence, inp: seq<byte>, rate: nat, out: array<byte>)
    requires s.input + s.op.Reads() <= |inp| && End(s) <= out.Length
    modifies out
    ensures out[..] == Store(old(out[..]), s.output, Stored(s.op, FieldOf(s, inp), rate))
  {
    hide ToLE, BE, Store;
    var i, o := s.input, s.output;
    match s.op
    case Nop => StoreNothing(out[..], o);
    case SaveIcmp => StoreNothing(out[..], o);
    case Time64Mili => StoreNothing(out[..], o);
    case Move8 =>
      ByteIsNumber(inp[i..i + 1]);
      StoreNumber(out, o, 1, BE(inp[i..i + 1]));
    case Move16 => StoreNumber(out, o, 2, BE(inp[i..i + 2]));
    case Move32 => StoreNumber(out, o, 4, BE(inp[i..i + 4]));
    case MoveMpls => StoreNumber(out, o, 4, BE(inp[i..i + 3]));
    case Move40 => StoreNumber(out, o, 8, BE(inp[i..i + 5]));
    case Move48 => StoreNumber(out, o, 8, BE(inp[i..i + 6]));
    case MoveMac => StoreNumber(out, o, 8, BE(inp[i..i + 6]));
    case Move56 => StoreNumber(out, o, 8, BE(inp[i..i + 7]));
    case Move64 => StoreNumber(out, o, 8, BE(inp[i..i + 8]));
    case Move32Sampling => StoreNumber(out, o, 8, BE(inp[i..i + 4]) * rate % U64);
    case Move64Sampling => StoreNumber(out, o, 8, BE(inp[i..i + 8]) * rate % U64);
    case Move128 =>
      ghost var f := inp[i..i + 16];
      assert f[..8] == inp[i..i + 8] && f[8..] == inp[i + 8..i + 16];
      ghost var before := out[..];
      StoreNumber(out, o, 8, BE(inp[i..i + 8]));
      StoreNumber(out, o + 8, 8, BE(inp[i + 8..i + 16]));
      StoreTwice(before, o, ToLE(8, BE(f[..8])), ToLE(8, BE(f[8..])));
    case Zero8 => StoreZeros(out, o, 1);
    case Zero16 => StoreZeros(out, o, 2);
    case Zero32 => StoreZeros(out, o, 4);
    case Zero64 => StoreZeros(out, o, 8);
    case Zero128 => StoreZeros(out, o, 16);
  }

  lemma ByteIsNumber(f: seq<byte>)
    requires |f| == 1
    ensures ToLE(1, BE(f)) == f
  {
    assert BE(f[..0]) == 0;
    assert ToLE(0, BE(f) / 0x100) == [];
  }

  lemma StoreNothing(data: seq<byte>, at: nat)
    requires at <= |data|
    ensures Store(data, at, []) == data
  {}

  lemma StoreTwice(data: seq<byte>, at: nat, a: seq<byte>, b: seq<byte>)
    requires at + |a| + |b| <= |data|
    ensures |Store(data, at, a)| == |data|
    ensures Store(Store(data, at, a), at + |a|, b) == Store(data, at, a + b)
  {}

  /** The loop over the sequences; the values it leaves in the table are those on the stacks. */
  method Apply(t: Table, inp: seq<byte>, rate: nat, out: array<byte>)
    requires InBounds(t.sequence, |inp|, out.Length)
    modifies out, t`flowStart, t`flowEnd, t`packets, t`octets
    ensures out[..] == Run(t.sequence, inp, rate, old(out[..]))
    ensures t.flowStart == Left(t.sequence, inp, rate, FlowStart) && t.flowEnd == Left(t.sequence, inp, rate, FlowEnd)
    ensures t.packets == Left(t.sequence, inp, rate, Packets) && t.octets == Left(t.sequence, inp, rate, Octets)
  {
    hide Store, Stored, BE, Keeps;
    t.flowStart, t.flowEnd, t.packets, t.octets := 0, 0, 0, 0;
    var i := 0;
    var seqs := t.sequence;
    while i < |seqs|
      invariant i <= |seqs| && seqs == t.sequence
      invariant out[..] == Run(seqs[..i], inp, rate, old(out[..]))
      invariant t.flowStart == Left(seqs[..i], inp, rate, FlowStart) && t.flowEnd == Left(seqs[..i], inp, rate, FlowEnd)
      invariant t.packets == Left(seqs[..i], inp, rate, Packets) && t.octets == Left(seqs[..i], inp, rate, Octets)
    {
      var s := seqs[i];
      assert seqs[..i + 1][..i] == seqs[..i];
      Move(s, inp, rate, out);
      if Keeps(s.op) {
        var v := Number(s.op, inp[s.input..s.input + s.op.Reads()], rate);
        match s.stack
        case NoStack =>
        case FlowStart => t.flowStart := v;
        case FlowEnd => t.flowEnd := v;
        case Packets => t.packets := v;
        case Octets => t.octets := v;
      }
      i := i + 1;
    }
    assert seqs[..i] == seqs;
  }

  // ---------------------------------------------------------------- fields are read inside the record

  lemma {:induction false} KnownInside(fs: seq<Field>, k: nat, kind: nat)
    requires k <= |fs| && Total(fs, |fs|) < U16
    ensures var p := Known(fs, k, kind);
            p.found ==> Row(p.index).length == p.length && p.offset + p.length <= Total(fs, |fs|)
  {
    hide Row, FirstRow, Match;
    if k > 0 {
      KnownInside(fs, k - 1, kind);
      OffsetsRise(fs, k - 1);
      TotalRises(fs, k, |fs|);
    }
  }

  lemma SlotReads(fs: seq<Field>, kind: nat, at: nat, stack: Stack)
    requires Total(fs, |fs|) < U16
    ensures var s := SlotOf(Entry(fs, kind), at, stack); s.input + s.op.Reads() <= Total(fs, |fs|)
  {
    KnownInside(fs, |fs|, kind);
    hide Row, Known;
  }

  lemma {:induction false} PlaceReads(fs: seq<Field>, items: seq<Item>)
    requires Total(fs, |fs|) < U16
    ensures Reads(Place(fs, items).seqs, Total(fs, |fs|))
  {
    hide Row, Entry, SlotOf;
    if |items| == 0 {
      SlotReads(fs, FLOW_START_MILLISECONDS, FIRST, FlowStart);
      SlotReads(fs, FLOW_END_MILLISECONDS, FIRST + 4, FlowEnd);
    } else {
      var n := |items| - 1;
      PlaceReads(fs, items[..n]);
      if items[n].Push? {
        SlotReads(fs, items[n].kind, Place(fs, items[..n]).offset, items[n].stack);
      }
    }
  }

  // ---------------------------------------------------------------- where the parts of the common record are

  lemma RowWidths(i: nat)
    ensures Row(i).id in {TCP_CONTROL_BITS, PROTOCOL_IDENTIFIER, IP_CLASS_OF_SERVICE} ==> Row(i).outLength == 1
    ensures Row(i).id in {SOURCE_TRANSPORT_PORT, DESTINATION_TRANSPORT_PORT} ==> Row(i).outLength == 2
  {}

  lemma CommonInTable()
    ensures HasType(TCP_CONTROL_BITS) && HasType(PROTOCOL_IDENTIFIER) && HasType(IP_CLASS_OF_SERVICE)
    ensures HasType(SOURCE_TRANSPORT_PORT) && HasType(DESTINATION_TRANSPORT_PORT)
  {
    assert Row(9).id == PROTOCOL_IDENTIFIER && Row(10).id == IP_CLASS_OF_SERVICE && Row(11).id == TCP_CONTROL_BITS;
    assert Row(12).id == SOURCE_TRANSPORT_PORT && Row(17).id == DESTINATION_TRANSPORT_PORT;
  }

  lemma EntryWidth(fs: seq<Field>, kind: nat)
    requires kind in {TCP_CONTROL_BITS, PROTOCOL_IDENTIFIER, IP_CLASS_OF_SERVICE, SOURCE_TRANSPORT_PORT,
                      DESTINATION_TRANSPORT_PORT}
    ensures Row(Entry(fs, kind).index).outLength
            == if kind in {SOURCE_TRANSPORT_PORT, DESTINATION_TRANSPORT_PORT} then 2 else 1
  {
    hide Row, FirstRow, Known;
    CommonInTable();
    EntryRow(fs, |fs|, kind);
    RowWidths(Entry(fs, kind).index);
  }

  lemma {:induction false} BelowIsPrefix(fs: seq<Field>, common: set<nat>, peer6: bool, e: nat, f: nat)
    requires 4 <= e <= f
    ensures ItemsBelow(fs, common, peer6, e) <= ItemsBelow(fs, common, peer6, f)
    decreases f
  {
    hide Entry, Ipv6, ExtensionItems;
    if e < f {
      BelowIsPrefix(fs, common, peer6, e, f - 1);
    }
  }

  lemma AtStep(fs: seq<Field>, items: seq<Item>, i: nat)
    requires i < |items|
    ensures At(fs, items, i + 1)
            == At(fs, items, i) + match items[i] { case Skip(n) => n
                                                   case Push(kind, _) => Row(Entry(fs, kind).index).outLength }
    ensures At(fs, items, 0) == FIRST + 8
  {
    hide Row, Entry;
    assert items[..i + 1][..i] == items[..i];
  }

  /** The sequences put the common fields where the common record has them: the protocol at 22, the ports at 24 and 26. */
  lemma CommonPlaces(fs: seq<Field>, common: set<nat>, peer6: bool)
    ensures var items := Items(fs, common, peer6);
            && 11 <= |items| && items[2] == Item.Push(PROTOCOL_IDENTIFIER, NoStack) && At(fs, items, 2) == PROTOCOL
            && items[4] == Item.Push(SOURCE_TRANSPORT_PORT, NoStack) && At(fs, items, 4) == PORTS
            && items[5] == Item.Push(DESTINATION_TRANSPORT_PORT, NoStack) && At(fs, items, 5) == PORTS + 2
            && At(fs, items, 6) == PORTS + 4
  {
    hide Row, Entry, ItemsBelow, Items, Place, At;
    var items := Items(fs, common, peer6);
    CommonFirst(fs, common, peer6);
    EntryWidth(fs, TCP_CONTROL_BITS);
    EntryWidth(fs, PROTOCOL_IDENTIFIER);
    EntryWidth(fs, IP_CLASS_OF_SERVICE);
    EntryWidth(fs, SOURCE_TRANSPORT_PORT);
    EntryWidth(fs, DESTINATION_TRANSPORT_PORT);
    AtStep(fs, items, 0);
    AtStep(fs, items, 1);
    AtStep(fs, items, 2);
    AtStep(fs, items, 3);
    AtStep(fs, items, 4);
    AtStep(fs, items, 5);
  }

  lemma CommonFirst(fs: seq<Field>, common: set<nat>, peer6: bool)
    ensures var items := Items(fs, common, peer6);
            && 11 <= |items| && items[0] == Skip(1) && items[1] == Item.Push(TCP_CONTROL_BITS, NoStack)
            && items[2] == Item.Push(PROTOCOL_IDENTIFIER, NoStack)
            && items[3] == Item.Push(IP_CLASS_OF_SERVICE, NoStack)
            && items[4] == Item.Push(SOURCE_TRANSPORT_PORT, NoStack)
            && items[5] == Item.Push(DESTINATION_TRANSPORT_PORT, NoStack) && items[6] == Skip(4)
  {
    BelowIsPrefix(fs, common, peer6, 4, EXTENSIONS_END);
    var c, items := CommonItems(fs), Items(fs, common, peer6);
    assert |c| == 11;
    hide Entry, Ipv6;
    assert forall i :: 0 <= i < 11 ==> items[i] == c[i];
  }

  // ---------------------------------------------------------------- a whole record

  /** What does not come from the record: time of arrival in milliseconds, and the exporter's address. */
  datatype Env = Env(received: nat, ip4: uint32, ip6: (uint64, uint64))

  type uint32 = v: nat | v < U32

  type uint64 = v: nat | v < U64

  const ICMP: byte := 1
  const ICMPV6: byte := 58

  predicate IsIcmp(out: seq<byte>, icmp: nat)
    requires PORTS + 4 <= |out|
  {
    (out[PROTOCOL] == ICMP || out[PROTOCOL] == ICMPV6) && icmp != 0
  }

  /** Type and code of ICMP take the place of the destination port. */
  function Icmp(out: seq<byte>, inp: seq<byte>, icmp: nat): (r: seq<byte>)
    requires PORTS + 4 <= |out| && (icmp != 0 ==> icmp + 2 <= |inp|)
    ensures |r| == |out|
  {
    if IsIcmp(out, icmp)
    then Store(out, PORTS, ToLE(2, 0) + ToLE(2, BE(inp[icmp..icmp + 2])))
    else out
  }

  function Arrival(out: seq<byte>, at: nat, ms: nat): (r: seq<byte>)
    requires at + 8 <= |out|
    ensures |r| == |out|
  {
    if at != 0 then Store(out, at, ToLE(8, ms % U64)) else out
  }

  /** Times are split into seconds, in 32 bits, and milliseconds. */
  function Times(out: seq<byte>, start: nat, end: nat): (r: seq<byte>)
    requires FIRST + 8 <= |out|
    ensures |r| == |out|
  {
    Store(out, FIRST - 4, ToLE(2, start % 1000) + ToLE(2, end % 1000) + ToLE(4, start / 1000 % U32) + ToLE(4, end / 1000 % U32))
  }

  function RouterBytes(peer6: bool, env: Env): (s: seq<byte>)
    ensures |s| == if peer6 then 16 else 4
  {
    if peer6 then ToLE(8, env.ip6.0) + ToLE(8, env.ip6.1) else ToLE(4, env.ip4)
  }

  function Router(out: seq<byte>, at: nat, peer6: bool, env: Env): (r: seq<byte>)
    requires at + |RouterBytes(peer6, env)| <= |out|
    ensures |r| == |out|
  {
    if at != 0 then Store(out, at, RouterBytes(peer6, env)) else out
  }

  /** Where room was left, it is inside the record and no item's output is in it. */
  lemma ReservedFree(fs: seq<Field>, common: set<nat>, peer6: bool, e: nat, n: nat, i: nat)
    requires 4 <= e < EXTENSIONS_END && e in common && ExtensionItems(e, Ipv6(fs), peer6) == [Skip(n)]
    requires i < |Items(fs, common, peer6)|
    ensures var items := Items(fs, common, peer6);
            var at := Place(fs, ItemsBelow(fs, common, peer6, e)).offset;
            && PORTS + 4 <= at && at + n <= Place(fs, items).offset
            && (items[i].Push? ==>
                  At(fs, items, i) + Row(Entry(fs, items[i].kind).index).outLength <= at || at + n <= At(fs, items, i))
  {
    hide Row, Entry, Ipv6, ExtensionItems, ItemsBelow, Place;
    var items := Items(fs, common, peer6);
    var below := ItemsBelow(fs, common, peer6, e);
    var j := |below|;
    ItemsBelowStep(fs, common, peer6, e + 1);
    BelowIsPrefix(fs, common, peer6, e + 1, EXTENSIONS_END);
    BelowIsPrefix(fs, common, peer6, 4, e);
    assert items[..j] == below && items[j] == Skip(n);
    assert items[..|items|] == items;
    PlacesRise(fs, items, j, |items|);
    if i < j { PlacesRise(fs, items, i, j); }
    if j < i { PlacesRise(fs, items, j, i); }
    CommonPlaces(fs, common, peer6);
    ItemsBelowStep(fs, common, peer6, 4);
    PlacesRise(fs, items, 6, j);
  }

  ghost function ArrivalAt(fs: seq<Field>, common: set<nat>, peer6: bool): nat {
    ReservedAt(fs, common, peer6, EX_RECEIVED, EX_RECEIVED, EXTENSIONS_END)
  }

  ghost function RouterAt(fs: seq<Field>, common: set<nat>, peer6: bool): nat {
    ReservedAt(fs, common, peer6, EX_ROUTER_IP_V4, EX_ROUTER_IP_V6, EXTENSIONS_END)
  }

  /** What is read and written lies inside an input and an output record of these sizes. */
  ghost predicate Fine(fs: seq<Field>, common: set<nat>, peer6: bool, input: nat, output: nat) {
    && InBounds(Place(fs, Items(fs, common, peer6)).seqs, input, output)
    && PORTS + 4 <= output && (IcmpOffset(fs) != 0 ==> IcmpOffset(fs) + 2 <= input)
    && ArrivalAt(fs, common, peer6) + 8 <= output
    && RouterAt(fs, common, peer6) + (if peer6 then 16 else 4) <= output
  }

  lemma ReservedInside(fs: seq<Field>, common: set<nat>, peer6: bool, i: nat)
    requires i < |Items(fs, common, peer6)|
    ensures var items := Items(fs, common, peer6);
            var size := Place(fs, items).offset;
            var at, n := ArrivalAt(fs, common, peer6), 8;
            var r, m := RouterAt(fs, common, peer6), if peer6 then 16 else 4;
            && (at != 0 ==> PORTS + 4 <= at && at + n <= size)
            && (r != 0 ==> PORTS + 4 <= r && r + m <= size)
            && (items[i].Push? ==>
                  var a, z := At(fs, items, i), At(fs, items, i) + Row(Entry(fs, items[i].kind).index).outLength;
                  (at != 0 ==> z <= at || at + n <= a) && (r != 0 ==> z <= r || r + m <= a))
  {
    hide Row, Entry, Ipv6, ItemsBelow, Place, Items, At;
    if EX_RECEIVED in common {
      ReservedFree(fs, common, peer6, EX_RECEIVED, 8, i);
    }
    if EX_ROUTER_IP_V6 in common {
      ReservedFree(fs, common, peer6, EX_ROUTER_IP_V6, if peer6 then 16 else 4, i);
    }
    if EX_ROUTER_IP_V4 in common {
      ReservedFree(fs, common, peer6, EX_ROUTER_IP_V4, if peer6 then 16 else 4, i);
    }
  }

  /** The output record has all of the common record's fixed part. */
  lemma SizeIsEnough(fs: seq<Field>, common: set<nat>, peer6: bool)
    ensures PORTS + 8 <= Place(fs, Items(fs, common, peer6)).offset
  {
    hide Row, Entry, ItemsBelow, Place, Items;
    var items := Items(fs, common, peer6);
    CommonPlaces(fs, common, peer6);
    CommonFirst(fs, common, peer6);
    AtStep(fs, items, 6);
    PlacesRise(fs, items, 7, |items|);
    assert items[..|items|] == items;
  }

  lemma IsFine(fs: seq<Field>, common: set<nat>, peer6: bool)
    requires Total(fs, |fs|) < U16
    ensures Fine(fs, common, peer6, Total(fs, |fs|), Place(fs, Items(fs, common, peer6)).offset)
  {
    hide Row, Entry, ItemsBelow, Place, Items;
    var items := Items(fs, common, peer6);
    PlaceReads(fs, items);
    PlacedApart(fs, items);
    CommonPlaces(fs, common, peer6);
    SizeIsEnough(fs, common, peer6);
    ReservedInside(fs, common, peer6, 0);
    IcmpInside(fs);
  }

  lemma IcmpInside(fs: seq<Field>)
    requires Total(fs, |fs|) < U16
    ensures IcmpOffset(fs) != 0 ==> IcmpOffset(fs) + 2 <= Total(fs, |fs|)
  {
    KnownInside(fs, |fs|, ICMP_TYPE_CODE_IPV4);
    hide Row, Known;
  }

  /** The output record for the data record at the front of `inp`, in a buffer that held `out`. */
  ghost function Record(fs: seq<Field>, common: set<nat>, peer6: bool, inp: seq<byte>, rate: nat, env: Env,
                        out: seq<byte>): (r: seq<byte>)
    requires Fine(fs, common, peer6, |inp|, |out|)
    ensures |r| == |out|
  {
    var seqs := Place(fs, Items(fs, common, peer6)).seqs;
    var moved := Icmp(Run(seqs, inp, rate, out), inp, IcmpOffset(fs));
    var timed := Times(Arrival(moved, ArrivalAt(fs, common, peer6), env.received),
                       Left(seqs, inp, rate, FlowStart), Left(seqs, inp, rate, FlowEnd));
    Router(timed, RouterAt(fs, common, peer6), peer6, env)
  }

  /** For every template the record fits in a buffer of the size that the table tells. */
  lemma FineInside(fs: seq<Field>, common: set<nat>, peer6: bool, input: nat)
    requires Total(fs, |fs|) < U16 && Total(fs, |fs|) <= input
    ensures Fine(fs, common, peer6, input, Place(fs, Items(fs, common, peer6)).offset)
  {
    hide Row, Entry, Place, Items, IcmpOffset, ReservedAt;
    IsFine(fs, common, peer6);
  }

  ghost predicate Whole(fs: seq<Field>, common: set<nat>, peer6: bool, inp: seq<byte>, out: seq<byte>) {
    && Total(fs, |fs|) < U16 && Total(fs, |fs|) <= |inp|
    && |out| == Place(fs, Items(fs, common, peer6)).offset
  }

  /** The output record, in a buffer of the size that the table tells. */
  ghost function Finished(fs: seq<Field>, common: set<nat>, peer6: bool, inp: seq<byte>, rate: nat, env: Env,
                          out: seq<byte>): (r: seq<byte>)
    requires Whole(fs, common, peer6, inp, out)
    ensures |r| == |out|
  {
    FineInside(fs, common, peer6, |inp|);
    Record(fs, common, peer6, inp, rate, env, out)
  }

  /** The output record before type and code of ICMP, times and reserved parts are put in. */
  ghost function Moved(fs: seq<Field>, common: set<nat>, peer6: bool, inp: seq<byte>, rate: nat, out: seq<byte>):
    (r: seq<byte>)
    requires Whole(fs, common, peer6, inp, out)
    ensures |r| == |out|
  {
    FineInside(fs, common, peer6, |inp|);
    Run(Place(fs, Items(fs, common, peer6)).seqs, inp, rate, out)
  }

  /** A part behind the times that the reserved places are not in. */
  lemma LaterKeeps(out: seq<byte>, arrival: nat, ms: nat, start: nat, end: nat, router: nat, peer6: bool, env: Env,
                   at: nat, part: seq<byte>)
    requires FIRST + 8 <= |out| && arrival + 8 <= |out| && router + |RouterBytes(peer6, env)| <= |out|
    requires Has(out, at, part) && FIRST + 8 <= at
    requires arrival != 0 ==> at + |part| <= arrival || arrival + 8 <= at
    requires router != 0 ==> at + |part| <= router || router + |RouterBytes(peer6, env)| <= at
    ensures Has(Router(Times(Arrival(out, arrival, ms), start, end), router, peer6, env), at, part)
  {
    hide Has, Store, ToLE, RouterBytes;
    var o2 := Arrival(out, arrival, ms);
    if arrival != 0 {
      StoreKeeps(out, arrival, ToLE(8, ms % U64), at, part);
    }
    var o3 := Times(o2, start, end);
    var times := ToLE(2, start % 1000) + ToLE(2, end % 1000) + ToLE(4, start / 1000 % U32) + ToLE(4, end / 1000 % U32);
    StoreKeeps(o2, FIRST - 4, times, at, part);
    if router != 0 {
      StoreKeeps(o3, router, RouterBytes(peer6, env), at, part);
    }
  }

  /** A part of the record that what follows the sequences does not touch. */
  lemma PartStays(out: seq<byte>, inp: seq<byte>, icmp: nat, arrival: nat, ms: nat, start: nat, end: nat, router: nat,
                  peer6: bool, env: Env, at: nat, part: seq<byte>)
    requires PORTS + 4 <= |out| && (icmp != 0 ==> icmp + 2 <= |inp|) && arrival + 8 <= |out|
    requires router + |RouterBytes(peer6, env)| <= |out|
    requires Has(out, at, part) && FIRST + 8 <= at
    requires Icmp(out, inp, icmp) == out || at + |part| <= PORTS || PORTS + 4 <= at
    requires arrival != 0 ==> at + |part| <= arrival || arrival + 8 <= at
    requires router != 0 ==> at + |part| <= router || router + |RouterBytes(peer6, env)| <= at
    ensures Has(Router(Times(Arrival(Icmp(out, inp, icmp), arrival, ms), start, end), router, peer6, env), at, part)
  {
    hide Has, Store, ToLE, BE, RouterBytes, Arrival, Times, Router;
    if Icmp(out, inp, icmp) != out {
      StoreKeeps(out, PORTS, ToLE(2, 0) + ToLE(2, BE(inp[icmp..icmp + 2])), at, part);
    }
    LaterKeeps(Icmp(out, inp, icmp), arrival, ms, start, end, router, peer6, env, at, part);
  }

  /** The number of the operation and the field that an item stores: zeros if there is no such field. */
  function OpOf(p: Param): Op {
    if p.found then Row(p.index).sequence else Row(p.index).zero
  }

  /** The output of an item is in the list of sequences, so its bytes are there after them. */
  lemma ItemIsMoved(fs: seq<Field>, items: seq<Item>, i: nat, inp: seq<byte>, rate: nat, out: seq<byte>)
    requires i < |items| && items[i].Push? && InBounds(Place(fs, items).seqs, |inp|, |out|)
    ensures var s := SlotOf(Entry(fs, items[i].kind), At(fs, items, i), items[i].stack);
            && s.input + s.op.Reads() <= |inp|
            && Has(Run(Place(fs, items).seqs, inp, rate, out), At(fs, items, i), Stored(s.op, FieldOf(s, inp), rate))
  {
    hide Row, Entry, SlotOf, Has, Stored, Run, At;
    var s := SlotOf(Entry(fs, items[i].kind), At(fs, items, i), items[i].stack);
    SlotStays(fs, items, i);
    PlacedApart(fs, items);
    var seqs := Place(fs, items).seqs;
    var k :| 0 <= k < |seqs| && seqs[k] == s;
    RunHas(seqs, inp, rate, out, k);
    assert s.output == At(fs, items, i) by { SlotOutput(Entry(fs, items[i].kind), At(fs, items, i), items[i].stack); }
  }

  lemma SlotOutput(p: Param, at: nat, stack: Stack)
    ensures SlotOf(p, at, stack).output == at && SlotOf(p, at, stack).op == OpOf(p)
    ensures SlotOf(p, at, stack).input == if p.found then p.offset else 0
  {
    hide Row;
  }

  // ---------------------------------------------------------------- type and code of ICMP

  /**
   The protocol of the data record is ICMP, and the template has a field for type and code; one at the start of the
   record is not taken for one, as its offset of 0 stands for none.
   */
  ghost predicate IcmpRecord(fs: seq<Field>, inp: seq<byte>) {
    && (exists k :: 0 <= k < |fs| && fs[k] == Field(ICMP_TYPE_CODE_IPV4, 2) && Total(fs, k) != 0)
    && (exists j :: 0 <= j < |fs| && fs[j] == Field(PROTOCOL_IDENTIFIER, 1) && Total(fs, j) < |inp|
                    && (inp[Total(fs, j)] == ICMP || inp[Total(fs, j)] == ICMPV6))
  }

  lemma OneLengthOnly(i: nat)
    ensures Row(i).id == PROTOCOL_IDENTIFIER ==> Row(i).length == 1 && Row(i).sequence.Move8? && Row(i).zero.Zero8?
    ensures Row(i).id == ICMP_TYPE_CODE_IPV4 ==> Row(i).length == 2
  {}

  lemma IcmpSupported(f: Field)
    ensures f.kind == PROTOCOL_IDENTIFIER ==> (Supported(f) <==> f.length == 1)
    ensures f.kind == ICMP_TYPE_CODE_IPV4 ==> (Supported(f) <==> f.length == 2)
  {
    assert Row(9).id == PROTOCOL_IDENTIFIER && Row(39).id == ICMP_TYPE_CODE_IPV4;
    OneLengthOnly(9);
    OneLengthOnly(39);
    hide Row;
    if k :| 0 < k < MAX_ELEMENTS && Row(k).id == f.kind && Row(k).length == f.length {
      OneLengthOnly(k);
    }
  }

  /** The offset that is noted is that of the field for type and code, if there is one. */
  lemma IcmpOffsetOf(fs: seq<Field>)
    requires DistinctKinds(fs) && Total(fs, |fs|) < U16
    ensures forall k :: 0 <= k < |fs| && fs[k] == Field(ICMP_TYPE_CODE_IPV4, 2) ==> IcmpOffset(fs) == Total(fs, k)
    ensures (forall k :: 0 <= k < |fs| ==> fs[k] != Field(ICMP_TYPE_CODE_IPV4, 2)) ==> IcmpOffset(fs) == 0
  {
    hide Row, FirstRow, Match, Known, OffsetAt, Total, Supported;
    if k :| 0 <= k < |fs| && fs[k].kind == ICMP_TYPE_CODE_IPV4 {
      KnownField(fs, k);
      IcmpSupported(fs[k]);
      OffsetsRise(fs, k);
    } else {
      UnknownBefore(fs, |fs|, ICMP_TYPE_CODE_IPV4);
    }
  }

  lemma FirstByte(s: Sequence, inp: seq<byte>, rate: nat)
    requires s.input + s.op.Reads() <= |inp| && (s.op.Move8? || s.op.Zero8?)
    ensures Stored(s.op, FieldOf(s, inp), rate) == if s.op.Move8? then [inp[s.input]] else [0]
  {
    if s.op.Move8? {
      ByteIsNumber(FieldOf(s, inp));
    }
  }

  /** What is known of the protocol's field. */
  lemma ProtocolEntry(fs: seq<Field>)
    requires DistinctKinds(fs) && Total(fs, |fs|) < U16
    ensures var p := Entry(fs, PROTOCOL_IDENTIFIER);
            && (forall j :: 0 <= j < |fs| && fs[j] == Field(PROTOCOL_IDENTIFIER, 1) ==> p.found && p.offset == Total(fs, j))
            && ((forall j :: 0 <= j < |fs| ==> fs[j] != Field(PROTOCOL_IDENTIFIER, 1)) ==> !p.found)
  {
    hide Row, FirstRow, Match, Known, OffsetAt, Total, Supported;
    if j :| 0 <= j < |fs| && fs[j].kind == PROTOCOL_IDENTIFIER {
      KnownField(fs, j);
      IcmpSupported(fs[j]);
      OffsetsRise(fs, j);
    } else {
      UnknownBefore(fs, |fs|, PROTOCOL_IDENTIFIER);
    }
  }

  /** The sequence for the protocol: the field's byte, or zero. */
  lemma ProtocolSlot(fs: seq<Field>, at: nat)
    requires DistinctKinds(fs) && Total(fs, |fs|) < U16
    ensures var s := SlotOf(Entry(fs, PROTOCOL_IDENTIFIER), at, NoStack);
            && (forall j :: 0 <= j < |fs| && fs[j] == Field(PROTOCOL_IDENTIFIER, 1) ==>
                              s.op.Move8? && s.input == Total(fs, j))
            && ((forall j :: 0 <= j < |fs| ==> fs[j] != Field(PROTOCOL_IDENTIFIER, 1)) ==> s.op.Zero8?)
  {
    hide Row, FirstRow, Known, Total, DistinctKinds;
    ProtocolEntry(fs);
    CommonInTable();
    EntryRow(fs, |fs|, PROTOCOL_IDENTIFIER);
    OneLengthOnly(Entry(fs, PROTOCOL_IDENTIFIER).index);
  }

  /** The byte of the protocol, after the sequences. */
  lemma {:induction false} ProtocolMoved(fs: seq<Field>, common: set<nat>, peer6: bool, inp: seq<byte>, rate: nat, out: seq<byte>)
    requires DistinctKinds(fs) && Whole(fs, common, peer6, inp, out)
    ensures PORTS + 4 <= |out|
    ensures var b := Moved(fs, common, peer6, inp, rate, out)[PROTOCOL];
            && (forall j :: 0 <= j < |fs| && fs[j] == Field(PROTOCOL_IDENTIFIER, 1) ==>
                              Total(fs, j) < |inp| && b == inp[Total(fs, j)])
            && ((forall j :: 0 <= j < |fs| ==> fs[j] != Field(PROTOCOL_IDENTIFIER, 1)) ==> b == 0)
  {
    FineInside(fs, common, peer6, |inp|);
    hide Row, Entry, SlotOf, Stored, Run, Place, Items, At, Total, DistinctKinds, FieldOf, IcmpOffset, ReservedAt;
    var items := Items(fs, common, peer6);
    CommonPlaces(fs, common, peer6);
    ItemIsMoved(fs, items, 2, inp, rate, out);
    ProtocolSlot(fs, PROTOCOL);
    FirstByte(SlotOf(Entry(fs, PROTOCOL_IDENTIFIER), PROTOCOL, NoStack), inp, rate);
    var r := Moved(fs, common, peer6, inp, rate, out);
    assert r[PROTOCOL] == r[PROTOCOL..PROTOCOL + 1][0];
  }

  /** The branch for ICMP is taken for exactly the records described above. */
  lemma IcmpExactly(fs: seq<Field>, common: set<nat>, peer6: bool, inp: seq<byte>, rate: nat, out: seq<byte>)
    requires DistinctKinds(fs) && Whole(fs, common, peer6, inp, out)
    ensures PORTS + 4 <= |out|
    ensures IsIcmp(Moved(fs, common, peer6, inp, rate, out), IcmpOffset(fs)) <==> IcmpRecord(fs, inp)
  {
    hide Row, Entry, Place, Items, IcmpOffset, Moved, DistinctKinds, Total;
    ProtocolMoved(fs, common, peer6, inp, rate, out);
    IcmpOffsetOf(fs);
  }

  /** With the field for type and code at the start of the record, no record is taken for ICMP. */
  lemma FirstFieldIsNoIcmp(fs: seq<Field>, inp: seq<byte>)
    requires DistinctKinds(fs) && 0 < |fs| && fs[0].kind == ICMP_TYPE_CODE_IPV4
    ensures !IcmpRecord(fs, inp)
  {}

  lemma PortsAreIcmp(moved: seq<byte>, inp: seq<byte>, icmp: nat, arrival: nat, ms: nat, start: nat, end: nat,
                     router: nat, peer6: bool, env: Env)
    requires PORTS + 4 <= |moved| && icmp + 2 <= |inp| && IsIcmp(moved, icmp)
    requires arrival + 8 <= |moved| && router + |RouterBytes(peer6, env)| <= |moved|
    requires (arrival != 0 ==> PORTS + 4 <= arrival) && (router != 0 ==> PORTS + 4 <= router)
    ensures var r := Router(Times(Arrival(Icmp(moved, inp, icmp), arrival, ms), start, end), router, peer6, env);
            && PORTS + 4 <= |r|
            && LE(r[PORTS..PORTS + 2]) == 0 && LE(r[PORTS + 2..PORTS + 4]) == BE(inp[icmp..icmp + 2])
  {
    hide Store, ToLE, BE, LE, RouterBytes, Arrival, Times, Router, IsIcmp, Has;
    var f := inp[icmp..icmp + 2];
    StoreHas(moved, PORTS, ToLE(2, 0) + ToLE(2, BE(f)));
    LaterKeeps(Icmp(moved, inp, icmp), arrival, ms, start, end, router, peer6, env, PORTS, ToLE(2, 0) + ToLE(2, BE(f)));
    SplitPorts(Router(Times(Arrival(Icmp(moved, inp, icmp), arrival, ms), start, end), router, peer6, env), f);
  }

  lemma IcmpOffsetIs(fs: seq<Field>, k: nat, inp: seq<byte>)
    requires DistinctKinds(fs) && Total(fs, |fs|) < U16 && Total(fs, |fs|) <= |inp| && IcmpRecord(fs, inp)
    requires k < |fs| && fs[k].kind == ICMP_TYPE_CODE_IPV4
    ensures IcmpOffset(fs) == Total(fs, k) != 0 && Total(fs, k) + 2 <= |inp|
  {
    hide IcmpOffset, Total;
    IcmpOffsetOf(fs);
    IcmpInside(fs);
    var j :| 0 <= j < |fs| && fs[j] == Field(ICMP_TYPE_CODE_IPV4, 2) && Total(fs, j) != 0;
    assert j == k;
  }

  /**
   In the record of an ICMP packet the place of the source port is 0 and that of the destination port has type and
   code, if the template has them behind its first byte.
   */
  lemma {:induction false} IcmpDecoded(fs: seq<Field>, common: set<nat>, peer6: bool, k: nat, inp: seq<byte>, rate: nat,
                                       env: Env, out: seq<byte>)
    requires DistinctKinds(fs) && Whole(fs, common, peer6, inp, out) && IcmpRecord(fs, inp)
    requires k < |fs| && fs[k].kind == ICMP_TYPE_CODE_IPV4
    ensures var r := Finished(fs, common, peer6, inp, rate, env, out);
            && PORTS + 4 <= |r| && Total(fs, k) + 2 <= |inp|
            && LE(r[PORTS..PORTS + 2]) == 0 && LE(r[PORTS + 2..PORTS + 4]) == BE(inp[Total(fs, k)..Total(fs, k) + 2])
  {
    hide Row, Entry, Place, Items, IcmpOffset, Total, Run, Left, BE, LE, ReservedAt, RouterBytes, IcmpRecord, IsIcmp,
      DistinctKinds, Icmp, Arrival, Times, Router;
    FineInside(fs, common, peer6, |inp|);
    IcmpExactly(fs, common, peer6, inp, rate, out);
    IcmpOffsetIs(fs, k, inp);
    ItemsAreBelow(fs, common, peer6);
    ReservedInside(fs, common, peer6, 0);
    var seqs := Place(fs, Items(fs, common, peer6)).seqs;
    PortsAreIcmp(Moved(fs, common, peer6, inp, rate, out), inp, IcmpOffset(fs), ArrivalAt(fs, common, peer6), env.received,
                 Left(seqs, inp, rate, FlowStart), Left(seqs, inp, rate, FlowEnd), RouterAt(fs, common, peer6), peer6, env);
  }

  lemma SplitPorts(r: seq<byte>, f: seq<byte>)
    requires |f| == 2 && Has(r, PORTS, ToLE(2, 0) + ToLE(2, BE(f)))
    ensures PORTS + 4 <= |r| && LE(r[PORTS..PORTS + 2]) == 0 && LE(r[PORTS + 2..PORTS + 4]) == BE(f)
  {
    hide LE, ToLE, Limit, BE;
    Limit8();
    BELimit(f);
    ToLEValue(2, 0);
    ToLEValue(2, BE(f));
    Halves(r, PORTS, ToLE(2, 0), ToLE(2, BE(f)));
  }

  lemma Halves(r: seq<byte>, at: nat, a: seq<byte>, b: seq<byte>)
    requires Has(r, at, a + b)
    ensures at + |a| + |b| <= |r| && r[at..at + |a|] == a && r[at + |a|..at + |a| + |b|] == b
  {
    var n := |a| + |b|;
    Part(r, at, n, 0, |a|);
    Part(r, at, n, |a|, n);
    assert (a + b)[0..|a|] == a && (a + b)[|a|..n] == b;
  }

  /**
   In the finished record, every item has what its sequence stores: of the field, or zeros. Only the ports may be
   replaced, by type and code of ICMP.
   */
  lemma ItemInRecord(fs: seq<Field>, common: set<nat>, peer6: bool, i: nat, inp: seq<byte>, rate: nat, env: Env,
                     out: seq<byte>)
    requires DistinctKinds(fs) && Whole(fs, common, peer6, inp, out)
    requires i < |Items(fs, common, peer6)| && Items(fs, common, peer6)[i].Push?
    requires i == 4 || i == 5 ==> !IcmpRecord(fs, inp)
    ensures var items := Items(fs, common, peer6);
            var s := SlotOf(Entry(fs, items[i].kind), At(fs, items, i), items[i].stack);
            && s.input + s.op.Reads() <= |inp|
            && Has(Finished(fs, common, peer6, inp, rate, env, out), At(fs, items, i), Stored(s.op, FieldOf(s, inp), rate))
  {
    FineInside(fs, common, peer6, |inp|);
    hide Row, Entry, SlotOf, Has, Stored, Run, Left, Place, Items, At, Icmp, IsIcmp, Arrival, Times, Router, IcmpOffset, ReservedAt,
      FieldOf, IcmpRecord, DistinctKinds, Total;
    var items := Items(fs, common, peer6);
    var p, at := Entry(fs, items[i].kind), At(fs, items, i);
    var s := SlotOf(p, at, items[i].stack);
    ItemIsMoved(fs, items, i, inp, rate, out);
    SlotWidth(p, at, items[i].stack);
    SlotOutput(p, at, items[i].stack);
    ReservedInside(fs, common, peer6, i);
    ItemBeside(fs, common, peer6, i);
    var moved := Run(Place(fs, items).seqs, inp, rate, out);
    IcmpExactly(fs, common, peer6, inp, rate, out);
    NoIcmp(moved, inp, IcmpOffset(fs));
    PartStays(moved, inp, IcmpOffset(fs), ArrivalAt(fs, common, peer6), env.received,
              Left(Place(fs, items).seqs, inp, rate, FlowStart), Left(Place(fs, items).seqs, inp, rate, FlowEnd),
              RouterAt(fs, common, peer6), peer6, env, at, Stored(s.op, FieldOf(s, inp), rate));
  }

  lemma NoIcmp(out: seq<byte>, inp: seq<byte>, icmp: nat)
    requires PORTS + 4 <= |out| && (icmp != 0 ==> icmp + 2 <= |inp|)
    ensures !IsIcmp(out, icmp) ==> Icmp(out, inp, icmp) == out
  {}

  /** Every item is behind the times, and none but the ports is where the ports are. */
  lemma ItemBeside(fs: seq<Field>, common: set<nat>, peer6: bool, i: nat)
    requires i < |Items(fs, common, peer6)| && Items(fs, common, peer6)[i].Push?
    ensures var items := Items(fs, common, peer6);
            var at := At(fs, items, i);
            && FIRST + 8 <= at
            && (i != 4 && i != 5 ==>
                  at + Row(Entry(fs, items[i].kind).index).outLength <= PORTS || PORTS + 4 <= at)
  {
    hide Row, Entry, Place, Items;
    var items := Items(fs, common, peer6);
    CommonPlaces(fs, common, peer6);
    if i < 4 {
      PlacesRise(fs, items, i, 4);
    } else if 6 <= i {
      PlacesRise(fs, items, 6, i);
    }
  }

  // ---------------------------------------------------------------- what a reader of the record finds

  /** A supported row moves its field, keeps a time, or is not stored. */
  lemma SupportedRow(f: Field)
    requires Supported(f)
    ensures var row := Row(Match(f.kind, f.length, FirstRow(f.kind, 1)));
            && row.id == f.kind && row.length == f.length && f.length != VARIABLE && !row.sequence.IsZero()
            && (0 < row.sequence.Writes() ==> row.sequence.Reads() == f.length)
  {
    hide Row, FirstRow;
    SupportedIff(f.kind, f.length);
  }

  lemma HasReads(data: seq<byte>, at: nat, part: seq<byte>)
    requires Has(data, at, part)
    ensures at + |part| <= |data| && data[at..at + |part|] == part
  {}

  /**
   At position `at`, the output record `r` has the number that is read straight from the bytes of field `k` in the data
   record; counters are multiplied by the sampling rate. An IPv6 address is two numbers.
   */
  ghost predicate Decoded(fs: seq<Field>, k: nat, inp: seq<byte>, rate: nat, r: seq<byte>, at: nat)
    requires k < |fs|
  {
    var op := Row(Match(fs[k].kind, fs[k].length, FirstRow(fs[k].kind, 1))).sequence;
    var w := op.Writes();
    && Total(fs, k) + fs[k].length <= |inp| && at + w <= |r|
    && (op.Move128? ==>
          && fs[k].length == 16 && w == 16
          && LE(r[at..at + w][..8]) == BE(inp[Total(fs, k)..Total(fs, k) + 16][..8])
          && LE(r[at..at + w][8..]) == BE(inp[Total(fs, k)..Total(fs, k) + 16][8..]))
    && (!op.Move128? && 0 < w ==>
          LE(r[at..at + w]) == Number(op, inp[Total(fs, k)..Total(fs, k) + fs[k].length], rate))
  }

  /**
   A field of a supported length is decoded at every part of the output record that is for its type, except the
   ports in the record of an ICMP packet.
   */
  lemma FieldDecoded(fs: seq<Field>, common: set<nat>, peer6: bool, k: nat, i: nat, inp: seq<byte>, rate: nat, env: Env,
                     out: seq<byte>)
    requires DistinctKinds(fs) && k < |fs| && Supported(fs[k]) && Whole(fs, common, peer6, inp, out)
    requires i < |Items(fs, common, peer6)| && Items(fs, common, peer6)[i].Push?
    requires Items(fs, common, peer6)[i].kind == fs[k].kind
    requires i == 4 || i == 5 ==> !IcmpRecord(fs, inp)
    ensures Decoded(fs, k, inp, rate, Finished(fs, common, peer6, inp, rate, env, out), At(fs, Items(fs, common, peer6), i))
  {
    hide Row, Known, FirstRow, Match, Has, Stored, Run, Place, Items, At, Finished, IcmpRecord, Number, BE, LE, Supported,
      OffsetAt, Total;
    var f := fs[k];
    var items := Items(fs, common, peer6);
    var index := Match(f.kind, f.length, FirstRow(f.kind, 1));
    var op := Row(index).sequence;
    KnownField(fs, k);
    KnownInside(fs, |fs|, f.kind);
    OffsetsRise(fs, k);
    SupportedRow(f);
    ItemInRecord(fs, common, peer6, i, inp, rate, env, out);
    SlotOutput(Entry(fs, f.kind), At(fs, items, i), items[i].stack);
    var r, at := Finished(fs, common, peer6, inp, rate, env, out), At(fs, items, i);
    var s := SlotOf(Entry(fs, f.kind), at, items[i].stack);
    HasReads(r, at, Stored(s.op, FieldOf(s, inp), rate));
    assert Total(fs, k) + f.length <= |inp|;
    if 0 < op.Writes() {
      var bytes := inp[Total(fs, k)..Total(fs, k) + f.length];
      if op.Move128? {
        StoredIsAddress(bytes, rate);
      } else {
        StoredIsNumber(op, bytes, rate);
      }
    }
  }

  /** A part of the output record without a field of a supported length is zero, with the same exception. */
  lemma AbsentIsZero(fs: seq<Field>, common: set<nat>, peer6: bool, i: nat, inp: seq<byte>, rate: nat, env: Env,
                     out: seq<byte>)
    requires DistinctKinds(fs) && Whole(fs, common, peer6, inp, out)
    requires i < |Items(fs, common, peer6)| && Items(fs, common, peer6)[i].Push?
    requires forall k :: 0 <= k < |fs| && fs[k].kind == Items(fs, common, peer6)[i].kind ==> !Supported(fs[k])
    requires i == 4 || i == 5 ==> !IcmpRecord(fs, inp)
    ensures var items := Items(fs, common, peer6);
            var at, w := At(fs, items, i), Row(FirstRow(items[i].kind, 1)).zero.Writes();
            var r := Finished(fs, common, peer6, inp, rate, env, out);
            at + w <= |r| && r[at..at + w] == Zeros(w)
  {
    hide Row, Known, FirstRow, Match, Has, Run, Place, Items, At, Finished, IcmpRecord, Number, BE, LE, Supported,
      OffsetAt, Total, IcmpOffset;
    var items := Items(fs, common, peer6);
    var kind := items[i].kind;
    NotKnown(fs, kind);
    ItemInRecord(fs, common, peer6, i, inp, rate, env, out);
    SlotOutput(Entry(fs, kind), At(fs, items, i), items[i].stack);
    var zero := Row(FirstRow(kind, 1)).zero;
    HasReads(Finished(fs, common, peer6, inp, rate, env, out), At(fs, items, i), Zeros(zero.Writes()));
  }

  lemma NotKnown(fs: seq<Field>, kind: nat)
    requires DistinctKinds(fs) && forall k :: 0 <= k < |fs| && fs[k].kind == kind ==> !Supported(fs[k])
    ensures Known(fs, |fs|, kind) == Param(FirstRow(kind, 1), false, 0, 0)
  {
    hide Row, FirstRow, Match, Supported, Known;
    if k :| 0 <= k < |fs| && fs[k].kind == kind {
      KnownField(fs, k);
    } else {
      UnknownBefore(fs, |fs|, kind);
    }
  }

  ghost predicate NoTimes(items: seq<Item>) {
    forall i :: 0 <= i < |items| && items[i].Push? ==> items[i].stack != FlowStart && items[i].stack != FlowEnd
  }

  lemma {:induction false} ItemsHaveNoTimes(fs: seq<Field>, common: set<nat>, peer6: bool, e: nat)
    requires 4 <= e
    ensures NoTimes(ItemsBelow(fs, common, peer6, e))
  {
    hide Entry, Ipv6, ExtensionItems;
    if 4 < e {
      ItemsHaveNoTimes(fs, common, peer6, e - 1);
      ExtensionHasNoTimes(e - 1, Ipv6(fs), peer6);
    }
  }

  lemma ExtensionHasNoTimes(e: nat, ipv6: bool, peer6: bool)
    ensures NoTimes(ExtensionItems(e, ipv6, peer6))
  {}

  /** The time of a field, in milliseconds; 0 without the field. */
  ghost function TimeOf(fs: seq<Field>, kind: nat, inp: seq<byte>): nat
    requires Total(fs, |fs|) < U16 && Total(fs, |fs|) <= |inp|
  {
    var p := Entry(fs, kind);
    KnownInside(fs, |fs|, kind);
    if p.found then BE(inp[p.offset..p.offset + p.length]) else 0
  }

  lemma {:induction false} TimesAreLeft(fs: seq<Field>, items: seq<Item>, inp: seq<byte>, rate: nat)
    requires NoTimes(items) && Total(fs, |fs|) < U16 && Total(fs, |fs|) <= |inp|
    ensures Reads(Place(fs, items).seqs, |inp|)
    ensures Left(Place(fs, items).seqs, inp, rate, FlowStart) == TimeOf(fs, FLOW_START_MILLISECONDS, inp)
    ensures Left(Place(fs, items).seqs, inp, rate, FlowEnd) == TimeOf(fs, FLOW_END_MILLISECONDS, inp)
  {
    hide Row, Known, Keeps, BE, SlotOf;
    PlaceReads(fs, items);
    if |items| == 0 {
      StartLeft(fs, inp, rate);
    } else {
      var n := |items| - 1;
      TimesAreLeft(fs, items[..n], inp, rate);
      if items[n].Push? {
        SlotStack(Entry(fs, items[n].kind), Place(fs, items[..n]).offset, items[n].stack);
        var seqs := Place(fs, items).seqs;
        assert seqs[..|seqs| - 1] == Place(fs, items[..n]).seqs;
      }
    }
  }

  lemma SlotStack(p: Param, at: nat, stack: Stack)
    ensures SlotOf(p, at, stack).stack in {stack, NoStack}
  {
    hide Row;
  }

  lemma TimeSlot(fs: seq<Field>, kind: nat, at: nat, stack: Stack, inp: seq<byte>, rate: nat)
    requires kind == FLOW_START_MILLISECONDS || kind == FLOW_END_MILLISECONDS
    requires Total(fs, |fs|) < U16 && Total(fs, |fs|) <= |inp|
    ensures var s := SlotOf(Entry(fs, kind), at, stack);
            && s.input + s.op.Reads() <= |inp|
            && (if s.stack == stack && Keeps(s.op) then Number(s.op, FieldOf(s, inp), rate) else 0) == TimeOf(fs, kind, inp)
            && (Keeps(s.op) ==> s.stack == stack)
  {
    hide Row, Known, BE, Total;
    SlotReads(fs, kind, at, stack);
    TimesAreFour(fs, kind);
    KnownInside(fs, |fs|, kind);
    TimeLength(Entry(fs, kind).index);
  }

  lemma TimeLength(i: nat)
    ensures Row(i).sequence.Time64Mili? ==> Row(i).length == 8
  {
    hide Row;
  }

  lemma StartLeft(fs: seq<Field>, inp: seq<byte>, rate: nat)
    requires Total(fs, |fs|) < U16 && Total(fs, |fs|) <= |inp| && Reads(Start(fs).seqs, |inp|)
    ensures Left(Start(fs).seqs, inp, rate, FlowStart) == TimeOf(fs, FLOW_START_MILLISECONDS, inp)
    ensures Left(Start(fs).seqs, inp, rate, FlowEnd) == TimeOf(fs, FLOW_END_MILLISECONDS, inp)
  {
    hide Row, Known, BE, SlotOf, Keeps, Number, TimeOf, FieldOf;
    var s0 := SlotOf(Entry(fs, FLOW_START_MILLISECONDS), FIRST, FlowStart);
    var s1 := SlotOf(Entry(fs, FLOW_END_MILLISECONDS), FIRST + 4, FlowEnd);
    TimeSlot(fs, FLOW_START_MILLISECONDS, FIRST, FlowStart, inp, rate);
    TimeSlot(fs, FLOW_END_MILLISECONDS, FIRST + 4, FlowEnd, inp, rate);
    SlotStack(Entry(fs, FLOW_START_MILLISECONDS), FIRST, FlowStart);
    SlotStack(Entry(fs, FLOW_END_MILLISECONDS), FIRST + 4, FlowEnd);
    var seqs := Start(fs).seqs;
    assert seqs == [s0, s1] && seqs[..1] == [s0] && [s0][..0] == [];
    LeftTwo(s0, s1, inp, rate, FlowStart);
    LeftTwo(s0, s1, inp, rate, FlowEnd);
  }

  lemma LeftTwo(s0: Sequence, s1: Sequence, inp: seq<byte>, rate: nat, stack: Stack)
    requires Reads([s0, s1], |inp|)
    ensures s0.input + s0.op.Reads() <= |inp| && s1.input + s1.op.Reads() <= |inp|
    ensures Left([s0, s1], inp, rate, stack)
            == if s1.stack == stack && Keeps(s1.op) then Number(s1.op, FieldOf(s1, inp), rate)
               else if s0.stack == stack && Keeps(s0.op) then Number(s0.op, FieldOf(s0, inp), rate)
               else 0
  {
    hide Keeps, Number;
    var seqs := [s0, s1];
    assert seqs[0] == s0 && seqs[1] == s1;
    assert seqs[..|seqs| - 1] == [s0] && [s0][..|[s0]| - 1] == [];
    assert Left([s0], inp, rate, stack)
        == if s0.stack == stack && Keeps(s0.op) then Number(s0.op, FieldOf(s0, inp), rate) else 0;
  }

  /** First and last of the finished record are the seconds and milliseconds of the two times. */
  lemma TimesDecoded(fs: seq<Field>, common: set<nat>, peer6: bool, inp: seq<byte>, rate: nat, env: Env, out: seq<byte>)
    requires Whole(fs, common, peer6, inp, out)
    ensures var r := Finished(fs, common, peer6, inp, rate, env, out);
            var start, end := TimeOf(fs, FLOW_START_MILLISECONDS, inp), TimeOf(fs, FLOW_END_MILLISECONDS, inp);
            && FIRST + 8 <= |r|
            && LE(r[FIRST..FIRST + 4]) == start / 1000 % U32 && LE(r[FIRST - 4..FIRST - 2]) == start % 1000
            && LE(r[FIRST + 4..FIRST + 8]) == end / 1000 % U32 && LE(r[FIRST - 2..FIRST]) == end % 1000
  {
    FineInside(fs, common, peer6, |inp|);
    hide Row, Entry, Place, Items, Icmp, Arrival, Run, IcmpOffset, ReservedAt, ItemsBelow, TimeOf, Left, RouterBytes, LE,
      ToLE, Store;
    var items := Items(fs, common, peer6);
    ItemsAreBelow(fs, common, peer6);
    ItemsHaveNoTimes(fs, common, peer6, EXTENSIONS_END);
    TimesAreLeft(fs, items, inp, rate);
    ReservedInside(fs, common, peer6, 0);
    var seqs := Place(fs, items).seqs;
    var start, end := Left(seqs, inp, rate, FlowStart), Left(seqs, inp, rate, FlowEnd);
    var moved := Icmp(Run(seqs, inp, rate, out), inp, IcmpOffset(fs));
    var arrived := Arrival(moved, ArrivalAt(fs, common, peer6), env.received);
    var t := ToLE(2, start % 1000) + ToLE(2, end % 1000) + ToLE(4, start / 1000 % U32) + ToLE(4, end / 1000 % U32);
    StoreHas(arrived, FIRST - 4, t);
    if RouterAt(fs, common, peer6) != 0 {
      StoreKeeps(Times(arrived, start, end), RouterAt(fs, common, peer6), RouterBytes(peer6, env), FIRST - 4, t);
    }
    var r := Record(fs, common, peer6, inp, rate, env, out);
    assert Has(r, FIRST - 4, t);
    SplitTimes(r, start, end);
  }

  lemma ItemsAreBelow(fs: seq<Field>, common: set<nat>, peer6: bool)
    ensures Items(fs, common, peer6) == ItemsBelow(fs, common, peer6, EXTENSIONS_END) && 0 < |Items(fs, common, peer6)|
  {
    hide ItemsBelow;
    CommonFirst(fs, common, peer6);
  }

  lemma Part(r: seq<byte>, at: nat, n: nat, i: nat, j: nat)
    requires i <= j <= n && at + n <= |r|
    ensures r[at..at + n][i..j] == r[at + i..at + j]
  {
    var a, b := r[at..at + n][i..j], r[at + i..at + j];
    assert forall k :: 0 <= k < |a| ==> a[k] == b[k];
  }

  lemma SplitTimes(r: seq<byte>, start: nat, end: nat)
    requires Has(r, FIRST - 4,
                 ToLE(2, start % 1000) + ToLE(2, end % 1000) + ToLE(4, start / 1000 % U32) + ToLE(4, end / 1000 % U32))
    ensures FIRST + 8 <= |r|
    ensures LE(r[FIRST..FIRST + 4]) == start / 1000 % U32 && LE(r[FIRST - 4..FIRST - 2]) == start % 1000
    ensures LE(r[FIRST + 4..FIRST + 8]) == end / 1000 % U32 && LE(r[FIRST - 2..FIRST]) == end % 1000
  {
    Limit8();
    hide LE, ToLE, Limit;
    var a, b, c, d := ToLE(2, start % 1000), ToLE(2, end % 1000), ToLE(4, start / 1000 % U32), ToLE(4, end / 1000 % U32);
    var t := a + b + c + d;
    var u := r[FIRST - 4..FIRST - 4 + |t|];
    assert u == t && |t| == 12;
    assert t[0..2] == a && t[2..4] == b && t[4..8] == c && t[8..12] == d;
    Part(r, FIRST - 4, 12, 0, 2);
    Part(r, FIRST - 4, 12, 2, 4);
    Part(r, FIRST - 4, 12, 4, 8);
    Part(r, FIRST - 4, 12, 8, 12);
    ToLEValue(2, start % 1000);
    ToLEValue(2, end % 1000);
    ToLEValue(4, start / 1000 % U32);
    ToLEValue(4, end / 1000 % U32);
  }

  // ---------------------------------------------------------------- arrival time and exporter address

  lemma RouterItems(e: nat, ipv6: bool, peer6: bool)
    requires e == EX_ROUTER_IP_V4 || e == EX_ROUTER_IP_V6
    ensures ExtensionItems(e, ipv6, peer6) == [Skip(if peer6 then 16 else 4)]
  {}

  lemma RouterRoom(fs: seq<Field>, common: set<nat>, peer6: bool, e: nat)
    requires (e == EX_ROUTER_IP_V4 || e == EX_ROUTER_IP_V6) && e in common
    ensures Place(fs, ItemsBelow(fs, common, peer6, e)).offset + (if peer6 then 16 else 4)
            <= Place(fs, ItemsBelow(fs, common, peer6, EX_RECEIVED)).offset
  {
    hide Row, Entry, Ipv6, ExtensionItems, ItemsBelow, Place;
    RouterItems(e, Ipv6(fs), peer6);
    var below, all := ItemsBelow(fs, common, peer6, e), ItemsBelow(fs, common, peer6, EX_RECEIVED);
    ItemsBelowStep(fs, common, peer6, e + 1);
    BelowIsPrefix(fs, common, peer6, e + 1, EX_RECEIVED);
    var next := ItemsBelow(fs, common, peer6, e + 1);
    assert next == below + [Skip(if peer6 then 16 else 4)];
    assert all[..|next|] == next && all[|below|] == next[|below|];
    assert all[..|below|] == below && all[..|all|] == all;
    PlacesRise(fs, all, |below|, |all|);
  }

  /** Both places are there if their extension is, and the exporter's address is before the arrival time. */
  lemma ReservedPlaces(fs: seq<Field>, common: set<nat>, peer6: bool)
    ensures var r, a := RouterAt(fs, common, peer6), ArrivalAt(fs, common, peer6);
            && (EX_RECEIVED in common <==> a != 0)
            && (EX_ROUTER_IP_V4 in common || EX_ROUTER_IP_V6 in common <==> r != 0)
            && (r != 0 && a != 0 ==> r + (if peer6 then 16 else 4) <= a)
  {
    hide Row, Entry, ItemsBelow, Place;
    if EX_ROUTER_IP_V4 in common {
      RouterRoom(fs, common, peer6, EX_ROUTER_IP_V4);
    }
    if EX_ROUTER_IP_V6 in common {
      RouterRoom(fs, common, peer6, EX_ROUTER_IP_V6);
    }
  }

  lemma ArrivalStays(out: seq<byte>, arrival: nat, ms: nat, start: nat, end: nat, router: nat, peer6: bool, env: Env)
    requires FIRST + 8 <= arrival && arrival + 8 <= |out| && router + |RouterBytes(peer6, env)| <= |out|
    requires router != 0 ==> router + |RouterBytes(peer6, env)| <= arrival
    ensures var r := Router(Times(Arrival(out, arrival, ms), start, end), router, peer6, env);
            LE(r[arrival..arrival + 8]) == ms % U64
  {
    hide Store, ToLE, RouterBytes, LE;
    var o := Arrival(out, arrival, ms);
    StoreHas(out, arrival, ToLE(8, ms % U64));
    LaterKeeps(o, 0, ms, start, end, router, peer6, env, arrival, ToLE(8, ms % U64));
    Limit8();
    ToLEValue(8, ms % U64);
  }

  /** In the finished record, the arrival time is in its place if the extension is enabled. */
  lemma ArrivalDecoded(fs: seq<Field>, common: set<nat>, peer6: bool, inp: seq<byte>, rate: nat, env: Env, out: seq<byte>)
    requires Whole(fs, common, peer6, inp, out) && EX_RECEIVED in common
    ensures var r, at := Finished(fs, common, peer6, inp, rate, env, out), ArrivalAt(fs, common, peer6);
            PORTS + 4 <= at && at + 8 <= |r| && LE(r[at..at + 8]) == env.received % U64
  {
    hide Row, Entry, Place, Items, Icmp, Arrival, Times, Router, Run, Left, IcmpOffset, ReservedAt, RouterBytes, LE, Total;
    FineInside(fs, common, peer6, |inp|);
    ItemsAreBelow(fs, common, peer6);
    ReservedInside(fs, common, peer6, 0);
    ReservedPlaces(fs, common, peer6);
    var seqs := Place(fs, Items(fs, common, peer6)).seqs;
    ArrivalStays(Icmp(Run(seqs, inp, rate, out), inp, IcmpOffset(fs)), ArrivalAt(fs, common, peer6), env.received,
                 Left(seqs, inp, rate, FlowStart), Left(seqs, inp, rate, FlowEnd), RouterAt(fs, common, peer6), peer6, env);
  }

  lemma RouterNumbers(r: seq<byte>, at: nat, peer6: bool, env: Env)
    requires Has(r, at, RouterBytes(peer6, env))
    ensures at + (if peer6 then 16 else 4) <= |r|
    ensures if peer6 then LE(r[at..at + 8]) == env.ip6.0 && LE(r[at + 8..at + 16]) == env.ip6.1
            else LE(r[at..at + 4]) == env.ip4
  {
    hide LE, ToLE, Limit;
    Limit8();
    if peer6 {
      ToLEValue(8, env.ip6.0);
      ToLEValue(8, env.ip6.1);
      Halves(r, at, ToLE(8, env.ip6.0), ToLE(8, env.ip6.1));
    } else {
      ToLEValue(4, env.ip4);
    }
  }

  /** In the finished record, the exporter's address is in its place if the extension is enabled. */
  lemma ExporterDecoded(fs: seq<Field>, common: set<nat>, peer6: bool, inp: seq<byte>, rate: nat, env: Env, out: seq<byte>)
    requires Whole(fs, common, peer6, inp, out) && (EX_ROUTER_IP_V4 in common || EX_ROUTER_IP_V6 in common)
    ensures var r, at := Finished(fs, common, peer6, inp, rate, env, out), RouterAt(fs, common, peer6);
            && PORTS + 4 <= at && at + (if peer6 then 16 else 4) <= |r|
            && if peer6 then LE(r[at..at + 8]) == env.ip6.0 && LE(r[at + 8..at + 16]) == env.ip6.1
               else LE(r[at..at + 4]) == env.ip4
  {
    hide Row, Entry, Place, Items, Icmp, Arrival, Times, Run, Left, IcmpOffset, ReservedAt, RouterBytes, LE, Total, Store;
    FineInside(fs, common, peer6, |inp|);
    ItemsAreBelow(fs, common, peer6);
    ReservedInside(fs, common, peer6, 0);
    ReservedPlaces(fs, common, peer6);
    var seqs := Place(fs, Items(fs, common, peer6)).seqs;
    var timed := Times(Arrival(Icmp(Run(seqs, inp, rate, out), inp, IcmpOffset(fs)), ArrivalAt(fs, common, peer6), env.received),
                       Left(seqs, inp, rate, FlowStart), Left(seqs, inp, rate, FlowEnd));
    StoreHas(timed, RouterAt(fs, common, peer6), RouterBytes(peer6, env));
    RouterNumbers(Finished(fs, common, peer6, inp, rate, env, out), RouterAt(fs, common, peer6), peer6, env);
  }

  // ---------------------------------------------------------------- the code behind the sequences, and the loop over records

  method StoreWords(out: array<byte>, at: nat, m: nat, a: nat, n: nat, b: nat)
    requires at + m + n <= out.Length
    modifies out
    ensures out[..] == Store(old(out[..]), at, ToLE(m, a) + ToLE(n, b))
  {
    ghost var before := out[..];
    StoreNumber(out, at, m, a);
    StoreNumber(out, at + m, n, b);
    StoreTwice(before, at, ToLE(m, a), ToLE(n, b));
  }

  /** The split of the times. */
  method StoreTimes(out: array<byte>, start: nat, end: nat)
    requires FIRST + 8 <= out.Length
    modifies out
    ensures out[..] == Times(old(out[..]), start, end)
  {
    hide Store, ToLE;
    ghost var before := out[..];
    ghost var t := ToLE(2, start % 1000) + ToLE(2, end % 1000);
    ghost var u := ToLE(4, start / 1000 % U32) + ToLE(4, end / 1000 % U32);
    StoreWords(out, FIRST - 4, 2, start % 1000, 2, end % 1000);
    StoreWords(out, FIRST, 4, start / 1000 % U32, 4, end / 1000 % U32);
    StoreTwice(before, FIRST - 4, t, u);
    assert t + u == ToLE(2, start % 1000) + ToLE(2, end % 1000) + ToLE(4, start / 1000 % U32) + ToLE(4, end / 1000 % U32);
  }

  /** One data record. */
  method ProcessRecord(t: Table, peer6: bool, inp: seq<byte>, rate: nat, env: Env, out: array<byte>, ghost fs: seq<Field>,
                       ghost common: set<nat>)
    requires t.Compiled(fs, common, peer6) && Whole(fs, common, peer6, inp, out[..])
    modifies out, t`flowStart, t`flowEnd, t`packets, t`octets
    ensures out[..] == Finished(fs, common, peer6, inp, rate, env, old(out[..]))
  {
    hide Store, ToLE, BE, Run, Left, Place, Items, ReservedAt, IcmpOffset, Entry, Total, OffsetAt;
    FineInside(fs, common, peer6, |inp|);
    Apply(t, inp, rate, out);
    if out[PROTOCOL] == ICMP || out[PROTOCOL] == ICMPV6 {
      if t.icmpOffset != 0 {
        StoreWords(out, PORTS, 2, 0, 2, BE(inp[t.icmpOffset..t.icmpOffset + 2]));
      }
    }
    if t.receivedOffset != 0 {
      StoreNumber(out, t.receivedOffset, 8, env.received % U64);
    }
    StoreTimes(out, t.flowStart, t.flowEnd);
    if t.routerOffset != 0 {
      if peer6 {
        StoreWords(out, t.routerOffset, 8, env.ip6.0, 8, env.ip6.1);
      } else {
        StoreNumber(out, t.routerOffset, 4, env.ip4);
      }
    }
  }

  /**
   Process_ipfix_data: record after record, as long as a whole one is left. A buffer of zeros stands for the space in
   the output buffer.
   */
  method ProcessData(t: Table, peer6: bool, d: seq<byte>, rate: nat, env: Env, ghost fs: seq<Field>,
                     ghost common: set<nat>)
    returns (records: seq<seq<byte>>)
    requires t.Compiled(fs, common, peer6) && 0 < Total(fs, |fs|) < U16
    modifies t`flowStart, t`flowEnd, t`packets, t`octets
    ensures |records| == |d| / Total(fs, |fs|)
    ensures forall i :: 0 <= i < |records| ==> RecordAt(fs, common, peer6, d, rate, env, i, records[i])
  {
    hide Place, Items, Fine, Record, Finished, Entry, Total, IcmpOffset, ReservedAt;
    OffsetsRise(fs, |fs|);
    records := [];
    var at := 0;
    ghost var size := Total(fs, |fs|);
    while at < |d|
      invariant at <= |d| && t.Compiled(fs, common, peer6) && at == |records| * size
      invariant forall i :: 0 <= i < |records| ==> RecordAt(fs, common, peer6, d, rate, env, i, records[i])
    {
      if |d| - at < t.inputSize {
        break;
      }
      var out := new byte[t.outputSize](_ => 0);
      assert out[..] == Zeros(t.outputSize);
      ProcessRecord(t, peer6, d[at..], rate, env, out, fs, common);
      assert RecordAt(fs, common, peer6, d, rate, env, |records|, out[..]);
      records := records + [out[..]];
      at := at + t.inputSize;
    }
    Quotient(|d|, |records|, size);
  }

  /** Output record `i` of a data set. */
  ghost predicate RecordAt(fs: seq<Field>, common: set<nat>, peer6: bool, d: seq<byte>, rate: nat, env: Env, i: nat,
                           r: seq<byte>)
  {
    hide Place, Items, Total;
    var out := Zeros(Place(fs, Items(fs, common, peer6)).offset);
    var at := i * Total(fs, |fs|);
    && at <= |d| && Whole(fs, common, peer6, d[at..], out)
    && r == Finished(fs, common, peer6, d[at..], rate, env, out)
  }

  /** Where the loop is after `k` rounds in a set of `n` bytes; it has ended at `n`. */
  function PositionAfter(n: nat, size: nat, k: nat): (at: nat)
    ensures at <= n
  {
    if k == 0 then 0
    else
      var at := PositionAfter(n, size, k - 1);
      if n - at < size then n else at + size
  }

  lemma {:induction false} Advances(n: nat, size: nat, k: nat)
    ensures size == 0 ==> PositionAfter(n, size, k) == 0
    ensures 0 < size && k <= n ==> k <= PositionAfter(n, size, k)
  {
    if k > 0 {
      Advances(n, size, k - 1);
    }
  }

  /** The loop over the records of a set ends if and only if the set is empty or the record length is not 0 in 16 bits. */
  lemma LoopEnds(fs: seq<Field>, n: nat)
    ensures (exists k :: PositionAfter(n, OffsetAt(fs, |fs|), k) == n) <==> n == 0 || Total(fs, |fs|) % U16 != 0
  {
    hide OffsetAt, Total;
    var size := OffsetAt(fs, |fs|);
    OffsetIsTotal(fs, |fs|);
    if size != 0 || n == 0 {
      Advances(n, size, n);
      assert PositionAfter(n, size, n) == n;
    } else {
      forall k ensures PositionAfter(n, size, k) != n {
        Advances(n, size, k);
      }
    }
  }

  lemma {:induction false} MulRises(a: nat, b: nat, c: nat)
    requires a <= b
    ensures a * c <= b * c
    decreases b
  {
    if a < b {
      MulRises(a, b - 1, c);
    }
  }

  lemma Quotient(n: nat, k: nat, size: nat)
    requires 0 < size && k * size <= n < (k + 1) * size
    ensures k == n / size
  {
    var q := n / size;
    assert q * size <= n < (q + 1) * size;
    if q < k {
      MulRises(q + 1, k, size);
    } else if k < q {
      MulRises(k + 1, q, size);
    }
  }
}
