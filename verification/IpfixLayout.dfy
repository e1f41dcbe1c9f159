/**
 What a template is compiled to: a list of sequences that move a field of the data record, or zeros, to a place in
 the output record.
 */
module IpfixLayout {
  import opened Bytes
  import opened IpfixElements
  import opened IpfixTemplate

  /** BYTE_OFFSET_first, and the places of the common record that are used by name. */
  const FIRST: nat := 12
  const PROTOCOL: nat := 22
  const PORTS: nat := 24

  /** One more than the last extension id. */
  const EXTENSIONS_END: nat := 50

  /** Where a value is kept beside the output record. */
  datatype Stack = NoStack | FlowStart | FlowEnd | Packets | Octets

  /** sequence_map_t */
  datatype Sequence = Sequence(op: Op, input: word, output: nat, stack: Stack)

  /** What setup_translation_table does for one part of the output record. */
  datatype Item = Push(kind: word, stack: Stack) | Skip(n: nat)

  datatype Placed = Placed(seqs: seq<Sequence>, offset: nat)

  /** PushSequence: the sequence for a cache entry. */
  function SlotOf(p: Param, at: nat, stack: Stack): Sequence {
    if p.found then Sequence(Row(p.index).sequence, p.offset, at, stack)
    else Sequence(Row(p.index).zero, 0, at, NoStack)
  }

  function Entry(fs: seq<Field>, kind: nat): (p: Param)
    ensures p.index <= MAX_ELEMENTS
  {
    Known(fs, |fs|, kind)
  }

  /** The two times come first, four bytes apart. */
  function Start(fs: seq<Field>): Placed {
    Placed([SlotOf(Entry(fs, FLOW_START_MILLISECONDS), FIRST, FlowStart),
            SlotOf(Entry(fs, FLOW_END_MILLISECONDS), FIRST + 4, FlowEnd)], FIRST + 8)
  }

  /** The sequences for some items, and the offset behind them. */
  function Place(fs: seq<Field>, items: seq<Item>): (p: Placed)
    ensures FIRST + 8 <= p.offset
  {
    if |items| == 0 then Start(fs)
    else
      var p := Place(fs, items[..|items| - 1]);
      match items[|items| - 1]
      case Skip(n) => p.(offset := p.offset + n)
      case Push(kind, stack) =>
        Placed(p.seqs + [SlotOf(Entry(fs, kind), p.offset, stack)], p.offset + Row(Entry(fs, kind).index).outLength)
  }

  predicate Ipv6(fs: seq<Field>) {
    !Entry(fs, SOURCE_IPV4_ADDRESS).found && Entry(fs, SOURCE_IPV6_ADDRESS).found
  }

  /** Addresses: IPv4 unless the template has IPv6 ones only. */
  function Addresses(fs: seq<Field>): seq<Item> {
    if Ipv6(fs) then [Push(SOURCE_IPV6_ADDRESS, NoStack), Push(DESTINATION_IPV6_ADDRESS, NoStack)]
    else [Push(SOURCE_IPV4_ADDRESS, NoStack), Push(DESTINATION_IPV4_ADDRESS, NoStack)]
  }

  /** Counters: the total is preferred to the delta. */
  function Counters(fs: seq<Field>): seq<Item> {
    [Push(if Entry(fs, PACKET_TOTAL_COUNT).found then PACKET_TOTAL_COUNT else PACKET_DELTA_COUNT, Packets),
     Push(if Entry(fs, OCTET_TOTAL_COUNT).found then OCTET_TOTAL_COUNT else OCTET_DELTA_COUNT, Octets)]
  }

  /** The common record behind the times: forwarding status and the exporter's number are skipped. */
  function CommonItems(fs: seq<Field>): seq<Item> {
    [Skip(1), Push(TCP_CONTROL_BITS, NoStack), Push(PROTOCOL_IDENTIFIER, NoStack), Push(IP_CLASS_OF_SERVICE, NoStack),
     Push(SOURCE_TRANSPORT_PORT, NoStack), Push(DESTINATION_TRANSPORT_PORT, NoStack), Skip(4)]
    + Addresses(fs) + Counters(fs)
  }

  function MplsItems(): seq<Item> {
    [Push(MPLS_TOP_LABEL_STACK_SECTION, NoStack), Push(MPLS_LABEL_STACK_SECTION2, NoStack),
     Push(MPLS_LABEL_STACK_SECTION3, NoStack), Push(MPLS_LABEL_STACK_SECTION4, NoStack),
     Push(MPLS_LABEL_STACK_SECTION5, NoStack), Push(MPLS_LABEL_STACK_SECTION6, NoStack),
     Push(MPLS_LABEL_STACK_SECTION7, NoStack), Push(MPLS_LABEL_STACK_SECTION8, NoStack),
     Push(MPLS_LABEL_STACK_SECTION9, NoStack), Push(MPLS_LABEL_STACK_SECTION10, NoStack)]
  }

  /** The parts of one extension; `peer6` says that the exporter has an IPv6 address. */
  function ExtensionItems(e: nat, ipv6: bool, peer6: bool): seq<Item> {
    if e == EX_IO_SNMP_2 || e == EX_IO_SNMP_4 then [Push(INGRESS_INTERFACE, NoStack), Push(EGRESS_INTERFACE, NoStack)]
    else if e == EX_AS_2 || e == EX_AS_4 then
      [Push(BGP_SOURCE_AS_NUMBER, NoStack), Push(BGP_DESTINATION_AS_NUMBER, NoStack)]
    else if e == EX_MULTIPLE then
      [Push(POST_IP_CLASS_OF_SERVICE, NoStack), Push(FLOW_DIRECTION, NoStack)]
      + (if ipv6 then [Push(SOURCE_IPV6_PREFIX_LENGTH, NoStack), Push(DESTINATION_IPV6_PREFIX_LENGTH, NoStack)]
         else [Push(SOURCE_IPV4_PREFIX_LENGTH, NoStack), Push(DESTINATION_IPV4_PREFIX_LENGTH, NoStack)])
    else if e == EX_NEXT_HOP_V4 then [Push(IP_NEXT_HOP_IPV4_ADDRESS, NoStack)]
    else if e == EX_NEXT_HOP_V6 then [Push(IP_NEXT_HOP_IPV6_ADDRESS, NoStack)]
    else if e == EX_NEXT_HOP_BGP_V4 then [Push(BGP_NEXT_HOP_IPV4_ADDRESS, NoStack)]
    else if e == EX_NEXT_HOP_BGP_V6 then [Push(BGP_NEXT_HOP_IPV6_ADDRESS, NoStack)]
    else if e == EX_VLAN then [Push(VLAN_ID, NoStack), Push(POST_VLAN_ID, NoStack)]
    else if e == EX_OUT_PKG_4 || e == EX_OUT_PKG_8 then [Push(POST_PACKET_DELTA_COUNT, NoStack)]
    else if e == EX_OUT_BYTES_4 || e == EX_OUT_BYTES_8 then [Push(POST_OCTET_DELTA_COUNT, NoStack)]
    else if e == EX_MAC_1 then [Push(SOURCE_MAC_ADDRESS, NoStack), Push(POST_DESTINATION_MAC_ADDRESS, NoStack)]
    else if e == EX_MAC_2 then [Push(DESTINATION_MAC_ADDRESS, NoStack), Push(POST_SOURCE_MAC_ADDRESS, NoStack)]
    else if e == EX_MPLS then MplsItems()
    else if e == EX_ROUTER_IP_V4 || e == EX_ROUTER_IP_V6 then [Skip(if peer6 then 16 else 4)]
    else if e == EX_RECEIVED then [Skip(8)]
    else []
  }

  /** The common record and the extensions below `e`. */
  function ItemsBelow(fs: seq<Field>, common: set<nat>, peer6: bool, e: nat): seq<Item>
    requires 4 <= e
  {
    if e == 4 then CommonItems(fs)
    else ItemsBelow(fs, common, peer6, e - 1) + if e - 1 in common then ExtensionItems(e - 1, Ipv6(fs), peer6) else []
  }

  function Items(fs: seq<Field>, common: set<nat>, peer6: bool): seq<Item> {
    ItemsBelow(fs, common, peer6, EXTENSIONS_END)
  }

  // ---------------------------------------------------------------- the sequences do not overlap

  function End(s: Sequence): nat {
    s.output + s.op.Writes()
  }

  /** The outputs lie one behind the other, from `low` to `high`. */
  ghost predicate Apart(seqs: seq<Sequence>, low: nat, high: nat) {
    && (forall i :: 0 <= i < |seqs| ==> low <= seqs[i].output && End(seqs[i]) <= high)
    && (forall i, j :: 0 <= i < j < |seqs| ==> End(seqs[i]) <= seqs[j].output)
  }

  lemma TimesAreFour(fs: seq<Field>, kind: nat)
    requires kind == FLOW_START_MILLISECONDS || kind == FLOW_END_MILLISECONDS
    ensures var r := Row(Entry(fs, kind).index); r.sequence.Time64Mili? && r.zero.Zero32?
  {
    hide Row, FirstRow;
    TimesInTable();
    EntryRow(fs, |fs|, kind);
    TimeRows(Entry(fs, kind).index);
  }

  lemma TimesInTable()
    ensures HasType(FLOW_START_MILLISECONDS) && HasType(FLOW_END_MILLISECONDS)
  {
    assert Row(60).id == FLOW_START_MILLISECONDS && Row(61).id == FLOW_END_MILLISECONDS;
  }

  lemma TimeRows(i: nat)
    requires Row(i).id == FLOW_START_MILLISECONDS || Row(i).id == FLOW_END_MILLISECONDS
    ensures Row(i).sequence.Time64Mili? && Row(i).zero.Zero32?
  {}

  /** The cache entry of a type that the table has is a row of the type. */
  lemma {:induction false} EntryRow(fs: seq<Field>, k: nat, kind: nat)
    requires k <= |fs| && HasType(kind)
    ensures Row(Known(fs, k, kind).index).id == kind
  {
    hide Row, FirstRow, Match;
    SupportedIff(kind, 0);
    if k > 0 {
      EntryRow(fs, k - 1, kind);
    }
  }

  lemma SlotWidth(p: Param, at: nat, stack: Stack)
    ensures End(SlotOf(p, at, stack)) <= at + Row(p.index).outLength
  {
    hide Row;
  }

  /** However a template looks, its sequences do not overlap, and stay inside the output record. */
  lemma {:induction false} PlacedApart(fs: seq<Field>, items: seq<Item>)
    ensures var p := Place(fs, items); Apart(p.seqs, FIRST, p.offset)
  {
    hide Row, Entry;
    if |items| == 0 {
      TimesAreFour(fs, FLOW_START_MILLISECONDS);
      TimesAreFour(fs, FLOW_END_MILLISECONDS);
    } else {
      var n := |items| - 1;
      PlacedApart(fs, items[..n]);
      if items[n].Push? {
        SlotWidth(Entry(fs, items[n].kind), Place(fs, items[..n]).offset, items[n].stack);
      }
    }
  }

  /** The place of item `i`. */
  function At(fs: seq<Field>, items: seq<Item>, i: nat): nat
    requires i <= |items|
  {
    Place(fs, items[..i]).offset
  }

  /** The sequence of an item is there whatever comes behind. */
  lemma {:induction false} SlotStays(fs: seq<Field>, items: seq<Item>, i: nat)
    requires i < |items| && items[i].Push?
    ensures SlotOf(Entry(fs, items[i].kind), At(fs, items, i), items[i].stack) in Place(fs, items).seqs
    decreases |items|
  {
    hide Row, Entry, SlotOf;
    var n := |items| - 1;
    if i < n {
      SlotStays(fs, items[..n], i);
      assert items[..n][..i] == items[..i];
    }
  }

  /** Items are placed one behind the other. */
  lemma {:induction false} PlacesRise(fs: seq<Field>, items: seq<Item>, i: nat, k: nat)
    requires i <= k <= |items|
    ensures At(fs, items, i) <= At(fs, items, k)
    ensures i < k && items[i].Skip? ==> At(fs, items, i) + items[i].n <= At(fs, items, k)
    ensures i < k && items[i].Push? ==>
              At(fs, items, i) + Row(Entry(fs, items[i].kind).index).outLength <= At(fs, items, k)
    decreases k
  {
    hide Row, Entry;
    if i < k {
      assert items[..k][..k - 1] == items[..k - 1];
      PlacesRise(fs, items, i, k - 1);
    }
  }

  // ---------------------------------------------------------------- the table has room for every template

  /** Three less than the number of items below extension `e`, if all are there. */
  function Room(e: nat): nat {
    if e <= 8 then 2 * e else if e <= 13 then e + 11 else if e <= 18 then e + 12 else if e <= 20 then 30
    else if e <= 22 then 2 * e - 10 else if e <= 25 then e + 21 else if e <= 27 then 46 else 47
  }

  lemma {:induction false} ItemsFit(fs: seq<Field>, common: set<nat>, peer6: bool, e: nat)
    requires 4 <= e <= EXTENSIONS_END
    ensures |ItemsBelow(fs, common, peer6, e)| <= 3 + Room(e) && ShortSkips(ItemsBelow(fs, common, peer6, e))
  {
    hide Entry, Ipv6, ExtensionItems;
    if 4 < e {
      ItemsFit(fs, common, peer6, e - 1);
      ExtensionFits(e - 1, Ipv6(fs), peer6);
    }
  }

  ghost predicate ShortSkips(items: seq<Item>) {
    forall i :: 0 <= i < |items| && items[i].Skip? ==> items[i].n <= 16
  }

  lemma ExtensionFits(e: nat, ipv6: bool, peer6: bool)
    requires 4 <= e
    ensures |ExtensionItems(e, ipv6, peer6)| + Room(e) <= Room(e + 1) && ShortSkips(ExtensionItems(e, ipv6, peer6))
  {}

  /** The sequences never fill the table, so PushSequence never refuses one, and their offsets fit in 16 bits. */
  lemma {:induction false} PlaceFits(fs: seq<Field>, items: seq<Item>)
    requires ShortSkips(items)
    ensures var p := Place(fs, items); |p.seqs| <= |items| + 2 && p.offset <= FIRST + 8 + 16 * |items|
  {
    hide Row, Entry;
    if |items| > 0 {
      PlaceFits(fs, items[..|items| - 1]);
    }
  }

  lemma NeverFull(fs: seq<Field>, common: set<nat>, peer6: bool)
    ensures var p := Place(fs, Items(fs, common, peer6)); |p.seqs| < MAX_ELEMENTS && p.offset < U16
  {
    ItemsFit(fs, common, peer6, EXTENSIONS_END);
    PlaceFits(fs, Items(fs, common, peer6));
  }
}
