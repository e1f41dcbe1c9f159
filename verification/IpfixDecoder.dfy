/**
 The template part of the IPFIX decoder: the cache in which the fields of a template are noted, and the tables
 that templates are compiled to.
 */
module IpfixDecoder {
  import opened Bytes
  import opened IpfixElements
  import opened IpfixTemplate
  import opened IpfixLayout
  import opened Wrappers

  /** A row that differs from the one before it is the first of its type. */
  lemma FirstOfRun(i: nat)
    requires 0 < i < MAX_ELEMENTS
    ensures Row(i).id != Row(i - 1).id ==> FirstRow(Row(i).id, 1) == i
    ensures Row(i).id == Row(i - 1).id ==> 0 < FirstRow(Row(i).id, 1) < i
  {
    hide Row, Rank;
    var r := FirstRow(Row(i).id, 1);
    if 0 < r < i {
      RanksRise(r, i - 1);
      RanksRise(i - 1, i);
      SameRank(Row(i - 1).id, Row(i).id);
    }
  }

  class Cache {
    var lookup: seq<Param>
    var common: set<nat>
    const enabled: set<nat>

    /** The cache holds what the first `k` fields of a template tell. */
    ghost predicate Knows(fs: seq<Field>, k: nat)
      requires k <= |fs|
      reads this
    {
      |lookup| == U16 && forall kind :: 0 <= kind < U16 ==> lookup[kind] == Known(fs, k, kind)
    }

    constructor (enabled: set<nat>)
      ensures this.enabled == enabled
    {
      this.enabled := enabled;
      lookup, common := [], {};
    }

    /** The helper tables are cleared, and the first row of every type is noted. */
    method Clear()
      modifies this
      ensures Knows([], 0) && common == {}
    {
      hide Row, FirstRow;
      common := {};
      lookup := seq(U16, _ => Param(0, false, 0, 0));
      var i := 1;
      while Row(i).id != 0
        invariant 0 < i <= MAX_ELEMENTS && |lookup| == U16 && common == {}
        invariant forall kind :: 0 <= kind < U16 ==>
                    lookup[kind] == Param(if FirstRow(kind, 1) < i then FirstRow(kind, 1) else 0, false, 0, 0)
        decreases MAX_ELEMENTS - i
      {
        FirstOfRun(i);
        if Row(i).id != Row(i - 1).id {
          lookup := lookup[Row(i).id := Param(i, false, 0, 0)];
        }
        FirstRowIs(i);
        i := i + 1;
      }
    }

    /** MapElement */
    method MapElement(kind: word, length: word, offset: word) returns (extension: nat)
      requires |lookup| == U16 && lookup[kind].index <= MAX_ELEMENTS && (kind == 0 ==> lookup[kind].index == 0)
      modifies this`lookup
      ensures lookup == old(lookup)[kind := Mapped(old(lookup)[kind], kind, length, offset)]
      ensures var i := Match(kind, length, old(lookup)[kind].index);
              extension == if i != 0 then Row(i).extension else 0
    {
      hide Row;
      var index := lookup[kind].index;
      if index != 0 {
        while index != 0 && Row(index).id == kind
          invariant 0 < index <= MAX_ELEMENTS
          invariant Match(kind, length, index) == Match(kind, length, lookup[kind].index)
          decreases MAX_ELEMENTS - index
        {
          if length == Row(index).length {
            lookup := lookup[kind := Param(index, true, offset, length)];
            return Row(index).extension;
          }
          index := index + 1;
        }
      }
      return 0;
    }

    /** One field of a template. */
    method MapField(fs: seq<Field>, i: nat, offset: word) returns (next: word)
      requires i < |fs| && Knows(fs, i) && common == Extensions(fs, i, enabled) && offset == OffsetAt(fs, i)
      modifies this
      ensures Knows(fs, i + 1) && common == Extensions(fs, i + 1, enabled) && next == OffsetAt(fs, i + 1)
    {
      hide Row, Match, Mapped, Known, OffsetAt;
      var f := fs[i];
      ZeroUnknown(fs, i);
      FieldStep(fs, i);
      var e := MapElement(f.kind, f.length, offset);
      if e != 0 && e in enabled {
        common := common + {e};
      }
      next := (offset + if f.length != VARIABLE then f.length else 4) % U16;
    }

    /** The loop over the fields of a template, without the reading of the fields. */
    method MapFields(fs: seq<Field>) returns (offset: word)
      requires Knows([], 0) && common == {}
      modifies this
      ensures Knows(fs, |fs|) && common == Extensions(fs, |fs|, enabled) && offset == OffsetAt(fs, |fs|)
    {
      hide FirstRow;
      offset := 0;
      var i := 0;
      assert forall kind: nat :: Known(fs, 0, kind) == Known([], 0, kind);
      while i < |fs|
        invariant i <= |fs| && Knows(fs, i) && common == Extensions(fs, i, enabled) && offset == OffsetAt(fs, i)
      {
        offset := MapField(fs, i, offset);
        i := i + 1;
      }
    }
  }

  lemma FieldStep(fs: seq<Field>, k: nat)
    requires k < |fs|
    ensures OffsetAt(fs, k + 1) == (OffsetAt(fs, k) + Width(fs[k])) % U16
    ensures Known(fs, k + 1, fs[k].kind) == Mapped(Known(fs, k, fs[k].kind), fs[k].kind, fs[k].length, OffsetAt(fs, k))
    ensures forall kind: nat :: kind != fs[k].kind ==> Known(fs, k + 1, kind) == Known(fs, k, kind)
  {
    hide Mapped, OffsetAt, Match;
    KnownNext(fs, k);
    OffsetNext(fs, k);
  }

  lemma OffsetNext(fs: seq<Field>, k: nat)
    requires k < |fs|
    ensures OffsetAt(fs, k + 1) == (OffsetAt(fs, k) + Width(fs[k])) % U16
  {}

  lemma FirstRowIs(i: nat)
    requires 0 < i < MAX_ELEMENTS
    ensures forall kind :: FirstRow(kind, 1) == i ==> Row(i).id == kind
  {}

  lemma ZeroUnknown(fs: seq<Field>, k: nat)
    requires k <= |fs|
    ensures Known(fs, k, 0).index == 0
  {
    hide Row;
    if k > 0 {
      ZeroUnknown(fs, k - 1);
    }
  }

  lemma ItemsBelowStep(fs: seq<Field>, common: set<nat>, peer6: bool, e: nat)
    requires 4 <= e
    ensures e == 4 ==> ItemsBelow(fs, common, peer6, e) == CommonItems(fs)
    ensures 4 < e ==>
              ItemsBelow(fs, common, peer6, e)
              == ItemsBelow(fs, common, peer6, e - 1)
                 + if e - 1 in common then ExtensionItems(e - 1, Ipv6(fs), peer6) else []
    ensures 4 < e && e - 1 !in common ==> ItemsBelow(fs, common, peer6, e) == ItemsBelow(fs, common, peer6, e - 1)
  {}

  class Table {
    var sequence: seq<Sequence>
    var inputSize: nat
    var outputSize: nat
    var icmpOffset: nat
    var routerOffset: nat
    var receivedOffset: nat
    var ipv6: bool

    // kept while a data record is processed
    var flowStart: nat
    var flowEnd: nat
    var packets: nat
    var octets: nat

    constructor ()
      ensures sequence == []
    {
      sequence, inputSize, outputSize, icmpOffset, routerOffset, receivedOffset, ipv6 := [], 0, 0, 0, 0, 0, false;
      flowStart, flowEnd, packets, octets := 0, 0, 0, 0;
    }

    /** PushSequence */
    method PushSequence(cache: Cache, kind: word, offset: nat, stack: Stack) returns (next: nat)
      requires |cache.lookup| == U16
      modifies this`sequence
      ensures var p := cache.lookup[kind];
              if |old(sequence)| < MAX_ELEMENTS
              then sequence == old(sequence) + [SlotOf(p, offset, stack)] && next == offset + Row(p.index).outLength
              else sequence == old(sequence) && next == offset
    {
      hide Row;
      var index := cache.lookup[kind].index;
      if |sequence| >= MAX_ELEMENTS {
        return offset;
      }
      if cache.lookup[kind].found {
        sequence := sequence + [Sequence(Row(index).sequence, cache.lookup[kind].offset, offset, stack)];
      } else {
        sequence := sequence + [Sequence(Row(index).zero, 0, offset, NoStack)];
      }
      next := offset + Row(index).outLength;
    }

    /** The sequences and the offset are those for some items. */
    ghost predicate Built(fs: seq<Field>, items: seq<Item>, offset: nat)
      reads this`sequence
    {
      Placed(sequence, offset) == Place(fs, items) && |sequence| <= |items| + 2
    }

    method Push(cache: Cache, kind: word, offset: nat, stack: Stack, ghost fs: seq<Field>, ghost items: seq<Item>)
      returns (next: nat)
      requires cache.Knows(fs, |fs|) && Built(fs, items, offset) && |items| + 2 < MAX_ELEMENTS
      modifies this`sequence
      ensures Built(fs, items + [Item.Push(kind, stack)], next)
    {
      hide Row, Known;
      next := PushSequence(cache, kind, offset, stack);
      assert (items + [Item.Push(kind, stack)])[..|items|] == items;
    }
  
    /** What a compiled table is: the sequences of all items of the template, and the places that are filled later. */
    ghost predicate Compiled(fs: seq<Field>, common: set<nat>, peer6: bool)
      reads `sequence, `inputSize, `outputSize, `icmpOffset, `routerOffset, `receivedOffset, `ipv6
    {
      && Placed(sequence, outputSize) == Place(fs, Items(fs, common, peer6))
      && inputSize == OffsetAt(fs, |fs|) && ipv6 == Ipv6(fs)
      && icmpOffset == IcmpOffset(fs)
      && routerOffset == ReservedAt(fs, common, peer6, EX_ROUTER_IP_V4, EX_ROUTER_IP_V6, EXTENSIONS_END)
      && receivedOffset == ReservedAt(fs, common, peer6, EX_RECEIVED, EX_RECEIVED, EXTENSIONS_END)
    }

    method PushTwo(cache: Cache, k0: word, k1: word, offset: nat, ghost fs: seq<Field>, ghost items: seq<Item>)
      returns (next: nat)
      requires cache.Knows(fs, |fs|) && Built(fs, items, offset) && |items| + 3 < MAX_ELEMENTS
      modifies this`sequence
      ensures Built(fs, items + [Item.Push(k0, NoStack), Item.Push(k1, NoStack)], next)
    {
      hide Built, Cache.Knows;
      next := Push(cache, k0, offset, NoStack, fs, items);
      next := Push(cache, k1, next, NoStack, fs, items + [Item.Push(k0, NoStack)]);
      assert items + [Item.Push(k0, NoStack)] + [Item.Push(k1, NoStack)]
          == items + [Item.Push(k0, NoStack), Item.Push(k1, NoStack)];
    }

    method PushMpls(cache: Cache, offset: nat, ghost fs: seq<Field>, ghost items: seq<Item>) returns (next: nat)
      requires cache.Knows(fs, |fs|) && Built(fs, items, offset) && |items| + 12 < MAX_ELEMENTS
      modifies this`sequence
      ensures Built(fs, items + MplsItems(), next)
    {
      hide Built, Cache.Knows;
      ghost var m := MplsItems();
      next := PushTwo(cache, MPLS_TOP_LABEL_STACK_SECTION, MPLS_LABEL_STACK_SECTION2, offset, fs, items);
      assert items + m[..2] == items + [m[0], m[1]];
      next := PushTwo(cache, MPLS_LABEL_STACK_SECTION3, MPLS_LABEL_STACK_SECTION4, next, fs, items + m[..2]);
      assert items + m[..4] == items + m[..2] + [m[2], m[3]];
      next := PushTwo(cache, MPLS_LABEL_STACK_SECTION5, MPLS_LABEL_STACK_SECTION6, next, fs, items + m[..4]);
      assert items + m[..6] == items + m[..4] + [m[4], m[5]];
      next := PushTwo(cache, MPLS_LABEL_STACK_SECTION7, MPLS_LABEL_STACK_SECTION8, next, fs, items + m[..6]);
      assert items + m[..8] == items + m[..6] + [m[6], m[7]];
      next := PushTwo(cache, MPLS_LABEL_STACK_SECTION9, MPLS_LABEL_STACK_SECTION10, next, fs, items + m[..8]);
      assert items + m == items + m[..8] + [m[8], m[9]];
    }

    /** The switch over the extension `e`. */
    method PushExtension(cache: Cache, e: nat, ip6: bool, peer6: bool, offset: nat, ghost fs: seq<Field>,
                         ghost items: seq<Item>)
      returns (next: nat)
      requires cache.Knows(fs, |fs|) && Built(fs, items, offset)
      requires |items| + |ExtensionItems(e, ip6, peer6)| + 2 < MAX_ELEMENTS
      modifies this`sequence, this`routerOffset, this`receivedOffset
      ensures Built(fs, items + ExtensionItems(e, ip6, peer6), next)
      ensures routerOffset == if e == EX_ROUTER_IP_V4 || e == EX_ROUTER_IP_V6 then offset else old(routerOffset)
      ensures receivedOffset == if e == EX_RECEIVED then offset else old(receivedOffset)
    {
      hide Built, Cache.Knows;
      next := offset;
      assert items + [] == items;
      if e == EX_IO_SNMP_2 || e == EX_IO_SNMP_4 {
        next := PushTwo(cache, INGRESS_INTERFACE, EGRESS_INTERFACE, offset, fs, items);
      } else if e == EX_AS_2 || e == EX_AS_4 {
        next := PushTwo(cache, BGP_SOURCE_AS_NUMBER, BGP_DESTINATION_AS_NUMBER, offset, fs, items);
      } else if e == EX_MULTIPLE {
        next := PushMultiple(cache, ip6, offset, fs, items);
      } else if e == EX_NEXT_HOP_V4 {
        next := Push(cache, IP_NEXT_HOP_IPV4_ADDRESS, offset, NoStack, fs, items);
      } else if e == EX_NEXT_HOP_V6 {
        next := Push(cache, IP_NEXT_HOP_IPV6_ADDRESS, offset, NoStack, fs, items);
      } else if e == EX_NEXT_HOP_BGP_V4 {
        next := Push(cache, BGP_NEXT_HOP_IPV4_ADDRESS, offset, NoStack, fs, items);
      } else if e == EX_NEXT_HOP_BGP_V6 {
        next := Push(cache, BGP_NEXT_HOP_IPV6_ADDRESS, offset, NoStack, fs, items);
      } else if e == EX_VLAN {
        next := PushTwo(cache, VLAN_ID, POST_VLAN_ID, offset, fs, items);
      } else if e == EX_OUT_PKG_4 || e == EX_OUT_PKG_8 {
        next := Push(cache, POST_PACKET_DELTA_COUNT, offset, NoStack, fs, items);
      } else if e == EX_OUT_BYTES_4 || e == EX_OUT_BYTES_8 {
        next := Push(cache, POST_OCTET_DELTA_COUNT, offset, NoStack, fs, items);
      } else if e == EX_MAC_1 {
        next := PushTwo(cache, SOURCE_MAC_ADDRESS, POST_DESTINATION_MAC_ADDRESS, offset, fs, items);
      } else if e == EX_MAC_2 {
        next := PushTwo(cache, DESTINATION_MAC_ADDRESS, POST_SOURCE_MAC_ADDRESS, offset, fs, items);
      } else if e == EX_MPLS {
        next := PushMpls(cache, offset, fs, items);
      } else if e == EX_ROUTER_IP_V4 || e == EX_ROUTER_IP_V6 {
        routerOffset := offset;
        next := offset + if peer6 then 16 else 4;
        Skipped(fs, items, offset, if peer6 then 16 else 4);
      } else if e == EX_RECEIVED {
        receivedOffset := offset;
        next := offset + 8;
        Skipped(fs, items, offset, 8);
      }
    }

    method PushMultiple(cache: Cache, ip6: bool, offset: nat, ghost fs: seq<Field>, ghost items: seq<Item>)
      returns (next: nat)
      requires cache.Knows(fs, |fs|) && Built(fs, items, offset) && |items| + 6 < MAX_ELEMENTS
      modifies this`sequence
      ensures Built(fs, items + ExtensionItems(EX_MULTIPLE, ip6, false), next)
    {
      hide Built, Cache.Knows;
      next := PushTwo(cache, POST_IP_CLASS_OF_SERVICE, FLOW_DIRECTION, offset, fs, items);
      ghost var more := items + [Item.Push(POST_IP_CLASS_OF_SERVICE, NoStack), Item.Push(FLOW_DIRECTION, NoStack)];
      if ip6 {
        next := PushTwo(cache, SOURCE_IPV6_PREFIX_LENGTH, DESTINATION_IPV6_PREFIX_LENGTH, next, fs, more);
      } else {
        next := PushTwo(cache, SOURCE_IPV4_PREFIX_LENGTH, DESTINATION_IPV4_PREFIX_LENGTH, next, fs, more);
      }
      assert items + ExtensionItems(EX_MULTIPLE, ip6, false)
          == more + ExtensionItems(EX_MULTIPLE, ip6, false)[2..];
    }

    lemma Skipped(fs: seq<Field>, items: seq<Item>, offset: nat, n: nat)
      requires Built(fs, items, offset)
      ensures Built(fs, items + [Skip(n)], offset + n)
    {
      assert (items + [Skip(n)])[..|items|] == items;
    }

    /** The two times, four bytes apart. */
    method PushTimes(cache: Cache, ghost fs: seq<Field>) returns (next: nat)
      requires cache.Knows(fs, |fs|)
      modifies this`sequence
      ensures Built(fs, CommonItems(fs)[..0], next)
    {
      hide Built, Row, Known;
      sequence := [];
      next := FIRST;
      next := PushSequence(cache, FLOW_START_MILLISECONDS, next, FlowStart);
      next := FIRST + 4;
      next := PushSequence(cache, FLOW_END_MILLISECONDS, next, FlowEnd);
      next := FIRST + 8;
      StartBuilt(fs, next);
    }

    /** The common record. */
    method PushCommon(cache: Cache, ghost fs: seq<Field>) returns (next: nat, ip6: bool)
      requires cache.Knows(fs, |fs|)
      modifies this`sequence
      ensures Built(fs, CommonItems(fs), next) && ip6 == Ipv6(fs)
    {
      hide Built, Row, Known;
      var offset := PushTimes(cache, fs);
      ghost var c := CommonItems(fs);
      Skipped(fs, c[..0], offset, 1);
      next := offset + 1;
      next := PushTwo(cache, TCP_CONTROL_BITS, PROTOCOL_IDENTIFIER, next, fs, c[..0] + [Skip(1)]);
      assert c[..0] + [Skip(1)] + [c[1], c[2]] == c[..3];
      next := PushTwo(cache, IP_CLASS_OF_SERVICE, SOURCE_TRANSPORT_PORT, next, fs, c[..3]);
      assert c[..3] + [c[3], c[4]] == c[..5];
      next := Push(cache, DESTINATION_TRANSPORT_PORT, next, NoStack, fs, c[..5]);
      assert c[..5] + [c[5]] == c[..6];
      Skipped(fs, c[..6], next, 4);
      next := next + 4;
      assert c[..6] + [Skip(4)] == c[..7];
      next, ip6 := PushAddresses(cache, next, fs, c[..7]);
      assert c[..7] + Addresses(fs) == c[..9];
      next := PushCounters(cache, next, fs, c[..9]);
      assert c[..9] + Counters(fs) == c;
    }

    /** IPv4 addresses if there is a source of this kind, else IPv6 ones if there is one of that kind, else IPv4. */
    method PushAddresses(cache: Cache, offset: nat, ghost fs: seq<Field>, ghost items: seq<Item>)
      returns (next: nat, ip6: bool)
      requires cache.Knows(fs, |fs|) && Built(fs, items, offset) && |items| + 3 < MAX_ELEMENTS
      modifies this`sequence
      ensures Built(fs, items + Addresses(fs), next) && ip6 == Ipv6(fs)
    {
      hide Built, Row, Known;
      ip6 := false;
      if cache.lookup[SOURCE_IPV4_ADDRESS].found {
        next := PushTwo(cache, SOURCE_IPV4_ADDRESS, DESTINATION_IPV4_ADDRESS, offset, fs, items);
      } else if cache.lookup[SOURCE_IPV6_ADDRESS].found {
        next := PushTwo(cache, SOURCE_IPV6_ADDRESS, DESTINATION_IPV6_ADDRESS, offset, fs, items);
        ip6 := true;
      } else {
        next := PushTwo(cache, SOURCE_IPV4_ADDRESS, DESTINATION_IPV4_ADDRESS, offset, fs, items);
      }
    }

    /** Total counters if they are there, and else the delta counters. */
    method PushCounters(cache: Cache, offset: nat, ghost fs: seq<Field>, ghost items: seq<Item>) returns (next: nat)
      requires cache.Knows(fs, |fs|) && Built(fs, items, offset) && |items| + 3 < MAX_ELEMENTS
      modifies this`sequence
      ensures Built(fs, items + Counters(fs), next)
    {
      hide Built, Row, Known;
      ghost var c := Counters(fs);
      if cache.lookup[PACKET_TOTAL_COUNT].found {
        next := Push(cache, PACKET_TOTAL_COUNT, offset, Packets, fs, items);
      } else {
        next := Push(cache, PACKET_DELTA_COUNT, offset, Packets, fs, items);
      }
      if cache.lookup[OCTET_TOTAL_COUNT].found {
        next := Push(cache, OCTET_TOTAL_COUNT, next, Octets, fs, items + [c[0]]);
      } else {
        next := Push(cache, OCTET_DELTA_COUNT, next, Octets, fs, items + [c[0]]);
      }
      assert items + [c[0]] + [c[1]] == items + c;
    }

    /** setup_translation_table, once the table is there. */
    method Setup(cache: Cache, size: word, peer6: bool, ghost fs: seq<Field>)
      requires cache.Knows(fs, |fs|) && size == OffsetAt(fs, |fs|)
      modifies this
      ensures Compiled(fs, cache.common, peer6)
    {
      hide Built, Place, ItemsBelow, Known, Row;
      icmpOffset, routerOffset, receivedOffset := 0, 0, 0;
      var offset: nat, ip6: bool;
      offset, ip6 := PushCommon(cache, fs);
      ghost var common := cache.common;
      ItemsBelowStep(fs, common, peer6, 4);
      var e := 4;
      while e < EXTENSIONS_END
        invariant 4 <= e <= EXTENSIONS_END && icmpOffset == 0
        invariant Built(fs, ItemsBelow(fs, common, peer6, e), offset)
        invariant routerOffset == ReservedAt(fs, common, peer6, EX_ROUTER_IP_V4, EX_ROUTER_IP_V6, e)
        invariant receivedOffset == ReservedAt(fs, common, peer6, EX_RECEIVED, EX_RECEIVED, e)
      {
        ItemsBelowStep(fs, common, peer6, e + 1);
        BuiltOffset(fs, ItemsBelow(fs, common, peer6, e), offset);
        if e in cache.common {
          ExtensionRoom(fs, common, peer6, e);
          offset := PushExtension(cache, e, ip6, peer6, offset, fs, ItemsBelow(fs, common, peer6, e));
        }
        e := e + 1;
      }
      BuiltPlaced(fs, common, peer6, offset);
      outputSize := offset;
      inputSize := size;
      ipv6 := ip6;
      if cache.lookup[ICMP_TYPE_CODE_IPV4].found && cache.lookup[ICMP_TYPE_CODE_IPV4].length == 2 {
        icmpOffset := cache.lookup[ICMP_TYPE_CODE_IPV4].offset;
      }
    }

    lemma BuiltOffset(fs: seq<Field>, items: seq<Item>, offset: nat)
      requires Built(fs, items, offset)
      ensures Place(fs, items).offset == offset
    {}

    lemma BuiltPlaced(fs: seq<Field>, common: set<nat>, peer6: bool, offset: nat)
      requires Built(fs, ItemsBelow(fs, common, peer6, EXTENSIONS_END), offset)
      ensures Placed(sequence, offset) == Place(fs, Items(fs, common, peer6))
    {}

    lemma StartBuilt(fs: seq<Field>, offset: nat)
      requires Placed(sequence, offset) == Start(fs)
      ensures Built(fs, CommonItems(fs)[..0], offset)
    {
      assert CommonItems(fs)[..0] == [];
    }
  }

  /** ICMP_offset; an offset of 0 stands for none. */
  ghost function IcmpOffset(fs: seq<Field>): nat {
    var p := Entry(fs, ICMP_TYPE_CODE_IPV4);
    if p.found && p.length == 2 then p.offset else 0
  }

  /** Where room is left for an extension that no field fills, of two numbers below `end`; 0 if it is not there. */
  ghost function ReservedAt(fs: seq<Field>, common: set<nat>, peer6: bool, e: nat, f: nat, end: nat): nat
    requires 4 <= e && 4 <= f
  {
    if f in common && f < end then Place(fs, ItemsBelow(fs, common, peer6, f)).offset
    else if e in common && e < end then Place(fs, ItemsBelow(fs, common, peer6, e)).offset
    else 0
  }

  /** The extensions of a template: those its fields ask for, and those that every record gets. */
  function Common(fs: seq<Field>, enabled: set<nat>): set<nat> {
    Extensions(fs, |fs|, enabled) + (enabled * {EX_ROUTER_IP_V4, EX_RECEIVED})
  }

  /** What is known of the templates after some more of them. */
  function Taken(known: map<word, seq<Field>>, ts: seq<Template>): map<word, seq<Field>>
    decreases |ts|
  {
    if |ts| == 0 then known else Taken(known[ts[0].id := ts[0].fields], ts[1..])
  }

  lemma ExtensionRoom(fs: seq<Field>, common: set<nat>, peer6: bool, e: nat)
    requires 4 <= e < EXTENSIONS_END
    ensures |ItemsBelow(fs, common, peer6, e)| + |ExtensionItems(e, Ipv6(fs), peer6)| + 2 < MAX_ELEMENTS
  {
    hide Entry, Ipv6, ExtensionItems, ItemsBelow;
    ItemsFit(fs, common, peer6, e);
    ExtensionFits(e, Ipv6(fs), peer6);
  }

  /** The exporter's part of the decoder; the linked list of translation tables is searched by template id only. */
  class Decoder {
    const cache: Cache
    const peer6: bool
    var tables: map<word, Table>
    ghost var known: map<word, seq<Field>>

    /** There is one table for every template that is known, and it is compiled from that template. */
    ghost predicate Valid()
      reads this, tables.Values
    {
      && tables.Keys == known.Keys
      && (forall a, b :: a in tables && b in tables && a != b ==> tables[a] != tables[b])
      && (forall id <- tables :: tables[id].Compiled(known[id], Common(known[id], cache.enabled), peer6))
    }

    constructor (enabled: set<nat>, peer6: bool)
      ensures Valid() && known == map[] && cache.enabled == enabled && this.peer6 == peer6 && fresh(cache)
    {
      cache := new Cache(enabled);
      this.peer6 := peer6;
      tables, known := map[], map[];
    }

    /** The cache is filled for a template. */
    method Fill(fs: seq<Field>) returns (size: word)
      modifies cache
      ensures cache.Knows(fs, |fs|) && cache.common == Common(fs, cache.enabled) && size == OffsetAt(fs, |fs|)
    {
      hide Extensions, OffsetAt, Known;
      cache.Clear();
      size := cache.MapFields(fs);
      if EX_ROUTER_IP_V4 in cache.enabled {
        cache.common := cache.common + {EX_ROUTER_IP_V4};
      }
      if EX_RECEIVED in cache.enabled {
        cache.common := cache.common + {EX_RECEIVED};
      }
    }

    /** The table of a template is set up from the cache; a new one is made if there is none. */
    method Install(t: Template, size: word)
      requires Valid() && cache.Knows(t.fields, |t.fields|) && size == OffsetAt(t.fields, |t.fields|)
      requires cache.common == Common(t.fields, cache.enabled)
      modifies this, tables.Values
      ensures Valid() && known == old(known)[t.id := t.fields]
      ensures forall x <- tables.Values :: x in old(tables.Values) || fresh(x)
    {
      hide Table.Compiled, Cache.Knows, Common, OffsetAt;
      var table: Table;
      if t.id in tables {
        table := tables[t.id];
      } else {
        table := new Table();
        tables := tables[t.id := table];
      }
      table.Setup(cache, size, peer6, t.fields);
      known := known[t.id := t.fields];
    }

    /** One template: the cache is filled, and its table set up. */
    method AddTemplate(t: Template)
      requires Valid()
      modifies this, cache, tables.Values
      ensures Valid() && known == old(known)[t.id := t.fields]
      ensures forall x <- tables.Values :: x in old(tables.Values) || fresh(x)
    {
      hide Table.Compiled, Cache.Knows, Common, OffsetAt;
      var size := Fill(t.fields);
      Install(t, size);
    }

    /** The loop over field specifiers, each followed by an enterprise number if its type has the enterprise bit. */
    method ReadSpecifiers(d: seq<byte>, n: nat) returns (ok: bool, fs: seq<Field>, required: nat)
      requires 4 + 4 * n <= |d|
      ensures (if ok then Some((fs, required)) else None) == ReadFields(d, 4, n, 4 + 4 * n)
    {
      hide ReadFields;
      required := 4 + 4 * n;
      fs := [];
      var at, i := 4, 0;
      JoinedEmpty(ReadFields(d, at, n, required));
      while i < n
        invariant i <= n && at + 4 * (n - i) <= required <= |d|
        invariant Joined(fs, ReadFields(d, at, n - i, required)) == ReadFields(d, 4, n, 4 + 4 * n)
      {
        var f := Field(Word(d, at), Word(d, at + 2));
        ReadFieldsStep(d, at, n - i, required);
        JoinedMore(fs, f, ReadFields(d, at, n - i, required));
        fs := fs + [f];
        if f.kind >= ENTERPRISE_BIT {
          required := required + 4;
          if |d| < required {
            return false, fs, required;
          }
          at := at + 8;
        } else {
          at := at + 4;
        }
        i := i + 1;
      }
      ReadFieldsStep(d, at, 0, required);
      assert fs + [] == fs;
      ok := true;
    }

    /** Process_ipfix_template_add */
    method AddTemplates(d: seq<byte>)
      requires Valid() && 4 <= |d|
      modifies this, cache, tables.Values
      ensures Valid() && known == Taken(old(known), ReadTemplates(d))
    {
      hide Valid, ReadFields;
      var at: nat := 0;
      assert d[0..] == d;
      while at < |d|
        invariant Valid() && (at + 4 <= |d| || at == |d|)
        invariant forall x <- tables.Values :: x in old(tables.Values) || fresh(x)
        invariant Taken(known, ReadTemplates(d[at..])) == Taken(old(known), ReadTemplates(d))
        decreases |d| - at
      {
        var r := d[at..];
        var id: word := Word(r, 0);
        var count: nat := Word(r, 2);
        if |r| < 4 + 4 * count {
          return;
        }
        var ok, fs, required := ReadSpecifiers(r, count);
        if !ok {
          return;
        }
        AddTemplate(Template(id, fs));
        assert d[at + required..] == r[required..];
        at := at + required;
        if |d| - at < 4 {
          at := |d|;
        }
      }
    }
  }

  function Joined(fs: seq<Field>, r: Option<(seq<Field>, nat)>): Option<(seq<Field>, nat)> {
    if r.None? then None else Some((fs + r.value.0, r.value.1))
  }

  lemma JoinedEmpty(r: Option<(seq<Field>, nat)>)
    ensures Joined([], r) == r
  {
    if r.Some? {
      assert [] + r.value.0 == r.value.0;
    }
  }

  lemma JoinedMore(fs: seq<Field>, f: Field, r: Option<(seq<Field>, nat)>)
    ensures r.None? ==> Joined(fs, r) == None
    ensures r.Some? && |r.value.0| > 0 && r.value.0[0] == f ==>
              Joined(fs, r) == Joined(fs + [f], Some((r.value.0[1..], r.value.1)))
  {
    if r.Some? && |r.value.0| > 0 && r.value.0[0] == f {
      assert fs + r.value.0 == fs + [f] + r.value.0[1..];
    }
  }

  /** One round of the loop over field specifiers. */
  lemma ReadFieldsStep(d: seq<byte>, at: nat, n: nat, required: nat)
    requires at + 4 * n <= required <= |d|
    ensures n == 0 ==> ReadFields(d, at, n, required) == Some(([], required))
    ensures 0 < n ==>
              var f := Field(Word(d, at), Word(d, at + 2));
              var enterprise := f.kind >= ENTERPRISE_BIT;
              var all := ReadFields(d, at, n, required);
              if enterprise && |d| < required + 4 then all == None
              else
                var rest := ReadFields(d, at + if enterprise then 8 else 4, n - 1, if enterprise then required + 4 else required);
                if rest.None? then all == None
                else all.Some? && all.value.0 == [f] + rest.value.0 && all.value.0[1..] == rest.value.0
                     && all.value.1 == rest.value.1
  {}
}
