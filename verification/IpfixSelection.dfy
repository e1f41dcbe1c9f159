/**
 Which fields of a template get into the output record: those of the common record, those of enabled extensions, and
 of rival fields only the preferred ones.
 */
module IpfixSelection {
  import opened Bytes
  import opened IpfixData
  import opened IpfixDecoder
  import opened IpfixElements
  import opened IpfixLayout
  import opened IpfixTemplate

  ghost predicate HasItem(items: seq<Item>, kind: nat) {
    exists i :: 0 <= i < |items| && items[i].Push? && items[i].kind == kind
  }

  /** The template has a field of the type, of a supported length. */
  ghost predicate Offers(fs: seq<Field>, kind: nat) {
    exists k :: 0 <= k < |fs| && fs[k].kind == kind && Supported(fs[k])
  }

  /** Fields that are left out for others: one address family goes before the other, and totals before deltas. */
  ghost predicate Shadowed(fs: seq<Field>, kind: nat) {
    var v6 := !Offers(fs, SOURCE_IPV4_ADDRESS) && Offers(fs, SOURCE_IPV6_ADDRESS);
    || (!v6 && kind in {SOURCE_IPV6_ADDRESS, DESTINATION_IPV6_ADDRESS, SOURCE_IPV6_PREFIX_LENGTH,
                        DESTINATION_IPV6_PREFIX_LENGTH})
    || (v6 && kind in {SOURCE_IPV4_ADDRESS, DESTINATION_IPV4_ADDRESS, SOURCE_IPV4_PREFIX_LENGTH,
                       DESTINATION_IPV4_PREFIX_LENGTH})
    || (kind == PACKET_DELTA_COUNT && Offers(fs, PACKET_TOTAL_COUNT))
    || (kind == OCTET_DELTA_COUNT && Offers(fs, OCTET_TOTAL_COUNT))
  }

  /** The row of a field. */
  ghost function RowOf(f: Field): Element
    requires Supported(f)
  {
    Row(Match(f.kind, f.length, FirstRow(f.kind, 1)))
  }

  /** Extensions that are the same parts in two widths go together, under the smaller number. */
  function Group(e: nat): nat {
    if e == EX_IO_SNMP_4 then EX_IO_SNMP_2 else if e == EX_AS_4 then EX_AS_2
    else if e == EX_OUT_PKG_8 then EX_OUT_PKG_4 else if e == EX_OUT_BYTES_8 then EX_OUT_BYTES_4
    else e
  }

  /** Some supported field switches on the extension `e`, or the one of the other width. */
  ghost predicate SwitchedOn(fs: seq<Field>, enabled: set<nat>, e: nat) {
    exists j, d :: 0 <= j < |fs| && PartOf(fs[j], d) && d in enabled && Group(d) == Group(e)
  }

  // ---------------------------------------------------------------- the types of the parts of each extension

  lemma HasItemJoin(a: seq<Item>, b: seq<Item>, kind: nat)
    ensures HasItem(a + b, kind) <==> HasItem(a, kind) || HasItem(b, kind)
  {
    var c := a + b;
    if i :| 0 <= i < |a| && a[i].Push? && a[i].kind == kind {
      assert c[i] == a[i];
    }
    if i :| 0 <= i < |b| && b[i].Push? && b[i].kind == kind {
      assert c[|a| + i] == b[i];
    }
  }

  /** An item is of the common record, or of an extension that is switched on. */
  lemma {:induction false} BelowHasItem(fs: seq<Field>, common: set<nat>, peer6: bool, e: nat, kind: nat)
    requires 4 <= e
    ensures HasItem(ItemsBelow(fs, common, peer6, e), kind) <==>
            || HasItem(CommonItems(fs), kind)
            || exists d :: 4 <= d < e && d in common && HasItem(ExtensionItems(d, Ipv6(fs), peer6), kind)
  {
    hide HasItem, CommonItems, ExtensionItems, Ipv6;
    if 4 < e {
      var more := if e - 1 in common then ExtensionItems(e - 1, Ipv6(fs), peer6) else [];
      BelowHasItem(fs, common, peer6, e - 1, kind);
      HasItemJoin(ItemsBelow(fs, common, peer6, e - 1), more, kind);
      NoItem(kind);
    }
  }

  lemma NoItem(kind: nat)
    ensures !HasItem([], kind)
  {}

  /** The extension has a part for the type. */
  predicate InExtension(kind: nat, e: nat, ipv6: bool) {
    if e == EX_IO_SNMP_2 || e == EX_IO_SNMP_4 then kind in {INGRESS_INTERFACE, EGRESS_INTERFACE}
    else if e == EX_AS_2 || e == EX_AS_4 then kind in {BGP_SOURCE_AS_NUMBER, BGP_DESTINATION_AS_NUMBER}
    else if e == EX_MULTIPLE then
      || kind in {POST_IP_CLASS_OF_SERVICE, FLOW_DIRECTION}
      || (if ipv6 then kind in {SOURCE_IPV6_PREFIX_LENGTH, DESTINATION_IPV6_PREFIX_LENGTH}
          else kind in {SOURCE_IPV4_PREFIX_LENGTH, DESTINATION_IPV4_PREFIX_LENGTH})
    else if e == EX_NEXT_HOP_V4 then kind == IP_NEXT_HOP_IPV4_ADDRESS
    else if e == EX_NEXT_HOP_V6 then kind == IP_NEXT_HOP_IPV6_ADDRESS
    else if e == EX_NEXT_HOP_BGP_V4 then kind == BGP_NEXT_HOP_IPV4_ADDRESS
    else if e == EX_NEXT_HOP_BGP_V6 then kind == BGP_NEXT_HOP_IPV6_ADDRESS
    else if e == EX_VLAN then kind in {VLAN_ID, POST_VLAN_ID}
    else if e == EX_OUT_PKG_4 || e == EX_OUT_PKG_8 then kind == POST_PACKET_DELTA_COUNT
    else if e == EX_OUT_BYTES_4 || e == EX_OUT_BYTES_8 then kind == POST_OCTET_DELTA_COUNT
    else if e == EX_MAC_1 then kind in {SOURCE_MAC_ADDRESS, POST_DESTINATION_MAC_ADDRESS}
    else if e == EX_MAC_2 then kind in {DESTINATION_MAC_ADDRESS, POST_SOURCE_MAC_ADDRESS}
    else if e == EX_MPLS then MPLS_TOP_LABEL_STACK_SECTION <= kind <= MPLS_LABEL_STACK_SECTION10
    else false
  }

  lemma MplsKinds(kind: nat)
    ensures HasItem(MplsItems(), kind) <==> MPLS_TOP_LABEL_STACK_SECTION <= kind <= MPLS_LABEL_STACK_SECTION10
  {
    var m := MplsItems();
    if MPLS_TOP_LABEL_STACK_SECTION <= kind <= MPLS_LABEL_STACK_SECTION10 {
      assert m[kind - MPLS_TOP_LABEL_STACK_SECTION].kind == kind;
    }
  }

  lemma TwoItems(a: Item, b: Item, kind: nat)
    ensures HasItem([a], kind) <==> a.Push? && a.kind == kind
    ensures HasItem([a, b], kind) <==> (a.Push? && a.kind == kind) || (b.Push? && b.kind == kind)
  {
    assert [a][0] == a && [a, b][0] == a && [a, b][1] == b;
  }

  lemma ExtensionHasItem(e: nat, ipv6: bool, peer6: bool, kind: nat)
    ensures HasItem(ExtensionItems(e, ipv6, peer6), kind) <==> InExtension(kind, e, ipv6)
  {
    hide HasItem, MplsItems;
    NoItem(kind);
    MplsKinds(kind);
    if e == EX_MULTIPLE {
      var items := ExtensionItems(e, ipv6, peer6);
      TwoItems(items[0], items[1], kind);
      TwoItems(items[2], items[3], kind);
      HasItemJoin([items[0], items[1]], [items[2], items[3]], kind);
      assert items == [items[0], items[1]] + [items[2], items[3]];
    } else if e != EX_MPLS && ExtensionItems(e, ipv6, peer6) != [] {
      var items := ExtensionItems(e, ipv6, peer6);
      TwoItems(items[0], items[|items| - 1], kind);
      assert items == if |items| == 1 then [items[0]] else [items[0], items[|items| - 1]];
    }
  }

  function CommonKinds(): set<nat> {
    {OCTET_DELTA_COUNT, PACKET_DELTA_COUNT, OCTET_TOTAL_COUNT, PACKET_TOTAL_COUNT, PROTOCOL_IDENTIFIER,
     IP_CLASS_OF_SERVICE, TCP_CONTROL_BITS, SOURCE_TRANSPORT_PORT, DESTINATION_TRANSPORT_PORT, SOURCE_IPV4_ADDRESS,
     DESTINATION_IPV4_ADDRESS, SOURCE_IPV6_ADDRESS, DESTINATION_IPV6_ADDRESS}
  }

  lemma FixedHasItem(kind: nat)
    ensures HasItem([Skip(1), Item.Push(TCP_CONTROL_BITS, NoStack), Item.Push(PROTOCOL_IDENTIFIER, NoStack),
                     Item.Push(IP_CLASS_OF_SERVICE, NoStack), Item.Push(SOURCE_TRANSPORT_PORT, NoStack),
                     Item.Push(DESTINATION_TRANSPORT_PORT, NoStack), Skip(4)], kind)
            <==> kind in {TCP_CONTROL_BITS, PROTOCOL_IDENTIFIER, IP_CLASS_OF_SERVICE, SOURCE_TRANSPORT_PORT,
                          DESTINATION_TRANSPORT_PORT}
  {
    var items := [Skip(1), Item.Push(TCP_CONTROL_BITS, NoStack), Item.Push(PROTOCOL_IDENTIFIER, NoStack),
                  Item.Push(IP_CLASS_OF_SERVICE, NoStack), Item.Push(SOURCE_TRANSPORT_PORT, NoStack),
                  Item.Push(DESTINATION_TRANSPORT_PORT, NoStack), Skip(4)];
    assert items[1].kind == TCP_CONTROL_BITS && items[2].kind == PROTOCOL_IDENTIFIER;
    assert items[3].kind == IP_CLASS_OF_SERVICE && items[4].kind == SOURCE_TRANSPORT_PORT;
    assert items[5].kind == DESTINATION_TRANSPORT_PORT;
  }

  /** The types of the common record, as the template decides between rivals. */
  lemma CommonHasItem(fs: seq<Field>, kind: nat)
    ensures HasItem(CommonItems(fs), kind) <==>
            && kind in CommonKinds()
            && (kind in {SOURCE_IPV6_ADDRESS, DESTINATION_IPV6_ADDRESS} ==> Ipv6(fs))
            && (kind in {SOURCE_IPV4_ADDRESS, DESTINATION_IPV4_ADDRESS} ==> !Ipv6(fs))
            && (kind in {PACKET_TOTAL_COUNT, PACKET_DELTA_COUNT} ==>
                  (kind == PACKET_TOTAL_COUNT <==> Entry(fs, PACKET_TOTAL_COUNT).found))
            && (kind in {OCTET_TOTAL_COUNT, OCTET_DELTA_COUNT} ==>
                  (kind == OCTET_TOTAL_COUNT <==> Entry(fs, OCTET_TOTAL_COUNT).found))
  {
    hide HasItem, Entry, Ipv6;
    var fixed := [Skip(1), Item.Push(TCP_CONTROL_BITS, NoStack), Item.Push(PROTOCOL_IDENTIFIER, NoStack),
                  Item.Push(IP_CLASS_OF_SERVICE, NoStack), Item.Push(SOURCE_TRANSPORT_PORT, NoStack),
                  Item.Push(DESTINATION_TRANSPORT_PORT, NoStack), Skip(4)];
    FixedHasItem(kind);
    HasItemJoin(fixed + Addresses(fs), Counters(fs), kind);
    HasItemJoin(fixed, Addresses(fs), kind);
    TwoItems(Addresses(fs)[0], Addresses(fs)[1], kind);
    TwoItems(Counters(fs)[0], Counters(fs)[1], kind);
  }

  // ---------------------------------------------------------------- rows and their extensions

  /** The group of extensions that a stored type is a part of; 0 for the common record. */
  function HomeOf(kind: nat): nat {
    if kind in {INGRESS_INTERFACE, EGRESS_INTERFACE} then EX_IO_SNMP_2
    else if kind in {BGP_SOURCE_AS_NUMBER, BGP_DESTINATION_AS_NUMBER} then EX_AS_2
    else if kind in {POST_IP_CLASS_OF_SERVICE, FLOW_DIRECTION, SOURCE_IPV6_PREFIX_LENGTH, DESTINATION_IPV6_PREFIX_LENGTH,
                     SOURCE_IPV4_PREFIX_LENGTH, DESTINATION_IPV4_PREFIX_LENGTH} then EX_MULTIPLE
    else if kind == IP_NEXT_HOP_IPV4_ADDRESS then EX_NEXT_HOP_V4
    else if kind == IP_NEXT_HOP_IPV6_ADDRESS then EX_NEXT_HOP_V6
    else if kind == BGP_NEXT_HOP_IPV4_ADDRESS then EX_NEXT_HOP_BGP_V4
    else if kind == BGP_NEXT_HOP_IPV6_ADDRESS then EX_NEXT_HOP_BGP_V6
    else if kind in {VLAN_ID, POST_VLAN_ID} then EX_VLAN
    else if kind == POST_PACKET_DELTA_COUNT then EX_OUT_PKG_4
    else if kind == POST_OCTET_DELTA_COUNT then EX_OUT_BYTES_4
    else if kind in {SOURCE_MAC_ADDRESS, POST_DESTINATION_MAC_ADDRESS} then EX_MAC_1
    else if kind in {DESTINATION_MAC_ADDRESS, POST_SOURCE_MAC_ADDRESS} then EX_MAC_2
    else if MPLS_TOP_LABEL_STACK_SECTION <= kind <= MPLS_LABEL_STACK_SECTION10 then EX_MPLS
    else 0
  }

  /** A type is a part of the extensions of its group, but prefix lengths only with addresses of their family. */
  lemma PartsOfGroup(e: nat, ipv6: bool, kind: nat)
    requires 4 <= e
    ensures InExtension(kind, e, ipv6) <==>
            && HomeOf(kind) == Group(e)
            && (kind in {SOURCE_IPV6_PREFIX_LENGTH, DESTINATION_IPV6_PREFIX_LENGTH} ==> ipv6)
            && (kind in {SOURCE_IPV4_PREFIX_LENGTH, DESTINATION_IPV4_PREFIX_LENGTH} ==> !ipv6)
  {}

  /** The table says of a stored type that it is part of an extension of its group. */
  predicate AtHome(r: Element) {
    && (r.extension == 0 || (4 <= r.extension <= EX_MPLS && 0 < r.sequence.Writes()))
    && (0 < r.sequence.Writes() ==>
          HomeOf(r.id) == Group(r.extension) && (r.id in CommonKinds() <==> r.extension == 0))
  }

  lemma HomeBelow17(i: nat)
    requires 0 < i < 17
    ensures AtHome(RowBelow17(i))
  {}

  lemma HomeBelow32(i: nat)
    requires 17 <= i < 32
    ensures AtHome(RowBelow32(i))
  {}

  lemma HomeBelow48(i: nat)
    requires 32 <= i < 48
    ensures AtHome(RowBelow48(i))
  {}

  lemma HomeFrom48(i: nat)
    requires 48 <= i < MAX_ELEMENTS
    ensures AtHome(RowFrom48(i))
  {}

  lemma RowsAtHome(i: nat)
    requires 0 < i < MAX_ELEMENTS
    ensures AtHome(Row(i))
  {
    hide RowBelow17, RowBelow32, RowBelow48, RowFrom48, AtHome;
    if i < 17 {
      HomeBelow17(i);
    } else if i < 32 {
      HomeBelow32(i);
    } else if i < 48 {
      HomeBelow48(i);
    } else {
      HomeFrom48(i);
    }
  }

  // ---------------------------------------------------------------- the fields that get into the record

  /** The cache knows just the types that the template offers. */
  lemma FoundIfOffered(fs: seq<Field>, kind: nat)
    requires DistinctKinds(fs)
    ensures Entry(fs, kind).found <==> Offers(fs, kind)
  {
    hide Row, FirstRow, Match, Known, Supported;
    if k :| 0 <= k < |fs| && fs[k].kind == kind {
      KnownField(fs, k);
    } else {
      UnknownBefore(fs, |fs|, kind);
    }
  }

  lemma SupportedIsRow(f: Field)
    requires Supported(f)
    ensures exists i :: 0 < i < MAX_ELEMENTS && Row(i) == RowOf(f) && RowOf(f).id == f.kind && RowOf(f).length == f.length
    ensures PartOf(f, RowOf(f).extension)
  {
    hide Row, FirstRow;
    var i :| 0 < i < MAX_ELEMENTS && Row(i).id == f.kind && Row(i).length == f.length;
    OneRow(f.kind, f.length, i);
  }

  /** An extension of the group is among those of the template just if it is switched on by a field. */
  lemma GroupIsOn(fs: seq<Field>, enabled: set<nat>, e: nat)
    requires DistinctKinds(fs) && 4 <= e <= EX_MPLS
    ensures SwitchedOn(fs, enabled, e) <==>
            exists d :: 4 <= d < EXTENSIONS_END && d in Common(fs, enabled) && Group(d) == Group(e)
  {
    hide PartOf, Extensions;
    if j, d :| 0 <= j < |fs| && PartOf(fs[j], d) && d in enabled && Group(d) == Group(e) {
      ExtensionsExactly(fs, |fs|, enabled, d);
      ExtensionNumbers(fs[j], d);
      assert d in Common(fs, enabled);
    }
    if d :| 4 <= d < EXTENSIONS_END && d in Common(fs, enabled) && Group(d) == Group(e) {
      ExtensionsExactly(fs, |fs|, enabled, d);
    }
  }

  lemma ExtensionNumbers(f: Field, d: nat)
    requires PartOf(f, d)
    ensures d == 0 || 4 <= d <= EX_MPLS
  {
    hide Row, Group, HomeOf, CommonKinds;
    var i :| 0 < i < MAX_ELEMENTS && Row(i).id == f.kind && Row(i).length == f.length && Row(i).extension == d;
    RowsAtHome(i);
  }

  lemma Ipv6IfOffered(fs: seq<Field>)
    requires DistinctKinds(fs)
    ensures Ipv6(fs) <==> !Offers(fs, SOURCE_IPV4_ADDRESS) && Offers(fs, SOURCE_IPV6_ADDRESS)
  {
    hide Entry, Offers, DistinctKinds;
    FoundIfOffered(fs, SOURCE_IPV4_ADDRESS);
    FoundIfOffered(fs, SOURCE_IPV6_ADDRESS);
  }

  /** A field of a type of the common record is there unless it is shadowed. */
  lemma CommonField(fs: seq<Field>, kind: nat)
    requires DistinctKinds(fs) && kind in CommonKinds() && Offers(fs, kind)
    ensures HasItem(CommonItems(fs), kind) <==> !Shadowed(fs, kind)
  {
    hide HasItem, CommonItems, Entry, Ipv6, Offers, DistinctKinds;
    CommonHasItem(fs, kind);
    Ipv6IfOffered(fs);
    FoundIfOffered(fs, PACKET_TOTAL_COUNT);
    FoundIfOffered(fs, OCTET_TOTAL_COUNT);
  }

  /** An extension has a part for the types of its group, unless they are shadowed. */
  lemma ExtensionField(fs: seq<Field>, d: nat, peer6: bool, kind: nat)
    requires DistinctKinds(fs) && 4 <= d
    ensures HasItem(ExtensionItems(d, Ipv6(fs), peer6), kind) <==> HomeOf(kind) == Group(d) && !Shadowed(fs, kind)
  {
    hide HasItem, ExtensionItems, InExtension, Ipv6, Offers, DistinctKinds, Group;
    ExtensionHasItem(d, Ipv6(fs), peer6, kind);
    PartsOfGroup(d, Ipv6(fs), kind);
    Ipv6IfOffered(fs);
    GroupNumbers(d);
  }

  lemma GroupNumbers(d: nat)
    requires 4 <= d
    ensures 4 <= Group(d)
  {}

  /**
   A field that is stored has a part in the output record if and only if it is not shadowed by another one, and it is
   of the common record or its extension is switched on.
   */
  lemma FieldHasItem(fs: seq<Field>, enabled: set<nat>, peer6: bool, k: nat)
    requires DistinctKinds(fs) && k < |fs| && Supported(fs[k]) && 0 < RowOf(fs[k]).sequence.Writes()
    ensures HasItem(Items(fs, Common(fs, enabled), peer6), fs[k].kind) <==>
            && !Shadowed(fs, fs[k].kind)
            && (RowOf(fs[k]).extension == 0 || SwitchedOn(fs, enabled, RowOf(fs[k]).extension))
  {
    hide Row, HasItem, SwitchedOn, ExtensionItems, CommonItems, Common, ItemsBelow, Entry, Supported, RowOf, CommonKinds,
      HomeOf, Shadowed, DistinctKinds, Group, Ipv6;
    var kind, e := fs[k].kind, RowOf(fs[k]).extension;
    SupportedIsRow(fs[k]);
    var i :| 0 < i < MAX_ELEMENTS && Row(i) == RowOf(fs[k]);
    RowsAtHome(i);
    BelowHasItem(fs, Common(fs, enabled), peer6, EXTENSIONS_END, kind);
    forall d | 4 <= d < EXTENSIONS_END
      ensures HasItem(ExtensionItems(d, Ipv6(fs), peer6), kind) <==> Group(e) == Group(d) && !Shadowed(fs, kind)
    {
      ExtensionField(fs, d, peer6, kind);
    }
    if e == 0 {
      CommonField(fs, kind);
      assert Group(0) == 0 by { NoGroup(); }
      forall d | 4 <= d ensures Group(d) != 0 { GroupNumbers(d); }
    } else {
      GroupNumbers(e);
      CommonHasItem(fs, kind);
      GroupIsOn(fs, enabled, e);
    }
  }

  lemma NoGroup()
    ensures Group(0) == 0
  {}

  lemma PartIsHome(f: Field, d: nat)
    requires PartOf(f, d) && d != 0
    ensures HomeOf(f.kind) == Group(d) && Supported(f) && d == RowOf(f).extension
  {
    hide Row, FirstRow, Group, HomeOf, CommonKinds;
    var i :| 0 < i < MAX_ELEMENTS && Row(i).id == f.kind && Row(i).length == f.length && Row(i).extension == d;
    RowsAtHome(i);
    OneRow(f.kind, f.length, i);
  }

  lemma LoneHomes(a: nat, b: nat)
    requires HomeOf(a) == HomeOf(b) && HomeOf(a) in {EX_OUT_PKG_4, EX_OUT_BYTES_4}
    ensures a == b
  {}

  /** But for interfaces and AS numbers, it is the field's own extension that must be enabled. */
  lemma OwnExtension(fs: seq<Field>, enabled: set<nat>, k: nat)
    requires DistinctKinds(fs) && k < |fs| && Supported(fs[k]) && RowOf(fs[k]).extension != 0
    requires RowOf(fs[k]).extension !in {EX_IO_SNMP_2, EX_IO_SNMP_4, EX_AS_2, EX_AS_4}
    ensures SwitchedOn(fs, enabled, RowOf(fs[k]).extension) <==> RowOf(fs[k]).extension in enabled
  {
    hide Row, HomeOf, PartOf, Supported, RowOf;
    var e := RowOf(fs[k]).extension;
    SupportedIsRow(fs[k]);
    PartIsHome(fs[k], e);
    if j, d :| 0 <= j < |fs| && PartOf(fs[j], d) && d in enabled && Group(d) == Group(e) {
      PartIsHome(fs[j], d);
      if d != e {
        LoneHomes(fs[j].kind, fs[k].kind);
      }
    }
  }

  lemma IsPart(f: Field, i: nat)
    requires 0 < i < MAX_ELEMENTS && Row(i).id == f.kind && Row(i).length == f.length
    ensures PartOf(f, Row(i).extension) && Supported(f) && RowOf(f) == Row(i)
  {
    hide Row, FirstRow;
    OneRow(f.kind, f.length, i);
  }

  lemma SwitchesOn(fs: seq<Field>, enabled: set<nat>, j: nat, d: nat, e: nat)
    requires j < |fs| && PartOf(fs[j], d) && d in enabled && Group(d) == Group(e)
    ensures SwitchedOn(fs, enabled, e)
  {
    hide PartOf;
  }

  lemma InterfaceRows()
    ensures var r := Row(15);
            r.id == INGRESS_INTERFACE && r.length == 4 && r.extension == EX_IO_SNMP_4 && r.sequence.Writes() == 4
    ensures var r := Row(21); r.id == EGRESS_INTERFACE && r.length == 2 && r.extension == EX_IO_SNMP_2
  {}

  /** For those two, the other field's width may decide: here the extension of the first field is not enabled. */
  lemma MixedWidths()
    ensures var fs := [Field(INGRESS_INTERFACE, 4), Field(EGRESS_INTERFACE, 2)];
            && DistinctKinds(fs) && Supported(fs[0]) && RowOf(fs[0]).extension == EX_IO_SNMP_4
            && HasItem(Items(fs, Common(fs, {EX_IO_SNMP_2}), false), INGRESS_INTERFACE)
  {
    hide Row, HasItem, Items, Offers, Common, SwitchedOn, RowOf, PartOf, Supported;
    var fs := [Field(INGRESS_INTERFACE, 4), Field(EGRESS_INTERFACE, 2)];
    InterfaceRows();
    IsPart(fs[0], 15);
    IsPart(fs[1], 21);
    SwitchesOn(fs, {EX_IO_SNMP_2}, 1, EX_IO_SNMP_2, EX_IO_SNMP_4);
    FieldHasItem(fs, {EX_IO_SNMP_2}, false, 0);
  }

  /**
   From template to output record: every stored field that is not shadowed, and of the common record or switched on,
   is decoded at a part of the record that is for its type; only the ports give way to type and code of ICMP.
   */
  lemma FieldReaches(fs: seq<Field>, enabled: set<nat>, peer6: bool, k: nat, inp: seq<byte>, rate: nat, env: Env,
                     out: seq<byte>)
    requires DistinctKinds(fs) && k < |fs| && Supported(fs[k]) && 0 < RowOf(fs[k]).sequence.Writes()
    requires !Shadowed(fs, fs[k].kind)
    requires RowOf(fs[k]).extension == 0 || SwitchedOn(fs, enabled, RowOf(fs[k]).extension)
    requires Whole(fs, Common(fs, enabled), peer6, inp, out)
    requires fs[k].kind in {SOURCE_TRANSPORT_PORT, DESTINATION_TRANSPORT_PORT} ==> !IcmpRecord(fs, inp)
    ensures var items := Items(fs, Common(fs, enabled), peer6);
            var r := Finished(fs, Common(fs, enabled), peer6, inp, rate, env, out);
            exists i :: 0 <= i < |items| && items[i].Push? && items[i].kind == fs[k].kind
                        && Decoded(fs, k, inp, rate, r, At(fs, items, i))
  {
    hide Row, RowOf, SwitchedOn, Shadowed, Supported, DistinctKinds, Common, Items, IcmpRecord, At, Decoded, Finished, Whole;
    var items := Items(fs, Common(fs, enabled), peer6);
    FieldHasItem(fs, enabled, peer6, k);
    var i :| 0 <= i < |items| && items[i].Push? && items[i].kind == fs[k].kind;
    CommonFirst(fs, Common(fs, enabled), peer6);
    FieldDecoded(fs, Common(fs, enabled), peer6, k, i, inp, rate, env, out);
  }
}
