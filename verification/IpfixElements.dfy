/**
 The elements that the IPFIX decoder knows: their types are those of the IANA registry that section 3.2 of
 RFC 7011 refers to. The host is little-endian.
 */
module IpfixElements {
  import opened Bytes

  /** What a sequence does with the bytes of a field. */
  datatype Op =
    | Nop
    | Move8 | Move16 | Move32 | Move40 | Move48 | Move56 | Move64 | Move128
    | Move32Sampling | Move64Sampling | MoveMac | MoveMpls | Time64Mili | SaveIcmp
    | Zero8 | Zero16 | Zero32 | Zero64 | Zero128
  {
    /** Bytes that are read. */
    function Reads(): nat {
      match this
      case Move8 => 1
      case Move16 => 2
      case MoveMpls => 3
      case Move32 => 4
      case Move32Sampling => 4
      case Move40 => 5
      case Move48 => 6
      case MoveMac => 6
      case Move56 => 7
      case Move64 => 8
      case Move64Sampling => 8
      case Time64Mili => 8
      case Move128 => 16
      case _ => 0
    }

    /** Bytes of the output record that are written. */
    function Writes(): nat {
      match this
      case Nop => 0
      case SaveIcmp => 0
      case Time64Mili => 0
      case Move8 => 1
      case Zero8 => 1
      case Move16 => 2
      case Zero16 => 2
      case Move32 => 4
      case MoveMpls => 4
      case Zero32 => 4
      case Move128 => 16
      case Zero128 => 16
      case _ => 8
    }

    predicate IsZero() {
      Zero8? || Zero16? || Zero32? || Zero64? || Zero128?
    }

    predicate IsCounter() {
      Move32Sampling? || Move64Sampling?
    }
  }

  /** A row of ipfix_element_map: type, input and output length, what is done if the field is there and if it is not. */
  datatype Element = Element(id: nat, length: nat, outLength: nat, sequence: Op, zero: Op, extension: nat)

  /** Apart from fields that are not stored, and the times, the row says how wide the output is. */
  predicate Sane(e: Element) {
    || (e.sequence.Nop? && e.zero.Nop?)
    || (e.sequence.Time64Mili? && e.zero.Zero32? && e.length == 8)
    || (e.sequence.Reads() == e.length && e.sequence.Writes() == e.zero.Writes() == e.outLength && e.zero.IsZero()
        && !e.sequence.IsZero() && 0 < e.length)
  }

  predicate Fits(e: Element) {
    Sane(e) && e.id <= 153 && e.length <= 16 && e.sequence.Writes() <= e.outLength <= 16 && e.zero.Writes() <= e.outLength && e.sequence.Reads() <= e.length
  }

  const OCTET_DELTA_COUNT: nat := 1
  const PACKET_DELTA_COUNT: nat := 2
  const OCTET_TOTAL_COUNT: nat := 85
  const PACKET_TOTAL_COUNT: nat := 86
  const PROTOCOL_IDENTIFIER: nat := 4
  const IP_CLASS_OF_SERVICE: nat := 5
  const TCP_CONTROL_BITS: nat := 6
  const SOURCE_TRANSPORT_PORT: nat := 7
  const SOURCE_IPV4_ADDRESS: nat := 8
  const SOURCE_IPV4_PREFIX_LENGTH: nat := 9
  const INGRESS_INTERFACE: nat := 10
  const DESTINATION_TRANSPORT_PORT: nat := 11
  const DESTINATION_IPV4_ADDRESS: nat := 12
  const DESTINATION_IPV4_PREFIX_LENGTH: nat := 13
  const EGRESS_INTERFACE: nat := 14
  const IP_NEXT_HOP_IPV4_ADDRESS: nat := 15
  const BGP_SOURCE_AS_NUMBER: nat := 16
  const BGP_DESTINATION_AS_NUMBER: nat := 17
  const BGP_NEXT_HOP_IPV4_ADDRESS: nat := 18
  const FLOW_END_SYS_UP_TIME: nat := 21
  const FLOW_START_SYS_UP_TIME: nat := 22
  const POST_OCTET_DELTA_COUNT: nat := 23
  const POST_PACKET_DELTA_COUNT: nat := 24
  const SOURCE_IPV6_ADDRESS: nat := 27
  const DESTINATION_IPV6_ADDRESS: nat := 28
  const SOURCE_IPV6_PREFIX_LENGTH: nat := 29
  const DESTINATION_IPV6_PREFIX_LENGTH: nat := 30
  const FLOW_LABEL_IPV6: nat := 31
  const ICMP_TYPE_CODE_IPV4: nat := 32
  const POST_IP_CLASS_OF_SERVICE: nat := 55
  const SOURCE_MAC_ADDRESS: nat := 56
  const POST_DESTINATION_MAC_ADDRESS: nat := 57
  const VLAN_ID: nat := 58
  const POST_VLAN_ID: nat := 59
  const FLOW_DIRECTION: nat := 61
  const IP_NEXT_HOP_IPV6_ADDRESS: nat := 62
  const BGP_NEXT_HOP_IPV6_ADDRESS: nat := 63
  const MPLS_TOP_LABEL_STACK_SECTION: nat := 70
  const MPLS_LABEL_STACK_SECTION2: nat := 71
  const MPLS_LABEL_STACK_SECTION3: nat := 72
  const MPLS_LABEL_STACK_SECTION4: nat := 73
  const MPLS_LABEL_STACK_SECTION5: nat := 74
  const MPLS_LABEL_STACK_SECTION6: nat := 75
  const MPLS_LABEL_STACK_SECTION7: nat := 76
  const MPLS_LABEL_STACK_SECTION8: nat := 77
  const MPLS_LABEL_STACK_SECTION9: nat := 78
  const MPLS_LABEL_STACK_SECTION10: nat := 79
  const DESTINATION_MAC_ADDRESS: nat := 80
  const POST_SOURCE_MAC_ADDRESS: nat := 81
  const FLOW_START_MILLISECONDS: nat := 152
  const FLOW_END_MILLISECONDS: nat := 153

  const COMMON_BLOCK: nat := 0
  const EX_IO_SNMP_2: nat := 4
  const EX_IO_SNMP_4: nat := 5
  const EX_AS_2: nat := 6
  const EX_AS_4: nat := 7
  const EX_MULTIPLE: nat := 8
  const EX_NEXT_HOP_V4: nat := 9
  const EX_NEXT_HOP_V6: nat := 10
  const EX_NEXT_HOP_BGP_V4: nat := 11
  const EX_NEXT_HOP_BGP_V6: nat := 12
  const EX_VLAN: nat := 13
  const EX_OUT_PKG_4: nat := 14
  const EX_OUT_PKG_8: nat := 15
  const EX_OUT_BYTES_4: nat := 16
  const EX_OUT_BYTES_8: nat := 17
  const EX_MAC_1: nat := 20
  const EX_MAC_2: nat := 21
  const EX_MPLS: nat := 22
  const EX_ROUTER_IP_V4: nat := 23
  const EX_ROUTER_IP_V6: nat := 24
  const EX_RECEIVED: nat := 27

  /** One more than the last row that is used. */
  const MAX_ELEMENTS: nat := 62

  /** ipfix_element_map; row 0 and the last one have type 0. */
  function Row(i: nat): (e: Element)
    ensures Fits(e) && (e.id == 0 <==> i == 0 || MAX_ELEMENTS <= i) && e.id !in {3, 83, 84}
  {
    if i < 17 then RowBelow17(i) else if i < 32 then RowBelow32(i) else if i < 48 then RowBelow48(i) else RowFrom48(i)
  }

  function RowBelow17(i: nat): (e: Element)
    requires i < 17
    ensures Fits(e) && (e.id == 0 <==> i == 0) && e.id !in {3, 83, 84}
  {
    match i
    case 1 => Element(OCTET_DELTA_COUNT, 8, 8, Move64Sampling, Zero64, COMMON_BLOCK)
    case 2 => Element(OCTET_DELTA_COUNT, 4, 8, Move32Sampling, Zero64, COMMON_BLOCK)
    case 3 => Element(PACKET_DELTA_COUNT, 8, 8, Move64Sampling, Zero64, COMMON_BLOCK)
    case 4 => Element(PACKET_DELTA_COUNT, 4, 8, Move32Sampling, Zero64, COMMON_BLOCK)
    case 5 => Element(OCTET_TOTAL_COUNT, 8, 8, Move64Sampling, Zero64, COMMON_BLOCK)
    case 6 => Element(OCTET_TOTAL_COUNT, 4, 8, Move32Sampling, Zero64, COMMON_BLOCK)
    case 7 => Element(PACKET_TOTAL_COUNT, 8, 8, Move64Sampling, Zero64, COMMON_BLOCK)
    case 8 => Element(PACKET_TOTAL_COUNT, 4, 8, Move32Sampling, Zero64, COMMON_BLOCK)
    case 9 => Element(PROTOCOL_IDENTIFIER, 1, 1, Move8, Zero8, COMMON_BLOCK)
    case 10 => Element(IP_CLASS_OF_SERVICE, 1, 1, Move8, Zero8, COMMON_BLOCK)
    case 11 => Element(TCP_CONTROL_BITS, 1, 1, Move8, Zero8, COMMON_BLOCK)
    case 12 => Element(SOURCE_TRANSPORT_PORT, 2, 2, Move16, Zero16, COMMON_BLOCK)
    case 13 => Element(SOURCE_IPV4_ADDRESS, 4, 4, Move32, Zero32, COMMON_BLOCK)
    case 14 => Element(SOURCE_IPV4_PREFIX_LENGTH, 1, 1, Move8, Zero8, EX_MULTIPLE)
    case 15 => Element(INGRESS_INTERFACE, 4, 4, Move32, Zero32, EX_IO_SNMP_4)
    case 16 => Element(INGRESS_INTERFACE, 2, 2, Move16, Zero16, EX_IO_SNMP_2)
    case _ => Element(0, 0, 0, Nop, Nop, COMMON_BLOCK)
  }

  function RowBelow32(i: nat): (e: Element)
    requires 17 <= i < 32
    ensures Fits(e) && e.id !in {0, 3, 83, 84}
  {
    match i
    case 17 => Element(DESTINATION_TRANSPORT_PORT, 2, 2, Move16, Zero16, COMMON_BLOCK)
    case 18 => Element(DESTINATION_IPV4_ADDRESS, 4, 4, Move32, Zero32, COMMON_BLOCK)
    case 19 => Element(DESTINATION_IPV4_PREFIX_LENGTH, 1, 1, Move8, Zero8, EX_MULTIPLE)
    case 20 => Element(EGRESS_INTERFACE, 4, 4, Move32, Zero32, EX_IO_SNMP_4)
    case 21 => Element(EGRESS_INTERFACE, 2, 2, Move16, Zero16, EX_IO_SNMP_2)
    case 22 => Element(IP_NEXT_HOP_IPV4_ADDRESS, 4, 4, Move32, Zero32, EX_NEXT_HOP_V4)
    case 23 => Element(BGP_SOURCE_AS_NUMBER, 4, 4, Move32, Zero32, EX_AS_4)
    case 24 => Element(BGP_SOURCE_AS_NUMBER, 2, 2, Move16, Zero16, EX_AS_2)
    case 25 => Element(BGP_DESTINATION_AS_NUMBER, 4, 4, Move32, Zero32, EX_AS_4)
    case 26 => Element(BGP_DESTINATION_AS_NUMBER, 2, 2, Move16, Zero16, EX_AS_2)
    case 27 => Element(BGP_NEXT_HOP_IPV4_ADDRESS, 4, 4, Move32, Zero32, EX_NEXT_HOP_BGP_V4)
    case 28 => Element(FLOW_END_SYS_UP_TIME, 4, 4, Nop, Nop, COMMON_BLOCK)
    case 29 => Element(FLOW_START_SYS_UP_TIME, 4, 4, Nop, Nop, COMMON_BLOCK)
    case 30 => Element(POST_OCTET_DELTA_COUNT, 8, 8, Move64, Zero64, EX_OUT_BYTES_8)
    case _ => Element(POST_OCTET_DELTA_COUNT, 4, 4, Move32, Zero32, EX_OUT_BYTES_4)
  }

  function RowBelow48(i: nat): (e: Element)
    requires 32 <= i < 48
    ensures Fits(e) && e.id !in {0, 3, 83, 84}
  {
    match i
    case 32 => Element(POST_PACKET_DELTA_COUNT, 8, 8, Move64, Zero64, EX_OUT_PKG_8)
    case 33 => Element(POST_PACKET_DELTA_COUNT, 4, 4, Move32, Zero32, EX_OUT_PKG_4)
    case 34 => Element(SOURCE_IPV6_ADDRESS, 16, 16, Move128, Zero128, COMMON_BLOCK)
    case 35 => Element(DESTINATION_IPV6_ADDRESS, 16, 16, Move128, Zero128, COMMON_BLOCK)
    case 36 => Element(SOURCE_IPV6_PREFIX_LENGTH, 1, 1, Move8, Zero8, EX_MULTIPLE)
    case 37 => Element(DESTINATION_IPV6_PREFIX_LENGTH, 1, 1, Move8, Zero8, EX_MULTIPLE)
    case 38 => Element(FLOW_LABEL_IPV6, 4, 4, Nop, Nop, COMMON_BLOCK)
    case 39 => Element(ICMP_TYPE_CODE_IPV4, 2, 2, Nop, Nop, COMMON_BLOCK)
    case 40 => Element(POST_IP_CLASS_OF_SERVICE, 1, 1, Move8, Zero8, EX_MULTIPLE)
    case 41 => Element(SOURCE_MAC_ADDRESS, 6, 8, MoveMac, Zero64, EX_MAC_1)
    case 42 => Element(POST_DESTINATION_MAC_ADDRESS, 6, 8, MoveMac, Zero64, EX_MAC_1)
    case 43 => Element(VLAN_ID, 2, 2, Move16, Zero16, EX_VLAN)
    case 44 => Element(POST_VLAN_ID, 2, 2, Move16, Zero16, EX_VLAN)
    case 45 => Element(FLOW_DIRECTION, 1, 1, Move8, Zero8, EX_MULTIPLE)
    case 46 => Element(IP_NEXT_HOP_IPV6_ADDRESS, 16, 16, Move128, Zero128, EX_NEXT_HOP_V6)
    case _ => Element(BGP_NEXT_HOP_IPV6_ADDRESS, 16, 16, Move128, Zero128, EX_NEXT_HOP_BGP_V6)
  }

  function RowFrom48(i: nat): (e: Element)
    requires 48 <= i
    ensures Fits(e) && (e.id == 0 <==> MAX_ELEMENTS <= i) && e.id !in {3, 83, 84}
  {
    match i
    case 48 => Element(MPLS_TOP_LABEL_STACK_SECTION, 3, 4, MoveMpls, Zero32, EX_MPLS)
    case 49 => Element(MPLS_LABEL_STACK_SECTION2, 3, 4, MoveMpls, Zero32, EX_MPLS)
    case 50 => Element(MPLS_LABEL_STACK_SECTION3, 3, 4, MoveMpls, Zero32, EX_MPLS)
    case 51 => Element(MPLS_LABEL_STACK_SECTION4, 3, 4, MoveMpls, Zero32, EX_MPLS)
    case 52 => Element(MPLS_LABEL_STACK_SECTION5, 3, 4, MoveMpls, Zero32, EX_MPLS)
    case 53 => Element(MPLS_LABEL_STACK_SECTION6, 3, 4, MoveMpls, Zero32, EX_MPLS)
    case 54 => Element(MPLS_LABEL_STACK_SECTION7, 3, 4, MoveMpls, Zero32, EX_MPLS)
    case 55 => Element(MPLS_LABEL_STACK_SECTION8, 3, 4, MoveMpls, Zero32, EX_MPLS)
    case 56 => Element(MPLS_LABEL_STACK_SECTION9, 3, 4, MoveMpls, Zero32, EX_MPLS)
    case 57 => Element(MPLS_LABEL_STACK_SECTION10, 3, 4, MoveMpls, Zero32, EX_MPLS)
    case 58 => Element(DESTINATION_MAC_ADDRESS, 6, 8, MoveMac, Zero64, EX_MAC_2)
    case 59 => Element(POST_SOURCE_MAC_ADDRESS, 6, 8, MoveMac, Zero64, EX_MAC_2)
    case 60 => Element(FLOW_START_MILLISECONDS, 8, 8, Time64Mili, Zero32, COMMON_BLOCK)
    case 61 => Element(FLOW_END_MILLISECONDS, 8, 8, Time64Mili, Zero32, COMMON_BLOCK)
    case _ => Element(0, 0, 0, Nop, Nop, COMMON_BLOCK)
  }

  // ---------------------------------------------------------------- search in the table

  /** The first row of a type from row `i` on, or 0. */
  function FirstRow(kind: nat, i: nat): (r: nat)
    requires 0 < i <= MAX_ELEMENTS
    ensures r == 0 || (i <= r < MAX_ELEMENTS && Row(r).id == kind)
    ensures r == 0 ==> forall k :: i <= k < MAX_ELEMENTS ==> Row(k).id != kind
    ensures r != 0 ==> forall k :: i <= k < r ==> Row(k).id != kind
    decreases MAX_ELEMENTS - i
  {
    if i == MAX_ELEMENTS then 0 else if Row(i).id == kind then i else FirstRow(kind, i + 1)
  }

  /** The loop of MapElement: from row `i` on, the rows of the type are searched for the length; 0 if it is not there. */
  function Match(kind: nat, length: nat, i: nat): (r: nat)
    requires i <= MAX_ELEMENTS
    ensures r != 0 ==> i <= r < MAX_ELEMENTS && Row(r).id == kind && Row(r).length == length
    decreases MAX_ELEMENTS - i
  {
    if i == 0 || i == MAX_ELEMENTS || Row(i).id != kind then 0
    else if Row(i).length == length then i
    else Match(kind, length, i + 1)
  }

  predicate InTable(kind: nat) {
    kind !in {0, 3, 83, 84}
  }

  /** An order of the types in which the rows of the table rise. */
  function Rank(kind: nat): nat {
    if kind == OCTET_TOTAL_COUNT || kind == PACKET_TOTAL_COUNT then kind - 82 else if kind <= 2 then kind else kind + 2
  }

  /** The next row has the same type and is for a shorter field, or has a type behind it. */
  predicate Follows(e: Element, f: Element) {
    Rank(e.id) < Rank(f.id) || (e.id == f.id && f.length < e.length)
  }

  lemma FollowsBelow17(i: nat)
    requires 0 < i < 16
    ensures Follows(RowBelow17(i), RowBelow17(i + 1))
  {}

  lemma FollowsBelow32(i: nat)
    requires 17 <= i < 31
    ensures Follows(RowBelow32(i), RowBelow32(i + 1))
  {}

  lemma FollowsBelow48(i: nat)
    requires 32 <= i < 47
    ensures Follows(RowBelow48(i), RowBelow48(i + 1))
  {}

  lemma FollowsFrom48(i: nat)
    requires 48 <= i < MAX_ELEMENTS - 1
    ensures Follows(RowFrom48(i), RowFrom48(i + 1))
  {}

  lemma FollowsBetween()
    ensures Follows(RowBelow17(16), RowBelow32(17)) && Follows(RowBelow32(31), RowBelow48(32))
    ensures Follows(RowBelow48(47), RowFrom48(48))
  {}

  lemma NextFollows(i: nat)
    requires 0 < i < MAX_ELEMENTS - 1
    ensures Follows(Row(i), Row(i + 1))
  {
    hide RowBelow17, RowBelow32, RowBelow48, RowFrom48, Follows;
    FollowsBetween();
    if i < 16 {
      FollowsBelow17(i);
    } else if 17 <= i < 31 {
      FollowsBelow32(i);
    } else if 32 <= i < 47 {
      FollowsBelow48(i);
    } else if 48 <= i {
      FollowsFrom48(i);
    }
  }

  lemma {:induction false} RanksRise(i: nat, k: nat)
    requires 0 < i <= k < MAX_ELEMENTS
    ensures Rank(Row(i).id) <= Rank(Row(k).id)
    decreases k - i
  {
    hide Row;
    if i < k {
      RanksRise(i, k - 1);
      NextFollows(k - 1);
    }
  }

  /** No two rows are for the same type and length. */
  lemma {:induction false} RowsDiffer(i: nat, k: nat)
    requires 0 < i < k < MAX_ELEMENTS
    ensures Row(i).id == Row(k).id ==> Row(k).length < Row(i).length
    decreases k - i
  {
    hide Row, Rank;
    NextFollows(k - 1);
    if i < k - 1 {
      RowsDiffer(i, k - 1);
      RanksRise(i, k - 1);
    }
  }

  /** The rows of a type follow each other, so the search finds every length that the table has for the type. */
  lemma {:induction false} MatchFinds(kind: nat, length: nat, i: nat, k: nat)
    requires 0 < i <= k < MAX_ELEMENTS && Row(i).id == kind && Row(k).id == kind && Row(k).length == length
    ensures Match(kind, length, i) != 0
    decreases k - i
  {
    hide Row, Rank;
    if i < k {
      RanksRise(i, i + 1);
      RanksRise(i + 1, k);
      SameRank(Row(i).id, Row(i + 1).id);
      MatchFinds(kind, length, i + 1, k);
    }
  }

  lemma SameRank(kind: nat, other: nat)
    requires Rank(kind) == Rank(other) && InTable(kind) && InTable(other)
    ensures kind == other
  {}

  /** The row of a type and length is the one that the search finds. */
  lemma OneRow(kind: nat, length: nat, k: nat)
    requires 0 < k < MAX_ELEMENTS && Row(k).id == kind && Row(k).length == length
    ensures Match(kind, length, FirstRow(kind, 1)) == k
  {
    hide Row;
    MatchFinds(kind, length, FirstRow(kind, 1), k);
    var m := Match(kind, length, FirstRow(kind, 1));
    if m < k { RowsDiffer(m, k); }
    if k < m { RowsDiffer(k, m); }
  }

  ghost predicate HasType(kind: nat) {
    exists k :: 0 < k < MAX_ELEMENTS && Row(k).id == kind
  }

  ghost predicate HasRow(kind: nat, length: nat) {
    exists k :: 0 < k < MAX_ELEMENTS && Row(k).id == kind && Row(k).length == length
  }

  /** The search from the first row of a type finds a length just when the table has a row for both. */
  lemma SupportedIff(kind: nat, length: nat)
    ensures HasRow(kind, length) <==> Match(kind, length, FirstRow(kind, 1)) != 0
    ensures HasType(kind) <==> FirstRow(kind, 1) != 0
  {
    hide Row;
    if k :| 0 < k < MAX_ELEMENTS && Row(k).id == kind && Row(k).length == length {
      MatchFinds(kind, length, FirstRow(kind, 1), k);
    }
  }
}
