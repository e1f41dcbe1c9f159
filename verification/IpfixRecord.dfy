/**
 The output record byte by byte: which field is where, told from the template by numbers of types and lengths alone.
 */
module IpfixRecord {
  import opened Bytes
  import opened IpfixData
  import opened IpfixDecoder
  import opened IpfixElements
  import opened IpfixLayout
  import opened IpfixSelection
  import opened IpfixTemplate

  // ---------------------------------------------------------------- types, lengths and sizes

  /** The lengths that are understood for a type. */
  function Lengths(kind: nat): set<nat> {
    if kind in {1, 2, 23, 24, 85, 86} then {4, 8}
    else if kind in {4, 5, 6, 9, 13, 29, 30, 55, 61} then {1}
    else if kind in {7, 11, 32, 58, 59} then {2}
    else if kind in {8, 12, 15, 18, 21, 22, 31} then {4}
    else if kind in {10, 14, 16, 17} then {2, 4}
    else if kind in {27, 28, 62, 63} then {16}
    else if kind in {56, 57, 80, 81} then {6}
    else if 70 <= kind <= 79 then {3}
    else if kind in {152, 153} then {8}
    else {}
  }

  /** The template has a field of the type, in a length that is understood. */
  ghost predicate Present(fs: seq<Field>, kind: nat) {
    exists k :: 0 <= k < |fs| && fs[k].kind == kind && fs[k].length in Lengths(kind)
  }

  /** Types that have bytes of their own in the record: not the times, type and code of ICMP, and three more. */
  predicate IsStored(kind: nat) {
    Lengths(kind) != {} && kind !in {21, 22, 31, 32, 152, 153}
  }

  /** How many bytes of the record a field of this type and length takes. */
  function Sized(kind: nat, length: nat): nat {
    if kind in {1, 2, 56, 57, 80, 81, 85, 86} then 8 else if 70 <= kind <= 79 then 4 else length
  }

  /** How many bytes of the record are for a type; without a field they are those of its longest one. */
  ghost function SizeOf(fs: seq<Field>, kind: nat): nat {
    if kind in {1, 2, 56, 57, 80, 81, 85, 86} then 8
    else if kind in {23, 24} then (if Field(kind, 4) in fs then 4 else 8)
    else if kind in {10, 14, 16, 17} then (if Field(kind, 2) in fs then 2 else 4)
    else if kind in {8, 12, 15, 18} || 70 <= kind <= 79 then 4
    else if kind in {27, 28, 62, 63} then 16
    else if kind in {7, 11, 58, 59} then 2
    else 1
  }

  /** The extension that a field of this type and length is a part of; 0 for the common record and what is not stored. */
  function ExtensionFor(kind: nat, length: nat): nat {
    if kind in {10, 14} then (if length == 2 then 4 else 5)
    else if kind in {16, 17} then (if length == 2 then 6 else 7)
    else if kind in {9, 13, 29, 30, 55, 61} then 8
    else if kind == 15 then 9
    else if kind == 62 then 10
    else if kind == 18 then 11
    else if kind == 63 then 12
    else if kind in {58, 59} then 13
    else if kind == 24 then (if length == 4 then 14 else 15)
    else if kind == 23 then (if length == 4 then 16 else 17)
    else if kind in {56, 57} then 20
    else if kind in {80, 81} then 21
    else if 70 <= kind <= 79 then 22
    else 0
  }

  /** What the table says of a type: the length is one of its lengths, and as many bytes as above are stored. */
  predicate Described(r: Element) {
    && r.length in Lengths(r.id) && r.extension == ExtensionFor(r.id, r.length)
    && (IsStored(r.id) ==>
          && r.outLength == Sized(r.id, r.length) && r.sequence.Writes() == r.outLength && r.zero.Writes() == r.outLength
          && (r.sequence.Move128? <==> r.id in {27, 28, 62, 63})
          && (r.sequence.IsCounter() <==> r.id in {1, 2, 85, 86}))
  }

  lemma DescribedBelow17(i: nat)
    requires 0 < i < 17
    ensures Described(RowBelow17(i))
  {}

  lemma DescribedBelow32(i: nat)
    requires 17 <= i < 32
    ensures Described(RowBelow32(i))
  {}

  lemma DescribedBelow48(i: nat)
    requires 32 <= i < 48
    ensures Described(RowBelow48(i))
  {}

  lemma DescribedFrom48(i: nat)
    requires 48 <= i < MAX_ELEMENTS
    ensures Described(RowFrom48(i))
  {}

  lemma RowsDescribed(i: nat)
    requires 0 < i < MAX_ELEMENTS
    ensures Described(Row(i))
  {
    hide RowBelow17, RowBelow32, RowBelow48, RowFrom48, Described;
    if i < 17 {
      DescribedBelow17(i);
    } else if i < 32 {
      DescribedBelow32(i);
    } else if i < 48 {
      DescribedBelow48(i);
    } else {
      DescribedFrom48(i);
    }
  }

  /** The row for a type and one of its lengths. */
  function RowFor(kind: nat, length: nat): nat
    requires length in Lengths(kind)
  {
    if kind <= 2 then 2 * kind - (if length == 8 then 1 else 0)
    else if kind in {85, 86} then 2 * kind - 164 - (if length == 8 then 1 else 0)
    else if kind <= 9 then [9, 10, 11, 12, 13, 14][kind - 4]
    else if kind == 10 then (if length == 4 then 15 else 16)
    else if kind <= 13 then kind + 6
    else if kind == 14 then (if length == 4 then 20 else 21)
    else if kind == 15 then 22
    else if kind in {16, 17} then 2 * kind - 8 - (if length == 4 then 1 else 0)
    else if kind == 18 then 27
    else if kind in {21, 22} then kind + 7
    else if kind in {23, 24} then 2 * kind - 15 - (if length == 8 then 1 else 0)
    else if 27 <= kind <= 32 then kind + 7
    else if 55 <= kind <= 59 then kind - 15
    else if 61 <= kind <= 63 then kind - 16
    else if 70 <= kind <= 81 then kind - 22
    else kind - 92
  }

  lemma RowForLow(kind: nat, length: nat)
    requires length in Lengths(kind) && (kind < 16 || kind in {85, 86})
    ensures var i := RowFor(kind, length); 0 < i < MAX_ELEMENTS && Row(i).id == kind && Row(i).length == length
  {}

  lemma RowForHigh(kind: nat, length: nat)
    requires length in Lengths(kind) && 16 <= kind && kind !in {85, 86}
    ensures var i := RowFor(kind, length); 0 < i < MAX_ELEMENTS && Row(i).id == kind && Row(i).length == length
  {}

  lemma RowForIsThere(kind: nat, length: nat)
    requires length in Lengths(kind)
    ensures var i := RowFor(kind, length); 0 < i < MAX_ELEMENTS && Row(i).id == kind && Row(i).length == length
  {
    hide Row, RowFor, Lengths;
    if kind < 16 || kind in {85, 86} {
      RowForLow(kind, length);
    } else {
      RowForHigh(kind, length);
    }
  }

  /** The table has rows for just those lengths. */
  lemma SupportedLengths(f: Field)
    ensures Supported(f) <==> f.length in Lengths(f.kind)
  {
    hide Row, RowFor, Lengths;
    if i :| 0 < i < MAX_ELEMENTS && Row(i).id == f.kind && Row(i).length == f.length {
      RowsDescribed(i);
    }
    if f.length in Lengths(f.kind) {
      RowForIsThere(f.kind, f.length);
    }
  }

  lemma OffersIsPresent(fs: seq<Field>, kind: nat)
    ensures Offers(fs, kind) <==> Present(fs, kind)
  {
    hide Supported, Lengths;
    forall k | 0 <= k < |fs| ensures Supported(fs[k]) <==> fs[k].length in Lengths(fs[k].kind) {
      SupportedLengths(fs[k]);
    }
  }

  /** The longest length of a type is in the first row. */
  function Longest(kind: nat): nat {
    if kind in {1, 2, 23, 24, 85, 86, 152, 153} then 8
    else if kind in {4, 5, 6, 9, 13, 29, 30, 55, 61} then 1
    else if kind in {7, 11, 32, 58, 59} then 2
    else if kind in {27, 28, 62, 63} then 16
    else if kind in {56, 57, 80, 81} then 6
    else if 70 <= kind <= 79 then 3
    else 4
  }

  lemma LongestIs(kind: nat, length: nat)
    requires length in Lengths(kind)
    ensures Longest(kind) in Lengths(kind) && length <= Longest(kind)
  {}

  lemma FirstIsLongest(kind: nat)
    requires Lengths(kind) != {}
    ensures var i := FirstRow(kind, 1); 0 < i < MAX_ELEMENTS && Row(i).id == kind && Row(i).length == Longest(kind)
  {
    hide Row, RowFor, Lengths, Longest, ExtensionFor, Sized;
    var length :| length in Lengths(kind);
    LongestIs(kind, length);
    var k, i := RowFor(kind, Longest(kind)), FirstRow(kind, 1);
    RowForIsThere(kind, Longest(kind));
    RowsDescribed(i);
    LongestIs(kind, Row(i).length);
    if i < k {
      RowsDiffer(i, k);
    }
  }

  lemma SizeIsSized(fs: seq<Field>, kind: nat)
    requires DistinctKinds(fs) && IsStored(kind)
    ensures forall k :: 0 <= k < |fs| && fs[k].kind == kind && fs[k].length in Lengths(kind) ==>
                          SizeOf(fs, kind) == Sized(kind, fs[k].length)
    ensures !Present(fs, kind) ==> SizeOf(fs, kind) == Sized(kind, Longest(kind))
  {
    forall k | 0 <= k < |fs| && fs[k].kind == kind && fs[k].length in Lengths(kind)
      ensures SizeOf(fs, kind) == Sized(kind, fs[k].length)
    {
      if Field(kind, 2) in fs || Field(kind, 4) in fs {
        var j :| 0 <= j < |fs| && (fs[j] == Field(kind, 2) || fs[j] == Field(kind, 4));
        assert j == k;
      }
    }
    if Field(kind, 2) in fs {
      var j :| 0 <= j < |fs| && fs[j] == Field(kind, 2);
    }
    if Field(kind, 4) in fs {
      var j :| 0 <= j < |fs| && fs[j] == Field(kind, 4);
    }
  }

  /** A part of the record is as wide as the size of its type says. */
  lemma WidthIsSize(fs: seq<Field>, kind: nat)
    requires DistinctKinds(fs) && IsStored(kind)
    ensures Row(Entry(fs, kind).index).outLength == SizeOf(fs, kind)
  {
    hide Row, FirstRow, Match, Known, Lengths, Sized, SizeOf, Longest, OffsetAt;
    SizeIsSized(fs, kind);
    if k :| 0 <= k < |fs| && fs[k].kind == kind {
      KnownField(fs, k);
      SupportedLengths(fs[k]);
      SupportedIff(kind, fs[k].length);
    } else {
      UnknownBefore(fs, |fs|, kind);
    }
    FirstIsLongest(kind);
    RowsDescribed(Entry(fs, kind).index);
  }

  // ---------------------------------------------------------------- what is at one place of the record

  /**
   At byte `at` of the record is the field of this type, as the number of its bytes in the data record; packets and
   bytes are multiplied by the sampling rate, an IPv6 address is two numbers, and without the field there are zeros.
   */
  ghost predicate Shows(fs: seq<Field>, inp: seq<byte>, rate: nat, r: seq<byte>, kind: nat, at: nat) {
    var n := SizeOf(fs, kind);
    && at + n <= |r|
    && (!Present(fs, kind) ==> r[at..at + n] == Zeros(n))
    && forall k :: 0 <= k < |fs| && fs[k].kind == kind && fs[k].length in Lengths(kind) ==>
                     && Total(fs, k) + fs[k].length <= |inp|
                     && IsValue(kind, r[at..at + n], inp[Total(fs, k)..Total(fs, k) + fs[k].length], rate)
  }

  ghost predicate IsValue(kind: nat, stored: seq<byte>, f: seq<byte>, rate: nat) {
    if kind in {27, 28, 62, 63} then
      |f| == 16 && |stored| == 16 && LE(stored[..8]) == BE(f[..8]) && LE(stored[8..]) == BE(f[8..])
    else LE(stored) == if kind in {1, 2, 85, 86} then BE(f) * rate % U64 else BE(f)
  }

  lemma DecodedIsValue(fs: seq<Field>, k: nat, inp: seq<byte>, rate: nat, r: seq<byte>, at: nat)
    requires DistinctKinds(fs) && k < |fs| && fs[k].length in Lengths(fs[k].kind) && IsStored(fs[k].kind)
    requires Decoded(fs, k, inp, rate, r, at)
    ensures at + SizeOf(fs, fs[k].kind) <= |r| && Total(fs, k) + fs[k].length <= |inp|
    ensures IsValue(fs[k].kind, r[at..at + SizeOf(fs, fs[k].kind)], inp[Total(fs, k)..Total(fs, k) + fs[k].length], rate)
  {
    hide Row, FirstRow, Match, Lengths, Sized, SizeOf, Longest, LE, BE, Total;
    var kind := fs[k].kind;
    SizeIsSized(fs, kind);
    SupportedLengths(fs[k]);
    SupportedIff(kind, fs[k].length);
    RowsDescribed(Match(kind, fs[k].length, FirstRow(kind, 1)));
    assert 0 < Sized(kind, fs[k].length) by { SizesArePositive(kind, fs[k].length); }
  }

  lemma SizesArePositive(kind: nat, length: nat)
    requires length in Lengths(kind)
    ensures 0 < Sized(kind, length)
  {}

  /** Every part of the record shows the field of its type. */
  lemma ItemShows(fs: seq<Field>, common: set<nat>, peer6: bool, i: nat, inp: seq<byte>, rate: nat, env: Env,
                  out: seq<byte>)
    requires DistinctKinds(fs) && Whole(fs, common, peer6, inp, out)
    requires i < |Items(fs, common, peer6)| && Items(fs, common, peer6)[i].Push?
    requires IsStored(Items(fs, common, peer6)[i].kind)
    requires i == 4 || i == 5 ==> !IcmpRecord(fs, inp)
    ensures Shows(fs, inp, rate, Finished(fs, common, peer6, inp, rate, env, out), Items(fs, common, peer6)[i].kind,
                  At(fs, Items(fs, common, peer6), i))
  {
    hide Row, FirstRow, Items, At, Finished, IcmpRecord, IsValue, Decoded, Lengths, Sized, SizeOf, Longest, Total, Supported;
    var kind, at := Items(fs, common, peer6)[i].kind, At(fs, Items(fs, common, peer6), i);
    var r := Finished(fs, common, peer6, inp, rate, env, out);
    if !Present(fs, kind) {
      forall k | 0 <= k < |fs| && fs[k].kind == kind ensures !Supported(fs[k]) { SupportedLengths(fs[k]); }
      AbsentIsZero(fs, common, peer6, i, inp, rate, env, out);
      SizeIsSized(fs, kind);
      FirstIsLongest(kind);
      RowsDescribed(FirstRow(kind, 1));
    } else {
      forall k | 0 <= k < |fs| && fs[k].kind == kind && fs[k].length in Lengths(kind)
        ensures at + SizeOf(fs, kind) <= |r| && Total(fs, k) + fs[k].length <= |inp|
        ensures IsValue(kind, r[at..at + SizeOf(fs, kind)], inp[Total(fs, k)..Total(fs, k) + fs[k].length], rate)
      {
        SupportedLengths(fs[k]);
        FieldDecoded(fs, common, peer6, k, i, inp, rate, env, out);
        DecodedIsValue(fs, k, inp, rate, r, at);
      }
    }
  }

  /** Fields of these types, one behind the other from byte `at` on. */
  ghost predicate InOrder(fs: seq<Field>, inp: seq<byte>, rate: nat, r: seq<byte>, at: nat, kinds: seq<nat>)
    decreases |kinds|
  {
    || |kinds| == 0
    || (Shows(fs, inp, rate, r, kinds[0], at) && InOrder(fs, inp, rate, r, at + SizeOf(fs, kinds[0]), kinds[1..]))
  }

  ghost predicate AreItems(items: seq<Item>, kinds: seq<nat>) {
    && |items| == |kinds|
    && forall i :: 0 <= i < |kinds| ==> items[i].Push? && items[i].kind == kinds[i] && IsStored(kinds[i])
  }

  lemma {:induction false} ItemsInOrder(fs: seq<Field>, common: set<nat>, peer6: bool, i: nat, kinds: seq<nat>,
                                        inp: seq<byte>, rate: nat, env: Env, out: seq<byte>)
    requires DistinctKinds(fs) && Whole(fs, common, peer6, inp, out)
    requires 6 <= i && i + |kinds| <= |Items(fs, common, peer6)|
    requires AreItems(Items(fs, common, peer6)[i..i + |kinds|], kinds)
    ensures InOrder(fs, inp, rate, Finished(fs, common, peer6, inp, rate, env, out),
                    At(fs, Items(fs, common, peer6), i), kinds)
    decreases |kinds|
  {
    hide Row, Entry, Items, At, Finished, Shows, SizeOf, IsStored, Whole, DistinctKinds;
    if |kinds| > 0 {
      var items := Items(fs, common, peer6);
      var part := items[i..i + |kinds|];
      assert part[0] == items[i];
      assert part[1..] == items[i + 1..i + 1 + |kinds[1..]|];
      ItemShows(fs, common, peer6, i, inp, rate, env, out);
      AtStep(fs, items, i);
      WidthIsSize(fs, kinds[0]);
      ItemsInOrder(fs, common, peer6, i + 1, kinds[1..], inp, rate, env, out);
    }
  }

  // ---------------------------------------------------------------- where the extensions begin

  /** Addresses are IPv6 ones if only such a source is there. */
  ghost predicate HasIpv6(fs: seq<Field>) {
    !Present(fs, 8) && Present(fs, 27)
  }

  /** How many bytes an extension takes. */
  ghost function Wide(fs: seq<Field>, peer6: bool, e: nat): nat {
    match e
    case 4 => SizeOf(fs, 10) + SizeOf(fs, 14)
    case 5 => SizeOf(fs, 10) + SizeOf(fs, 14)
    case 6 => SizeOf(fs, 16) + SizeOf(fs, 17)
    case 7 => SizeOf(fs, 16) + SizeOf(fs, 17)
    case 8 => 4
    case 9 => 4
    case 10 => 16
    case 11 => 4
    case 12 => 16
    case 13 => 4
    case 14 => SizeOf(fs, 24)
    case 15 => SizeOf(fs, 24)
    case 16 => SizeOf(fs, 23)
    case 17 => SizeOf(fs, 23)
    case 20 => 16
    case 21 => 16
    case 22 => 40
    case 23 => if peer6 then 16 else 4
    case 24 => if peer6 then 16 else 4
    case 27 => 8
    case _ => 0
  }

  /** The first byte of an extension: behind the two addresses, the two counters and the extensions before it. */
  ghost function Begin(fs: seq<Field>, on: set<nat>, peer6: bool, e: nat): nat {
    if e <= 4 then 32 + (if HasIpv6(fs) then 32 else 8) + 16
    else Begin(fs, on, peer6, e - 1) + if e - 1 in on then Wide(fs, peer6, e - 1) else 0
  }

  /** The types of an extension, in order. */
  function Parts(e: nat, v6: bool): seq<nat> {
    match e
    case 4 => [10, 14]
    case 5 => [10, 14]
    case 6 => [16, 17]
    case 7 => [16, 17]
    case 8 => [55, 61] + if v6 then [29, 30] else [9, 13]
    case 9 => [15]
    case 10 => [62]
    case 11 => [18]
    case 12 => [63]
    case 13 => [58, 59]
    case 14 => [24]
    case 15 => [24]
    case 16 => [23]
    case 17 => [23]
    case 20 => [56, 57]
    case 21 => [80, 81]
    case 22 => [70, 71, 72, 73, 74, 75, 76, 77, 78, 79]
    case _ => []
  }

  lemma LabelsAreItems()
    ensures AreItems(MplsItems(), [70, 71, 72, 73, 74, 75, 76, 77, 78, 79])
  {}

  lemma PartsAreItems(e: nat, v6: bool, peer6: bool)
    requires e !in {23, 24, 27}
    ensures AreItems(ExtensionItems(e, v6, peer6), Parts(e, v6))
  {
    hide MplsItems;
    LabelsAreItems();
  }

  /** How far some items reach. */
  ghost function Reach(fs: seq<Field>, items: seq<Item>): nat {
    if |items| == 0 then 0
    else
      Reach(fs, items[..|items| - 1]) + match items[|items| - 1] { case Skip(n) => n
                                                                    case Push(kind, _) => SizeOf(fs, kind) }
  }

  ghost predicate AllStored(items: seq<Item>) {
    forall i :: 0 <= i < |items| && items[i].Push? ==> IsStored(items[i].kind)
  }

  lemma {:induction false} PlaceReach(fs: seq<Field>, a: seq<Item>, b: seq<Item>)
    requires DistinctKinds(fs) && AllStored(b)
    ensures Place(fs, a + b).offset == Place(fs, a).offset + Reach(fs, b)
  {
    hide Row, Entry, SizeOf, IsStored, DistinctKinds;
    if |b| == 0 {
      assert a + b == a;
    } else {
      var n, all := |b| - 1, a + b;
      assert all[..|all| - 1] == a + b[..n] && all[|all| - 1] == b[n];
      PlaceReach(fs, a, b[..n]);
      if b[n].Push? {
        WidthIsSize(fs, b[n].kind);
      }
    }
  }

  lemma ReachOfOne(fs: seq<Field>, a: Item)
    requires a.Push?
    ensures Reach(fs, [a]) == SizeOf(fs, a.kind)
  {
    hide SizeOf;
    assert [a][..0] == [];
  }

  lemma ReachOfTwo(fs: seq<Field>, a: Item, b: Item)
    requires a.Push? && b.Push?
    ensures Reach(fs, [a, b]) == SizeOf(fs, a.kind) + SizeOf(fs, b.kind)
  {
    hide SizeOf;
    ReachOfOne(fs, a);
    assert [a, b][..1] == [a];
  }

  /** Parts of one size. */
  lemma {:induction false} ReachOfMany(fs: seq<Field>, items: seq<Item>, size: nat)
    requires forall i :: 0 <= i < |items| ==> items[i].Push? && SizeOf(fs, items[i].kind) == size
    ensures Reach(fs, items) == size * |items|
  {
    hide SizeOf;
    if |items| > 0 {
      ReachOfMany(fs, items[..|items| - 1], size);
    }
  }

  lemma LabelSizes(fs: seq<Field>)
    ensures forall i :: 0 <= i < |MplsItems()| ==> MplsItems()[i].Push? && SizeOf(fs, MplsItems()[i].kind) == 4
    ensures |MplsItems()| == 10 && AllStored(MplsItems())
  {}

  lemma PrefixSizes(fs: seq<Field>, v6: bool)
    ensures forall i :: 0 <= i < |ExtensionItems(8, v6, false)| ==>
              ExtensionItems(8, v6, false)[i].Push? && SizeOf(fs, ExtensionItems(8, v6, false)[i].kind) == 1
    ensures |ExtensionItems(8, v6, false)| == 4
  {}

  lemma WideIsReach(fs: seq<Field>, v6: bool, peer6: bool, e: nat)
    ensures Reach(fs, ExtensionItems(e, v6, peer6)) == Wide(fs, peer6, e) && AllStored(ExtensionItems(e, v6, peer6))
  {
    hide MplsItems, Reach;
    var items := ExtensionItems(e, v6, peer6);
    assert Reach(fs, []) == 0 by { NoReach(fs); }
    if e == 22 {
      LabelSizes(fs);
      ReachOfMany(fs, items, 4);
    } else if e == 8 {
      PrefixSizes(fs, v6);
      ReachOfMany(fs, items, 1);
    } else if e in {23, 24, 27} {
      assert Reach(fs, items) == items[0].n by { SkipReach(fs, items[0].n); }
    } else if |items| == 1 {
      ReachOfOne(fs, items[0]);
    } else if |items| == 2 {
      ReachOfTwo(fs, items[0], items[1]);
    }
  }

  lemma NoReach(fs: seq<Field>)
    ensures Reach(fs, []) == 0
  {}

  lemma SkipReach(fs: seq<Field>, n: nat)
    ensures Reach(fs, [Skip(n)]) == n
  {
    assert [Skip(n)][..0] == [];
  }

  lemma Ipv6IsHas(fs: seq<Field>)
    requires DistinctKinds(fs)
    ensures Ipv6(fs) <==> HasIpv6(fs)
  {
    hide Entry, Offers, Present, DistinctKinds;
    Ipv6IfOffered(fs);
    OffersIsPresent(fs, 8);
    OffersIsPresent(fs, 27);
  }

  /** Behind the common record. */
  lemma CommonEnds(fs: seq<Field>)
    requires DistinctKinds(fs)
    ensures Place(fs, CommonItems(fs)).offset == 32 + (if HasIpv6(fs) then 32 else 8) + 16
  {
    hide Row, Entry, Place, Ipv6, HasIpv6, DistinctKinds, Reach;
    Ipv6IsHas(fs);
    var fixed := [Skip(1), Item.Push(TCP_CONTROL_BITS, NoStack), Item.Push(PROTOCOL_IDENTIFIER, NoStack),
                  Item.Push(IP_CLASS_OF_SERVICE, NoStack), Item.Push(SOURCE_TRANSPORT_PORT, NoStack),
                  Item.Push(DESTINATION_TRANSPORT_PORT, NoStack), Skip(4)];
    FixedReach(fs, fixed);
    assert [] + fixed == fixed;
    PlaceReach(fs, [], fixed);
    PlaceReach(fs, fixed, Addresses(fs));
    PlaceReach(fs, fixed + Addresses(fs), Counters(fs));
    ReachOfTwo(fs, Addresses(fs)[0], Addresses(fs)[1]);
    ReachOfTwo(fs, Counters(fs)[0], Counters(fs)[1]);
    assert Place(fs, []).offset == 20 by { StartsAt20(fs); }
  }

  lemma StartsAt20(fs: seq<Field>)
    ensures Place(fs, []).offset == 20
  {
    hide Row, Entry;
  }

  lemma FixedReach(fs: seq<Field>, fixed: seq<Item>)
    requires fixed == [Skip(1), Item.Push(TCP_CONTROL_BITS, NoStack), Item.Push(PROTOCOL_IDENTIFIER, NoStack),
                       Item.Push(IP_CLASS_OF_SERVICE, NoStack), Item.Push(SOURCE_TRANSPORT_PORT, NoStack),
                       Item.Push(DESTINATION_TRANSPORT_PORT, NoStack), Skip(4)]
    ensures Reach(fs, fixed) == 12 && AllStored(fixed)
  {
    assert fixed[..6][..5] == fixed[..5] && fixed[..5][..4] == fixed[..4] && fixed[..4][..3] == fixed[..3];
    assert fixed[..3][..2] == fixed[..2] && fixed[..2][..1] == fixed[..1] && fixed[..1][..0] == [];
    assert Reach(fs, fixed[..1]) == 1;
    assert Reach(fs, fixed[..2]) == 2;
    assert Reach(fs, fixed[..3]) == 3;
    assert Reach(fs, fixed[..4]) == 4;
    assert Reach(fs, fixed[..5]) == 6;
    assert Reach(fs, fixed[..6]) == 8;
  }

  lemma {:induction false} BeginIsPlace(fs: seq<Field>, on: set<nat>, peer6: bool, e: nat)
    requires DistinctKinds(fs) && 4 <= e
    ensures Place(fs, ItemsBelow(fs, on, peer6, e)).offset == Begin(fs, on, peer6, e)
  {
    hide Row, Entry, Place, Ipv6, HasIpv6, DistinctKinds, ExtensionItems, CommonItems, Wide;
    if e == 4 {
      CommonEnds(fs);
    } else {
      BeginIsPlace(fs, on, peer6, e - 1);
      if e - 1 in on {
        WideIsReach(fs, Ipv6(fs), peer6, e - 1);
        PlaceReach(fs, ItemsBelow(fs, on, peer6, e - 1), ExtensionItems(e - 1, Ipv6(fs), peer6));
      } else {
        ItemsBelowStep(fs, on, peer6, e);
      }
    }
  }

  // ---------------------------------------------------------------- the whole record

  /** The items of an extension stand behind those of the extensions below. */
  lemma ExtensionStands(fs: seq<Field>, on: set<nat>, peer6: bool, e: nat)
    requires 4 <= e < 50 && e in on
    ensures var items, i := Items(fs, on, peer6), |ItemsBelow(fs, on, peer6, e)|;
            var x := ExtensionItems(e, Ipv6(fs), peer6);
            && 6 <= i && i + |x| <= |items| && items[..i] == ItemsBelow(fs, on, peer6, e) && items[i..i + |x|] == x
  {
    hide Row, Entry, Place, Ipv6, ExtensionItems, ItemsBelow;
    ItemsBelowStep(fs, on, peer6, e + 1);
    ItemsBelowStep(fs, on, peer6, 4);
    BelowIsPrefix(fs, on, peer6, 4, e);
    BelowIsPrefix(fs, on, peer6, e + 1, EXTENSIONS_END);
    var items, below, x := Items(fs, on, peer6), ItemsBelow(fs, on, peer6, e), ExtensionItems(e, Ipv6(fs), peer6);
    assert items[..|below + x|] == below + x;
    assert |CommonItems(fs)| == 11 by { CommonCount(fs); }
  }

  lemma CommonCount(fs: seq<Field>)
    ensures |CommonItems(fs)| == 11
  {
    hide Entry, Ipv6;
  }

  lemma CommonStands(fs: seq<Field>, on: set<nat>, peer6: bool)
    requires DistinctKinds(fs)
    ensures var items, v6 := Items(fs, on, peer6), HasIpv6(fs);
            && 11 <= |items|
            && items[7] == Item.Push(if v6 then 27 else 8, NoStack) && items[8] == Item.Push(if v6 then 28 else 12, NoStack)
            && items[9] == Item.Push(if Present(fs, 86) then 86 else 2, Packets)
            && items[10] == Item.Push(if Present(fs, 85) then 85 else 1, Octets)
  {
    hide Row, Entry, Ipv6, Present, HasIpv6, ItemsBelow, Offers, DistinctKinds;
    Ipv6IsHas(fs);
    FoundIfOffered(fs, 86);
    OffersIsPresent(fs, 86);
    FoundIfOffered(fs, 85);
    OffersIsPresent(fs, 85);
    ItemsBelowStep(fs, on, peer6, 4);
    BelowIsPrefix(fs, on, peer6, 4, EXTENSIONS_END);
    var c, items := CommonItems(fs), Items(fs, on, peer6);
    CommonCount(fs);
    assert forall i :: 0 <= i < 11 ==> items[i] == c[i];
  }

  /** Where the parts of the common record are. */
  lemma CommonAt(fs: seq<Field>, on: set<nat>, peer6: bool)
    requires DistinctKinds(fs)
    ensures var items, a := Items(fs, on, peer6), if HasIpv6(fs) then 16 else 4;
            && 11 <= |items| && At(fs, items, 1) == 21 && At(fs, items, 2) == 22 && At(fs, items, 3) == 23
            && At(fs, items, 4) == 24 && At(fs, items, 5) == 26 && At(fs, items, 7) == 32 && At(fs, items, 8) == 32 + a
            && At(fs, items, 9) == 32 + 2 * a && At(fs, items, 10) == 40 + 2 * a
  {
    hide Row, Entry, HasIpv6, Items, At, Present, DistinctKinds, Place;
    var items := Items(fs, on, peer6);
    CommonFirst(fs, on, peer6);
    CommonPlaces(fs, on, peer6);
    CommonStands(fs, on, peer6);
    WidthIsSize(fs, TCP_CONTROL_BITS);
    WidthIsSize(fs, PROTOCOL_IDENTIFIER);
    WidthIsSize(fs, items[7].kind);
    WidthIsSize(fs, items[8].kind);
    WidthIsSize(fs, items[9].kind);
    AtStep(fs, items, 0);
    AtStep(fs, items, 1);
    AtStep(fs, items, 2);
    AtStep(fs, items, 6);
    AtStep(fs, items, 7);
    AtStep(fs, items, 8);
    AtStep(fs, items, 9);
  }

  /**
   The common record: flags, protocol and type of service in bytes 21 to 23, the ports from byte 24 on, source and
   destination address from byte 32 on, of IPv6 if only such a source is there, then packets and then bytes, as totals
   if they are there.
   */
  lemma CommonRecord(fs: seq<Field>, on: set<nat>, peer6: bool, inp: seq<byte>, rate: nat, env: Env, out: seq<byte>)
    requires DistinctKinds(fs) && Whole(fs, on, peer6, inp, out)
    ensures var r := Finished(fs, on, peer6, inp, rate, env, out);
            && Shows(fs, inp, rate, r, 6, 21) && Shows(fs, inp, rate, r, 4, 22) && Shows(fs, inp, rate, r, 5, 23)
            && (!IcmpRecord(fs, inp) ==> Shows(fs, inp, rate, r, 7, 24) && Shows(fs, inp, rate, r, 11, 26))
            && (!HasIpv6(fs) ==> Shows(fs, inp, rate, r, 8, 32) && Shows(fs, inp, rate, r, 12, 36))
            && (HasIpv6(fs) ==> Shows(fs, inp, rate, r, 27, 32) && Shows(fs, inp, rate, r, 28, 48))
            && var counters := if HasIpv6(fs) then 64 else 40;
            && Shows(fs, inp, rate, r, if Present(fs, 86) then 86 else 2, counters)
            && Shows(fs, inp, rate, r, if Present(fs, 85) then 85 else 1, counters + 8)
  {
    hide Row, Entry, HasIpv6, Items, At, Present, DistinctKinds, Place, Shows, Finished, IcmpRecord, Whole;
    CommonFirst(fs, on, peer6);
    CommonStands(fs, on, peer6);
    CommonAt(fs, on, peer6);
    ItemShows(fs, on, peer6, 1, inp, rate, env, out);
    ItemShows(fs, on, peer6, 2, inp, rate, env, out);
    ItemShows(fs, on, peer6, 3, inp, rate, env, out);
    if !IcmpRecord(fs, inp) {
      ItemShows(fs, on, peer6, 4, inp, rate, env, out);
      ItemShows(fs, on, peer6, 5, inp, rate, env, out);
    }
    ItemShows(fs, on, peer6, 7, inp, rate, env, out);
    ItemShows(fs, on, peer6, 8, inp, rate, env, out);
    ItemShows(fs, on, peer6, 9, inp, rate, env, out);
    ItemShows(fs, on, peer6, 10, inp, rate, env, out);
  }

  /** At byte `at` is what comes from no field: the time of arrival, and the exporter's address. */
  ghost predicate ShowsNoField(on: set<nat>, peer6: bool, env: Env, r: seq<byte>, e: nat, at: nat) {
    && (e == 27 ==> at + 8 <= |r| && LE(r[at..at + 8]) == env.received % U64)
    && (e == 24 || (e == 23 && 24 !in on) ==>
          if peer6 then at + 16 <= |r| && LE(r[at..at + 8]) == env.ip6.0 && LE(r[at + 8..at + 16]) == env.ip6.1
          else at + 4 <= |r| && LE(r[at..at + 4]) == env.ip4)
  }

  /**
   The extensions: each that is switched on begins behind the ones before it, and its fields stand in order. The
   exporter's address and the time of arrival take the room of theirs.
   */
  lemma ExtensionsInRecord(fs: seq<Field>, on: set<nat>, peer6: bool, e: nat, inp: seq<byte>, rate: nat, env: Env,
                           out: seq<byte>)
    requires DistinctKinds(fs) && Whole(fs, on, peer6, inp, out) && 4 <= e < 50 && e in on
    ensures var r, b := Finished(fs, on, peer6, inp, rate, env, out), Begin(fs, on, peer6, e);
            && |r| == Begin(fs, on, peer6, 50) && b + Wide(fs, peer6, e) <= |r|
            && InOrder(fs, inp, rate, r, b, Parts(e, HasIpv6(fs))) && ShowsNoField(on, peer6, env, r, e, b)
  {
    hide Row, Entry, HasIpv6, Ipv6, Items, ItemsBelow, At, DistinctKinds, Place, Finished, InOrder, Parts, ExtensionItems,
      AreItems, Wide, LE;
    var r := Finished(fs, on, peer6, inp, rate, env, out);
    BeginIsPlace(fs, on, peer6, e);
    BeginIsPlace(fs, on, peer6, 50);
    BeginRises(fs, on, peer6, e + 1, 50);
    ItemsAreBelow(fs, on, peer6);
    if e in {23, 24, 27} {
      assert Parts(e, HasIpv6(fs)) == [] && InOrder(fs, inp, rate, r, Begin(fs, on, peer6, e), []) by {
        NoParts(fs, inp, rate, r, Begin(fs, on, peer6, e), e, HasIpv6(fs));
      }
      Reserved(fs, on, peer6, e, inp, rate, env, out);
    } else {
      Ipv6IsHas(fs);
      ExtensionStands(fs, on, peer6, e);
      PartsAreItems(e, Ipv6(fs), peer6);
      var i, kinds := |ItemsBelow(fs, on, peer6, e)|, Parts(e, HasIpv6(fs));
      assert |kinds| == |ExtensionItems(e, Ipv6(fs), peer6)| by { SameCount(ExtensionItems(e, Ipv6(fs), peer6), kinds); }
      ItemsInOrder(fs, on, peer6, i, kinds, inp, rate, env, out);
      assert At(fs, Items(fs, on, peer6), i) == Begin(fs, on, peer6, e) by { AtIsPlace(fs, Items(fs, on, peer6), i); }
    }
  }

  lemma SameCount(items: seq<Item>, kinds: seq<nat>)
    requires AreItems(items, kinds)
    ensures |items| == |kinds|
  {}

  lemma AtIsPlace(fs: seq<Field>, items: seq<Item>, i: nat)
    requires i <= |items|
    ensures At(fs, items, i) == Place(fs, items[..i]).offset
  {
    hide Place;
  }

  lemma NoParts(fs: seq<Field>, inp: seq<byte>, rate: nat, r: seq<byte>, at: nat, e: nat, v6: bool)
    requires e in {23, 24, 27}
    ensures Parts(e, v6) == [] && InOrder(fs, inp, rate, r, at, [])
  {}

  lemma {:induction false} BeginRises(fs: seq<Field>, on: set<nat>, peer6: bool, e: nat, f: nat)
    requires 4 <= e <= f
    ensures Begin(fs, on, peer6, e) <= Begin(fs, on, peer6, f)
    decreases f
  {
    hide Wide, HasIpv6;
    if e < f {
      BeginRises(fs, on, peer6, e, f - 1);
    }
  }

  lemma Reserved(fs: seq<Field>, on: set<nat>, peer6: bool, e: nat, inp: seq<byte>, rate: nat, env: Env, out: seq<byte>)
    requires DistinctKinds(fs) && Whole(fs, on, peer6, inp, out) && e in {23, 24, 27} && e in on
    ensures var r, b := Finished(fs, on, peer6, inp, rate, env, out), Begin(fs, on, peer6, e);
            b + Wide(fs, peer6, e) <= |r| && ShowsNoField(on, peer6, env, r, e, b)
  {
    hide Row, Entry, HasIpv6, Items, ItemsBelow, DistinctKinds, Place, Finished, LE;
    BeginIsPlace(fs, on, peer6, e);
    BeginIsPlace(fs, on, peer6, 50);
    BeginRises(fs, on, peer6, e + 1, 50);
    ItemsAreBelow(fs, on, peer6);
    if e == 27 {
      ArrivalDecoded(fs, on, peer6, inp, rate, env, out);
    } else {
      ExporterDecoded(fs, on, peer6, inp, rate, env, out);
    }
  }

  // ---------------------------------------------------------------- which extensions are switched on

  lemma PartOfExactly(f: Field, e: nat)
    ensures PartOf(f, e) <==> f.length in Lengths(f.kind) && ExtensionFor(f.kind, f.length) == e
  {
    hide Row, RowFor, Lengths, ExtensionFor;
    if i :| 0 < i < MAX_ELEMENTS && Row(i).id == f.kind && Row(i).length == f.length && Row(i).extension == e {
      RowsDescribed(i);
    }
    if f.length in Lengths(f.kind) {
      RowForIsThere(f.kind, f.length);
      RowsDescribed(RowFor(f.kind, f.length));
    }
  }

  /** An enabled extension is switched on by a field of it, in a length that is understood; two are always on. */
  lemma OnExactly(fs: seq<Field>, enabled: set<nat>, e: nat)
    requires DistinctKinds(fs) && e != 0
    ensures e in Common(fs, enabled) <==>
            && e in enabled
            && (e in {23, 27}
                || exists j :: 0 <= j < |fs| && fs[j].length in Lengths(fs[j].kind)
                               && ExtensionFor(fs[j].kind, fs[j].length) == e)
  {
    hide PartOf, Lengths, ExtensionFor, Extensions;
    ExtensionsExactly(fs, |fs|, enabled, e);
    forall j | 0 <= j < |fs|
      ensures PartOf(fs[j], e) <==> fs[j].length in Lengths(fs[j].kind) && ExtensionFor(fs[j].kind, fs[j].length) == e
    {
      PartOfExactly(fs[j], e);
    }
  }

  // ---------------------------------------------------------------- the counters beside the record

  ghost predicate NotKept(items: seq<Item>, stack: Stack) {
    forall i :: 0 <= i < |items| && items[i].Push? ==> items[i].stack != stack
  }

  lemma {:induction false} LeftStays(fs: seq<Field>, a: seq<Item>, b: seq<Item>, inp: seq<byte>, rate: nat, stack: Stack)
    requires Total(fs, |fs|) < U16 && Total(fs, |fs|) <= |inp| && NotKept(b, stack) && stack != NoStack
    ensures Reads(Place(fs, a).seqs, |inp|) && Reads(Place(fs, a + b).seqs, |inp|)
    ensures Left(Place(fs, a + b).seqs, inp, rate, stack) == Left(Place(fs, a).seqs, inp, rate, stack)
  {
    hide Row, Entry, Keeps, SlotOf, Total, Number, FieldOf;
    PlaceReads(fs, a);
    PlaceReads(fs, a + b);
    if |b| == 0 {
      assert a + b == a;
    } else {
      var n, all := |b| - 1, a + b;
      assert all[..|all| - 1] == a + b[..n] && all[|all| - 1] == b[n];
      LeftStays(fs, a, b[..n], inp, rate, stack);
      if b[n].Push? {
        SlotStack(Entry(fs, b[n].kind), Place(fs, a + b[..n]).offset, b[n].stack);
        var seqs := Place(fs, all).seqs;
        assert seqs[..|seqs| - 1] == Place(fs, a + b[..n]).seqs;
      }
    }
  }

  /** The number of a counter's bytes times the sampling rate, in 64 bits; 0 without the field. */
  ghost predicate IsCount(fs: seq<Field>, inp: seq<byte>, rate: nat, kind: nat, v: nat) {
    && (!Present(fs, kind) ==> v == 0)
    && forall k :: 0 <= k < |fs| && fs[k].kind == kind && fs[k].length in Lengths(kind) ==>
                     && Total(fs, k) + fs[k].length <= |inp|
                     && v == BE(inp[Total(fs, k)..Total(fs, k) + fs[k].length]) * rate % U64
  }

  lemma CounterEntry(fs: seq<Field>, kind: nat)
    requires DistinctKinds(fs) && Total(fs, |fs|) < U16 && kind in {1, 2, 85, 86}
    ensures var p := Entry(fs, kind);
            && (p.found <==> Present(fs, kind))
            && (p.found ==> Row(p.index).sequence.IsCounter() && Row(p.index).sequence.Reads() == p.length)
            && forall k :: 0 <= k < |fs| && fs[k].kind == kind && p.found ==> p.offset == Total(fs, k) && p.length == fs[k].length
  {
    hide Row, FirstRow, Match, Known, BE, Total, OffsetAt, Longest, Supported, Lengths;
    if k :| 0 <= k < |fs| && fs[k].kind == kind {
      KnownField(fs, k);
      SupportedLengths(fs[k]);
      OffsetsRise(fs, k);
      if fs[k].length in Lengths(kind) {
        CounterRow(fs[k]);
      }
    } else {
      UnknownBefore(fs, |fs|, kind);
    }
  }

  lemma CounterRow(f: Field)
    requires f.kind in {1, 2, 85, 86} && f.length in Lengths(f.kind)
    ensures var op := Row(Match(f.kind, f.length, FirstRow(f.kind, 1))).sequence; op.IsCounter() && op.Reads() == f.length
  {
    hide Row, FirstRow, Match;
    SupportedLengths(f);
    SupportedIff(f.kind, f.length);
    RowsDescribed(Match(f.kind, f.length, FirstRow(f.kind, 1)));
    SupportedRow(f);
  }

  lemma CounterSlot(fs: seq<Field>, kind: nat, at: nat, stack: Stack, inp: seq<byte>, rate: nat)
    requires DistinctKinds(fs) && Total(fs, |fs|) < U16 && Total(fs, |fs|) <= |inp| && stack != NoStack
    requires kind in {1, 2, 85, 86}
    ensures var s := SlotOf(Entry(fs, kind), at, stack);
            && s.input + s.op.Reads() <= |inp|
            && IsCount(fs, inp, rate, kind, if s.stack == stack && Keeps(s.op) then Number(s.op, FieldOf(s, inp), rate) else 0)
  {
    hide Row, Entry, BE, Total, Lengths, DistinctKinds;
    SlotReads(fs, kind, at, stack);
    CounterEntry(fs, kind);
    var s := SlotOf(Entry(fs, kind), at, stack);
    if Present(fs, kind) {
      assert s.stack == stack && Keeps(s.op);
    } else {
      assert s.stack == NoStack;
    }
  }

  lemma LastLeft(fs: seq<Field>, a: seq<Item>, kind: nat, stack: Stack, inp: seq<byte>, rate: nat)
    requires DistinctKinds(fs) && Total(fs, |fs|) < U16 && Total(fs, |fs|) <= |inp|
    requires kind in {1, 2, 85, 86} && stack in {Packets, Octets} && NotKept(a, stack)
    ensures var seqs := Place(fs, a + [Item.Push(kind, stack)]).seqs;
            Reads(seqs, |inp|) && IsCount(fs, inp, rate, kind, Left(seqs, inp, rate, stack))
  {
    hide Row, Entry, Keeps, SlotOf, Total, Number, FieldOf, IsCount;
    var x := Item.Push(kind, stack);
    var all := a + [x];
    assert all[..|all| - 1] == a && all[|all| - 1] == x;
    PlaceReads(fs, all);
    var at := Place(fs, a).offset;
    CounterSlot(fs, kind, at, stack, inp, rate);
    var seqs := Place(fs, all).seqs;
    assert seqs[..|seqs| - 1] == Place(fs, a).seqs && seqs[|seqs| - 1] == SlotOf(Entry(fs, kind), at, stack);
    LeftStays(fs, [], a, inp, rate, stack);
    assert [] + a == a;
    StartKeepsNone(fs, inp, rate, stack);
  }

  lemma StartKeepsNone(fs: seq<Field>, inp: seq<byte>, rate: nat, stack: Stack)
    requires Total(fs, |fs|) < U16 && Total(fs, |fs|) <= |inp| && stack in {Packets, Octets}
    ensures Reads(Place(fs, []).seqs, |inp|) && Left(Place(fs, []).seqs, inp, rate, stack) == 0
  {
    hide Row, Entry, Keeps, SlotOf, Total, Number, FieldOf;
    PlaceReads(fs, []);
    var s0, s1 := SlotOf(Entry(fs, 152), FIRST, FlowStart), SlotOf(Entry(fs, 153), FIRST + 4, FlowEnd);
    SlotStack(Entry(fs, 152), FIRST, FlowStart);
    SlotStack(Entry(fs, 153), FIRST + 4, FlowEnd);
    assert Place(fs, []).seqs == [s0, s1];
    LeftTwo(s0, s1, inp, rate, stack);
  }

  lemma {:induction false} RestKeepsNone(fs: seq<Field>, on: set<nat>, peer6: bool, e: nat)
    requires 4 <= e
    ensures ItemsBelow(fs, on, peer6, 4) <= ItemsBelow(fs, on, peer6, e)
    ensures var rest := ItemsBelow(fs, on, peer6, e)[|ItemsBelow(fs, on, peer6, 4)|..];
            NotKept(rest, Packets) && NotKept(rest, Octets)
  {
    hide Entry, Ipv6, ExtensionItems, CommonItems;
    if 4 < e {
      RestKeepsNone(fs, on, peer6, e - 1);
      ExtensionKeepsNone(e - 1, Ipv6(fs), peer6);
    }
  }

  lemma ExtensionKeepsNone(e: nat, ipv6: bool, peer6: bool)
    ensures NotKept(ExtensionItems(e, ipv6, peer6), Packets) && NotKept(ExtensionItems(e, ipv6, peer6), Octets)
  {}

  /** The interpreter leaves packets and bytes of the record beside it: totals if they are there. */
  lemma CountersLeft(fs: seq<Field>, on: set<nat>, peer6: bool, inp: seq<byte>, rate: nat)
    requires DistinctKinds(fs) && Total(fs, |fs|) < U16 && Total(fs, |fs|) <= |inp|
    ensures var seqs := Place(fs, Items(fs, on, peer6)).seqs;
            && Reads(seqs, |inp|)
            && IsCount(fs, inp, rate, if Present(fs, 86) then 86 else 2, Left(seqs, inp, rate, Packets))
            && IsCount(fs, inp, rate, if Present(fs, 85) then 85 else 1, Left(seqs, inp, rate, Octets))
  {
    hide Row, Entry, HasIpv6, Present, DistinctKinds, Place, IsCount, Left, Total, ItemsBelow, Ipv6;
    CommonStands(fs, on, peer6);
    CommonFirst(fs, on, peer6);
    RestKeepsNone(fs, on, peer6, 50);
    ItemsBelowStep(fs, on, peer6, 4);
    CommonCount(fs);
    var items := Items(fs, on, peer6);
    var n, p := items[10], items[9];
    assert items[..11] == items[..10] + [n] && items[..10] == items[..9] + [p] && items == items[..11] + items[11..];
    LastLeft(fs, items[..9], p.kind, Packets, inp, rate);
    LastLeft(fs, items[..10], n.kind, Octets, inp, rate);
    LeftStays(fs, items[..10], [n], inp, rate, Packets);
    LeftStays(fs, items[..11], items[11..], inp, rate, Packets);
    LeftStays(fs, items[..11], items[11..], inp, rate, Octets);
  }
}
