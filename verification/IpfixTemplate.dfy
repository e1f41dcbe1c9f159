/**
 Template sets: reading them (section 3.4.1 of RFC 7011) and noting for every element type where its field is.
 */
module IpfixTemplate {
  import opened Bytes
  import opened IpfixElements
  import opened Wrappers

  /** Length of a field of variable length. */
  const VARIABLE: nat := 65535

  const ENTERPRISE_BIT: nat := 0x8000

  type word = v: nat | v < U16

  /** A field specifier; the enterprise bit is part of the type. */
  datatype Field = Field(kind: word, length: word)

  datatype Template = Template(id: word, fields: seq<Field>)

  // ---------------------------------------------------------------- where the fields of a record are

  function Width(f: Field): nat {
    if f.length == VARIABLE then 4 else f.length
  }

  /** Where field `k` starts in a data record; the sum is kept in 16 bits. */
  function OffsetAt(fs: seq<Field>, k: nat): word
    requires k <= |fs|
  {
    if k == 0 then 0 else (OffsetAt(fs, k - 1) + Width(fs[k - 1])) % U16
  }

  /** What the cache knows of an element type: its row, and the field that was found. */
  datatype Param = Param(index: nat, found: bool, offset: word, length: word)

  /** MapElement, for the cache entry of the field's own type. */
  function Mapped(p: Param, kind: nat, length: word, offset: word): (r: Param)
    requires p.index <= MAX_ELEMENTS
    ensures r.index <= MAX_ELEMENTS
  {
    var i := Match(kind, length, p.index);
    if i != 0 then Param(i, true, offset, length) else p
  }

  /** The cache entry of a type after the first `k` fields. */
  function Known(fs: seq<Field>, k: nat, kind: nat): (p: Param)
    requires k <= |fs|
    ensures p.index <= MAX_ELEMENTS
  {
    if k == 0 then Param(FirstRow(kind, 1), false, 0, 0)
    else
      var p := Known(fs, k - 1, kind);
      if fs[k - 1].kind == kind then Mapped(p, kind, fs[k - 1].length, OffsetAt(fs, k - 1)) else p
  }

  /** The extension that field `k` asks for, or 0. */
  function Asked(fs: seq<Field>, k: nat): nat
    requires k < |fs|
  {
    var i := Match(fs[k].kind, fs[k].length, Known(fs, k, fs[k].kind).index);
    if i != 0 then Row(i).extension else 0
  }

  /** The enabled extensions that the first `k` fields ask for. */
  function Extensions(fs: seq<Field>, k: nat, enabled: set<nat>): set<nat>
    requires k <= |fs|
  {
    if k == 0 then {}
    else
      var e := Asked(fs, k - 1);
      Extensions(fs, k - 1, enabled) + if e != 0 && e in enabled then {e} else {}
  }

  ghost predicate DistinctKinds(fs: seq<Field>) {
    forall i, j :: 0 <= i < j < |fs| ==> fs[i].kind != fs[j].kind
  }

  /** The table has a row for the type and the length of the field. */
  ghost predicate Supported(f: Field) {
    HasRow(f.kind, f.length)
  }

  lemma {:induction false} UnknownBefore(fs: seq<Field>, k: nat, kind: nat)
    requires k <= |fs| && forall j :: 0 <= j < k ==> fs[j].kind != kind
    ensures Known(fs, k, kind) == Param(FirstRow(kind, 1), false, 0, 0)
  {
    hide FirstRow, Match, Row;
    if k > 0 {
      UnknownBefore(fs, k - 1, kind);
    }
  }

  lemma {:induction false} KnownStays(fs: seq<Field>, k: nat, kind: nat, p: Param)
    requires k <= |fs| && p == Known(fs, k, kind) && forall j :: k <= j < |fs| ==> fs[j].kind != kind
    ensures Known(fs, |fs|, kind) == p
    decreases |fs| - k
  {
    hide FirstRow, Match, Row;
    if k < |fs| {
      assert Known(fs, k + 1, kind) == p;
      KnownStays(fs, k + 1, kind, p);
    }
  }

  lemma KnownNext(fs: seq<Field>, k: nat)
    requires k < |fs|
    ensures Known(fs, k + 1, fs[k].kind)
            == Mapped(Known(fs, k, fs[k].kind), fs[k].kind, fs[k].length, OffsetAt(fs, k))
  {
    hide Mapped, OffsetAt;
  }

  /**
   In a template of distinct types, a type is found exactly if it has a field of a length that the table has a row
   for; the entry then is that row and the offset of that field.
   */
  lemma KnownField(fs: seq<Field>, k: nat)
    requires DistinctKinds(fs) && k < |fs|
    ensures var f := fs[k];
            Known(fs, |fs|, f.kind)
            == if Supported(f) then Param(Match(f.kind, f.length, FirstRow(f.kind, 1)), true, OffsetAt(fs, k), f.length)
               else Param(FirstRow(f.kind, 1), false, 0, 0)
  {
    hide FirstRow, Match, Row, Known, OffsetAt;
    SupportedIff(fs[k].kind, fs[k].length);
    UnknownBefore(fs, k, fs[k].kind);
    KnownNext(fs, k);
    KnownStays(fs, k + 1, fs[k].kind, Known(fs, k + 1, fs[k].kind));
  }

  /** Without a wrap, fields lie one behind the other in the record. */
  lemma OffsetsRise(fs: seq<Field>, k: nat)
    requires k <= |fs| && Total(fs, |fs|) < U16
    ensures OffsetAt(fs, k) == Total(fs, k) <= Total(fs, |fs|)
  {
    TotalRises(fs, k, |fs|);
    OffsetsExact(fs, k);
  }

  lemma {:induction false} OffsetIsTotal(fs: seq<Field>, k: nat)
    requires k <= |fs|
    ensures OffsetAt(fs, k) == Total(fs, k) % U16
  {
    if k > 0 {
      OffsetIsTotal(fs, k - 1);
      Wrap16(Total(fs, k - 1), Width(fs[k - 1]));
    }
  }

  lemma Wrap16(t: nat, w: nat)
    ensures (t % U16 + w) % U16 == (t + w) % U16
  {
    var q := t / U16;
    assert t + w == (t % U16 + w) + U16 * q;
  }

  /** The decoder looks for a field where it is if and only if the fields before it take less than 65536 bytes. */
  lemma {:induction false} OffsetsExact(fs: seq<Field>, k: nat)
    requires k <= |fs|
    ensures OffsetAt(fs, k) == Total(fs, k) <==> Total(fs, k) < U16
  {
    OffsetIsTotal(fs, k);
  }

  /** Fields of 65000 and 536 bytes before a counter: the counter is read from the start of the record. */
  lemma LongTemplateMisreads()
    ensures var fs := [Field(82, 65000), Field(94, 536), Field(OCTET_DELTA_COUNT, 8)];
            DistinctKinds(fs) && Total(fs, 2) == U16 && Known(fs, 3, OCTET_DELTA_COUNT) == Param(1, true, 0, 8)
  {
    var fs := [Field(82, 65000), Field(94, 536), Field(OCTET_DELTA_COUNT, 8)];
    assert Total(fs, 0) == 0 && Total(fs, 1) == 65000;
    assert Row(1).id == OCTET_DELTA_COUNT && Row(1).length == 8;
    OffsetIsTotal(fs, 2);
    OneRow(OCTET_DELTA_COUNT, 8, 1);
    KnownField(fs, 2);
  }

  function Total(fs: seq<Field>, k: nat): nat
    requires k <= |fs|
  {
    if k == 0 then 0 else Total(fs, k - 1) + Width(fs[k - 1])
  }

  lemma {:induction false} TotalRises(fs: seq<Field>, j: nat, k: nat)
    requires j <= k <= |fs|
    ensures Total(fs, j) <= Total(fs, k)
    decreases k
  {
    if j < k {
      TotalRises(fs, j, k - 1);
    }
  }

  // ---------------------------------------------------------------- which extensions a template asks for

  /** The table has a row for the type and the length of the field, and it is part of the extension. */
  ghost predicate PartOf(f: Field, e: nat) {
    exists i :: 0 < i < MAX_ELEMENTS && Row(i).id == f.kind && Row(i).length == f.length && Row(i).extension == e
  }

  lemma AskedExactly(fs: seq<Field>, k: nat, e: nat)
    requires DistinctKinds(fs) && k < |fs| && e != 0
    ensures Asked(fs, k) == e <==> PartOf(fs[k], e)
  {
    hide Row, FirstRow, Match, Known;
    var f := fs[k];
    UnknownBefore(fs, k, f.kind);
    if i :| 0 < i < MAX_ELEMENTS && Row(i).id == f.kind && Row(i).length == f.length && Row(i).extension == e {
      OneRow(f.kind, f.length, i);
    }
  }

  /** The extensions of a template are the enabled ones that some supported field is part of. */
  lemma {:induction false} ExtensionsExactly(fs: seq<Field>, k: nat, enabled: set<nat>, e: nat)
    requires DistinctKinds(fs) && k <= |fs|
    ensures e in Extensions(fs, k, enabled) <==>
            e != 0 && e in enabled && exists j :: 0 <= j < k && PartOf(fs[j], e)
  {
    hide PartOf, Asked;
    if k > 0 {
      ExtensionsExactly(fs, k - 1, enabled, e);
      if e != 0 {
        AskedExactly(fs, k - 1, e);
      }
    }
  }

  // ---------------------------------------------------------------- reading template records

  /** A big-endian value, as ntohs and the Get_val functions read it. */
  function BE(s: seq<byte>): nat {
    if |s| == 0 then 0 else BE(s[..|s| - 1]) * 0x100 + s[|s| - 1]
  }

  function Word(d: seq<byte>, at: nat): word
    requires at + 2 <= |d|
  {
    (d[at] as int) * 0x100 + d[at + 1]
  }

  /** `n` field specifiers from position `at` on, and the size they take; nothing if the data ends before. */
  function ReadFields(d: seq<byte>, at: nat, n: nat, required: nat): (r: Option<(seq<Field>, nat)>)
    requires at + 4 * n <= required <= |d|
    ensures r.Some? ==> |r.value.0| == n && required <= r.value.1 <= |d|
    decreases n
  {
    if n == 0 then Some(([], required))
    else
      var f := Field(Word(d, at), Word(d, at + 2));
      if f.kind < ENTERPRISE_BIT then
        var r := ReadFields(d, at + 4, n - 1, required);
        if r.None? then None else Some(([f] + r.value.0, r.value.1))
      else if |d| < required + 4 then None
      else
        var r := ReadFields(d, at + 8, n - 1, required + 4);
        if r.None? then None else Some(([f] + r.value.0, r.value.1))
  }

  /** The templates of a set that are taken over; less than four bytes at the end are padding. */
  function ReadTemplates(d: seq<byte>): seq<Template>
    decreases |d|
  {
    if |d| < 4 || |d| < 4 + 4 * Word(d, 2) then []
    else
      var n := Word(d, 2);
      var r := ReadFields(d, 4, n, 4 + 4 * n);
      if r.None? then [] else [Template(Word(d, 0), r.value.0)] + ReadTemplates(d[r.value.1..])
  }

  /** A field specifier with the enterprise number that goes with it. */
  datatype Wire = Wire(field: Field, number: nat)

  function Word16(v: word): seq<byte> {
    [v / 0x100, v % 0x100]
  }

  function Word32(v: nat): seq<byte> {
    Word16(v / U16 % U16) + Word16(v % U16)
  }

  function FieldBytes(w: Wire): seq<byte> {
    Word16(w.field.kind) + Word16(w.field.length) + if w.field.kind < ENTERPRISE_BIT then [] else Word32(w.number)
  }

  function FieldsBytes(ws: seq<Wire>): seq<byte> {
    if |ws| == 0 then [] else FieldBytes(ws[0]) + FieldsBytes(ws[1..])
  }

  function TemplateBytes(id: word, ws: seq<Wire>): seq<byte>
    requires |ws| < U16
  {
    Word16(id) + Word16(|ws|) + FieldsBytes(ws)
  }

  function FieldsOf(ws: seq<Wire>): seq<Field> {
    seq(|ws|, i requires 0 <= i < |ws| => ws[i].field)
  }

  lemma {:induction false} FieldsSize(ws: seq<Wire>)
    ensures |FieldsBytes(ws)| >= 4 * |ws|
  {
    if |ws| > 0 {
      FieldsSize(ws[1..]);
    }
  }

  /** The specifier at the front of some data. */
  lemma ReadsField(d: seq<byte>, at: nat, w: Wire, tail: seq<byte>)
    requires at <= |d| && d[at..] == FieldBytes(w) + tail
    ensures at + |FieldBytes(w)| + |tail| == |d| && d[at + |FieldBytes(w)|..] == tail
    ensures |FieldBytes(w)| == if w.field.kind < ENTERPRISE_BIT then 4 else 8
    ensures Word(d, at) == w.field.kind && Word(d, at + 2) == w.field.length
  {
    var b := FieldBytes(w);
    assert d[at..][..4] == b[..4] == Word16(w.field.kind) + Word16(w.field.length);
    assert d[at] == d[at..][0] == b[0] && d[at + 1] == d[at..][1] == b[1];
    assert d[at + 2] == d[at..][2] == b[2] && d[at + 3] == d[at..][3] == b[3];
    assert d[at + |b|..] == d[at..][|b|..] == tail;
  }

  lemma {:induction false} ReadsFields(d: seq<byte>, at: nat, ws: seq<Wire>, rest: seq<byte>, required: nat)
    requires at <= |d| && d[at..] == FieldsBytes(ws) + rest && required == at + 4 * |ws| <= |d|
    ensures ReadFields(d, at, |ws|, required) == Some((FieldsOf(ws), |d| - |rest|))
    decreases |ws|
  {
    hide FieldBytes, Word;
    if |ws| == 0 {
      assert FieldsBytes(ws) + rest == rest && FieldsOf(ws) == [];
    } else {
      var w, tail := ws[0], FieldsBytes(ws[1..]) + rest;
      FieldsSize(ws[1..]);
      assert FieldBytes(w) + FieldsBytes(ws[1..]) + rest == FieldBytes(w) + tail;
      ReadsField(d, at, w, tail);
      assert Field(Word(d, at), Word(d, at + 2)) == w.field;
      ReadsFields(d, at + |FieldBytes(w)|, ws[1..], rest, required + |FieldBytes(w)| - 4);
      assert FieldsOf(ws) == [w.field] + FieldsOf(ws[1..]);
    }
  }

  function SetBytes(ts: seq<(word, seq<Wire>)>): seq<byte>
    requires forall i :: 0 <= i < |ts| ==> |ts[i].1| < U16
  {
    if |ts| == 0 then [] else TemplateBytes(ts[0].0, ts[0].1) + SetBytes(ts[1..])
  }

  function TemplatesOf(ts: seq<(word, seq<Wire>)>): seq<Template> {
    seq(|ts|, i requires 0 <= i < |ts| => Template(ts[i].0, FieldsOf(ts[i].1)))
  }

  lemma ReadsTemplate(id: word, ws: seq<Wire>, rest: seq<byte>)
    requires |ws| < U16
    ensures ReadTemplates(TemplateBytes(id, ws) + rest) == [Template(id, FieldsOf(ws))] + ReadTemplates(rest)
  {
    hide FieldsBytes, ReadFields, FieldsOf;
    var d := TemplateBytes(id, ws) + rest;
    FieldsSize(ws);
    assert Word(d, 0) == id && Word(d, 2) == |ws|;
    assert d[4..] == FieldsBytes(ws) + rest;
    ReadsFields(d, 4, ws, rest, 4 + 4 * |ws|);
    assert d[|d| - |rest|..] == rest;
  }

  lemma TemplatesStep(ts: seq<(word, seq<Wire>)>)
    requires |ts| > 0
    ensures TemplatesOf(ts) == [Template(ts[0].0, FieldsOf(ts[0].1))] + TemplatesOf(ts[1..])
  {
    hide FieldsOf;
  }

  lemma SetStep(ts: seq<(word, seq<Wire>)>, padding: seq<byte>)
    requires |ts| > 0 && forall i :: 0 <= i < |ts| ==> |ts[i].1| < U16
    ensures SetBytes(ts) + padding == TemplateBytes(ts[0].0, ts[0].1) + (SetBytes(ts[1..]) + padding)
  {
    hide TemplateBytes;
    Joins(TemplateBytes(ts[0].0, ts[0].1), SetBytes(ts[1..]), padding);
  }

  /** Every set of template records, with any enterprise numbers and any padding, is read as those templates. */
  lemma {:induction false} ReadsSet(ts: seq<(word, seq<Wire>)>, padding: seq<byte>)
    requires (forall i :: 0 <= i < |ts| ==> |ts[i].1| < U16) && |padding| < 4
    ensures ReadTemplates(SetBytes(ts) + padding) == TemplatesOf(ts)
  {
    hide TemplateBytes, FieldsOf, ReadFields;
    if |ts| == 0 {
      assert SetBytes(ts) + padding == padding;
    } else {
      hide *;
      SetStep(ts, padding);
      TemplatesStep(ts);
      ReadsSet(ts[1..], padding);
      ReadsTemplate(ts[0].0, ts[0].1, SetBytes(ts[1..]) + padding);
    }
  }
}
