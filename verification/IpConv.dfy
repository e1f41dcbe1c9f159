/**
 Text to address: `parse_ipv4` and `parse_ipv6`. A C string is modelled by its characters
 before the terminating NUL. Text forms are those of section 2.2 of RFC 4291.
 */
module IpConv {
  import opened Bytes
  import opened Wrappers

  /** Address bytes and how many of them the text gave. */
  datatype Parsed = Parsed(addr: seq<byte>, bytes: nat)

  // ---------------------------------------------------------------- digits

  function Digit(c: char): (d: Option<nat>)
    ensures d.Some? ==> d.value < 10
  {
    if '0' <= c <= '9' then Some(c as int - '0' as int) else None
  }

  function HexDigit(c: char): (d: Option<nat>)
    ensures d.Some? ==> d.value < 16
  {
    if '0' <= c <= '9' then Some(c as int - '0' as int)
    else if 'a' <= c <= 'f' then Some(c as int - 'a' as int + 10)
    else if 'A' <= c <= 'F' then Some(c as int - 'A' as int + 10)
    else None
  }

  /** A decimal spelling, leading zeros allowed. */
  predicate IsDec(t: string) {
    forall i :: 0 <= i < |t| ==> Digit(t[i]).Some?
  }

  /** The value reached from `v` by reading the digits of `t`. */
  function DecFrom(v: nat, t: string): (r: nat)
    requires IsDec(t)
    ensures v <= r
    decreases |t|
  {
    if t == [] then v else DecFrom(v * 10 + Digit(t[0]).value, t[1..])
  }

  /** A hexadecimal spelling in upper or lower case, leading zeros allowed. */
  predicate IsHex(t: string) {
    forall i :: 0 <= i < |t| ==> HexDigit(t[i]).Some?
  }

  function HexFrom(v: nat, t: string): (r: nat)
    requires IsHex(t)
    ensures v <= r
    decreases |t|
  {
    if t == [] then v else HexFrom(v * 16 + HexDigit(t[0]).value, t[1..])
  }

  // ---------------------------------------------------------------- IPv4

  /** Loop state of parse_ipv4: the bytes up to the current one, and saw_digit. */
  datatype Quad = Quad(parts: seq<byte>, saw: bool)
  {
    predicate Ok() {
      1 <= |parts| <= 4 && (!saw ==> parts[|parts| - 1] == 0)
    }

    /** The value of `*bytes`. */
    function Count(): nat
      requires Ok()
    {
      if saw then |parts| else |parts| - 1
    }
  }

  /** One character of parse_ipv4; `last` says that the next one is the NUL. */
  function Step4(q: Quad, c: char, last: bool): (r: Option<Quad>)
    requires q.Ok()
    ensures r.Some? ==> r.value.Ok()
  {
    var d := Digit(c);
    if d.Some? then
      var v: nat := q.parts[|q.parts| - 1] * 10 + d.value;
      if v > 255 then None else Some(Quad(q.parts[..|q.parts| - 1] + [v], true))
    else if c == '.' && q.saw then
      if |q.parts| == 4 || last then None else Some(Quad(q.parts + [0], false))
    else None
  }

  function Run4(s: string, q: Quad): (r: Option<Quad>)
    requires q.Ok()
    ensures r.Some? ==> r.value.Ok()
  {
    if s == [] then Some(q)
    else
      var r := Step4(q, s[0], |s| == 1);
      if r.None? then None else Run4(s[1..], r.value)
  }

  /** parse_ipv4: four bytes, padded with zeros, and the number of bytes given. */
  function ParseIpv4(s: string): (r: Option<Parsed>)
    ensures r.Some? ==> |r.value.addr| == 4 && r.value.bytes <= 4
  {
    var q := Run4(s, Quad([0], false));
    if q.None? then None
    else Some(Parsed(q.value.parts + Zeros(4 - |q.value.parts|), q.value.Count()))
  }

  lemma Run4Step(s: string, i: nat, q: Quad)
    requires q.Ok() && i <= |s|
    ensures Run4(s[i..], q) == if i == |s| then Some(q)
                               else var r := Step4(q, s[i], i + 1 == |s|);
                                    if r.None? then None else Run4(s[i + 1..], r.value)
  {
    assert i < |s| ==> s[i..][0] == s[i] && s[i..][1..] == s[i + 1..];
  }

  lemma Step4Is(q: Quad, c: char, last: bool)
    requires q.Ok()
    ensures Digit(c).Some? ==>
              var v: nat := q.parts[|q.parts| - 1] * 10 + Digit(c).value;
              Step4(q, c, last) == if v > 255 then None else Some(Quad(q.parts[..|q.parts| - 1] + [v], true))
    ensures Digit(c).None? ==>
              Step4(q, c, last) == if c == '.' && q.saw && |q.parts| < 4 && !last then Some(Quad(q.parts + [0], false)) else None
  {}

  lemma ParseIpv4Is(s: string)
    ensures var q := Run4(s, Quad([0], false));
            ParseIpv4(s) == if q.None? then None
                            else Some(Parsed(q.value.parts + Zeros(4 - |q.value.parts|), q.value.Count()))
  {}

  /** Stores the part that is being read. */
  method PutByte(tmp: array<byte>, tp: nat, v: byte)
    requires tp < tmp.Length
    modifies tmp
    ensures tmp[..tp + 1] == old(tmp[..tp]) + [v] && tmp[..tp] == old(tmp[..tp])
    ensures forall k :: tp < k < tmp.Length ==> tmp[k] == old(tmp[k])
  {
    tmp[tp] := v;
  }

  lemma Padded(t: seq<byte>, n: nat)
    requires n <= |t| && forall k :: n <= k < |t| ==> t[k] == 0
    ensures t == t[..n] + Zeros(|t| - n)
  {}

  method ParseIpv4Loop(s: string) returns (ok: bool, dst: seq<byte>, bytes: nat)
    ensures (if ok then Some(Parsed(dst, bytes)) else None) == ParseIpv4(s)
  {
    hide Run4, Digit, Step4, ParseIpv4;
    var tmp := new byte[4](_ => 0);
    var tp := 0;
    var saw := false;
    bytes := 0;
    dst := [];
    var i := 0;
    ghost var q := Quad([0], false);
    assert tmp[..1] == [0] && s[0..] == s;
    ParseIpv4Is(s);
    while i < |s|
      invariant i <= |s| && tp < 4 && (forall k :: tp < k < 4 ==> tmp[k] == 0)
      invariant q == Quad(tmp[..tp + 1], saw) && q.Ok() && bytes == q.Count()
      invariant Run4(s[i..], q) == Run4(s, Quad([0], false))
    {
      var ch := s[i];
      Run4Step(s, i, q);
      Step4Is(q, ch, i + 1 == |s|);
      i := i + 1;
      if Digit(ch).Some? {
        var v: nat := tmp[tp] * 10 + Digit(ch).value;
        if v > 255 {
          return false, dst, bytes;
        }
        if !saw {
          bytes := bytes + 1;
          if bytes > 4 {
            return false, dst, bytes;
          }
          saw := true;
        }
        PutByte(tmp, tp, v);
        q := Quad(q.parts[..|q.parts| - 1] + [v], true);
      } else if ch == '.' && saw {
        if bytes == 4 {
          return false, dst, bytes;
        }
        tp := tp + 1;
        PutByte(tmp, tp, 0);
        saw := false;
        if i == |s| {
          return false, dst, bytes;
        }
        q := Quad(q.parts + [0], false);
      } else {
        return false, dst, bytes;
      }
    }
    Run4Step(s, i, q);
    dst := tmp[..];
    Padded(dst, tp + 1);
    assert dst[..tp + 1] == tmp[..tp + 1];
    return true, dst, bytes;
  }

  // ---------------------------------------------------------------- IPv6

  /** Loop state of parse_ipv6: the bytes stored, where "::" was, the group being read, and where it began. */
  datatype Groups = Groups(out: seq<byte>, colon: Option<nat>, saw: bool, val: nat, tok: nat)
  {
    predicate Ok(i: nat) {
      |out| <= 16 && (colon.Some? ==> colon.value <= |out|) && val <= 0xffff && tok <= i
    }
  }

  /** The loop from character `i` on. */
  function Run6(s: string, i: nat, g: Groups): (r: Option<Groups>)
    requires i <= |s| && g.Ok(i)
    ensures r.Some? ==> r.value.Ok(|s|)
    decreases |s| - i
  {
    if i == |s| then Some(g)
    else
      var d := HexDigit(s[i]);
      if d.Some? then
        var v := g.val * 16 + d.value;
        if v > 0xffff then None else Run6(s, i + 1, g.(val := v, saw := true))
      else if s[i] == ':' then
        if !g.saw then
          if g.colon.Some? then None else Run6(s, i + 1, g.(tok := i + 1, colon := Some(|g.out|)))
        else if i + 1 == |s| || |g.out| + 2 > 16 then None
        else Run6(s, i + 1, g.(tok := i + 1, out := g.out + Word(g.val), saw := false, val := 0))
      else if s[i] == '.' && |g.out| + 4 <= 16 && ParseIpv4(s[g.tok..]).Some? then
        Some(g.(out := g.out + ParseIpv4(s[g.tok..]).value.addr, saw := false))
      else None
  }

  /** A group as two bytes. */
  function Word(v: nat): (w: seq<byte>)
    requires v <= 0xffff
    ensures |w| == 2
  {
    [v / 0x100, v % 0x100]
  }

  /** The code behind the loop: the last group, and the shift that opens the "::". */
  function Finish(g: Groups): (r: Option<Parsed>)
    requires g.Ok(g.tok)
    ensures r.Some? ==> |r.value.addr| == 16 && r.value.bytes <= 16
  {
    if g.saw && |g.out| + 2 > 16 then None
    else
      var out := if g.saw then g.out + Word(g.val) else g.out;
      if g.colon.None? then Some(Parsed(out + Zeros(16 - |out|), |out|))
      else Some(Parsed(Opened(out, g.colon.value), 16))
  }

  /**
   The shift loop. It moves the bytes behind the "::" to the end and clears where they were;
   when there is no gap, source and target coincide and the bytes are lost.
   */
  function Opened(out: seq<byte>, c: nat): (r: seq<byte>)
    requires c <= |out| <= 16
    ensures |r| == 16
  {
    if |out| == 16 then out[..c] + Zeros(16 - c)
    else out[..c] + Zeros(16 - |out|) + out[c..]
  }

  /** A leading ':' must be followed by another one; parsing then starts at the second. */
  function ParseIpv6(s: string): (r: Option<Parsed>)
    ensures r.Some? ==> |r.value.addr| == 16 && r.value.bytes <= 16
  {
    if s != [] && s[0] == ':' && (|s| == 1 || s[1] != ':') then None
    else
      var i := if s != [] && s[0] == ':' then 1 else 0;
      var g := Run6(s, i, Groups([], None, false, 0, i));
      if g.None? then None else Finish(g.value)
  }

  /** Stores a finished group. */
  method PutWord(tmp: array<byte>, tp: nat, val: nat)
    requires tp + 2 <= tmp.Length && val <= 0xffff
    modifies tmp
    ensures tmp[..tp + 2] == old(tmp[..tp]) + Word(val)
    ensures forall k :: tp + 2 <= k < tmp.Length ==> tmp[k] == old(tmp[k])
  {
    tmp[tp] := val / 0x100 % 0x100;
    tmp[tp + 1] := val % 0x100;
  }

  /** Stores a dotted quad. */
  method PutQuad(tmp: array<byte>, tp: nat, quad: seq<byte>)
    requires tp + 4 <= tmp.Length && |quad| == 4
    modifies tmp
    ensures tmp[..tp + 4] == old(tmp[..tp]) + quad
    ensures forall k :: tp + 4 <= k < tmp.Length ==> tmp[k] == old(tmp[k])
  {
    forall k | 0 <= k < 4 {
      tmp[tp + k] := quad[k];
    }
  }

  /** One turn of the loop of parse_ipv6. */
  lemma Run6Step(s: string, i: nat, g: Groups)
    requires i <= |s| && g.Ok(i)
    ensures i == |s| ==> Run6(s, i, g) == Some(g)
    ensures i < |s| && HexDigit(s[i]).Some? ==>
              var v := g.val * 16 + HexDigit(s[i]).value;
              Run6(s, i, g) == if v > 0xffff then None else Run6(s, i + 1, g.(val := v, saw := true))
    ensures i < |s| && HexDigit(s[i]).None? && s[i] == ':' && !g.saw ==>
              Run6(s, i, g) == if g.colon.Some? then None else Run6(s, i + 1, g.(tok := i + 1, colon := Some(|g.out|)))
    ensures i < |s| && HexDigit(s[i]).None? && s[i] == ':' && g.saw ==>
              Run6(s, i, g) == if i + 1 == |s| || |g.out| + 2 > 16 then None
                               else Run6(s, i + 1, g.(tok := i + 1, out := g.out + Word(g.val), saw := false, val := 0))
    ensures i < |s| && HexDigit(s[i]).None? && s[i] != ':' ==>
              Run6(s, i, g) == if s[i] == '.' && |g.out| + 4 <= 16 && ParseIpv4(s[g.tok..]).Some?
                               then Some(g.(out := g.out + ParseIpv4(s[g.tok..]).value.addr, saw := false)) else None
  {
    hide ParseIpv4;
  }

  method ParseIpv6Loop(s: string) returns (ok: bool, dst: seq<byte>, bytes: nat)
    ensures (if ok then Some(Parsed(dst, bytes)) else None) == ParseIpv6(s)
  {
    hide Run6, ParseIpv4, HexDigit, Opened, Word, Finish;
    ok, dst, bytes := false, [], 0;
    var tmp := new byte[16](_ => 0);
    var tp: nat, colonp: int, i: nat := 0, -1, 0;
    if s != [] && s[0] == ':' {
      i := 1;
      if |s| == 1 || s[1] != ':' {
        return;
      }
    }
    var curtok, saw, val: nat := i, false, 0;
    ghost var start := Run6(s, i, Groups([], None, false, 0, i));
    ghost var g := Groups([], None, false, 0, i);
    var broke := false;
    assert tmp[..0] == [];
    while i < |s| && !broke
      invariant i <= |s| && tp <= 16 && g.Ok(i) && (forall k :: tp <= k < 16 ==> tmp[k] == 0)
      invariant g == Groups(tmp[..tp], if colonp < 0 then None else Some(colonp), saw, val, curtok)
      invariant if broke then start == Some(g) else Run6(s, i, g) == start
      decreases |s| - i, !broke
    {
      Run6Step(s, i, g);
      var ch := s[i];
      var d := HexDigit(ch);
      if d.Some? {
        val := val * 16 + d.value;
        if val > 0xffff {
          return;
        }
        saw := true;
        i := i + 1;
        g := g.(val := val, saw := true);
        continue;
      }
      if ch == ':' {
        curtok := i + 1;
        if !saw {
          if colonp >= 0 {
            return;
          }
          colonp := tp;
          i := i + 1;
          g := g.(tok := i, colon := Some(|g.out|));
          continue;
        } else if i + 1 == |s| {
          return;
        }
        if tp + 2 > 16 {
          return;
        }
        PutWord(tmp, tp, val);
        tp := tp + 2;
        g := g.(tok := i + 1, out := g.out + Word(val), saw := false, val := 0);
        saw := false;
        val := 0;
        i := i + 1;
        continue;
      }
      if ch == '.' && tp + 4 <= 16 {
        var ok4, quad, n := ParseIpv4Loop(s[curtok..]);
        if ok4 {
          PutQuad(tmp, tp, quad);
          tp := tp + 4;
          saw := false;
          broke := true;
          g := g.(out := g.out + quad, saw := false);
          continue;
        }
      }
      return;
    }
    Run6Step(s, i, g);
    assert start == Some(g);
    ok, dst, bytes := CloseIpv6(tmp, tp, colonp, saw, val, g);
  }

  /** What follows the loop: the last group is stored, and the "::" opened. */
  method CloseIpv6(tmp: array<byte>, tp0: nat, colonp: int, saw: bool, val: nat, ghost g: Groups)
    returns (ok: bool, dst: seq<byte>, bytes: nat)
    requires tmp.Length == 16 && tp0 <= 16 && g.Ok(g.tok) && (forall k :: tp0 <= k < 16 ==> tmp[k] == 0)
    requires g == Groups(tmp[..tp0], if colonp < 0 then None else Some(colonp), saw, val, g.tok)
    modifies tmp
    ensures (if ok then Some(Parsed(dst, bytes)) else None) == Finish(g)
  {
    hide Opened, Word;
    ok, dst, bytes := false, [], 0;
    var tp := tp0;
    if saw {
      if tp + 2 > 16 {
        return;
      }
      PutWord(tmp, tp, val);
      tp := tp + 2;
    }
    if colonp >= 0 {
      ShiftToEnd(tmp, colonp, tp);
      tp := 16;
    } else {
      assert tmp[..] == tmp[..tp] + Zeros(16 - tp);
    }
    return true, tmp[..], tp;
  }

  /** The buffer when `j` bytes behind the "::" have been moved: byte `k`. */
  function Shifted(s: seq<byte>, tp: nat, j: nat, k: nat): byte
    requires |s| == 16 && j <= tp <= 16 && k < 16
  {
    if k < tp - j then s[k]
    else if tp < 16 && 16 - j <= k then s[k - (16 - tp)]
    else 0
  }

  lemma ShiftStep(s: seq<byte>, t: seq<byte>, tp: nat, j: nat)
    requires |s| == |t| == 16 && j < tp <= 16
    requires forall k :: 0 <= k < 16 ==> t[k] == Shifted(s, tp, j, k)
    ensures var u := t[16 - (j + 1) := t[tp - (j + 1)]][tp - (j + 1) := 0];
            forall k :: 0 <= k < 16 ==> u[k] == Shifted(s, tp, j + 1, k)
  {
  }

  /** The shift done by hand. */
  method ShiftToEnd(tmp: array<byte>, colonp: nat, tp: nat)
    requires tmp.Length == 16 && colonp <= tp <= 16 && forall k :: tp <= k < 16 ==> tmp[k] == 0
    modifies tmp
    ensures tmp[..] == Opened(old(tmp[..tp]), colonp)
  {
    var n := tp - colonp;
    var i := 1;
    ghost var s := tmp[..];
    while i <= n
      invariant 1 <= i <= n + 1 && forall k :: 0 <= k < 16 ==> tmp[k] == Shifted(s, tp, i - 1, k)
    {
      ShiftStep(s, tmp[..], tp, i - 1);
      ghost var u := tmp[..][16 - i := tmp[tp - i]][tp - i := 0];
      tmp[16 - i] := tmp[colonp + (n - i)];
      tmp[colonp + (n - i)] := 0;
      assert tmp[..] == u;
      i := i + 1;
    }
  }

  // ---------------------------------------------------------------- printing and parsing IPv4

  /** A spelling of a byte in decimal. */
  predicate ByteText(t: string) {
    t != [] && IsDec(t) && DecFrom(0, t) <= 255
  }

  predicate ByteTexts(ts: seq<string>) {
    forall i :: 0 <= i < |ts| ==> ByteText(ts[i])
  }

  function ByteValues(ts: seq<string>): (r: seq<byte>)
    requires ByteTexts(ts)
    ensures |r| == |ts|
  {
    seq(|ts|, i requires 0 <= i < |ts| => DecFrom(0, ts[i]))
  }

  /** The parts of a dotted address, separated by dots. */
  function Dotted(ts: seq<string>): string {
    if ts == [] then [] else if |ts| == 1 then ts[0] else ts[0] + ['.'] + Dotted(ts[1..])
  }

  lemma {:induction false} ReadDec(t: string, rest: string, q: Quad)
    requires q.Ok() && IsDec(t) && DecFrom(q.parts[|q.parts| - 1], t) <= 255 && t != []
    ensures var r := Quad(q.parts[..|q.parts| - 1] + [DecFrom(q.parts[|q.parts| - 1], t)], true);
            r.Ok() && Run4(t + rest, q) == Run4(rest, r)
    decreases |t|
  {
    var n := |q.parts| - 1;
    var v: nat := q.parts[n] * 10 + Digit(t[0]).value;
    assert (t + rest)[0] == t[0] && (t + rest)[1..] == t[1..] + rest;
    assert DecFrom(q.parts[n], t) == DecFrom(v, t[1..]);
    var q1 := Quad(q.parts[..n] + [v], true);
    assert Step4(q, t[0], |t + rest| == 1) == Some(q1);
    if t[1..] == [] {
      assert t[1..] + rest == rest;
    } else {
      ReadDec(t[1..], rest, q1);
    }
  }

  lemma ReadPart(t: string, rest: string, parts: seq<byte>)
    requires ByteText(t) && |parts| < 4
    ensures Run4(t + rest, Quad(parts + [0], false)) == Run4(rest, Quad(parts + [DecFrom(0, t)], true))
  {
    hide Run4, DecFrom, IsDec;
    assert (parts + [0])[..|parts|] == parts;
    ReadDec(t, rest, Quad(parts + [0], false));
  }

  /** A dot with something behind it starts the next part. */
  lemma ReadDot(s: string, parts: seq<byte>)
    requires 1 <= |parts| < 4 && s != []
    ensures Run4(['.'] + s, Quad(parts, true)) == Run4(s, Quad(parts + [0], false))
  {
    hide Run4;
    Run4Step(['.'] + s, 0, Quad(parts, true));
    assert (['.'] + s)[0..] == ['.'] + s && (['.'] + s)[1..] == s;
  }

  lemma ByteValuesStep(ts: seq<string>)
    requires ts != [] && ByteTexts(ts)
    ensures ByteText(ts[0]) && ByteTexts(ts[1..]) && ByteValues(ts) == [DecFrom(0, ts[0])] + ByteValues(ts[1..])
  {
    hide DecFrom, IsDec;
  }

  lemma {:induction false} ReadDotted(ts: seq<string>, parts: seq<byte>)
    requires ts != [] && ByteTexts(ts) && |parts| + |ts| <= 4
    ensures Run4(Dotted(ts), Quad(parts + [0], false)) == Some(Quad(parts + ByteValues(ts), true))
    decreases |ts|
  {
    hide Run4, DecFrom, IsDec, ByteTexts, ByteValues;
    ByteValuesStep(ts);
    var v: byte := DecFrom(0, ts[0]);
    if |ts| == 1 {
      assert ByteValues(ts) == [v];
      assert Dotted(ts) == ts[0] + [];
      ReadPart(ts[0], [], parts);
      var none: string := [];
      assert none[0..] == none;
      Run4Step(none, 0, Quad(parts + [v], true));
    } else {
      var rest := ts[1..];
      ByteValuesStep(rest);
      assert Dotted(ts) == ts[0] + (['.'] + Dotted(rest));
      ReadPart(ts[0], ['.'] + Dotted(rest), parts);
      DottedNotEmpty(rest);
      ReadDot(Dotted(rest), parts + [v]);
      ReadDotted(rest, parts + [v]);
      assert parts + ([v] + ByteValues(rest)) == parts + [v] + ByteValues(rest);
    }
  }

  lemma DottedNotEmpty(ts: seq<string>)
    requires ts != [] && ByteText(ts[0])
    ensures Dotted(ts) != [] && ts[0] != [] && Dotted(ts)[0] == ts[0][0]
  {
  }

  /** One to four decimal parts parse to those bytes, zeros behind them, and their number. */
  lemma PrintedIpv4Parses(ts: seq<string>)
    requires 1 <= |ts| <= 4 && ByteTexts(ts)
    ensures ParseIpv4(Dotted(ts)) == Some(Parsed(ByteValues(ts) + Zeros(4 - |ts|), |ts|))
  {
    ReadDotted(ts, []);
    assert [] + [0] == [0];
    assert [] + ByteValues(ts) == ByteValues(ts);
  }

  // ---------------------------------------------------------------- printing and parsing IPv6

  /** A spelling of a 16-bit group in hexadecimal. */
  predicate GroupText(t: string) {
    t != [] && IsHex(t) && HexFrom(0, t) <= 0xffff
  }

  predicate GroupTexts(ts: seq<string>) {
    forall i :: 0 <= i < |ts| ==> GroupText(ts[i])
  }

  /** The bytes of a list of groups. */
  function Words(ts: seq<string>): (r: seq<byte>)
    requires GroupTexts(ts)
    ensures |r| == 2 * |ts|
  {
    if ts == [] then [] else
      assert GroupText(ts[0]);
      Word(HexFrom(0, ts[0])) + Words(ts[1..])
  }

  /** Groups, each followed by a colon. */
  function Colons(ts: seq<string>): string {
    if ts == [] then [] else ts[0] + [':'] + Colons(ts[1..])
  }

  lemma HasChar(s: string, i: nat, c: char)
    requires Has(s, i, [c])
    ensures i < |s| && s[i] == c
  {
    assert s[i] == s[i..i + 1][0];
  }

  lemma {:induction false} ReadHex(s: string, i: nat, t: string, g: Groups)
    requires g.Ok(i) && Has(s, i, t) && IsHex(t) && HexFrom(g.val, t) <= 0xffff
    ensures var r := g.(val := HexFrom(g.val, t), saw := g.saw || t != []);
            r.Ok(i + |t|) && Run6(s, i, g) == Run6(s, i + |t|, r)
    decreases |t|
  {
    if t != [] {
      assert s[i] == s[i..i + |t|][0] == t[0];
      var v := g.val * 16 + HexDigit(t[0]).value;
      assert HexFrom(g.val, t) == HexFrom(v, t[1..]);
      assert s[i + 1..i + 1 + |t[1..]|] == s[i..i + |t|][1..];
      Run6Step(s, i, g);
      ReadHex(s, i + 1, t[1..], g.(val := v, saw := true));
    }
  }

  /** Between two groups: nothing of the next one has been read. */
  function Fresh(out: seq<byte>, colon: Option<nat>, tok: nat): Groups {
    Groups(out, colon, false, 0, tok)
  }

  lemma ReadGroup(s: string, i: nat, t: string, out: seq<byte>, colon: Option<nat>)
    requires GroupText(t) && Has(s, i, t + [':']) && i + |t| + 1 < |s| && Fresh(out, colon, i).Ok(i) && |out| + 2 <= 16
    ensures Run6(s, i, Fresh(out, colon, i))
            == Run6(s, i + |t| + 1, Fresh(out + Word(HexFrom(0, t)), colon, i + |t| + 1))
  {
    hide Run6, Has, HexFrom, Word;
    HasConcat(s, i, t, [':']);
    HasChar(s, i + |t|, ':');
    var g := Fresh(out, colon, i);
    ReadHex(s, i, t, g);
    Run6Step(s, i + |t|, g.(val := HexFrom(0, t), saw := true));
  }

  lemma {:induction false} ReadGroups(s: string, i: nat, ts: seq<string>, out: seq<byte>, colon: Option<nat>)
    requires GroupTexts(ts) && Has(s, i, Colons(ts)) && i + |Colons(ts)| < |s| && Fresh(out, colon, i).Ok(i)
    requires |out| + 2 * |ts| <= 16
    ensures var j := i + |Colons(ts)|;
            Run6(s, i, Fresh(out, colon, i)) == Run6(s, j, Fresh(out + Words(ts), colon, j))
    decreases |ts|
  {
    hide Run6, Has, HexFrom, Word;
    if ts == [] {
      assert out + Words(ts) == out;
    } else {
      assert GroupText(ts[0]);
      var t, rest := ts[0], ts[1..];
      HasConcat(s, i, t + [':'], Colons(rest));
      ReadGroup(s, i, t, out, colon);
      var out1 := out + Word(HexFrom(0, t));
      ReadGroups(s, i + |t| + 1, rest, out1, colon);
      assert out1 + Words(rest) == out + Words(ts);
    }
  }

  /** What may stand behind the last colon: nothing, a group, or a dotted quad, of which the code takes the last parts for 0. */
  datatype Last = Nothing | Group(text: string) | Quad4(texts: seq<string>)
  {
    predicate Ok() {
      match this
      case Nothing => true
      case Group(t) => GroupText(t)
      case Quad4(ts) => 2 <= |ts| <= 4 && ByteTexts(ts)
    }

    function Text(): string {
      match this
      case Nothing => []
      case Group(t) => t
      case Quad4(ts) => Dotted(ts)
    }

    function Value(): (r: seq<byte>)
      requires Ok()
      ensures |r| <= 4
    {
      match this
      case Nothing => []
      case Group(t) => Word(HexFrom(0, t))
      case Quad4(ts) => ByteValues(ts) + Zeros(4 - |ts|)
    }
  }

  /** A decimal byte read as hexadecimal stays far below the limit for a group. */
  lemma {:induction false} DecAsHex(v: nat, a: nat, t: string)
    requires IsDec(t) && DecFrom(v, t) <= 255
    requires (v < 10 ==> a == v) && (v < 100 ==> a <= 0x99) && a <= 0x999
    ensures IsHex(t) && HexFrom(a, t) <= 0x999
    decreases |t|
  {
    if t != [] {
      DecAsHex(v * 10 + Digit(t[0]).value, a * 16 + HexDigit(t[0]).value, t[1..]);
      assert forall i :: 0 < i < |t| ==> t[i] == t[1..][i - 1];
    }
  }

  /** The end of the text is read, and the code behind the loop finishes. */
  lemma ReadLast(s: string, i: nat, last: Last, out: seq<byte>, colon: Option<nat>)
    requires last.Ok() && Has(s, i, last.Text()) && i + |last.Text()| == |s| && Fresh(out, colon, i).Ok(i)
    requires |out| + |last.Value()| <= 16
    ensures var all := out + last.Value();
            var r := Run6(s, i, Fresh(out, colon, i));
            r.Some? && Finish(r.value) == Some(if colon.None? then Parsed(all + Zeros(16 - |all|), |all|)
                                               else Parsed(Opened(all, colon.value), 16))
  {
    hide Opened, Run6, HexFrom, IsHex, Word, ParseIpv4, ByteValues, Dotted, ByteTexts, Zeros, Finish, Has;
    var g := Fresh(out, colon, i);
    match last {
      case Nothing =>
        Run6Step(s, i, g);
        assert out + [] == out;
        Closes(g, out);
      case Group(t) =>
        ReadHex(s, i, t, g);
        var r := g.(val := HexFrom(0, t), saw := true);
        Run6Step(s, |s|, r);
        Closes(r, out + Word(HexFrom(0, t)));
      case Quad4(ts) =>
        ReadQuad(s, i, ts, g);
        Closes(Run6(s, i, g).value, out + last.Value());
    }
  }

  lemma Closes(g: Groups, all: seq<byte>)
    requires g.Ok(g.tok) && all == (if g.saw then g.out + Word(g.val) else g.out) && |all| <= 16
    ensures Finish(g) == Some(if g.colon.None? then Parsed(all + Zeros(16 - |all|), |all|)
                              else Parsed(Opened(all, g.colon.value), 16))
  {
    hide Opened, Word, Zeros;
  }

  lemma ReadQuad(s: string, i: nat, ts: seq<string>, g: Groups)
    requires 2 <= |ts| <= 4 && ByteTexts(ts) && Has(s, i, Dotted(ts)) && i + |Dotted(ts)| == |s|
    requires g.Ok(i) && g.tok == i && !g.saw && g.val == 0 && |g.out| + 4 <= 16
    ensures var r := Run6(s, i, g);
            && r.Some? && r.value.out == g.out + (ByteValues(ts) + Zeros(4 - |ts|)) && r.value.colon == g.colon
            && !r.value.saw
  {
    hide Run6, ParseIpv4;
    var t := ts[0];
    assert ByteText(t);
    var rest := ['.'] + Dotted(ts[1..]);
    assert Dotted(ts) == t + rest;
    HasConcat(s, i, t, rest);
    DecAsHex(0, 0, t);
    ReadHex(s, i, t, g);
    HasConcat(s, i + |t|, ['.'], Dotted(ts[1..]));
    HasChar(s, i + |t|, '.');
    Run6Step(s, i + |t|, g.(val := HexFrom(0, t), saw := true));
    assert s[i..] == Dotted(ts);
    PrintedIpv4Parses(ts);
  }

  /** The text of an address without "::". */
  function Plain(ts: seq<string>, last: Last): string {
    Colons(ts) + last.Text()
  }

  /** The text of an address with "::" between `left` and the groups behind it. */
  function Shortened(left: seq<string>, right: seq<string>, last: Last): string {
    (if left == [] then [':'] else Colons(left)) + ([':'] + (Colons(right) + last.Text()))
  }

  /**
   `k` groups without "::", the last of them perhaps a dotted quad, parse to the bytes they
   spell, as a prefix of the address, and to their number.
   */
  lemma PlainIpv6Parses(ts: seq<string>, last: Last)
    requires GroupTexts(ts) && last.Ok() && !last.Nothing? && 2 * |ts| + |last.Value()| <= 16
    ensures var all := Words(ts) + last.Value();
            ParseIpv6(Plain(ts, last)) == Some(Parsed(all + Zeros(16 - |all|), |all|))
  {
    hide Run6, Finish, Has, Colons, Words, GroupTexts, Zeros;
    var s := Plain(ts, last);
    PlainStart(ts, last);
    HasAll(s);
    ReadRest(s, 0, ts, last, [], None);
    assert [] + (Words(ts) + last.Value()) == Words(ts) + last.Value();
  }

  lemma PlainStart(ts: seq<string>, last: Last)
    requires GroupTexts(ts) && last.Ok() && !last.Nothing?
    ensures last.Text() != [] && Plain(ts, last) != [] && Plain(ts, last)[0] != ':'
  {
    if last.Quad4? {
      assert ByteText(last.texts[0]);
      DottedNotEmpty(last.texts);
    }
    if ts != [] {
      assert GroupText(ts[0]);
      assert Plain(ts, last)[0] == ts[0][0];
    }
  }

  /**
   An address with one "::", wherever it stands and whatever follows it, parses to the groups
   before it, zeros, and the groups behind it, as long as it stands for at least one group.
   */
  lemma ShortenedIpv6Parses(left: seq<string>, right: seq<string>, last: Last)
    requires GroupTexts(left) && GroupTexts(right) && last.Ok() && (right == [] || !last.Nothing?)
    requires 2 * |left| + 2 * |right| + |last.Value()| <= 14
    ensures var tail := Words(right) + last.Value();
            ParseIpv6(Shortened(left, right, last))
            == Some(Parsed(Words(left) + Zeros(16 - 2 * |left| - |tail|) + tail, 16))
  {
    hide ParseIpv6, Words, GroupTexts, Shortened;
    ShortenedParse(left, right, last);
    var tail := Words(right) + last.Value();
    var all := Words(left) + tail;
    assert all[..2 * |left|] == Words(left) && all[2 * |left|..] == tail;
  }

  /** The "::" of eight groups: it stands for nothing, and everything behind it is cleared. */
  lemma FullyShortenedLosesTail(left: seq<string>, right: seq<string>, last: Last)
    requires GroupTexts(left) && GroupTexts(right) && last.Ok() && (right == [] || !last.Nothing?)
    requires 2 * |left| + 2 * |right| + |last.Value()| == 16
    ensures ParseIpv6(Shortened(left, right, last)) == Some(Parsed(Words(left) + Zeros(16 - 2 * |left|), 16))
  {
    ShortenedParse(left, right, last);
    var all := Words(left) + (Words(right) + last.Value());
    assert all[..2 * |left|] == Words(left);
  }

  /**
   Any text with one "::" and at most eight groups parses to the address it spells if and only if the "::" stands for
   a group, or there is nothing but zeros behind it.
   */
  lemma ShortenedExactly(left: seq<string>, right: seq<string>, last: Last)
    requires GroupTexts(left) && GroupTexts(right) && last.Ok() && (right == [] || !last.Nothing?)
    requires 2 * |left| + 2 * |right| + |last.Value()| <= 16
    ensures var tail := Words(right) + last.Value();
            ParseIpv6(Shortened(left, right, last))
            == Some(Parsed(Words(left) + Zeros(16 - 2 * |left| - |tail|) + tail, 16))
            <==> 2 * |left| + |tail| < 16 || tail == Zeros(|tail|)
  {
    hide *;
    var tail := Words(right) + last.Value();
    if 2 * |left| + |tail| < 16 {
      EvenTail(left, right, last);
      ShortenedIpv6Parses(left, right, last);
    } else {
      FullyShortenedLosesTail(left, right, last);
      TailLost(Words(left), tail);
    }
  }

  lemma EvenTail(left: seq<string>, right: seq<string>, last: Last)
    requires last.Ok() && 2 * |left| + 2 * |right| + |last.Value()| < 16
    ensures 2 * |left| + 2 * |right| + |last.Value()| <= 14
  {
    assert |last.Value()| in {0, 2, 4};
  }

  lemma TailLost(a: seq<byte>, tail: seq<byte>)
    ensures a + Zeros(|tail|) == a + Zeros(0) + tail <==> tail == Zeros(|tail|)
  {
    assert (a + Zeros(0) + tail)[|a|..] == tail;
    assert (a + Zeros(|tail|))[|a|..] == Zeros(|tail|);
    assert a + Zeros(0) + tail == a + tail;
  }

  /** Groups and the end of the text, from any point between groups. */
  lemma ReadRest(s: string, i: nat, ts: seq<string>, last: Last, out: seq<byte>, colon: Option<nat>)
    requires GroupTexts(ts) && last.Ok() && (ts == [] || !last.Nothing?) && Fresh(out, colon, i).Ok(i)
    requires Has(s, i, Colons(ts) + last.Text()) && i + |Colons(ts) + last.Text()| == |s|
    requires |out| + 2 * |ts| + |last.Value()| <= 16
    ensures var all := out + (Words(ts) + last.Value());
            var r := Run6(s, i, Fresh(out, colon, i));
            r.Some? && Finish(r.value) == Some(if colon.None? then Parsed(all + Zeros(16 - |all|), |all|)
                                               else Parsed(Opened(all, colon.value), 16))
  {
    hide Run6, Finish, Has, Colons, Words, GroupTexts, Zeros, Opened;
    HasConcat(s, i, Colons(ts), last.Text());
    if ts != [] {
      PlainStart(ts, last);
      ReadGroups(s, i, ts, out, colon);
    } else {
      NoGroups(out);
    }
    ReadLast(s, i + |Colons(ts)|, last, out + Words(ts), colon);
    assert out + Words(ts) + last.Value() == out + (Words(ts) + last.Value());
  }

  /** Everything up to and including the "::". */
  lemma ReadOpening(s: string, left: seq<string>, tail: string)
    requires GroupTexts(left) && 2 * |left| <= 16
    requires s == (if left == [] then [':'] else Colons(left)) + ([':'] + tail)
    ensures var i := if left == [] then 1 else 0;
            var j := (if left == [] then 1 else |Colons(left)|) + 1;
            && s != [] && (s[0] == ':' <==> left == []) && (left == [] ==> |s| > 1 && s[1] == ':')
            && j <= |s| && Has(s, j, tail) && j + |tail| == |s|
            && Run6(s, i, Fresh([], None, i)) == Run6(s, j, Fresh(Words(left), Some(2 * |left|), j))
  {
    hide Run6, Has, Words, GroupTexts, Colons, ParseIpv4, Word;
    var head := if left == [] then [':'] else Colons(left);
    HasAll(s);
    HasConcat(s, 0, head, [':'] + tail);
    HasConcat(s, |head|, [':'], tail);
    HasChar(s, |head|, ':');
    ShortenedStart(s, left, head);
    if left != [] {
      ReadGroups(s, 0, left, [], None);
      assert [] + Words(left) == Words(left);
    } else {
      NoGroups([]);
    }
    Run6Step(s, |head|, Fresh(Words(left), None, |head|));
  }

  lemma ParseIpv6Is(s: string)
    requires s != [] && (s[0] == ':' ==> |s| > 1 && s[1] == ':')
    ensures var i := if s[0] == ':' then 1 else 0;
            var g := Run6(s, i, Fresh([], None, i));
            ParseIpv6(s) == if g.None? then None else Finish(g.value)
  {
    hide Run6, Finish;
  }

  lemma ShortenedParse(left: seq<string>, right: seq<string>, last: Last)
    requires GroupTexts(left) && GroupTexts(right) && last.Ok() && (right == [] || !last.Nothing?)
    requires 2 * |left| + 2 * |right| + |last.Value()| <= 16
    ensures ParseIpv6(Shortened(left, right, last))
            == Some(Parsed(Opened(Words(left) + (Words(right) + last.Value()), 2 * |left|), 16))
  {
    hide Run6, Finish, Opened, Has, Words, GroupTexts, Zeros, Colons, ParseIpv6, Last.Ok, Last.Text, Last.Value;
    var s := Shortened(left, right, last);
    var tail := Colons(right) + last.Text();
    ReadOpening(s, left, tail);
    ParseIpv6Is(s);
    var j := (if left == [] then 1 else |Colons(left)|) + 1;
    ReadRest(s, j, right, last, Words(left), Some(2 * |left|));
  }

  lemma NoGroups(out: seq<byte>)
    ensures GroupTexts([]) && Words([]) == [] && out + Words([]) == out && Colons([]) == []
  {
  }

  lemma ShortenedStart(s: string, left: seq<string>, head: string)
    requires GroupTexts(left) && head == (if left == [] then [':'] else Colons(left))
    requires |head| < |s| && Has(s, 0, head) && s[|head|] == ':'
    ensures s != [] && (s[0] == ':' <==> left == []) && (left == [] ==> |s| > 1 && s[1] == ':')
  {
    assert s[0] == s[0..|head|][0];
    if left != [] {
      assert GroupText(left[0]);
      assert head[0] == left[0][0];
    }
  }

  // ---------------------------------------------------------------- addresses as they are usually written

  const LOWER: string := "0123456789abcdef"
  const UPPER: string := "0123456789ABCDEF"

  lemma LowerDigit(n: nat)
    requires n < 16
    ensures HexDigit(LOWER[n]) == Some(n) && (n < 10 ==> Digit(LOWER[n]) == Some(n))
  {
    assert LOWER[n] == if n < 10 then '0' + n as char else 'a' + (n - 10) as char;
  }

  lemma UpperDigit(n: nat)
    requires n < 16
    ensures HexDigit(UPPER[n]) == Some(n)
  {
    assert UPPER[n] == if n < 10 then '0' + n as char else 'A' + (n - 10) as char;
  }

  /** Two bytes with four digits. */
  function HexText(a: byte, b: byte, digits: string): string
    requires |digits| == 16
  {
    [digits[a / 16], digits[a % 16], digits[b / 16], digits[b % 16]]
  }

  lemma HexTextIs(a: byte, b: byte, digits: string)
    requires digits == LOWER || digits == UPPER
    ensures |digits| == 16
    ensures var t := HexText(a, b, digits); GroupText(t) && Word(HexFrom(0, t)) == [a, b]
  {
    hide HexDigit, GroupText, HexFrom, Word;
    Nibbles(a, b);
    DigitOf(a / 16, digits);
    DigitOf(a % 16, digits);
    DigitOf(b / 16, digits);
    DigitOf(b % 16, digits);
    FourDigits(HexText(a, b, digits), a / 16, a % 16, b / 16, b % 16);
  }

  lemma Nibbles(a: byte, b: byte)
    ensures a / 16 < 16 && a % 16 < 16 && b / 16 < 16 && b % 16 < 16
    ensures var v := ((a / 16 * 16 + a % 16) * 16 + b / 16) * 16 + b % 16; v <= 0xffff && Word(v) == [a, b]
  {
    assert ((a / 16 * 16 + a % 16) * 16 + b / 16) * 16 + b % 16 == 0x100 * a + b;
  }

  lemma DigitOf(n: nat, digits: string)
    requires n < 16 && (digits == LOWER || digits == UPPER)
    ensures |digits| == 16 && HexDigit(digits[n]) == Some(n)
  {
    hide HexDigit;
    LowerDigit(n);
    UpperDigit(n);
  }

  lemma FourDigits(t: string, p: nat, q: nat, r: nat, s: nat)
    requires |t| == 4 && p < 16 && q < 16 && r < 16 && s < 16
    requires HexDigit(t[0]) == Some(p) && HexDigit(t[1]) == Some(q) && HexDigit(t[2]) == Some(r) && HexDigit(t[3]) == Some(s)
    ensures GroupText(t) && HexFrom(0, t) == ((p * 16 + q) * 16 + r) * 16 + s
  {
    hide HexDigit;
    assert IsHex(t);
    assert t[1..][1..] == t[2..] && t[2..][1..] == t[3..] && t[3..][1..] == [];
    assert HexFrom(((p * 16 + q) * 16 + r) * 16 + s, []) == ((p * 16 + q) * 16 + r) * 16 + s;
    assert HexFrom((p * 16 + q) * 16 + r, t[3..]) == ((p * 16 + q) * 16 + r) * 16 + s;
    assert HexFrom(p * 16 + q, t[2..]) == ((p * 16 + q) * 16 + r) * 16 + s;
    assert HexFrom(p, t[1..]) == ((p * 16 + q) * 16 + r) * 16 + s;
  }

  /** The groups of an even number of bytes. */
  function HexTexts(addr: seq<byte>, digits: string): (ts: seq<string>)
    requires |digits| == 16 && |addr| % 2 == 0
    ensures |ts| == |addr| / 2
  {
    if addr == [] then [] else [HexText(addr[0], addr[1], digits)] + HexTexts(addr[2..], digits)
  }

  lemma {:induction false} HexTextsAre(addr: seq<byte>, digits: string)
    requires (digits == LOWER || digits == UPPER) && |addr| % 2 == 0
    ensures |digits| == 16 && GroupTexts(HexTexts(addr, digits)) && Words(HexTexts(addr, digits)) == addr
    decreases |addr|
  {
    hide HexText, GroupText, Word, HexFrom;
    HexTextIs(0, 0, digits);
    if addr != [] {
      HexTextIs(addr[0], addr[1], digits);
      HexTextsAre(addr[2..], digits);
      var ts := HexTexts(addr, digits);
      assert ts[1..] == HexTexts(addr[2..], digits);
      assert addr == [addr[0], addr[1]] + addr[2..];
    }
  }

  lemma {:induction false} WordsSnoc(ts: seq<string>, t: string)
    requires GroupTexts(ts + [t])
    ensures GroupTexts(ts) && GroupText(t) && Words(ts + [t]) == Words(ts) + Word(HexFrom(0, t))
    decreases |ts|
  {
    hide GroupText, Word, HexFrom;
    assert (ts + [t])[|ts|] == t;
    assert forall i :: 0 <= i < |ts| ==> ts[i] == (ts + [t])[i];
    if ts == [] {
      assert ts + [t] == [t] && [t][1..] == [];
      NoGroups([]);
    } else {
      assert (ts + [t])[1..] == ts[1..] + [t];
      assert forall i :: 0 <= i < |ts| ==> (ts[1..] + [t])[i] == (ts + [t])[i + 1];
      WordsSnoc(ts[1..], t);
    }
  }

  /** Sixteen bytes written as eight groups of four digits, of either case, parse to these bytes in this order. */
  lemma PrintedIpv6Parses(addr: seq<byte>, digits: string)
    requires |addr| == 16 && (digits == LOWER || digits == UPPER)
    ensures |digits| == 16
    ensures var ts := HexTexts(addr, digits); ParseIpv6(Colons(ts[..7]) + ts[7]) == Some(Parsed(addr, 16))
  {
    hide ParseIpv6, Words, Colons, Word, HexFrom, GroupText, HexText;
    HexTextsAre(addr, digits);
    var ts := HexTexts(addr, digits);
    assert ts == ts[..7] + [ts[7]];
    WordsSnoc(ts[..7], ts[7]);
    PlainIpv6Parses(ts[..7], Group(ts[7]));
    assert addr + Zeros(0) == addr;
  }

  /** A byte in decimal, without leading zeros. */
  function DecText(b: byte): string {
    if b < 10 then [LOWER[b]]
    else if b < 100 then [LOWER[b / 10], LOWER[b % 10]]
    else [LOWER[b / 100], LOWER[b / 10 % 10], LOWER[b % 10]]
  }

  lemma TwoDecimals(t: string, p: nat, q: nat)
    requires |t| == 2 && Digit(t[0]) == Some(p) && Digit(t[1]) == Some(q)
    ensures IsDec(t) && DecFrom(0, t) == p * 10 + q
  {
    hide Digit;
    assert IsDec(t);
    assert t[1..][1..] == [];
    assert DecFrom(p, t[1..]) == p * 10 + q;
  }

  lemma ThreeDecimals(t: string, p: nat, q: nat, r: nat)
    requires |t| == 3 && Digit(t[0]) == Some(p) && Digit(t[1]) == Some(q) && Digit(t[2]) == Some(r)
    ensures IsDec(t) && DecFrom(0, t) == (p * 10 + q) * 10 + r
  {
    hide Digit;
    assert IsDec(t);
    assert t[1..][1..] == t[2..] && t[2..][1..] == [];
    assert DecFrom(p * 10 + q, t[2..]) == (p * 10 + q) * 10 + r;
    assert DecFrom(p, t[1..]) == (p * 10 + q) * 10 + r;
  }

  lemma DecTextIs(b: byte)
    ensures ByteText(DecText(b)) && DecFrom(0, DecText(b)) == b
  {
    hide Digit, HexDigit, DecFrom, IsDec;
    Decimals(b);
    LowerDigit(b % 10);
    if b < 10 {
      OneDecimal(DecText(b), b);
    } else if b < 100 {
      LowerDigit(b / 10);
      TwoDecimals(DecText(b), b / 10, b % 10);
    } else {
      LowerDigit(b / 10 % 10);
      LowerDigit(b / 100);
      ThreeDecimals(DecText(b), b / 100, b / 10 % 10, b % 10);
    }
  }

  lemma Decimals(b: byte)
    ensures b < 10 ==> b % 10 == b
    ensures b < 100 ==> b / 10 * 10 + b % 10 == b
    ensures (b / 100 * 10 + b / 10 % 10) * 10 + b % 10 == b
  {}

  lemma OneDecimal(t: string, p: nat)
    requires |t| == 1 && Digit(t[0]) == Some(p)
    ensures IsDec(t) && DecFrom(0, t) == p
  {
    hide Digit;
    assert t[1..] == [];
  }

  lemma DottedFour(a: string, b: string, c: string, d: string)
    ensures Dotted([a, b, c, d]) == a + ['.'] + (b + ['.'] + (c + ['.'] + d))
  {
    assert [a, b, c, d][1..] == [b, c, d] && [b, c, d][1..] == [c, d] && [c, d][1..] == [d];
    assert Dotted([c, d]) == c + ['.'] + d;
    assert Dotted([b, c, d]) == b + ['.'] + (c + ['.'] + d);
  }

  /** Four bytes in decimal with dots between them parse to these bytes in this order. */
  lemma PrintedQuadParses(a: byte, b: byte, c: byte, d: byte)
    ensures ParseIpv4(DecText(a) + ['.'] + (DecText(b) + ['.'] + (DecText(c) + ['.'] + DecText(d))))
            == Some(Parsed([a, b, c, d], 4))
  {
    hide ParseIpv4, DecText, ByteText, DecFrom, Dotted;
    DecTextIs(a);
    DecTextIs(b);
    DecTextIs(c);
    DecTextIs(d);
    var ts := [DecText(a), DecText(b), DecText(c), DecText(d)];
    PrintedIpv4Parses(ts);
    DottedFour(DecText(a), DecText(b), DecText(c), DecText(d));
    assert ByteValues(ts) + Zeros(0) == [a, b, c, d];
  }

  // ---------------------------------------------------------------- which texts are accepted

  lemma {:induction false} DecSnoc(v: nat, t: string, c: char)
    requires IsDec(t) && Digit(c).Some?
    ensures IsDec(t + [c]) && DecFrom(v, t + [c]) == DecFrom(v, t) * 10 + Digit(c).value
    decreases |t|
  {
    var u := t + [c];
    assert forall i :: 0 <= i < |u| ==> u[i] == if i < |t| then t[i] else c;
    if t != [] {
      assert u[1..] == t[1..] + [c];
      DecSnoc(v * 10 + Digit(t[0]).value, t[1..], c);
    }
  }

  lemma {:induction false} HexSnoc(v: nat, t: string, c: char)
    requires IsHex(t) && HexDigit(c).Some?
    ensures IsHex(t + [c]) && HexFrom(v, t + [c]) == HexFrom(v, t) * 16 + HexDigit(c).value
    decreases |t|
  {
    var u := t + [c];
    assert forall i :: 0 <= i < |u| ==> u[i] == if i < |t| then t[i] else c;
    if t != [] {
      assert u[1..] == t[1..] + [c];
      HexSnoc(v * 16 + HexDigit(t[0]).value, t[1..], c);
    }
  }

  /** The text is a dotted address of at most `n` parts. */
  ghost predicate DottedForm(s: string, n: int) {
    exists ts :: 1 <= |ts| <= n && ByteTexts(ts) && s == Dotted(ts)
  }

  lemma DottedCons(t: string, rest: string, n: int)
    requires ByteText(t) && DottedForm(rest, n)
    ensures DottedForm(t + ['.'] + rest, n + 1)
  {
    hide ByteText;
    var ts :| 1 <= |ts| <= n && ByteTexts(ts) && rest == Dotted(ts);
    var us := [t] + ts;
    assert us[1..] == ts && t + ['.'] + rest == Dotted(us);
    assert forall i :: 0 < i < |us| ==> us[i] == ts[i - 1];
  }

  lemma DottedOne(t: string, n: int)
    requires ByteText(t) && 1 <= n
    ensures DottedForm(t, n)
  {
    hide ByteText;
    assert Dotted([t]) == t && ByteTexts([t]);
  }

  lemma NoDecimals()
    ensures IsDec([]) && DecFrom(0, []) == 0
  {}

  /** A text that parse_ipv4 takes from some point on, with the part that was begun, is a dotted address. */
  lemma {:induction false} Ipv4Accepts(t: string, s: string, q: Quad)
    requires q.Ok() && IsDec(t) && (q.saw <==> t != []) && DecFrom(0, t) == q.parts[|q.parts| - 1]
    requires Run4(s, q).Some? && (s == [] ==> t != [])
    ensures DottedForm(t + s, 5 - |q.parts|)
    decreases |s|
  {
    hide DottedForm, DecFrom, IsDec, Step4;
    if s == [] {
      assert t + s == t;
      DottedOne(t, 5 - |q.parts|);
    } else {
      Step4Is(q, s[0], |s| == 1);
      NoDecimals();
      var r := Step4(q, s[0], |s| == 1).value;
      if Digit(s[0]).Some? {
        DecSnoc(0, t, s[0]);
        assert t + [s[0]] + s[1..] == t + s;
        Ipv4Accepts(t + [s[0]], s[1..], r);
      } else {
        assert s[1..] != [];
        Ipv4Accepts([], s[1..], r);
        assert [] + s[1..] == s[1..];
        DottedCons(t, s[1..], 4 - |q.parts|);
        assert t + ['.'] + s[1..] == t + s;
      }
    }
  }

  /** parse_ipv4 takes the empty text, and dotted addresses of one to four bytes, and nothing else. */
  lemma Ipv4Exactly(s: string)
    ensures ParseIpv4(s).Some? <==> s == [] || DottedForm(s, 4)
  {
    hide Run4, DottedForm;
    if s != [] && ParseIpv4(s).Some? {
      Ipv4Accepts([], s, Quad([0], false));
      assert [] + s == s;
    } else if DottedForm(s, 4) {
      DottedFormParses(s);
    } else if s == [] {
      Run4Step(s, 0, Quad([0], false));
      assert s[0..] == s;
    }
  }

  lemma DottedFormParses(s: string)
    requires DottedForm(s, 4)
    ensures ParseIpv4(s).Some?
  {
    hide ParseIpv4, ByteTexts, Dotted;
    var ts :| 1 <= |ts| <= 4 && ByteTexts(ts) && s == Dotted(ts);
    PrintedIpv4Parses(ts);
  }

  /** Groups and the end of a text, with room for their bytes behind `n` others. */
  ghost predicate Fills(ts: seq<string>, last: Last, n: nat) {
    GroupTexts(ts) && last.Ok() && (ts == [] || !last.Nothing?) && n + 2 * |ts| + |last.Value()| <= 16
  }

  /** The text is groups without "::", that have room behind `n` bytes. */
  ghost predicate PlainForm(s: string, n: nat) {
    exists ts, last :: Fills(ts, last, n) && s == Plain(ts, last)
  }

  /** The text is groups, each with a colon, one more colon, and groups that have room behind them and `n` bytes. */
  ghost predicate GapForm(s: string, n: nat) {
    exists left, right, last ::
      GroupTexts(left) && Fills(right, last, n + 2 * |left|) && s == Colons(left) + ([':'] + Plain(right, last))
  }

  lemma PlainCons(t: string, rest: string, n: nat)
    requires GroupText(t) && rest != [] && PlainForm(rest, n + 2)
    ensures PlainForm(t + [':'] + rest, n)
  {
    hide GroupText, Last.Ok, Last.Text, Last.Value;
    var ts, last :| Fills(ts, last, n + 2) && rest == Plain(ts, last);
    var us := [t] + ts;
    assert us[1..] == ts && t + [':'] + rest == Plain(us, last);
    assert forall i :: 0 < i < |us| ==> us[i] == ts[i - 1];
    if last.Nothing? {
      NothingIsEmpty(ts, last);
    }
    assert Fills(us, last, n);
  }

  lemma NothingIsEmpty(ts: seq<string>, last: Last)
    requires last.Nothing? && ts == []
    ensures Plain(ts, last) == []
  {}

  lemma GapCons(t: string, rest: string, n: nat)
    requires GroupText(t) && GapForm(rest, n + 2)
    ensures GapForm(t + [':'] + rest, n)
  {
    hide GroupText, Plain, Fills;
    var left, right, last :|
      GroupTexts(left) && Fills(right, last, n + 2 + 2 * |left|) && rest == Colons(left) + ([':'] + Plain(right, last));
    var us := [t] + left;
    assert us[1..] == left && t + [':'] + rest == Colons(us) + ([':'] + Plain(right, last));
    assert forall i :: 0 < i < |us| ==> us[i] == left[i - 1];
    assert n + 2 + 2 * |left| == n + 2 * |us|;
  }

  lemma GapOpens(rest: string, n: nat)
    requires PlainForm(rest, n)
    ensures GapForm([':'] + rest, n)
  {
    hide Plain, Fills;
    var ts, last :| Fills(ts, last, n) && rest == Plain(ts, last);
    NoGroups([]);
    var none: seq<string> := [];
    assert GroupTexts(none) && Fills(ts, last, n + 2 * |none|);
    assert Colons(none) + ([':'] + Plain(ts, last)) == [':'] + rest;
  }

  lemma PlainEnd(last: Last, n: nat)
    requires last.Ok() && n + |last.Value()| <= 16
    ensures PlainForm(last.Text(), n)
  {
    hide Last.Ok, Last.Text, Last.Value;
    var none: seq<string> := [];
    assert Fills(none, last, n) && Plain(none, last) == last.Text();
  }

  /** What has been read of a group. */
  ghost predicate Pending(t: string, g: Groups) {
    IsHex(t) && HexFrom(0, t) == g.val && (g.saw <==> t != [])
  }

  ghost predicate Spells(s: string, g: Groups) {
    PlainForm(s, |g.out|) || (g.colon.None? && GapForm(s, |g.out|))
  }

  ghost predicate Taken(s: string, i: nat, g: Groups)
    requires i <= |s| && g.Ok(i)
  {
    var r := Run6(s, i, g);
    r.Some? && Finish(r.value).Some?
  }

  lemma EndSpells(s: string, g: Groups)
    requires g.Ok(|s|) && Taken(s, |s|, g) && Pending(s[g.tok..], g)
    ensures Spells(s[g.tok..], g)
  {
    var t := s[g.tok..];
    PlainEnd(if g.saw then Group(t) else Nothing, |g.out|);
  }

  lemma OneHasNoDot(ts: seq<string>, k: nat)
    requires ByteTexts(ts) && k < |Dotted(ts)|
    ensures |ts| == 1 ==> Dotted(ts)[k] != '.'
  {
    if |ts| == 1 {
      assert ByteText(ts[0]);
      assert Digit(ts[0][k]).Some?;
    }
  }

  lemma QuadSpells(s: string, i: nat, g: Groups)
    requires i < |s| && g.Ok(i) && s[i] == '.' && |g.out| + 4 <= 16 && ParseIpv4(s[g.tok..]).Some?
    ensures Spells(s[g.tok..], g)
  {
    hide ParseIpv4, PlainForm, GapForm;
    var t := s[g.tok..];
    assert t[i - g.tok] == '.';
    Ipv4Exactly(t);
    var ts :| 1 <= |ts| <= 4 && ByteTexts(ts) && t == Dotted(ts);
    OneHasNoDot(ts, i - g.tok);
    PlainEnd(Quad4(ts), |g.out|);
  }

  /** A text that parse_ipv6 takes from some point on, with the group that was begun, is of one of the forms. */
  lemma {:induction false} Ipv6Accepts(s: string, i: nat, g: Groups)
    requires i <= |s| && g.Ok(i) && Pending(s[g.tok..i], g) && Taken(s, i, g)
    ensures Spells(s[g.tok..], g)
    decreases |s| - i
  {
    hide Run6, Finish, PlainForm, GapForm, HexFrom, IsHex, Word, ParseIpv4;
    Run6Step(s, i, g);
    var t := s[g.tok..i];
    if i == |s| {
      assert s[g.tok..i] == s[g.tok..];
      EndSpells(s, g);
    } else if HexDigit(s[i]).Some? {
      HexSnoc(0, t, s[i]);
      assert s[g.tok..i + 1] == t + [s[i]];
      Ipv6Accepts(s, i + 1, g.(val := g.val * 16 + HexDigit(s[i]).value, saw := true));
    } else if s[i] == ':' {
      NoDigits();
      assert s[i + 1..i + 1] == [];
      var rest := s[i + 1..];
      assert s[g.tok..] == t + [':'] + rest;
      if !g.saw {
        Ipv6Accepts(s, i + 1, g.(tok := i + 1, colon := Some(|g.out|)));
        GapOpens(rest, |g.out|);
        assert t + [':'] + rest == [':'] + rest;
      } else {
        Ipv6Accepts(s, i + 1, g.(tok := i + 1, out := g.out + Word(g.val), saw := false, val := 0));
        if PlainForm(rest, |g.out| + 2) {
          PlainCons(t, rest, |g.out|);
        } else {
          GapCons(t, rest, |g.out|);
        }
      }
    } else {
      QuadSpells(s, i, g);
    }
  }

  lemma NoDigits()
    ensures IsHex([]) && HexFrom(0, []) == 0
  {}

  /** The text is an address with one "::". */
  ghost predicate ShortenedForm(s: string) {
    exists left, right, last ::
      GroupTexts(left) && Fills(right, last, 2 * |left|) && s == Shortened(left, right, last)
  }

  lemma StartsNoPlain(s: string)
    requires s != [] && s[0] == ':'
    ensures !PlainForm(s, 0)
  {
    forall ts, last | Fills(ts, last, 0) ensures s != Plain(ts, last) {
      if last.Nothing? {
        NothingIsEmpty(ts, last);
      } else {
        PlainStart(ts, last);
      }
    }
  }

  /** A text with a gap is a shortened one, but for the second colon when it starts with the gap. */
  lemma GapIsShortened(s: string)
    requires GapForm(s, 0)
    ensures s != [] && ShortenedForm(if s[0] == ':' then [':'] + s else s)
  {
    hide Fills, Plain;
    var left, right, last :|
      GroupTexts(left) && Fills(right, last, 2 * |left|) && s == Colons(left) + ([':'] + Plain(right, last));
    if left != [] {
      assert GroupText(left[0]);
      assert s[0] == left[0][0];
    } else {
      NoGroups([]);
      assert s == [':'] + Plain(right, last);
    }
    assert Plain(right, last) == Colons(right) + last.Text() by { PlainIs(right, last); }
    assert Shortened(left, right, last) == if s[0] == ':' then [':'] + s else s;
  }

  lemma PlainIs(ts: seq<string>, last: Last)
    ensures Plain(ts, last) == Colons(ts) + last.Text()
  {}

  lemma PlainFormParses(s: string)
    requires PlainForm(s, 0)
    ensures ParseIpv6(s).Some?
  {
    hide ParseIpv6, GroupTexts, Colons;
    var ts, last :| Fills(ts, last, 0) && s == Plain(ts, last);
    if last.Nothing? {
      NothingIsEmpty(ts, last);
      EmptyParses();
    } else {
      PlainIpv6Parses(ts, last);
    }
  }

  lemma EmptyParses()
    ensures ParseIpv6([]) == Some(Parsed(Zeros(16), 0))
  {
    assert [] + Zeros(16) == Zeros(16);
  }

  lemma ShortenedFormParses(s: string)
    requires ShortenedForm(s)
    ensures ParseIpv6(s).Some?
  {
    hide ParseIpv6, GroupTexts, Shortened;
    var left, right, last :| GroupTexts(left) && Fills(right, last, 2 * |left|) && s == Shortened(left, right, last);
    ShortenedParse(left, right, last);
  }

  lemma TakenIsForm(s: string)
    requires ParseIpv6(s).Some?
    ensures PlainForm(s, 0) || ShortenedForm(s)
  {
    hide Run6, Finish, PlainForm, GapForm, ShortenedForm;
    NoDigits();
    var i := if s != [] && s[0] == ':' then 1 else 0;
    var g := Groups([], None, false, 0, i);
    assert s[i..i] == [];
    Ipv6Accepts(s, i, g);
    if i == 0 {
      assert s[0..] == s;
      if GapForm(s, 0) {
        GapIsShortened(s);
      }
    } else {
      assert s[1..][0] == ':' && s == [':'] + s[1..];
      StartsNoPlain(s[1..]);
      GapIsShortened(s[1..]);
    }
  }

  /**
   parse_ipv6 takes the texts of at most eight groups without "::", of which the last two may be a dotted quad, and
   those with one "::", and no other text.
   */
  lemma Ipv6Exactly(s: string)
    ensures ParseIpv6(s).Some? <==> PlainForm(s, 0) || ShortenedForm(s)
  {
    hide Run6, Finish, PlainForm, GapForm, ShortenedForm;
    if PlainForm(s, 0) {
      PlainFormParses(s);
    } else if ShortenedForm(s) {
      ShortenedFormParses(s);
    }
    if ParseIpv6(s).Some? {
      TakenIsForm(s);
    }
  }
}
