/**
 Which byte strings are blocks in the LZO1X format, told without a decoder: all token forms, also those that the
 compressor never writes. The safe decoder accepts exactly these.
 */
module LzoGrammar {
  import opened Bytes
  import opened LzoDecode
  import opened LzoFormat
  import opened LzoStatus

  /** Near stands for the two tokens below 16: two bytes from near by, or three from 2049 bytes back or more. */
  datatype Form = Near | M2 | M3 | M4

  /** Literals, and the match behind them in one of the forms. */
  datatype Part = Part(lit: seq<byte>, form: Form, off: nat, len: nat)

  /** The end marker has a length, which does not matter, and two bits for a count of literals that do not follow. */
  datatype End = End(len: nat, low: nat)

  /** What each form can express; those below 16 depend on the number of literals before them. */
  predicate Allowed(p: Part) {
    match p.form
    case Near =>
      || (1 <= |p.lit| <= 3 && p.len == 2 && 1 <= p.off <= 0x400)
      || (4 <= |p.lit| && p.len == 3 && 0x801 <= p.off <= 0xc00)
    case M2 => 3 <= p.len <= 8 && 1 <= p.off <= 0x800
    case M3 => 3 <= p.len && 1 <= p.off <= 0x4000
    case M4 => 3 <= p.len && 0x4001 <= p.off <= 0xbfff
  }

  /** A long length must not overflow the decoder's counter. */
  predicate Marks(e: End) {
    3 <= e.len && e.low <= 3 && (9 < e.len ==> (e.len - 10) / 255 * 255 <= MAX_T)
  }

  /** Parts whose matches reach back into the output only, `produced` bytes of which are there before. */
  predicate Reach(parts: seq<Part>, produced: nat) {
    parts == []
    || (Allowed(parts[0]) && parts[0].off <= produced + |parts[0].lit|
        && Reach(parts[1..], produced + |parts[0].lit| + parts[0].len))
  }

  function Unpacked(out: seq<byte>, parts: seq<Part>): (r: seq<byte>)
    requires Reach(parts, |out|)
    ensures out <= r
    decreases |parts|
  {
    if parts == [] then out
    else Unpacked(CopyMatch(out + parts[0].lit, parts[0].off, parts[0].len), parts[1..])
  }

  /** A length of up to `max` is in the token byte, a longer one follows it. */
  function Lengths(base: byte, max: nat, len: nat): (s: seq<byte>)
    requires base + max <= 66 && 3 <= len
    ensures 0 < |s|
  {
    if len <= max then [base + (len - 2)] else [base] + Long(len - max)
  }

  /** The two bytes of a distance of fourteen bits, and the count of literals to come. */
  function Distance(d: nat, k: nat): seq<byte>
    requires d < 0x4000 && k <= 3
  {
    [d % 64 * 4 + k, d / 64]
  }

  function Token(p: Part, k: nat): (s: seq<byte>)
    requires Allowed(p) && k <= 3
    ensures 2 <= |s|
  {
    match p.form
    case Near => var d := if |p.lit| <= 3 then p.off - 1 else p.off - 0x801; [d % 4 * 4 + k, d / 4]
    case M2 => [(p.len - 1) * 32 + (p.off - 1) % 8 * 4 + k, (p.off - 1) / 8]
    case M3 => Lengths(32, 33, p.len) + Distance(p.off - 1, k)
    case M4 => Lengths(if p.off < 0x8000 then 16 else 24, 9, p.len) + Distance(p.off % 0x4000, k)
  }

  function Marker(e: End): (s: seq<byte>)
    requires Marks(e)
    ensures 3 <= |s|
  {
    Lengths(16, 9, e.len) + Distance(0, e.low)
  }

  function Next(parts: seq<Part>, tail: seq<byte>): seq<byte> {
    if parts == [] then tail else parts[0].lit
  }

  /** What follows the first run of literals. */
  function After(parts: seq<Part>, tail: seq<byte>, end: End, produced: nat): (s: seq<byte>)
    requires Reach(parts, produced) && Marks(end)
    ensures 3 <= |s|
  {
    if parts == [] then Marker(end)
    else
      var rest := parts[1..];
      Token(parts[0], LowLits(Next(rest, tail)))
      + (LitBytes(Next(rest, tail)) + After(rest, tail, end, produced + |parts[0].lit| + parts[0].len))
  }

  /** The first run has a header as all others, or its count in the first byte. */
  function First(lit: seq<byte>, short: bool): seq<byte>
    requires short ==> |lit| <= 238
  {
    if short then [17 + |lit|] + lit else LitBytes(lit)
  }

  /** A first byte above 17 is always taken for a count; so is one of the end markers, if nothing is before it. */
  predicate Opens(lit: seq<byte>, end: End, short: bool) {
    if short then 1 <= |lit| <= 238 else 4 <= |lit| || (lit == [] && (end.len == 3 || 9 < end.len))
  }

  /** The bytes `inp` are a block that stands for `x`. */
  ghost predicate IsBlock(inp: seq<byte>, x: seq<byte>) {
    exists parts, tail, end, short :: Spells(inp, x, parts, tail, end, short)
  }

  predicate Spells(inp: seq<byte>, x: seq<byte>, parts: seq<Part>, tail: seq<byte>, end: End, short: bool) {
    && Reach(parts, 0) && Marks(end) && Opens(Next(parts, tail), end, short)
    && inp == First(Next(parts, tail), short) + After(parts, tail, end, 0)
    && x == Unpacked([], parts) + tail
  }

  // ---------------------------------------------------------------- lengths and distances

  /** Token byte and length bytes at `ip`, as the decoder reads them. */
  function Count(inp: seq<byte>, ip: nat, n: nat): LzoDecode.Count
    requires ip < |inp|
  {
    if n == 0 then ZeroRun(inp, ip, 0, OutputOverrun) else Got(n, ip)
  }

  predicate Base(base: byte, max: nat) {
    (base == 32 && max == 33) || (base in {16, 24} && max == 9)
  }

  lemma {:induction false} ZeroRunBack(inp: seq<byte>, ip: nat, t: nat, limit: Status)
    requires ip < |inp| && t <= MAX_T && ZeroRun(inp, ip, t, limit).Got?
    ensures var c := ZeroRun(inp, ip, t, limit);
            t < c.t && Has(inp, ip, Long(c.t - t)) && c.ip == ip + |Long(c.t - t)| && t + (c.t - t - 1) / 255 * 255 <= MAX_T
    decreases |inp| - ip
  {
    hide Long, Has;
    var c := ZeroRun(inp, ip, t, limit);
    LongStep(c.t - t);
    if inp[ip] == 0 {
      ZeroRunBack(inp, ip + 1, t + 255, limit);
      HasFront(inp, ip, Long(c.t - t - 255));
      LessZeros(c.t - t);
    } else {
      HasFront(inp, ip, []);
      assert [inp[ip]] + [] == [inp[ip]];
    }
  }

  lemma LessZeros(n: nat)
    requires 255 < n
    ensures (n - 1) / 255 * 255 == 255 + (n - 255 - 1) / 255 * 255
  {}

  lemma HasFront(inp: seq<byte>, ip: nat, s: seq<byte>)
    requires ip < |inp| && (s == [] || Has(inp, ip + 1, s))
    ensures Has(inp, ip, [inp[ip]] + s)
  {
    if s == [] {
      assert inp[ip..ip + 1] == [inp[ip]] + s;
    } else {
      assert inp[ip..ip + 1 + |s|] == [inp[ip]] + inp[ip + 1..ip + 1 + |s|];
    }
  }

  lemma HasJoin(inp: seq<byte>, ip: nat, a: seq<byte>, b: seq<byte>)
    requires Has(inp, ip, a) && Has(inp, ip + |a|, b)
    ensures Has(inp, ip, a + b)
  {
    var n := |a| + |b|;
    assert inp[ip..ip + n] == inp[ip..ip + |a|] + inp[ip + |a|..ip + n];
  }

  lemma DistanceBack(lo: byte, hi: byte)
    ensures (lo + 0x100 * (hi as int)) / 4 < 0x4000
    ensures Distance((lo + 0x100 * (hi as int)) / 4, lo % 4) == [lo, hi]
  {
    var d := (lo + 0x100 * (hi as int)) / 4;
    assert d == lo / 4 + 64 * hi;
  }

  lemma DistanceReads(d: nat, k: nat)
    requires d < 0x4000 && k <= 3
    ensures var s := Distance(d, k); (s[0] + 0x100 * (s[1] as int)) / 4 == d && s[0] % 4 == k
  {
    var s := Distance(d, k);
    assert s[0] + 0x100 * (s[1] as int) == 4 * d + k;
  }

  /** The length bytes of a token, read back. */
  lemma LengthsRead(inp: seq<byte>, ip: nat, base: byte, max: nat, len: nat)
    requires Base(base, max) && 3 <= len && (max < len ==> (len - max - 1) / 255 * 255 <= MAX_T)
    requires Has(inp, ip, Lengths(base, max, len)) && ip + 1 < |inp|
    ensures var t := inp[ip];
            var n := t % (max - 1);
            var c := Count(inp, ip + 1, n);
            && base <= t < base + (max - 1) && c == Got(if n == 0 then len - max else len - 2, ip + |Lengths(base, max, len)|)
            && (n == 0 <==> max < len)
  {
    hide Long, ZeroRun, Has, Base;
    LowBase(base, max);
    HasAt(inp, ip, Lengths(base, max, len), 0);
    BaseRest(base, max, inp[ip]);
    if max < len {
      HasConcat(inp, ip, [base], Long(len - max));
      ZeroRunLong(inp, ip + 1, 0, len - max, OutputOverrun);
    }
  }

  lemma LowBase(base: byte, max: nat)
    requires Base(base, max)
    ensures 9 <= max && base + max <= 66
  {}

  lemma BaseRest(base: byte, max: nat, t: byte)
    requires Base(base, max) && base <= t < base + (max - 1)
    ensures t % (max - 1) == t - base && 9 <= max && base + max <= 66
  {}

  /** Length bytes that the decoder reads are those of the length. */
  lemma LengthsBack(inp: seq<byte>, ip: nat, base: byte, max: nat)
    requires Base(base, max) && ip + 1 < |inp| && base <= inp[ip] < base + (max - 1)
    requires Count(inp, ip + 1, inp[ip] % (max - 1)).Got?
    ensures var n := inp[ip] % (max - 1);
            var c := Count(inp, ip + 1, n);
            var len := if n == 0 then c.t + max else n + 2;
            && 3 <= len && (max < len ==> (len - max - 1) / 255 * 255 <= MAX_T)
            && Has(inp, ip, Lengths(base, max, len)) && c.ip == ip + |Lengths(base, max, len)|
  {
    hide Long, ZeroRun, Has, Base;
    var n := inp[ip] % (max - 1);
    BaseRest(base, max, inp[ip]);
    if n == 0 {
      ZeroRunBack(inp, ip + 1, 0, OutputOverrun);
      var c := ZeroRun(inp, ip + 1, 0, OutputOverrun);
      HasFront(inp, ip, Long(c.t));
    } else {
      HasFront(inp, ip, []);
      assert [inp[ip]] + [] == [inp[ip]];
    }
  }

  // ---------------------------------------------------------------- the decoder at a run of literals

  /** The decoder where a run of literals may come; `k` of them are announced. */
  function Gap(ip: nat, out: seq<byte>, k: nat): State {
    State(ip, out, if k == 0 then Top else MatchNext(k))
  }

  /** The decoder at a token behind `n` literals. */
  function AtToken(inp: seq<byte>, ip: nat, out: seq<byte>, n: nat): State
    requires ip < |inp|
  {
    if n >= 4 then State(ip, out, FirstLiteralRun) else State(ip + 1, out, Match(inp[ip]))
  }

  predicate Accepts(inp: seq<byte>, cap: nat, s: State)
    requires Ready(inp, cap, s)
  {
    Run(inp, cap, s).pc == Halt(OK)
  }

  /** One step of a run. */
  lemma Goes(inp: seq<byte>, cap: nat, s: State)
    requires Ready(inp, cap, s) && !s.pc.Halt?
    ensures Ready(inp, cap, Step(inp, cap, s)) && Run(inp, cap, s) == Run(inp, cap, Step(inp, cap, s))
    ensures Accepts(inp, cap, s) && Step(inp, cap, s).pc.Halt? ==> Step(inp, cap, s).pc == Halt(OK)
  {
    hide Step;
  }

  /** A run of literals, read back. */
  lemma RunReads(inp: seq<byte>, cap: nat, ip: nat, out: seq<byte>, lit: seq<byte>)
    requires Has(inp, ip, LitBytes(lit)) && ip + |LitBytes(lit)| + 3 <= |inp|
    requires |out| + |lit| <= cap && |lit| <= MAX_T && (lit == [] ==> 16 <= inp[ip])
    ensures Run(inp, cap, Gap(ip, out, LowLits(lit)))
            == Run(inp, cap, AtToken(inp, ip + |LitBytes(lit)|, out + lit, |lit|))
  {
    hide Run, Has, StepTop, StepMatchNext, LitHeader;
    var s := Gap(ip, out, LowLits(lit));
    Goes(inp, cap, s);
    if |lit| <= 3 {
      ShortBytes(lit);
      ShortReads(inp, cap, ip, out, lit);
    } else {
      HasConcat(inp, ip, LitHeader(|lit|), lit);
      DecodeLongRun(inp, cap, ip, out, lit);
    }
  }

  lemma ShortBytes(lit: seq<byte>)
    requires |lit| <= 3
    ensures LitBytes(lit) == lit
  {}

  lemma ShortReads(inp: seq<byte>, cap: nat, ip: nat, out: seq<byte>, lit: seq<byte>)
    requires |lit| <= 3 && Has(inp, ip, lit) && ip + |lit| + 3 <= |inp| && |out| + |lit| <= cap && (lit == [] ==> 16 <= inp[ip])
    ensures Step(inp, cap, Gap(ip, out, |lit|)) == AtToken(inp, ip + |lit|, out + lit, |lit|)
  {
    if lit == [] {
      assert out + lit == out;
    }
  }

  /** Where the decoder finds a run of literals, there is one. */
  lemma RunBack(inp: seq<byte>, cap: nat, ip: nat, out: seq<byte>, k: nat) returns (lit: seq<byte>)
    requires k <= 3 && Ready(inp, cap, Gap(ip, out, k)) && Accepts(inp, cap, Gap(ip, out, k))
    ensures LowLits(lit) == k && Has(inp, ip, LitBytes(lit)) && ip + |LitBytes(lit)| + 3 <= |inp|
    ensures |out| + |lit| <= cap && (lit == [] ==> 16 <= inp[ip]) && (k == 0 ==> |lit| == 0 || 4 <= |lit|)
    ensures Run(inp, cap, Gap(ip, out, k)) == Run(inp, cap, AtToken(inp, ip + |LitBytes(lit)|, out + lit, |lit|))
  {
    hide Run, Accepts, StepTop, Has, LitBytes;
    var s := Gap(ip, out, k);
    Goes(inp, cap, s);
    if k > 0 {
      lit := inp[ip..ip + k];
      ShortBytes(lit);
      HasSlice(inp, ip, k);
    } else {
      TopGoes(inp, cap, ip, out);
      if inp[ip] >= 16 {
        lit := [];
        ShortBytes([]);
        HasSlice(inp, ip, 0);
        assert inp[ip..ip] == lit && out + lit == out;
      } else {
        lit := LongRunBack(inp, cap, ip, out);
      }
    }
  }

  lemma TopGoes(inp: seq<byte>, cap: nat, ip: nat, out: seq<byte>)
    requires ip <= |inp| && |out| <= cap
    requires var r := StepTop(inp, cap, State(ip, out, Top)); !r.pc.Halt? || r.pc == Halt(OK)
    ensures ip + 3 <= |inp| && !StepTop(inp, cap, State(ip, out, Top)).pc.Halt?
    ensures inp[ip] >= 16 ==> StepTop(inp, cap, State(ip, out, Top)) == State(ip + 1, out, Match(inp[ip]))
  {
    hide ZeroRun;
  }

  lemma LongRunBack(inp: seq<byte>, cap: nat, ip: nat, out: seq<byte>) returns (lit: seq<byte>)
    requires ip + 3 <= |inp| && inp[ip] < 16 && |out| <= cap && !StepTop(inp, cap, State(ip, out, Top)).pc.Halt?
    ensures 4 <= |lit| && Has(inp, ip, LitBytes(lit)) && ip + |LitBytes(lit)| + 3 <= |inp| && |out| + |lit| <= cap
    ensures StepTop(inp, cap, State(ip, out, Top)) == State(ip + |LitBytes(lit)|, out + lit, FirstLiteralRun)
  {
    hide Long, ZeroRun, Has;
    var t := inp[ip];
    var c := if t == 0 then ZeroRun(inp, ip + 1, 0, InputOverrun) else Got(t, ip + 1);
    var n := (if t == 0 then c.t + 15 else c.t) + 3;
    lit := inp[c.ip..c.ip + n];
    if t == 0 {
      ZeroRunBack(inp, ip + 1, 0, InputOverrun);
      HasFront(inp, ip, Long(c.t));
    } else {
      HasFront(inp, ip, []);
      assert [inp[ip]] + [] == [inp[ip]];
    }
    HasSlice(inp, c.ip, n);
    HasJoin(inp, ip, LitHeader(n), lit);
  }

  lemma HasSlice(inp: seq<byte>, ip: nat, n: nat)
    requires ip + n <= |inp|
    ensures Has(inp, ip, inp[ip..ip + n])
  {}

  // ---------------------------------------------------------------- the decoder at a token

  /** Behind the copy the decoder looks at the count of literals in the token. */
  lemma CopyGoes(inp: seq<byte>, cap: nat, ip: nat, out: seq<byte>, k: nat)
    requires 2 <= ip <= |inp| && |out| <= cap && inp[ip - 2] % 4 == k
    ensures Run(inp, cap, State(ip, out, MatchDone)) == Run(inp, cap, Gap(ip, out, k))
  {
    hide Run;
    Goes(inp, cap, State(ip, out, MatchDone));
  }

  lemma TokenGoes(inp: seq<byte>, cap: nat, ip: nat, out: seq<byte>, n: nat)
    requires ip + 3 <= |inp| && |out| <= cap && 16 <= inp[ip]
    ensures Run(inp, cap, AtToken(inp, ip, out, n)) == Run(inp, cap, State(ip + 1, out, Match(inp[ip])))
  {
    hide Run;
    Goes(inp, cap, AtToken(inp, ip, out, n));
  }

  /** What the decoder does with each form. */
  lemma M2Reads(inp: seq<byte>, cap: nat, ip: nat, out: seq<byte>, p: Part, k: nat)
    requires Allowed(p) && p.form.M2? && k <= 3 && ip + 3 <= |inp| && |out| <= cap && Has(inp, ip, Token(p, k))
    ensures var s := State(ip + 1, out, Match(inp[ip]));
            64 <= inp[ip] && inp[ip] % 4 == k && StepMatch(inp, cap, s) == Copy(cap, s, ip + 2, p.off, p.len)
  {
    hide Copy;
    HasAt(inp, ip, Token(p, k), 0);
    HasAt(inp, ip, Token(p, k), 1);
    M2Numbers(p.off, p.len, k);
  }

  lemma M2Numbers(off: nat, len: nat, k: nat)
    requires 3 <= len <= 8 && 1 <= off <= 0x800 && k <= 3
    ensures var t := (len - 1) * 32 + (off - 1) % 8 * 4 + k;
            64 <= t && t % 4 == k && t / 4 % 8 == (off - 1) % 8 && t / 32 == len - 1
    ensures 1 + (off - 1) % 8 + (off - 1) / 8 * 8 == off
  {}

  lemma NearNumbers(d: nat, k: nat)
    requires d < 0x400 && k <= 3
    ensures var t := d % 4 * 4 + k; t < 16 && t % 4 == k && t / 4 + d / 4 * 4 == d
  {}

  lemma NearReads(inp: seq<byte>, cap: nat, ip: nat, out: seq<byte>, p: Part, k: nat)
    requires Allowed(p) && p.form.Near? && k <= 3 && ip + 3 <= |inp| && |out| <= cap && Has(inp, ip, Token(p, k))
    ensures var s := AtToken(inp, ip, out, |p.lit|);
            inp[ip] < 16 && inp[ip] % 4 == k && Step(inp, cap, s) == Copy(cap, s, ip + 2, p.off, p.len)
  {
    hide Copy;
    HasAt(inp, ip, Token(p, k), 0);
    HasAt(inp, ip, Token(p, k), 1);
    NearNumbers(if |p.lit| <= 3 then p.off - 1 else p.off - 0x801, k);
  }

  lemma WideReads(inp: seq<byte>, ip: nat, base: byte, max: nat, len: nat, d: nat, k: nat)
    requires Base(base, max) && 3 <= len && (max < len ==> (len - max - 1) / 255 * 255 <= MAX_T) && d < 0x4000 && k <= 3
    requires Has(inp, ip, Lengths(base, max, len) + Distance(d, k))
    ensures var t, ip' := inp[ip], ip + |Lengths(base, max, len)|;
            var n := t % (max - 1);
            && ip + 1 < |inp| && base <= t < base + (max - 1) && (n == 0 <==> max < len)
            && Count(inp, ip + 1, n) == Got(if n == 0 then len - max else len - 2, ip')
            && ip' + 2 <= |inp| && Offset16(inp, ip') == d && inp[ip'] % 4 == k
  {
    hide Long, ZeroRun, Has, Lengths, Count;
    var a, b := Lengths(base, max, len), Distance(d, k);
    HasInside(inp, ip, a + b);
    HasConcat(inp, ip, a, b);
    HasAt(inp, ip + |a|, b, 0);
    HasAt(inp, ip + |a|, b, 1);
    DistanceReads(d, k);
    LengthsRead(inp, ip, base, max, len);
  }

  lemma LengthFits(len: nat, max: nat)
    requires max < len <= MAX_T
    ensures (len - max - 1) / 255 * 255 <= MAX_T
  {}

  lemma M3Reads(inp: seq<byte>, cap: nat, ip: nat, out: seq<byte>, p: Part, k: nat)
    requires Allowed(p) && p.form.M3? && k <= 3 && ip + 3 <= |inp| && |out| <= cap && Has(inp, ip, Token(p, k))
    requires p.len <= MAX_T
    ensures var s, ip' := State(ip + 1, out, Match(inp[ip])), ip + |Token(p, k)|;
            && 16 <= inp[ip] && ip' <= |inp| && inp[ip' - 2] % 4 == k
            && StepMatch(inp, cap, s) == Copy(cap, s, ip', p.off, p.len)
  {
    hide Copy, ZeroRun, Long, Has, Offset16, Lengths;
    if 33 < p.len {
      LengthFits(p.len, 33);
    }
    WideReads(inp, ip, 32, 33, p.len, p.off - 1, k);
  }

  lemma M4Reads(inp: seq<byte>, cap: nat, ip: nat, out: seq<byte>, p: Part, k: nat)
    requires Allowed(p) && p.form.M4? && k <= 3 && ip + 3 <= |inp| && |out| <= cap && Has(inp, ip, Token(p, k))
    requires p.len <= MAX_T
    ensures var s, ip' := State(ip + 1, out, Match(inp[ip])), ip + |Token(p, k)|;
            && 16 <= inp[ip] && ip' <= |inp| && inp[ip' - 2] % 4 == k
            && StepMatch(inp, cap, s) == Copy(cap, s, ip', p.off, p.len)
  {
    hide Copy, ZeroRun, Long, Has, Offset16, Lengths;
    if 9 < p.len {
      LengthFits(p.len, 9);
    }
    WideReads(inp, ip, if p.off < 0x8000 then 16 else 24, 9, p.len, p.off % 0x4000, k);
  }

  lemma MarkerReads(inp: seq<byte>, cap: nat, ip: nat, out: seq<byte>, e: End)
    requires Marks(e) && Has(inp, ip, Marker(e)) && ip + |Marker(e)| == |inp| && |out| <= cap
    ensures 16 <= inp[ip] < 24 && ip + 3 <= |inp|
    ensures StepM4(inp, cap, State(ip + 1, out, Match(inp[ip]))) == State(|inp|, out, Halt(OK))
  {
    hide ZeroRun, Long, Has, Offset16, Lengths, Copy, StepM4;
    WideReads(inp, ip, 16, 9, e.len, 0, e.low);
    M4Ends(inp, cap, State(ip + 1, out, Match(inp[ip])));
  }

  lemma M4Ends(inp: seq<byte>, cap: nat, s: State)
    requires Ready(inp, cap, s) && s.pc.Match? && 16 <= s.pc.t < 24
    requires var c := Count(inp, s.ip, s.pc.t % 8); c.Got? && c.ip + 2 == |inp| && Offset16(inp, c.ip) == 0
    ensures StepM4(inp, cap, s) == State(|inp|, s.out, Halt(OK))
  {
    hide ZeroRun, Offset16, Copy;
  }

  lemma MarkerEnds(inp: seq<byte>, cap: nat, ip: nat, out: seq<byte>, e: End, n: nat)
    requires Marks(e) && Has(inp, ip, Marker(e)) && ip + |Marker(e)| == |inp| && |out| <= cap
    ensures 16 <= inp[ip] && Run(inp, cap, AtToken(inp, ip, out, n)) == State(|inp|, out, Halt(OK))
  {
    hide Has, Marker, Run, StepM4;
    MarkerReads(inp, cap, ip, out, e);
    TokenGoes(inp, cap, ip, out, n);
    var s := State(ip + 1, out, Match(inp[ip]));
    assert Step(inp, cap, s) == StepM4(inp, cap, s);
    Goes(inp, cap, s);
    Halted(inp, cap, Step(inp, cap, s));
  }

  lemma Halted(inp: seq<byte>, cap: nat, s: State)
    requires Ready(inp, cap, s) && s.pc.Halt?
    ensures Run(inp, cap, s) == s
  {}

  /** A token of any form is read and its copy carried out. */
  lemma TokenReads(inp: seq<byte>, cap: nat, ip: nat, out: seq<byte>, p: Part, k: nat)
    requires Allowed(p) && k <= 3 && ip + 3 <= |inp| && Has(inp, ip, Token(p, k)) && p.len <= MAX_T
    requires p.off <= |out| && |out| + p.len <= cap
    ensures ip + |Token(p, k)| <= |inp| && (p.form != Near ==> 16 <= inp[ip])
    ensures Run(inp, cap, AtToken(inp, ip, out, |p.lit|))
            == Run(inp, cap, Gap(ip + |Token(p, k)|, CopyMatch(out, p.off, p.len), k))
  {
    hide ZeroRun, Long, Has, Offset16, Token, Run, StepMatch, StepFirstLiteralRun, CopyMatch;
    HasInside(inp, ip, Token(p, k));
    if p.form.Near? || p.form.M2? {
      TwoBytes(p, k);
    }
    var s := if p.form.Near? then AtToken(inp, ip, out, |p.lit|) else State(ip + 1, out, Match(inp[ip]));
    match p.form {
      case Near => NearReads(inp, cap, ip, out, p, k);
      case M2 => M2Reads(inp, cap, ip, out, p, k);
      case M3 => M3Reads(inp, cap, ip, out, p, k);
      case M4 => M4Reads(inp, cap, ip, out, p, k);
    }
    if !p.form.Near? {
      TokenGoes(inp, cap, ip, out, |p.lit|);
    }
    Goes(inp, cap, s);
    CopyGoes(inp, cap, ip + |Token(p, k)|, CopyMatch(out, p.off, p.len), k);
  }

  lemma TwoBytes(p: Part, k: nat)
    requires Allowed(p) && k <= 3 && (p.form.Near? || p.form.M2?)
    ensures |Token(p, k)| == 2
  {}

  // ---------------------------------------------------------------- what the decoder has found at a token

  /** In state `s` behind `lit` the decoder has read the token of a part, and copies. */
  predicate Taken(inp: seq<byte>, cap: nat, ip: nat, s: State, lit: seq<byte>, p: Part, k: nat)
    requires Ready(inp, cap, s) && !s.pc.Halt?
  {
    && p.lit == lit && Allowed(p) && k <= 3 && Has(inp, ip, Token(p, k)) && ip + |Token(p, k)| <= |inp|
    && inp[ip + |Token(p, k)| - 2] % 4 == k && Step(inp, cap, s) == Copy(cap, s, ip + |Token(p, k)|, p.off, p.len)
  }

  /** The decoder at a token, with the token byte read if it is not below 16. */
  function InToken(inp: seq<byte>, ip: nat, out: seq<byte>, n: nat): State
    requires ip < |inp|
  {
    if inp[ip] < 16 then AtToken(inp, ip, out, n) else State(ip + 1, out, Match(inp[ip]))
  }

  lemma TwoFound(inp: seq<byte>, ip: nat, s: seq<byte>)
    requires ip + 2 <= |inp| && |s| == 2 && inp[ip] == s[0] && inp[ip + 1] == s[1]
    ensures Has(inp, ip, s)
  {
    assert inp[ip..ip + 2] == s;
  }

  lemma M2Found(inp: seq<byte>, cap: nat, ip: nat, out: seq<byte>, lit: seq<byte>) returns (p: Part)
    requires ip + 3 <= |inp| && |out| <= cap && 64 <= inp[ip]
    ensures Taken(inp, cap, ip, InToken(inp, ip, out, |lit|), lit, p, inp[ip] % 4)
  {
    hide Copy;
    var t, b := inp[ip], inp[ip + 1];
    p := Part(lit, M2, 1 + t / 4 % 8 + (b as int) * 8, t / 32 + 1);
    M2Bits(t, b);
    TwoFound(inp, ip, Token(p, t % 4));
  }

  lemma M2Bits(t: byte, b: byte)
    requires 64 <= t
    ensures var off, len := 1 + t / 4 % 8 + (b as int) * 8, t / 32 + 1;
            && 3 <= len <= 8 && 1 <= off <= 0x800 && (len - 1) * 32 + (off - 1) % 8 * 4 + t % 4 == t && (off - 1) / 8 == b
  {}

  lemma NearFound(inp: seq<byte>, cap: nat, ip: nat, out: seq<byte>, lit: seq<byte>) returns (p: Part)
    requires ip + 3 <= |inp| && |out| <= cap && inp[ip] < 16 && lit != []
    ensures Taken(inp, cap, ip, InToken(inp, ip, out, |lit|), lit, p, inp[ip] % 4)
  {
    hide Copy;
    var t, b := inp[ip], inp[ip + 1];
    var d := t / 4 + (b as int) * 4;
    p := if |lit| <= 3 then Part(lit, Near, 1 + d, 2) else Part(lit, Near, 0x801 + d, 3);
    NearBits(t, b);
    TwoFound(inp, ip, Token(p, t % 4));
  }

  lemma NearBits(t: byte, b: byte)
    requires t < 16
    ensures var d := t / 4 + (b as int) * 4; d < 0x400 && d % 4 * 4 + t % 4 == t && d / 4 == b
  {}

  /** Length and distance of a token, from what the decoder has read. */
  lemma WideFound(inp: seq<byte>, ip: nat, base: byte, max: nat) returns (len: nat)
    requires Base(base, max) && ip + 1 < |inp| && base <= inp[ip] < base + (max - 1)
    requires Count(inp, ip + 1, inp[ip] % (max - 1)).Got?
    requires Count(inp, ip + 1, inp[ip] % (max - 1)).ip + 2 <= |inp|
    ensures var n := inp[ip] % (max - 1);
            var c := Count(inp, ip + 1, n);
            var d := Offset16(inp, c.ip);
            && len == (if n == 0 then c.t + (max - 2) else n) + 2
            && 3 <= len && (max < len ==> (len - max - 1) / 255 * 255 <= MAX_T) && d < 0x4000
            && c.ip == ip + |Lengths(base, max, len)|
            && Has(inp, ip, Lengths(base, max, len) + Distance(d, inp[c.ip] % 4))
  {
    hide Long, ZeroRun, Has, Lengths, Count;
    var n := inp[ip] % (max - 1);
    var c := Count(inp, ip + 1, n);
    len := (if n == 0 then c.t + (max - 2) else n) + 2;
    LengthsBack(inp, ip, base, max);
    DistanceBack(inp[c.ip], inp[c.ip + 1]);
    TwoFound(inp, c.ip, Distance(Offset16(inp, c.ip), inp[c.ip] % 4));
    HasJoin(inp, ip, Lengths(base, max, len), Distance(Offset16(inp, c.ip), inp[c.ip] % 4));
  }

  lemma M3Found(inp: seq<byte>, cap: nat, ip: nat, out: seq<byte>, lit: seq<byte>) returns (p: Part, k: nat)
    requires ip + 3 <= |inp| && |out| <= cap && 32 <= inp[ip] < 64
    requires !Step(inp, cap, InToken(inp, ip, out, |lit|)).pc.Halt?
    ensures Taken(inp, cap, ip, InToken(inp, ip, out, |lit|), lit, p, k)
  {
    hide Copy, ZeroRun, Long, Has, Offset16, Lengths;
    var c := Count(inp, ip + 1, inp[ip] % 32);
    var len := WideFound(inp, ip, 32, 33);
    p, k := Part(lit, M3, 1 + Offset16(inp, c.ip), len), inp[c.ip] % 4;
    HasInside(inp, ip, Token(p, k));
  }

  /** The last of the tokens is a match or the end marker. */
  lemma M4Found(inp: seq<byte>, cap: nat, ip: nat, out: seq<byte>, lit: seq<byte>) returns (p: Part, k: nat, e: End)
    requires ip + 3 <= |inp| && |out| <= cap && 16 <= inp[ip] < 32
    requires var r := Step(inp, cap, InToken(inp, ip, out, |lit|)); !r.pc.Halt? || r.pc == Halt(OK)
    ensures var r := Step(inp, cap, InToken(inp, ip, out, |lit|));
            if r.pc.Halt? then Marks(e) && Has(inp, ip, Marker(e)) && ip + |Marker(e)| == |inp| && r == State(|inp|, out, Halt(OK))
            else Taken(inp, cap, ip, InToken(inp, ip, out, |lit|), lit, p, k)
  {
    hide ZeroRun, Long, Has, Offset16, Lengths, Copy;
    CopyGoesOn();
    var t := inp[ip];
    var c := Count(inp, ip + 1, t % 8);
    var len := WideFound(inp, ip, if t < 24 then 16 else 24, 9);
    var d := Offset16(inp, c.ip);
    k := inp[c.ip] % 4;
    e := End(len, k);
    p := Part(lit, M4, (if t < 24 then 0x4000 else 0x8000) + d, len);
    if t < 24 && d == 0 {
      HasInside(inp, ip, Marker(e));
    } else {
      assert p.off % 0x4000 == d;
      HasInside(inp, ip, Token(p, k));
    }
  }

  /** A token is read whose copy is carried out. */
  predicate Copied(inp: seq<byte>, cap: nat, ip: nat, out: seq<byte>, lit: seq<byte>, p: Part, k: nat)
    requires ip + 3 <= |inp| && |out| <= cap
  {
    && p.lit == lit && Allowed(p) && k <= 3 && Has(inp, ip, Token(p, k)) && ip + |Token(p, k)| <= |inp|
    && p.off <= |out| && |out| + p.len <= cap
    && Run(inp, cap, AtToken(inp, ip, out, |lit|))
       == Run(inp, cap, Gap(ip + |Token(p, k)|, CopyMatch(out, p.off, p.len), k))
  }

  lemma TakenIsCopied(inp: seq<byte>, cap: nat, ip: nat, out: seq<byte>, lit: seq<byte>, p: Part, k: nat)
    requires ip + 3 <= |inp| && |out| <= cap && (lit == [] ==> 16 <= inp[ip])
    requires Run(inp, cap, AtToken(inp, ip, out, |lit|)) == Run(inp, cap, InToken(inp, ip, out, |lit|))
    requires Taken(inp, cap, ip, InToken(inp, ip, out, |lit|), lit, p, k)
    requires Accepts(inp, cap, InToken(inp, ip, out, |lit|))
    ensures Copied(inp, cap, ip, out, lit, p, k)
  {
    hide Has, Token, Run, Step, CopyMatch;
    CopyGoesOn();
    Goes(inp, cap, InToken(inp, ip, out, |lit|));
    CopyGoes(inp, cap, ip + |Token(p, k)|, CopyMatch(out, p.off, p.len), k);
  }

  /** Where the decoder reads a token, there is one: the end marker, or a match and its copy. */
  lemma TokenFound(inp: seq<byte>, cap: nat, ip: nat, out: seq<byte>, lit: seq<byte>)
    returns (p: Part, k: nat, e: End, ended: bool)
    requires ip + 3 <= |inp| && |out| <= cap && (lit == [] ==> 16 <= inp[ip])
    requires Accepts(inp, cap, AtToken(inp, ip, out, |lit|))
    ensures ended ==> Marks(e) && Has(inp, ip, Marker(e)) && ip + |Marker(e)| == |inp|
    ensures ended ==> Run(inp, cap, AtToken(inp, ip, out, |lit|)) == State(|inp|, out, Halt(OK))
    ensures !ended ==> Copied(inp, cap, ip, out, lit, p, k)
  {
    hide Has, Token, Marker, Marks, Run, Step, CopyMatch, Allowed, Taken, Copied;
    var t, s := inp[ip], InToken(inp, ip, out, |lit|);
    if t >= 16 {
      TokenGoes(inp, cap, ip, out, |lit|);
    }
    Goes(inp, cap, s);
    k, e, ended := t % 4, End(3, 0), false;
    if t >= 64 {
      p := M2Found(inp, cap, ip, out, lit);
    } else if t >= 32 {
      M3GoesOn(inp, cap, s);
      p, k := M3Found(inp, cap, ip, out, lit);
    } else if t >= 16 {
      p, k, e := M4Found(inp, cap, ip, out, lit);
      ended := Step(inp, cap, s).pc.Halt?;
    } else {
      p := NearFound(inp, cap, ip, out, lit);
    }
    if ended {
      Halted(inp, cap, Step(inp, cap, s));
    } else {
      TakenIsCopied(inp, cap, ip, out, lit, p, k);
    }
  }

  lemma M3GoesOn(inp: seq<byte>, cap: nat, s: State)
    requires Ready(inp, cap, s) && s.pc.Match? && 32 <= s.pc.t < 64
    ensures Step(inp, cap, s).pc != Halt(OK)
  {
    hide ZeroRun, Copy;
    CopyGoesOn();
  }

  // ---------------------------------------------------------------- a whole block

  lemma UnpackedStep(o: seq<byte>, parts: seq<Part>)
    requires parts != [] && Reach(parts, |o|)
    ensures var p := parts[0];
            && Allowed(p) && 1 <= p.off <= |o + p.lit|
            && var o1 := CopyMatch(o + p.lit, p.off, p.len);
            Reach(parts[1..], |o1|) && Unpacked(o, parts) == Unpacked(o1, parts[1..])
  {
    hide CopyMatch;
  }

  lemma UnpackedGrows(o: seq<byte>, parts: seq<Part>, tail: seq<byte>)
    requires Reach(parts, |o|)
    ensures |o| + |Next(parts, tail)| <= |Unpacked(o, parts)| + |tail|
  {
    hide CopyMatch;
    if parts != [] {
      UnpackedStep(o, parts);
    }
  }

  lemma AfterStep(parts: seq<Part>, tail: seq<byte>, end: End, produced: nat)
    requires parts != [] && Reach(parts, produced) && Marks(end)
    ensures var p, rest := parts[0], parts[1..];
            && Allowed(p) && Reach(rest, produced + |p.lit| + p.len)
            && After(parts, tail, end, produced)
               == Token(p, LowLits(Next(rest, tail)))
                  + (LitBytes(Next(rest, tail)) + After(rest, tail, end, produced + |p.lit| + p.len))
  {
    hide Token, LitBytes, LowLits;
  }

  /** From a token on, a block is decoded to what it stands for. */
  lemma {:induction false} AfterReads(inp: seq<byte>, cap: nat, ip: nat, o: seq<byte>, parts: seq<Part>, tail: seq<byte>, end: End)
    requires Reach(parts, |o|) && Marks(end)
    requires Has(inp, ip, After(parts, tail, end, |o|)) && ip + |After(parts, tail, end, |o|)| == |inp|
    requires |Unpacked(o, parts)| + |tail| <= cap <= MAX_T
    ensures var lit := Next(parts, tail);
            && (lit == [] ==> 16 <= inp[ip])
            && Run(inp, cap, AtToken(inp, ip, o + lit, |lit|)) == State(|inp|, Unpacked(o, parts) + tail, Halt(OK))
    decreases |parts|
  {
    hide Has, Token, Marker, Marks, Run, AtToken, Gap, CopyMatch, LitBytes, LowLits, Allowed, After, Reach, Unpacked;
    if parts == [] {
      NothingLeft(o, tail, end);
      MarkerEnds(inp, cap, ip, o + tail, end, |tail|);
    } else {
      var p, rest := parts[0], parts[1..];
      var next := Next(rest, tail);
      var k := LowLits(next);
      AfterStep(parts, tail, end, |o|);
      UnpackedStep(o, parts);
      var o1 := CopyMatch(o + p.lit, p.off, p.len);
      UnpackedGrows(o1, rest, tail);
      assert |o1| == |o| + |p.lit| + p.len;
      HasConcat(inp, ip, Token(p, k), LitBytes(next) + After(rest, tail, end, |o1|));
      HasConcat(inp, ip + |Token(p, k)|, LitBytes(next), After(rest, tail, end, |o1|));
      var ip1 := ip + |Token(p, k)| + |LitBytes(next)|;
      AfterReads(inp, cap, ip1, o1, rest, tail, end);
      NoBytes();
      RunReads(inp, cap, ip + |Token(p, k)|, o1, next);
      TokenReads(inp, cap, ip, o + p.lit, p, k);
      AllowedIs(p);
    }
  }

  lemma NothingLeft(o: seq<byte>, tail: seq<byte>, end: End)
    requires Marks(end)
    ensures Reach([], |o|) && Unpacked(o, []) == o && After([], tail, end, |o|) == Marker(end) && Next([], tail) == tail
  {}

  lemma AllowedIs(p: Part)
    requires Allowed(p)
    ensures (p.form.Near? ==> p.lit != []) && 1 <= p.off && 2 <= p.len
  {}

  /** From a token on, what the decoder accepts is a block. */
  lemma {:induction false} AfterFound(inp: seq<byte>, cap: nat, ip: nat, o: seq<byte>, lit: seq<byte>)
    returns (parts: seq<Part>, tail: seq<byte>, end: End)
    requires ip + 3 <= |inp| && |o| + |lit| <= cap && (lit == [] ==> 16 <= inp[ip])
    requires Accepts(inp, cap, AtToken(inp, ip, o + lit, |lit|))
    ensures Reach(parts, |o|) && Marks(end) && Next(parts, tail) == lit
    ensures Has(inp, ip, After(parts, tail, end, |o|)) && ip + |After(parts, tail, end, |o|)| == |inp|
    ensures Run(inp, cap, AtToken(inp, ip, o + lit, |lit|)).out == Unpacked(o, parts) + tail
    decreases |inp| - ip
  {
    hide Has, Token, Marker, Marks, Run, CopyMatch, LitBytes, LowLits, Allowed, After, Reach, Unpacked;
    var p, k, e, ended := TokenFound(inp, cap, ip, o + lit, lit);
    if ended {
      parts, tail, end := [], lit, e;
      NothingLeft(o, lit, e);
    } else {
      AllowedIs(p);
      var ip1, o1 := ip + |Token(p, k)|, CopyMatch(o + p.lit, p.off, p.len);
      var next := RunBack(inp, cap, ip1, o1, k);
      NoBytes();
      var rest;
      rest, tail, end := AfterFound(inp, cap, ip1 + |LitBytes(next)|, o1, next);
      parts := [p] + rest;
      assert parts[1..] == rest;
      PartsStep(o, p, rest);
      AfterStep(parts, tail, end, |o|);
      HasJoin(inp, ip1, LitBytes(next), After(rest, tail, end, |o1|));
      HasJoin(inp, ip, Token(p, k), LitBytes(next) + After(rest, tail, end, |o1|));
      UnpackedStep(o, parts);
    }
  }

  lemma PartsStep(o: seq<byte>, p: Part, rest: seq<Part>)
    requires Allowed(p) && p.off <= |o| + |p.lit| && Reach(rest, |o| + |p.lit| + p.len)
    ensures Reach([p] + rest, |o|) && Next([p] + rest, []) == p.lit
  {
    assert ([p] + rest)[1..] == rest;
  }

  // ---------------------------------------------------------------- the start of a block

  lemma FirstReads(inp: seq<byte>, cap: nat, lit: seq<byte>, end: End, short: bool)
    requires Opens(lit, end, short) && Has(inp, 0, First(lit, short)) && |First(lit, short)| + 3 <= |inp|
    requires |lit| <= cap <= MAX_T && (lit == [] ==> 16 <= inp[0] <= 17)
    ensures Run(inp, cap, Start(inp, cap)) == Run(inp, cap, AtToken(inp, |First(lit, short)|, lit, |lit|))
  {
    hide Run, Has, Step;
    assert [] + lit == lit;
    if short {
      var t: byte := 17 + |lit|;
      HasAt(inp, 0, First(lit, short), 0);
      HasConcat(inp, 0, [t], lit);
      ShortFirst(inp, cap, lit);
      if |lit| < 4 {
        Goes(inp, cap, Start(inp, cap));
        ShortReads(inp, cap, 1, [], lit);
      }
    } else {
      RunReads(inp, cap, 0, [], lit);
      if lit != [] {
        HasConcat(inp, 0, LitHeader(|lit|), lit);
        HeaderIsLow(|lit|);
        HasAt(inp, 0, LitHeader(|lit|), 0);
      }
    }
  }

  lemma ShortFirst(inp: seq<byte>, cap: nat, lit: seq<byte>)
    requires 1 <= |lit| <= 238 && |lit| + 4 <= |inp| && inp[0] == 17 + |lit| && Has(inp, 1, lit) && |lit| <= cap
    ensures Start(inp, cap) == if |lit| < 4 then Gap(1, [], |lit|) else AtToken(inp, 1 + |lit|, lit, |lit|)
  {
    assert [] + lit == lit;
  }

  lemma HeaderIsLow(n: nat)
    requires 4 <= n
    ensures 0 < |LitHeader(n)| && LitHeader(n)[0] < 16
  {}

  lemma FirstFound(inp: seq<byte>, cap: nat) returns (lit: seq<byte>, short: bool)
    requires Accepts(inp, cap, Start(inp, cap))
    ensures |lit| <= cap && if short then 1 <= |lit| <= 238 else 4 <= |lit| || (lit == [] && 16 <= inp[0] <= 17)
    ensures Has(inp, 0, First(lit, short)) && |First(lit, short)| + 3 <= |inp|
    ensures lit == [] ==> First(lit, short) == []
    ensures Run(inp, cap, Start(inp, cap)) == Run(inp, cap, AtToken(inp, |First(lit, short)|, lit, |lit|))
  {
    hide Run, Has, Step, Accepts, LitBytes;
    var s := Start(inp, cap);
    StartGoes(inp, cap);
    short := inp[0] > 17;
    if short {
      var n := inp[0] - 17;
      if n < 4 {
        StepFits(inp, cap, s);
      }
      lit := inp[1..1 + n];
      HasSlice(inp, 1, n);
      HasFront(inp, 0, lit);
      ShortFirst(inp, cap, lit);
      if |lit| < 4 {
        Goes(inp, cap, s);
        ShortReads(inp, cap, 1, [], lit);
        assert [] + lit == lit;
      }
    } else {
      lit := RunBack(inp, cap, 0, [], 0);
      assert [] + lit == lit;
      if lit == [] {
        NoBytes();
      }
    }
  }

  lemma NoBytes()
    ensures LitBytes([]) == []
  {}

  lemma StartGoes(inp: seq<byte>, cap: nat)
    requires Accepts(inp, cap, Start(inp, cap))
    ensures 0 < |inp| && !Start(inp, cap).pc.Halt?
    ensures inp[0] >= 21 ==> inp[0] - 17 <= cap && 1 + inp[0] - 17 + 3 <= |inp|
  {}

  lemma StepFits(inp: seq<byte>, cap: nat, s: State)
    requires Ready(inp, cap, s) && s.pc.MatchNext? && Accepts(inp, cap, s)
    ensures |s.out| + s.pc.n <= cap && s.ip + s.pc.n + 3 <= |inp|
  {
    Goes(inp, cap, s);
  }

  /** Every block is decoded to what it stands for. */
  lemma BlockAccepted(inp: seq<byte>, cap: nat, x: seq<byte>)
    requires IsBlock(inp, x) && |x| <= cap <= MAX_T
    ensures Decode(inp, cap) == (OK, x)
  {
    hide Run, Has, Unpacked, After, First, Start, AtToken, LitBytes, Marker;
    var parts, tail, end, short :| Spells(inp, x, parts, tail, end, short);
    var lit := Next(parts, tail);
    var a, b := First(lit, short), After(parts, tail, end, 0);
    HasAll(inp);
    HasConcat(inp, 0, a, b);
    AfterReads(inp, cap, |a|, [], parts, tail, end);
    UnpackedGrows([], parts, tail);
    assert [] + lit == lit;
    if lit == [] {
      EmptyFirst(parts, tail, end, short);
    }
    FirstReads(inp, cap, lit, end, short);
  }

  /** With no literals first there is nothing to copy from, so the end marker comes at once. */
  lemma EmptyFirst(parts: seq<Part>, tail: seq<byte>, end: End, short: bool)
    requires Reach(parts, 0) && Marks(end) && Next(parts, tail) == [] && Opens([], end, short)
    ensures parts == [] && First([], short) == []
    ensures After(parts, tail, end, 0) == Marker(end) && 16 <= Marker(end)[0] <= 17
  {}

  /** Whatever the decoder accepts is a block, and the output what it stands for. */
  lemma AcceptedIsBlock(inp: seq<byte>, cap: nat)
    requires Decode(inp, cap).0 == OK
    ensures IsBlock(inp, Decode(inp, cap).1)
  {
    hide Run, Has, Unpacked, After, First, Start, Reach, Marks;
    var lit, short := FirstFound(inp, cap);
    assert [] + lit == lit;
    var parts, tail, end := AfterFound(inp, cap, |First(lit, short)|, [], lit);
    WholeFound(inp, lit, short, parts, tail, end);
    assert Spells(inp, Decode(inp, cap).1, parts, tail, end, short);
  }

  lemma WholeFound(inp: seq<byte>, lit: seq<byte>, short: bool, parts: seq<Part>, tail: seq<byte>, end: End)
    requires short ==> |lit| <= 238
    requires Reach(parts, 0) && Marks(end) && Next(parts, tail) == lit && Has(inp, 0, First(lit, short))
    requires Has(inp, |First(lit, short)|, After(parts, tail, end, 0))
    requires |First(lit, short)| + |After(parts, tail, end, 0)| == |inp| && (!short && lit == [] ==> 16 <= inp[0] <= 17)
    ensures inp == First(lit, short) + After(parts, tail, end, 0)
    ensures !short && lit == [] ==> end.len == 3 || 9 < end.len
  {
    hide Has, After, First, Reach, Marks;
    HasJoin(inp, 0, First(lit, short), After(parts, tail, end, 0));
    HasReads(inp, First(lit, short) + After(parts, tail, end, 0));
    if lit == [] && !short {
      EmptyFound(inp, parts, tail, end);
    }
  }

  lemma HasReads(inp: seq<byte>, s: seq<byte>)
    requires Has(inp, 0, s) && |s| == |inp|
    ensures inp == s
  {}

  lemma EmptyFound(inp: seq<byte>, parts: seq<Part>, tail: seq<byte>, end: End)
    requires Reach(parts, 0) && Marks(end) && Next(parts, tail) == []
    requires Has(inp, 0, First([], false) + After(parts, tail, end, 0)) && 16 <= inp[0] <= 17
    ensures end.len == 3 || 9 < end.len
  {
    assert First([], false) + After(parts, tail, end, 0) == Marker(end);
    HasAt(inp, 0, Marker(end), 0);
  }

  /** The safe decoder returns LZO_E_OK for exactly the blocks of the format, and with what they stand for. */
  lemma AcceptsExactly(inp: seq<byte>, cap: nat, x: seq<byte>)
    requires cap <= MAX_T
    ensures Decode(inp, cap) == (OK, x) <==> IsBlock(inp, x) && |x| <= cap
  {
    hide Decode, IsBlock;
    if Decode(inp, cap) == (OK, x) {
      AcceptedIsBlock(inp, cap);
    }
    if IsBlock(inp, x) && |x| <= cap {
      BlockAccepted(inp, cap, x);
    }
  }
}
